/** Character classes and string primitives shared by the sentence segmenter,
    the provider adapters and the readability scorer. Each one follows the
    JavaScript built-in the application calls (`trim`, `split` with a
    run-matching regular expression, `join`, `replace`, `toLowerCase`). */
module Text {

  /** The ECMAScript WhiteSpace and LineTerminator code points: exactly the
      characters matched by `\s` and removed by `String.prototype.trim`. */
  const Whitespace: set<char> := {
    '\t', '\n', '\U{B}', '\U{C}', '\r', ' ', '\U{A0}', '\U{1680}',
    '\U{2000}', '\U{2001}', '\U{2002}', '\U{2003}', '\U{2004}', '\U{2005}',
    '\U{2006}', '\U{2007}', '\U{2008}', '\U{2009}', '\U{200A}',
    '\U{2028}', '\U{2029}', '\U{202F}', '\U{205F}', '\U{3000}', '\U{FEFF}'
  }

  predicate IsWhitespace(c: char) {
    c in Whitespace
  }

  predicate IsVisible(c: char) {
    !IsWhitespace(c)
  }

  predicate AllWhitespace(s: string) {
    forall i :: 0 <= i < |s| ==> IsWhitespace(s[i])
  }

  /** No character of `s` satisfies `p`. */
  predicate NoneSatisfy(s: string, p: char -> bool) {
    forall i :: 0 <= i < |s| ==> !p(s[i])
  }

  // ---------------------------------------------------------------------------
  // trim

  /** The end of `s` once its trailing whitespace is cut off: everything
      from there on is whitespace, and the character before it is not. */
  function VisibleEnd(s: string): (j: nat)
    ensures j <= |s|
    ensures forall k :: j <= k < |s| ==> IsWhitespace(s[k])
    ensures j > 0 ==> !IsWhitespace(s[j - 1])
    decreases |s|
  {
    if |s| == 0 || !IsWhitespace(s[|s| - 1]) then |s| else VisibleEnd(s[..|s| - 1])
  }

  /** `r` is the slice `s[i..j]`, everything before `i` and from `j` on is
      whitespace, and neither end of `r` is whitespace. */
  ghost predicate TrimmedAt(r: string, s: string, i: int, j: int) {
    && 0 <= i <= j <= |s| && r == s[i..j]
    && (forall k :: 0 <= k < i ==> IsWhitespace(s[k]))
    && (forall k :: j <= k < |s| ==> IsWhitespace(s[k]))
    && (|r| > 0 ==> !IsWhitespace(r[0]) && !IsWhitespace(r[|r| - 1]))
  }

  /** `r` is `s` with whitespace cut off both ends, down to visible ends. */
  ghost predicate IsTrimOf(r: string, s: string) {
    exists i, j :: TrimmedAt(r, s, i, j)
  }

  /** `s.trim()`: the slice from the first visible character to the last
      one, or the empty string when there is none. */
  function Trim(s: string): (r: string)
    ensures IsTrimOf(r, s)
  {
    var i := LeadingRun(s, IsWhitespace);
    var j := VisibleEnd(s);
    if j <= i then
      assert TrimmedAt([], s, i, i);
      []
    else
      assert TrimmedAt(s[i..j], s, i, j);
      s[i..j]
  }

  /** A trim is empty exactly when the string it was cut from is blank. */
  lemma {:induction false} TrimOfBlank(r: string, s: string)
    requires IsTrimOf(r, s)
    ensures |r| == 0 <==> AllWhitespace(s)
  {
    var i, j :| TrimmedAt(r, s, i, j);
    if |r| > 0 {
      assert s[i] == r[0];
    }
  }

  /** The trim specification determines its result: there is only one way to
      cut whitespace off both ends of a string so that neither end is
      whitespace. */
  lemma {:induction false} TrimUnique(r1: string, r2: string, s: string)
    requires IsTrimOf(r1, s) && IsTrimOf(r2, s)
    ensures r1 == r2
  {
    TrimOfBlank(r1, s);
    TrimOfBlank(r2, s);
    if !AllWhitespace(s) {
      var i1, j1 :| TrimmedAt(r1, s, i1, j1);
      var i2, j2 :| TrimmedAt(r2, s, i2, j2);
      TrimmedAtBounds(r1, s, i1, j1);
      TrimmedAtBounds(r2, s, i2, j2);
    }
  }

  /** A non-empty trim starts at the first visible character and ends after
      the last one. */
  lemma {:induction false} TrimmedAtBounds(r: string, s: string, i: int, j: int)
    requires TrimmedAt(r, s, i, j) && |r| > 0
    ensures i == LeadingRun(s, IsWhitespace) && j == VisibleEnd(s)
  {
    assert s[i] == r[0];
    assert s[j - 1] == r[|r| - 1];
  }

  /** Trimming yields the empty string exactly for blank input. */
  lemma TrimEmptyIffBlank(s: string)
    ensures Trim(s) == [] <==> AllWhitespace(s)
  {
    TrimOfBlank(Trim(s), s);
  }

  /** A string with visible characters at both ends is its own trim. */
  lemma {:induction false} TrimVisibleEnds(s: string)
    requires |s| > 0 && IsVisible(s[0]) && IsVisible(s[|s| - 1])
    ensures Trim(s) == s
  {
    assert s[0..|s|] == s;
    assert TrimmedAt(s, s, 0, |s|);
    TrimUnique(Trim(s), s, s);
  }

  /** A string whose last character is visible keeps that character as the
      last character of its trim. */
  lemma {:induction false} TrimKeepsVisibleEnd(s: string)
    requires |s| > 0 && !IsWhitespace(s[|s| - 1])
    ensures |Trim(s)| > 0 && Trim(s)[|Trim(s)| - 1] == s[|s| - 1]
  {
    var r := Trim(s);
    var i, j :| TrimmedAt(r, s, i, j);
    assert j == |s| && i < j;
  }

  // ---------------------------------------------------------------------------
  // runs and split

  /** The number of maximal runs of `p`-characters in `s`, each run counted at
      the character that ends it. */
  function Runs(s: string, p: char -> bool): (n: nat)
    ensures n <= |s|
  {
    if |s| == 0 then 0
    else (if p(s[0]) && (|s| == 1 || !p(s[1])) then 1 else 0) + Runs(s[1..], p)
  }

  /** Index of the first `p`-character of `s`, or `|s|` when there is none. */
  function FirstIndex(s: string, p: char -> bool): (k: nat)
    ensures k <= |s|
    ensures NoneSatisfy(s[..k], p)
    ensures k < |s| ==> p(s[k])
  {
    if |s| == 0 || p(s[0]) then 0 else 1 + FirstIndex(s[1..], p)
  }

  /** Length of the run of `p`-characters at the start of `s`. */
  function LeadingRun(s: string, p: char -> bool): (n: nat)
    ensures n <= |s|
    ensures forall i :: 0 <= i < n ==> p(s[i])
    ensures n < |s| ==> !p(s[n])
  {
    if |s| == 0 || !p(s[0]) then 0 else 1 + LeadingRun(s[1..], p)
  }

  /** `s.split(re)` for a regular expression `re` that matches one or more
      characters satisfying `p` (`/\s+/`, `/[.!?]+/`): the pieces between the
      maximal `p`-runs, with an empty first piece when `s` starts with a run,
      an empty last piece when it ends with one, and `[""]` for `""`. */
  function Split(s: string, p: char -> bool): (pieces: seq<string>)
    ensures |pieces| > 0
    ensures forall k :: 0 <= k < |pieces| ==> NoneSatisfy(pieces[k], p)
    decreases |s|
  {
    var k := FirstIndex(s, p);
    if k == |s| then [s]
    else [s[..k]] + Split(s[k + LeadingRun(s[k..], p)..], p)
  }

  /** Appending a character adds a run exactly when the character starts
      one. */
  lemma {:induction false} RunsSnoc(s: string, c: char, p: char -> bool)
    ensures Runs(s + [c], p) == Runs(s, p) + (if p(c) && (|s| == 0 || !p(s[|s| - 1])) then 1 else 0)
    decreases |s|
  {
    if |s| > 0 {
      RunsSnoc(s[1..], c, p);
      assert (s + [c])[1..] == s[1..] + [c];
      assert (s + [c])[1] == if |s| == 1 then c else s[1];
    }
  }

  /** Runs contributes nothing over a prefix free of `p`-characters. */
  lemma {:induction false} RunsSkipFree(s: string, k: nat, p: char -> bool)
    requires k <= |s| && NoneSatisfy(s[..k], p)
    ensures Runs(s, p) == Runs(s[k..], p)
    decreases k
  {
    if k > 0 {
      assert s[..k][0] == s[0];
      assert s[1..][..k - 1] == s[1..k];
      assert forall i :: 0 <= i < k - 1 ==> s[1..k][i] == s[..k][i + 1];
      RunsSkipFree(s[1..], k - 1, p);
      assert s[1..][k - 1..] == s[k..];
    }
  }

  /** A maximal non-empty run at the start of `s` counts once. */
  lemma {:induction false} RunsSkipRun(s: string, n: nat, p: char -> bool)
    requires 0 < n <= |s|
    requires forall i :: 0 <= i < n ==> p(s[i])
    requires n < |s| ==> !p(s[n])
    ensures Runs(s, p) == 1 + Runs(s[n..], p)
    decreases n
  {
    if n > 1 {
      RunsSkipRun(s[1..], n - 1, p);
      assert s[1..][n - 1..] == s[n..];
    }
  }

  /** In `x + b + y`, where `x` is made of `q`-characters and the non-empty
      `b` of none, `x` is one run when it is not empty and `b` ends it. */
  lemma {:induction false} RunsAfterSeparator(x: string, b: string, y: string, q: char -> bool)
    requires forall i :: 0 <= i < |x| ==> q(x[i])
    requires |b| > 0 && NoneSatisfy(b, q)
    ensures Runs(x + b + y, q) == (if |x| > 0 then 1 else 0) + Runs(y, q)
  {
    var s := x + b + y;
    assert (b + y)[..|b|] == b;
    RunsSkipFree(b + y, |b|, q);
    assert (b + y)[|b|..] == y;
    if |x| > 0 {
      assert forall i :: 0 <= i < |x| ==> s[i] == x[i];
      assert s[|x|] == b[0];
      RunsSkipRun(s, |x|, q);
      assert s[|x|..] == b + y;
    } else {
      assert s == b + y;
    }
  }

  /** `split` yields one more piece than there are separator runs. */
  lemma {:induction false} SplitCount(s: string, p: char -> bool)
    ensures |Split(s, p)| == Runs(s, p) + 1
    decreases |s|
  {
    var k := FirstIndex(s, p);
    RunsSkipFree(s, k, p);
    if k < |s| {
      var n := LeadingRun(s[k..], p);
      SplitStep(s, p, k, n);
      RunsSkipRun(s[k..], n, p);
      assert s[k..][n..] == s[k + n..];
      SplitCount(s[k + n..], p);
    } else {
      assert Runs(s[k..], p) == 0;
      assert Split(s, p) == [s];
    }
  }

  /** In a string ending with a visible character, the visible runs are the
      whitespace runs, plus one more when it also starts with a visible
      character. */
  lemma {:induction false} VisibleRuns(s: string)
    requires |s| > 0 && IsVisible(s[|s| - 1])
    ensures Runs(s, IsVisible) == Runs(s, IsWhitespace) + (if IsVisible(s[0]) then 1 else 0)
    decreases |s|
  {
    if |s| > 1 {
      assert s[1..][|s| - 2] == s[|s| - 1];
      VisibleRuns(s[1..]);
      assert s[1..][0] == s[1];
    }
  }

  /** A prefix one element longer. */
  lemma PrefixSnoc<T>(xs: seq<T>, i: nat)
    requires i < |xs|
    ensures xs[..i + 1] == xs[..i] + [xs[i]]
  {
  }

  /** A concatenation has no `q`-character exactly when none of its parts
      has one. */
  lemma {:induction false} ConcatNoneIff(xs: seq<string>, q: char -> bool)
    ensures NoneSatisfy(Concat(xs), q) <==> forall k :: 0 <= k < |xs| ==> NoneSatisfy(xs[k], q)
    decreases |xs|
  {
    if |xs| > 0 {
      ConcatNoneIff(xs[1..], q);
      var a, b := xs[0], Concat(xs[1..]);
      assert forall i :: 0 <= i < |a| ==> (a + b)[i] == a[i];
      assert forall i :: 0 <= i < |b| ==> (a + b)[|a| + i] == b[i];
      assert forall k :: 0 < k < |xs| ==> xs[k] == xs[1..][k - 1];
    }
  }

  /** Concatenation of a sequence of strings. */
  function Concat(xs: seq<string>): (r: string)
    ensures |xs| == 0 ==> r == []
  {
    if |xs| == 0 then [] else xs[0] + Concat(xs[1..])
  }

  /** The number of `p`-characters in `s`. */
  function Occurrences(s: string, p: char -> bool): (n: nat)
    ensures n <= |s|
    ensures n == 0 <==> NoneSatisfy(s, p)
  {
    if |s| == 0 then 0 else (if p(s[0]) then 1 else 0) + Occurrences(s[1..], p)
  }

  /** `s` with every `p`-character removed: `s.replace(/[p]/g, '')`. The
      other characters are kept, in order (`RemoveSingle`, `RemoveAppend`),
      so the result is as much shorter as `s` has `p`-characters. */
  function Remove(s: string, p: char -> bool): (r: string)
    ensures |r| + Occurrences(s, p) == |s|
    ensures forall c :: c in r <==> c in s && !p(c)
    ensures NoneSatisfy(r, p)
    ensures |r| == 0 <==> forall i :: 0 <= i < |s| ==> p(s[i])
  {
    if |s| == 0 then []
    else if p(s[0]) then Remove(s[1..], p)
    else [s[0]] + Remove(s[1..], p)
  }

  lemma {:induction false} RemoveAppend(a: string, b: string, p: char -> bool)
    ensures Remove(a + b, p) == Remove(a, p) + Remove(b, p)
    decreases |a|
  {
    if |a| > 0 {
      assert (a + b)[1..] == a[1..] + b;
      RemoveAppend(a[1..], b, p);
    } else {
      assert a + b == b;
    }
  }

  /** Removal never brings in a character: what `s` lacks, the result
      lacks too. */
  lemma {:induction false} RemoveKeepsNone(s: string, p: char -> bool, q: char -> bool)
    requires NoneSatisfy(s, q)
    ensures NoneSatisfy(Remove(s, p), q)
    decreases |s|
  {
    if |s| > 0 {
      assert NoneSatisfy(s[1..], q) by {
        assert forall i :: 0 <= i < |s| - 1 ==> s[1..][i] == s[i + 1];
      }
      RemoveKeepsNone(s[1..], p, q);
    }
  }

  /** A character of `s` that is not a `p`-character survives removal. */
  lemma RemoveKeepsOthers(s: string, p: char -> bool, q: char -> bool)
    requires forall c :: q(c) ==> !p(c)
    ensures NoneSatisfy(Remove(s, p), q) <==> NoneSatisfy(s, q)
  {
    var r := Remove(s, p);
    if !NoneSatisfy(s, q) {
      var i :| 0 <= i < |s| && q(s[i]);
      assert s[i] in s;
      var j :| 0 <= j < |r| && r[j] == s[i];
    } else {
      RemoveKeepsNone(s, p, q);
    }
  }

  /** A single character is dropped when it is a `p`-character, and kept
      otherwise. */
  lemma RemoveSingle(c: char, p: char -> bool)
    ensures Remove([c], p) == if p(c) then [] else [c]
  {
    assert [c][1..] == [];
  }

  /** Removal from a string with no `p`-character in it leaves it as is. */
  lemma RemoveFree(s: string, p: char -> bool)
    requires NoneSatisfy(s, p)
    ensures Remove(s, p) == s
  {
    if |s| > 0 {
      RemoveFree(s[1..], p);
    }
  }

  lemma RemoveAll(s: string, p: char -> bool)
    requires forall i :: 0 <= i < |s| ==> p(s[i])
    ensures Remove(s, p) == []
  {
  }

  /** One step of `Split`: the piece before the first separator run, then
      the split of what follows that run. */
  lemma {:induction false} SplitStep(s: string, p: char -> bool, k: nat, n: nat)
    requires k == FirstIndex(s, p) && k < |s| && n == LeadingRun(s[k..], p)
    ensures 0 < n && k + n <= |s|
    ensures Split(s, p) == [s[..k]] + Split(s[k + n..], p)
  {
    assert s[k..][0] == s[k];
  }

  /** The same step, for a first run located by its description. */
  lemma {:induction false} SplitAt(s: string, p: char -> bool, k: nat, n: nat)
    requires 0 < n && k + n <= |s|
    requires NoneSatisfy(s[..k], p)
    requires forall i :: k <= i < k + n ==> p(s[i])
    requires k + n < |s| ==> !p(s[k + n])
    ensures Split(s, p) == [s[..k]] + Split(s[k + n..], p)
  {
    FirstIndexAt(s, p, k);
    LeadingRunAt(s[k..], p, n);
    SplitStep(s, p, k, n);
  }

  lemma {:induction false} FirstIndexAt(s: string, p: char -> bool, k: nat)
    requires k < |s| && NoneSatisfy(s[..k], p) && p(s[k])
    ensures FirstIndex(s, p) == k
    decreases k
  {
    if k > 0 {
      assert s[..k][0] == s[0];
      assert s[1..][..k - 1] == s[1..k];
      assert forall i :: 0 <= i < k - 1 ==> s[1..k][i] == s[..k][i + 1];
      FirstIndexAt(s[1..], p, k - 1);
    }
  }

  lemma {:induction false} LeadingRunAt(s: string, p: char -> bool, n: nat)
    requires n <= |s| && (forall i :: 0 <= i < n ==> p(s[i])) && (n < |s| ==> !p(s[n]))
    ensures LeadingRun(s, p) == n
    decreases n
  {
    if n > 0 {
      LeadingRunAt(s[1..], p, n - 1);
    }
  }

  lemma ConcatCons(x: string, xs: seq<string>)
    ensures Concat([x] + xs) == x + Concat(xs)
  {
    assert ([x] + xs)[1..] == xs;
  }

  lemma Slices3(s: string, k: nat, n: nat)
    requires k + n <= |s|
    ensures s == s[..k] + s[k..k + n] + s[k + n..]
  {
  }

  /** Split loses exactly the separator characters: gluing the pieces back
      together gives `s` with its `p`-characters removed. */
  lemma {:induction false} SplitConcat(s: string, p: char -> bool)
    ensures Concat(Split(s, p)) == Remove(s, p)
    decreases |s|
  {
    var k := FirstIndex(s, p);
    if k == |s| {
      assert s[..k] == s;
      SplitFree(s, p);
      RemoveFree(s, p);
      ConcatCons(s, []);
      assert s + [] == s;
    } else {
      var n := LeadingRun(s[k..], p);
      SplitStep(s, p, k, n);
      ConcatCons(s[..k], Split(s[k + n..], p));
      SplitConcat(s[k + n..], p);
      RemoveAround(s, p, k, n);
    }
  }

  /** Removal keeps the separator-free prefix before the first separator run
      and drops that run. */
  lemma {:induction false} RemoveAround(s: string, p: char -> bool, k: nat, n: nat)
    requires k == FirstIndex(s, p) && k < |s| && n == LeadingRun(s[k..], p)
    ensures k + n <= |s|
    ensures Remove(s, p) == s[..k] + Remove(s[k + n..], p)
  {
    var a, b, rest := s[..k], s[k..k + n], s[k + n..];
    assert forall i :: 0 <= i < n ==> b[i] == s[k..][i];
    RemoveFree(a, p);
    RemoveAll(b, p);
    RemoveAppend(a, b, p);
    RemoveAppend(a + b, rest, p);
    Slices3(s, k, n);
    assert a + [] == a;
  }

  // ---------------------------------------------------------------------------
  // filter, count, join

  /** `xs.filter(keep)` */
  function Filter(xs: seq<string>, keep: string -> bool): (r: seq<string>)
    ensures |r| <= |xs|
    ensures forall k :: 0 <= k < |r| ==> keep(r[k])
    ensures forall x :: x in xs && keep(x) ==> x in r
    ensures forall x :: x in r ==> x in xs
  {
    if |xs| == 0 then []
    else if keep(xs[0]) then [xs[0]] + Filter(xs[1..], keep)
    else Filter(xs[1..], keep)
  }

  lemma {:induction false} FilterAppend(xs: seq<string>, ys: seq<string>, keep: string -> bool)
    ensures Filter(xs + ys, keep) == Filter(xs, keep) + Filter(ys, keep)
    decreases |xs|
  {
    if |xs| == 0 {
      assert xs + ys == ys;
    } else {
      assert (xs + ys)[0] == xs[0];
      assert (xs + ys)[1..] == xs[1..] + ys;
      FilterAppend(xs[1..], ys, keep);
    }
  }

  /** A single element is kept when it passes, and dropped otherwise. */
  lemma FilterSingle(x: string, keep: string -> bool)
    ensures Filter([x], keep) == if keep(x) then [x] else []
  {
    assert [x][1..] == [];
  }

  /** Filtering keeps a sequence whose every element passes. */
  lemma FilterAllKept(xs: seq<string>, keep: string -> bool)
    requires forall k :: 0 <= k < |xs| ==> keep(xs[k])
    ensures Filter(xs, keep) == xs
  {
    if |xs| > 0 {
      FilterAllKept(xs[1..], keep);
    }
  }

  /** The runs of non-separators `q` in `s`, seen from the first separator
      run `s[k..k + n]`: one run before it when `k > 0`, then those after it. */
  lemma {:induction false} RunsAroundSeparator(s: string, p: char -> bool, q: char -> bool, k: nat, n: nat)
    requires forall c :: q(c) == !p(c)
    requires k == FirstIndex(s, p) && k < |s| && n == LeadingRun(s[k..], p)
    ensures k + n <= |s|
    ensures Runs(s, q) == (if k > 0 then 1 else 0) + Runs(s[k + n..], q)
  {
    assert forall i :: 0 <= i < n ==> !q(s[k..][i]);
    assert forall i :: 0 <= i < n ==> s[k..][..n][i] == s[k..][i];
    RunsSkipFree(s[k..], n, q);
    assert s[k..][n..] == s[k + n..];
    if k > 0 {
      assert forall i :: 0 <= i < k ==> s[..k][i] == s[i];
      RunsSkipRun(s, k, q);
    } else {
      assert s[k..] == s;
    }
  }

  /** Every non-empty piece of a split is a maximal run of the characters
      that are not separators, so their number is the number of such runs. */
  lemma {:induction false} SplitNonEmptyCount(s: string, p: char -> bool, q: char -> bool)
    requires forall c :: q(c) == !p(c)
    ensures |Filter(Split(s, p), NonEmpty)| == Runs(s, q)
    decreases |s|
  {
    var k := FirstIndex(s, p);
    if k == |s| {
      NonEmptyWhole(s, p, q);
    } else {
      var n := LeadingRun(s[k..], p);
      NonEmptyStep(s, p, k, n);
      SplitNonEmptyCount(s[k + n..], p, q);
      RunsAroundSeparator(s, p, q, k, n);
    }
  }

  /** A string without separators is one piece, counted when not empty. */
  lemma {:induction false} NonEmptyWhole(s: string, p: char -> bool, q: char -> bool)
    requires forall c :: q(c) == !p(c)
    requires FirstIndex(s, p) == |s|
    ensures |Filter(Split(s, p), NonEmpty)| == Runs(s, q)
  {
    assert s[..|s|] == s;
    SplitFree(s, p);
    FilterSingle(s, NonEmpty);
    if |s| > 0 {
      RunsSkipRun(s, |s|, q);
      assert Runs(s[|s|..], q) == 0;
    }
  }

  /** One step of the split: the first piece counts when it is not empty. */
  lemma {:induction false} NonEmptyStep(s: string, p: char -> bool, k: nat, n: nat)
    requires k == FirstIndex(s, p) && k < |s| && n == LeadingRun(s[k..], p)
    ensures k + n <= |s|
    ensures |Filter(Split(s, p), NonEmpty)| == (if k > 0 then 1 else 0) + |Filter(Split(s[k + n..], p), NonEmpty)|
  {
    SplitStep(s, p, k, n);
    FilterAppend([s[..k]], Split(s[k + n..], p), NonEmpty);
    FilterSingle(s[..k], NonEmpty);
  }

  predicate NonEmpty(s: string) { |s| > 0 }

  /** `xs.join(sep)`: the elements in order, with one separator between
      each two neighbours. */
  function Join(xs: seq<string>, sep: string): (r: string)
    ensures |xs| == 0 ==> r == ""
    ensures |xs| > 0 ==> xs[0] <= r
  {
    if |xs| == 0 then ""
    else if |xs| == 1 then xs[0]
    else xs[0] + sep + Join(xs[1..], sep)
  }

  /** The joined string holds every element and one separator between each
      two neighbours, and nothing else. */
  lemma {:induction false} JoinLength(xs: seq<string>, sep: string)
    requires |xs| > 0
    ensures |Join(xs, sep)| + |sep| == |Concat(xs)| + |xs| * |sep|
    decreases |xs|
  {
    if |xs| > 1 {
      JoinLength(xs[1..], sep);
      assert |xs| * |sep| == |sep| + (|xs| - 1) * |sep|;
    }
  }

  /** Joining one more element appends the separator and the element. */
  lemma {:induction false} JoinSnoc(xs: seq<string>, x: string, sep: string)
    ensures Join(xs + [x], sep) == if |xs| == 0 then x else Join(xs, sep) + sep + x
    decreases |xs|
  {
    if |xs| == 0 {
      assert xs + [x] == [x];
    } else if |xs| == 1 {
      assert (xs + [x])[1..] == [x];
    } else {
      assert (xs + [x])[1..] == xs[1..] + [x];
      JoinSnoc(xs[1..], x, sep);
      assert Join(xs + [x], sep) == xs[0] + sep + (Join(xs[1..], sep) + sep + x);
    }
  }

  /** Joining with " " and splitting on whitespace runs are inverse when
      every element is non-empty and free of whitespace. */
  lemma {:induction false} SplitJoin(xs: seq<string>)
    requires |xs| > 0
    requires forall k :: 0 <= k < |xs| ==> |xs[k]| > 0 && NoneSatisfy(xs[k], IsWhitespace)
    ensures Split(Join(xs, " "), IsWhitespace) == xs
    decreases |xs|
  {
    var s := Join(xs, " ");
    var x := xs[0];
    if |xs| == 1 {
      SplitFree(x, IsWhitespace);
    } else {
      var rest := Join(xs[1..], " ");
      SplitJoin(xs[1..]);
      JoinHead(xs[1..]);
      assert s == x + " " + rest;
      assert s[..|x|] == x;
      assert s[|x| + 1..] == rest;
      assert IsWhitespace(s[|x|]);
      assert !IsWhitespace(s[|x| + 1]) by { assert xs[1..][0] == xs[1]; }
      SplitAt(s, IsWhitespace, |x|, 1);
      assert xs == [x] + xs[1..];
    }
  }

  lemma JoinHead(xs: seq<string>)
    requires |xs| > 0 && |xs[0]| > 0
    ensures |Join(xs, " ")| > 0 && Join(xs, " ")[0] == xs[0][0]
  {
  }

  lemma SplitFree(s: string, p: char -> bool)
    requires NoneSatisfy(s, p)
    ensures Split(s, p) == [s]
  {
    FirstIndexAfterFree(s, [], p);
    assert s + [] == s;
  }

  /** The first separator of `a + b` is that of `b` when `a` has none. */
  lemma {:induction false} FirstIndexAfterFree(a: string, b: string, p: char -> bool)
    requires NoneSatisfy(a, p)
    ensures FirstIndex(a + b, p) == |a| + FirstIndex(b, p)
    decreases |a|
  {
    if |a| > 0 {
      assert (a + b)[0] == a[0];
      assert (a + b)[1..] == a[1..] + b;
      FirstIndexAfterFree(a[1..], b, p);
    } else {
      assert a + b == b;
    }
  }

  // ---------------------------------------------------------------------------
  // case

  /** ASCII `toLowerCase`: `A`..`Z` become `a`..`z`, nothing else changes. */
  function LowerAscii(c: char): (r: char)
    ensures 'A' <= c <= 'Z' ==> 'a' <= r <= 'z' && r as int - c as int == 32
    ensures !('A' <= c <= 'Z') ==> r == c
  {
    if 'A' <= c <= 'Z' then (c as int + 32) as char else c
  }

  function ToLower(s: string): (r: string)
    ensures |r| == |s|
    ensures forall i :: 0 <= i < |s| ==> r[i] == LowerAscii(s[i])
  {
    seq(|s|, i requires 0 <= i < |s| => LowerAscii(s[i]))
  }

  /** Lower-casing never turns whitespace into something else, or the other
      way round. */
  lemma LowerKeepsWhitespace(c: char)
    ensures IsWhitespace(LowerAscii(c)) <==> IsWhitespace(c)
  {
    if 'A' <= c <= 'Z' {
      assert c !in Whitespace && LowerAscii(c) !in Whitespace;
    }
  }
}
