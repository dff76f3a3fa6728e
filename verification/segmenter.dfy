/** The sentence segmenter: `text.match(/[^.!?]+[.!?]+/g) || [text]`, each
    piece trimmed, empty pieces dropped. */
module Segmenter {
  import opened Text

  predicate IsTerminator(c: char) {
    c == '.' || c == '!' || c == '?'
  }

  /** No terminator is whitespace. */
  lemma TerminatorIsVisible(c: char)
    requires IsTerminator(c)
    ensures !IsWhitespace(c)
  {
  }

  /** `m` has the shape of one match of `/[^.!?]+[.!?]+/`: it starts with a
      non-terminator, ends with a terminator, and once a terminator occurs
      every later character is a terminator too. */
  predicate IsSentenceMatch(m: string) {
    && |m| >= 2 && !IsTerminator(m[0]) && IsTerminator(m[|m| - 1])
    && forall i, j :: 0 <= i < j < |m| && IsTerminator(m[i]) ==> IsTerminator(m[j])
  }

  /** Some non-terminator occurs before some terminator: the condition for
      the global match to find anything. */
  predicate HasMatch(s: string) {
    exists i, j :: 0 <= i < j < |s| && !IsTerminator(s[i]) && IsTerminator(s[j])
  }

  /** The successive matches of the global regular expression
      `/[^.!?]+[.!?]+/g`, scanned left to right. A terminator where a match
      would have to start is skipped; a non-terminator run that reaches the
      end of `s` matches nothing, so an unterminated tail is never part of a
      match. */
  function Matches(s: string): (ms: seq<string>)
    ensures forall k :: 0 <= k < |ms| ==> IsSentenceMatch(ms[k])
    decreases |s|
  {
    if |s| == 0 then []
    else if IsTerminator(s[0]) then Matches(s[1..])
    else
      var q := FirstIndex(s, IsTerminator);
      if q == |s| then []
      else
        var t := q + LeadingRun(s[q..], IsTerminator);
        MatchHead(s, q, t);
        [s[..t]] + Matches(s[t..])
  }

  /** `ms` tiles `s` between its leading terminators and a terminator-free
      tail: `s` is those terminators, then the matches one after another,
      then the tail. */
  predicate Tiles(s: string, ms: seq<string>) {
    var lead, c := LeadingRun(s, IsTerminator), Concat(ms);
    && lead + |c| <= |s|
    && s[lead..lead + |c|] == c
    && NoneSatisfy(s[lead + |c|..], IsTerminator)
  }

  /** Nothing of `s` is lost or reordered by the scan except its leading
      terminators and its unterminated tail. */
  lemma {:induction false} MatchesTile(s: string)
    ensures Tiles(s, Matches(s))
    decreases |s|
  {
    if |s| == 0 {
    } else if IsTerminator(s[0]) {
      MatchesTile(s[1..]);
      TileAfterTerminator(s, Matches(s[1..]));
    } else {
      var q := FirstIndex(s, IsTerminator);
      if q == |s| {
        assert s[..q] == s;
      } else {
        var t := q + LeadingRun(s[q..], IsTerminator);
        MatchHead(s, q, t);
        MatchesTile(s[t..]);
        TileAfterMatch(s, t, Matches(s[t..]));
      }
    }
  }

  lemma TileAfterTerminator(s: string, ms: seq<string>)
    requires |s| > 0 && IsTerminator(s[0]) && Tiles(s[1..], ms)
    ensures Tiles(s, ms)
  {
    var lead, c := LeadingRun(s[1..], IsTerminator), Concat(ms);
    assert LeadingRun(s, IsTerminator) == lead + 1;
    assert s[1..][lead..lead + |c|] == s[lead + 1..lead + 1 + |c|];
    assert s[1..][lead + |c|..] == s[lead + 1 + |c|..];
  }

  lemma TileAfterMatch(s: string, t: nat, ms: seq<string>)
    requires 0 < t <= |s| && !IsTerminator(s[0]) && (t < |s| ==> !IsTerminator(s[t]))
    requires Tiles(s[t..], ms)
    ensures Tiles(s, [s[..t]] + ms)
  {
    ConcatCons(s[..t], ms);
    assert t < |s| ==> s[t..][0] == s[t];
    assert LeadingRun(s[t..], IsTerminator) == 0;
    assert LeadingRun(s, IsTerminator) == 0;
    var c := Concat(ms);
    assert s[t..][0..|c|] == c;
    assert s[0..t + |c|] == s[..t] + s[t..][0..|c|];
    assert s[t..][|c|..] == s[t + |c|..];
  }

  /** The first match of `s`, for `s` starting with a non-terminator. */
  lemma {:induction false} MatchHead(s: string, q: nat, t: nat)
    requires |s| > 0 && !IsTerminator(s[0])
    requires q == FirstIndex(s, IsTerminator) && q < |s|
    requires t == q + LeadingRun(s[q..], IsTerminator)
    ensures q < t <= |s| && IsSentenceMatch(s[..t])
    ensures t < |s| ==> !IsTerminator(s[t])
  {
    forall i | 0 <= i < q
      ensures !IsTerminator(s[i])
    {
      assert s[..q][i] == s[i];
    }
    forall i | q <= i < t
      ensures IsTerminator(s[i])
    {
      assert s[q..][i - q] == s[i];
    }
    var m := s[..t];
    forall i, j | 0 <= i < j < |m| && IsTerminator(m[i])
      ensures IsTerminator(m[j])
    {
      assert m[i] == s[i] && m[j] == s[j];
      assert q <= i < j < t;
    }
    assert m[0] == s[0] && m[|m| - 1] == s[t - 1];
  }

  /** The global match finds something exactly when a non-terminator occurs
      before a terminator. */
  lemma {:induction false} MatchesNonEmptyIff(s: string)
    ensures |Matches(s)| > 0 <==> HasMatch(s)
    decreases |s|
  {
    if |s| == 0 {
    } else if IsTerminator(s[0]) {
      MatchesNonEmptyIff(s[1..]);
      if HasMatch(s) {
        var i, j :| 0 <= i < j < |s| && !IsTerminator(s[i]) && IsTerminator(s[j]);
        assert i > 0;
        assert s[1..][i - 1] == s[i] && s[1..][j - 1] == s[j];
      }
      if HasMatch(s[1..]) {
        var i, j :| 0 <= i < j < |s[1..]| && !IsTerminator(s[1..][i]) && IsTerminator(s[1..][j]);
        assert s[i + 1] == s[1..][i] && s[j + 1] == s[1..][j];
      }
    } else {
      var q := FirstIndex(s, IsTerminator);
      if q < |s| {
        assert IsTerminator(s[q]);
      } else {
        assert s[..q] == s;
      }
    }
  }

  /** Each piece trimmed: `pieces.map(s => s.trim())`. */
  function TrimAll(pieces: seq<string>): (r: seq<string>)
    ensures |r| == |pieces|
    ensures forall k :: 0 <= k < |r| ==> IsTrimOf(r[k], pieces[k])
  {
    seq(|pieces|, k requires 0 <= k < |pieces| => Trim(pieces[k]))
  }

  /** `splitIntoSentences`: the matches of the sentence pattern, or the whole
      text when there are none, each trimmed, empty results dropped. Every
      sentence is non-empty and neither starts nor ends with whitespace. */
  function SplitIntoSentences(text: string): (r: seq<string>)
    ensures forall k :: 0 <= k < |r| ==>
      |r[k]| > 0 && !IsWhitespace(r[k][0]) && !IsWhitespace(r[k][|r[k]| - 1])
  {
    var ms := Matches(text);
    var pieces := if |ms| > 0 then ms else [text];
    var r := Filter(TrimAll(pieces), NonEmpty);
    assert forall k :: 0 <= k < |r| ==> r[k] in TrimAll(pieces);
    r
  }

  lemma BlankHasNoTerminator(text: string)
    requires AllWhitespace(text)
    ensures !HasMatch(text)
  {
    forall j | 0 <= j < |text|
      ensures !IsTerminator(text[j])
    {
      assert IsWhitespace(text[j]);
    }
  }

  /** Blank text (including the empty string) yields no sentence: the
      whole-text fallback trims to the empty string and is dropped. */
  lemma BlankYieldsNothing(text: string)
    requires AllWhitespace(text)
    ensures SplitIntoSentences(text) == []
  {
    BlankHasNoTerminator(text);
    MatchesNonEmptyIff(text);
    TrimEmptyIffBlank(text);
    assert TrimAll([text]) == [Trim(text)];
  }

  /** Without any terminator after a non-terminator, a non-blank text is one
      sentence: the whole text, trimmed. */
  lemma NoMatchYieldsWholeText(text: string)
    requires !HasMatch(text) && !AllWhitespace(text)
    ensures SplitIntoSentences(text) == [Trim(text)]
  {
    MatchesNonEmptyIff(text);
    TrimEmptyIffBlank(text);
    assert TrimAll([text]) == [Trim(text)];
  }

  /** Non-blank text always yields at least one sentence. */
  lemma NonBlankYieldsSentence(text: string)
    requires !AllWhitespace(text)
    ensures |SplitIntoSentences(text)| > 0
  {
    if HasMatch(text) {
      MatchedSentences(text);
    } else {
      NoMatchYieldsWholeText(text);
    }
  }

  /** Once the pattern matches, the sentences are exactly the matches in
      order, trimmed; each ends with its terminators, which form its final
      run. Whatever follows the last terminator is therefore lost. */
  lemma MatchedSentences(text: string)
    requires HasMatch(text)
    ensures var ms := Matches(text);
      && SplitIntoSentences(text) == TrimAll(ms)
      && |SplitIntoSentences(text)| == |ms| > 0
    ensures forall k :: 0 <= k < |SplitIntoSentences(text)| ==>
      IsTerminated(SplitIntoSentences(text)[k])
  {
    var ms := Matches(text);
    MatchesNonEmptyIff(text);
    var ts := TrimAll(ms);
    forall k | 0 <= k < |ts|
      ensures |ts[k]| > 0 && IsTerminated(ts[k])
    {
      TrimOfMatch(ms[k], ts[k]);
    }
    FilterAllKept(ts, NonEmpty);
  }

  /** A sentence that ends with a terminator and has terminators only in its
      final run. */
  predicate IsTerminated(x: string) {
    && |x| > 0 && IsTerminator(x[|x| - 1])
    && forall i, j :: 0 <= i < j < |x| && IsTerminator(x[i]) ==> IsTerminator(x[j])
  }

  /** Trimming a match keeps its terminators. */
  lemma {:induction false} TrimOfMatch(m: string, r: string)
    requires IsSentenceMatch(m) && IsTrimOf(r, m)
    ensures |r| > 0 && IsTerminated(r)
  {
    var i, j :| TrimmedAt(r, m, i, j);
    TerminatorIsVisible(m[|m| - 1]);
    assert j == |m| && i < |m|;
    assert |r| == j - i;
    assert r[|r| - 1] == m[i + |r| - 1];
    forall a, b | 0 <= a < b < |r| && IsTerminator(r[a])
      ensures IsTerminator(r[b])
    {
      assert r[a] == m[i + a] && r[b] == m[i + b];
    }
  }

  /** An unterminated fragment after a terminated sentence is dropped. */
  lemma TrailingFragmentDropped()
    ensures SplitIntoSentences("Hi! ok") == ["Hi!"]
  {
    var s := "Hi! ok";
    ExampleMatches();
    assert HasMatch(s) by { assert !IsTerminator(s[0]) && IsTerminator(s[2]); }
    MatchedSentences(s);
    assert TrimAll(["Hi!"]) == [Trim("Hi!")];
    ExampleTrim();
  }

  lemma {:induction false} ExampleMatches()
    ensures Matches("Hi! ok") == ["Hi!"]
  {
    var s := "Hi! ok";
    FirstIndexAt(s, IsTerminator, 2);
    assert s[2..] == "! ok";
    LeadingRunAt(s[2..], IsTerminator, 1);
    assert s[3..] == " ok";
    assert NoneSatisfy(" ok"[..3], IsTerminator);
    assert FirstIndex(" ok", IsTerminator) == 3;
    assert Matches(" ok") == [];
    assert s[..3] == "Hi!";
  }

  lemma ExampleTrim()
    ensures Trim("Hi!") == "Hi!"
  {
    TrimVisibleEnds("Hi!");
  }
}
