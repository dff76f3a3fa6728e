/** `calculateReadability` and `countSyllables`: word, character, sentence
    and syllable counts of a text, the Flesch Reading Ease score computed
    from them (Flesch 1948: 206.835 - 1.015 W/S - 84.6 Y/W), rounded,
    clamped to [0, 100], and its label. */
module Readability {
  import opened Text
  import Segmenter

  datatype Label = VeryHard | Hard | Moderate | Easy | VeryEasy

  /** The label's display name; no two labels share one. */
  function LabelName(l: Label): (name: string)
    ensures name == "Very Hard" <==> l == VeryHard
    ensures name == "Hard" <==> l == Hard
    ensures name == "Moderate" <==> l == Moderate
    ensures name == "Easy" <==> l == Easy
    ensures name == "Very Easy" <==> l == VeryEasy
  {
    match l
    case VeryHard => "Very Hard"
    case Hard => "Hard"
    case Moderate => "Moderate"
    case Easy => "Easy"
    case VeryEasy => "Very Easy"
  }

  /** Position of a label on the scale from hardest to easiest. */
  function Rank(l: Label): nat
  {
    match l
    case VeryHard => 0
    case Hard => 1
    case Moderate => 2
    case Easy => 3
    case VeryEasy => 4
  }

  /** The `ReadabilityMetrics` record. */
  datatype Metrics = Metrics(words: nat, characters: nat, readability: int, readabilityLabel: string)

  // ---------------------------------------------------------------------------
  // counts

  /** `text.split(/\s+/).filter(word => word.length > 0).length`: the number
      of maximal runs of visible characters. */
  function WordCount(text: string): (n: nat)
    ensures n == Runs(text, IsVisible)
  {
    SplitNonEmptyCount(text, IsWhitespace, IsVisible);
    |Filter(Split(text, IsWhitespace), NonEmpty)|
  }

  /** `text.replace(/\s/g, '').length`: the characters that are not
      whitespace. */
  function CharacterCount(text: string): (n: nat)
    ensures n + Occurrences(text, IsWhitespace) == |text|
    ensures n == |text| <==> NoneSatisfy(text, IsWhitespace)
    ensures n == 0 <==> AllWhitespace(text)
  {
    |Remove(text, IsWhitespace)|
  }

  /** `s.trim().length > 0` */
  predicate NotBlank(s: string) {
    |Trim(s)| > 0
  }

  /** Whitespace or a sentence terminator: what a text with no sentence is
      made of. */
  predicate IsFiller(c: char) {
    IsWhitespace(c) || Segmenter.IsTerminator(c)
  }

  /** `text.split(/[.!?]+/).filter(s => s.trim().length > 0).length`: the
      pieces between terminator runs that are not blank. */
  function SentenceCount(text: string): (n: nat)
    ensures n <= Runs(text, Segmenter.IsTerminator) + 1
  {
    SplitCount(text, Segmenter.IsTerminator);
    |Filter(Split(text, Segmenter.IsTerminator), NotBlank)|
  }

  /** A character that can belong to a sentence's body. */
  predicate NotTerminator(c: char) {
    !Segmenter.IsTerminator(c)
  }

  /** The sentence count, stated without `split`: with the whitespace taken
      out, every maximal run of characters other than terminators is one
      sentence. A piece that held only whitespace disappears, so it is not
      counted. */
  lemma {:induction false} SentenceCountIsRuns(text: string)
    ensures SentenceCount(text) == Runs(Remove(text, IsWhitespace), NotTerminator)
    decreases |text|
  {
    var k := FirstIndex(text, Segmenter.IsTerminator);
    if k == |text| {
      assert text[..k] == text;
      PieceCount(text);
    } else {
      var n := LeadingRun(text[k..], Segmenter.IsTerminator);
      SentenceCountStep(text, k, n);
      SentenceCountIsRuns(text[k + n..]);
      SeparatedRuns(text, k, n);
    }
  }

  /** A piece is one sentence exactly when it is not blank, that is, when
      taking its whitespace out leaves something. */
  lemma {:induction false} PieceCount(a: string)
    requires NoneSatisfy(a, Segmenter.IsTerminator)
    ensures SentenceCount(a) == (if |Remove(a, IsWhitespace)| > 0 then 1 else 0)
    ensures SentenceCount(a) == Runs(Remove(a, IsWhitespace), NotTerminator)
  {
    SplitFree(a, Segmenter.IsTerminator);
    FilterSingle(a, NotBlank);
    TrimEmptyIffBlank(a);
    PieceRuns(a);
  }

  /** Without its whitespace, a terminator-free piece is one run of
      non-terminators, or nothing. */
  lemma {:induction false} PieceRuns(a: string)
    requires NoneSatisfy(a, Segmenter.IsTerminator)
    ensures Runs(Remove(a, IsWhitespace), NotTerminator) == (if |Remove(a, IsWhitespace)| > 0 then 1 else 0)
  {
    var ra := Remove(a, IsWhitespace);
    if |ra| > 0 {
      RemoveKeepsNone(a, IsWhitespace, Segmenter.IsTerminator);
      RunsSkipRun(ra, |ra|, NotTerminator);
      assert ra[|ra|..] == [];
    }
  }

  /** One step of the split: the piece before the first terminator run,
      then the sentences after that run. */
  lemma {:induction false} SentenceCountStep(text: string, k: nat, n: nat)
    requires k == FirstIndex(text, Segmenter.IsTerminator) && k < |text|
    requires n == LeadingRun(text[k..], Segmenter.IsTerminator)
    ensures 0 < n && k + n <= |text|
    ensures SentenceCount(text)
      == (if |Remove(text[..k], IsWhitespace)| > 0 then 1 else 0) + SentenceCount(text[k + n..])
  {
    var a := text[..k];
    SplitStep(text, Segmenter.IsTerminator, k, n);
    FilterAppend([a], Split(text[k + n..], Segmenter.IsTerminator), NotBlank);
    FilterSingle(a, NotBlank);
    TrimEmptyIffBlank(a);
  }

  /** Taking the whitespace out of the text keeps the first terminator run
      between the piece before it and the rest, so that piece adds one run
      of non-terminators exactly when it had a visible character. */
  lemma {:induction false} SeparatedRuns(text: string, k: nat, n: nat)
    requires k == FirstIndex(text, Segmenter.IsTerminator) && k < |text|
    requires n == LeadingRun(text[k..], Segmenter.IsTerminator)
    ensures k + n <= |text|
    ensures Runs(Remove(text, IsWhitespace), NotTerminator)
      == (if |Remove(text[..k], IsWhitespace)| > 0 then 1 else 0) + Runs(Remove(text[k + n..], IsWhitespace), NotTerminator)
  {
    var a, b, rest := text[..k], text[k..k + n], text[k + n..];
    var ra := Remove(a, IsWhitespace);
    assert text[k..][0] == text[k];
    forall i | 0 <= i < n
      ensures Segmenter.IsTerminator(b[i]) && !IsWhitespace(b[i])
    {
      assert b[i] == text[k..][i];
      Segmenter.TerminatorIsVisible(b[i]);
    }
    Slices3(text, k, n);
    RemoveAppend(a + b, rest, IsWhitespace);
    RemoveAppend(a, b, IsWhitespace);
    RemoveFree(b, IsWhitespace);
    RemoveKeepsNone(a, IsWhitespace, Segmenter.IsTerminator);
    RunsAfterSeparator(ra, b, Remove(rest, IsWhitespace), NotTerminator);
  }

  /** A text has no sentence exactly when it holds nothing but whitespace and
      terminators. */
  lemma SentenceCountZeroIff(text: string)
    ensures SentenceCount(text) == 0 <==> forall i :: 0 <= i < |text| ==> IsFiller(text[i])
  {
    var pieces := Split(text, Segmenter.IsTerminator);
    SplitConcat(text, Segmenter.IsTerminator);
    FilterEmptyIff(pieces, NotBlank);
    forall x | x in pieces
      ensures NotBlank(x) <==> !AllWhitespace(x)
    {
      TrimEmptyIffBlank(x);
    }
    ConcatBlankIff(pieces);
    RemoveBlankIff(text);
  }

  lemma FilterEmptyIff(xs: seq<string>, keep: string -> bool)
    ensures |Filter(xs, keep)| == 0 <==> forall x :: x in xs ==> !keep(x)
  {
    var r := Filter(xs, keep);
    if |r| > 0 {
      assert r[0] in xs && keep(r[0]);
    }
  }

  lemma BlankAppend(a: string, b: string)
    ensures AllWhitespace(a + b) <==> AllWhitespace(a) && AllWhitespace(b)
  {
    assert forall i :: 0 <= i < |a| ==> (a + b)[i] == a[i];
    assert forall i :: 0 <= i < |b| ==> (a + b)[|a| + i] == b[i];
  }

  /** A concatenation is blank exactly when each of its parts is. */
  lemma {:induction false} ConcatBlankIff(xs: seq<string>)
    ensures AllWhitespace(Concat(xs)) <==> forall x :: x in xs ==> AllWhitespace(x)
    decreases |xs|
  {
    if |xs| > 0 {
      ConcatBlankIff(xs[1..]);
      BlankAppend(xs[0], Concat(xs[1..]));
      assert forall x :: x in xs <==> x == xs[0] || x in xs[1..];
    }
  }

  /** Removing the terminators leaves a blank string exactly when the text
      had nothing but whitespace and terminators. */
  lemma {:induction false} RemoveBlankIff(text: string)
    ensures AllWhitespace(Remove(text, Segmenter.IsTerminator)) <==> forall i :: 0 <= i < |text| ==> IsFiller(text[i])
    decreases |text|
  {
    if |text| > 0 {
      RemoveBlankIff(text[1..]);
      assert forall i :: 0 <= i < |text| - 1 ==> text[1..][i] == text[i + 1];
      assert (forall i :: 0 <= i < |text| ==> IsFiller(text[i]))
        <==> IsFiller(text[0]) && forall i :: 0 <= i < |text| - 1 ==> IsFiller(text[1..][i]);
      if !Segmenter.IsTerminator(text[0]) {
        assert Remove(text, Segmenter.IsTerminator) == [text[0]] + Remove(text[1..], Segmenter.IsTerminator);
        BlankAppend([text[0]], Remove(text[1..], Segmenter.IsTerminator));
        assert AllWhitespace([text[0]]) <==> IsWhitespace(text[0]) by {
          assert [text[0]][0] == text[0];
        }
      }
    }
  }

  // ---------------------------------------------------------------------------
  // syllables

  predicate IsLowerLetter(c: char) {
    'a' <= c <= 'z'
  }

  predicate NotLowerLetter(c: char) {
    !IsLowerLetter(c)
  }

  predicate IsAsciiLetter(c: char) {
    'a' <= c <= 'z' || 'A' <= c <= 'Z'
  }

  predicate IsVowel(c: char) {
    c == 'a' || c == 'e' || c == 'i' || c == 'o' || c == 'u' || c == 'y'
  }

  /** The syllable estimate for one lower-cased token: its letters `a`-`z`
      (`word.replace(/[^a-z]/g, '')`), the number of maximal vowel runs in
      them (`match(/[aeiouy]+/g)`), one less for a final `e` when there is
      more than one run, and at least one. A token without letters counts
      nothing. */
  function WordSyllables(word: string): (n: nat)
    ensures var clean := Remove(word, NotLowerLetter);
      && (n == 0 <==> |clean| == 0)
      && n <= |clean|
      && (|clean| > 0 ==> n >= 1 && n <= Runs(clean, IsVowel) + 1 && n + 1 >= Runs(clean, IsVowel))
  {
    var clean := Remove(word, NotLowerLetter);
    if |clean| == 0 then 0
    else
      var groups := Runs(clean, IsVowel);
      var count := if clean[|clean| - 1] == 'e' && groups > 1 then groups - 1 else groups;
      if count == 0 then 1 else count
  }

  /** A token, before lower-casing, contributes no syllable exactly when it
      has no ASCII letter, and at least one otherwise. */
  lemma TokenSyllables(token: string)
    ensures WordSyllables(ToLower(token)) == 0 <==> forall i :: 0 <= i < |token| ==> !IsAsciiLetter(token[i])
  {
    var lower := ToLower(token);
    assert forall i :: 0 <= i < |token| ==> (IsLowerLetter(lower[i]) <==> IsAsciiLetter(token[i]));
  }

  function SumSyllables(words: seq<string>): nat
  {
    if |words| == 0 then 0 else WordSyllables(words[0]) + SumSyllables(words[1..])
  }

  /** `countSyllables`: the estimates of the whitespace-separated pieces of
      the lower-cased text, added up. */
  function CountSyllables(text: string): (n: nat)
    ensures n <= CharacterCount(text)
  {
    var lower := ToLower(text);
    var pieces := Split(lower, IsWhitespace);
    SumAtMostLength(pieces);
    SplitConcat(lower, IsWhitespace);
    RemoveLowerLength(text);
    SumSyllables(pieces)
  }

  lemma {:induction false} SumSnoc(words: seq<string>, w: string)
    ensures SumSyllables(words + [w]) == SumSyllables(words) + WordSyllables(w)
    decreases |words|
  {
    if |words| > 0 {
      SumSnoc(words[1..], w);
      assert (words + [w])[1..] == words[1..] + [w];
    }
  }

  /** A text has no syllable exactly when it has no ASCII letter: every
      token with a letter adds at least one. */
  lemma {:induction false} SyllablesZeroIff(text: string)
    ensures CountSyllables(text) == 0 <==> forall i :: 0 <= i < |text| ==> !IsAsciiLetter(text[i])
  {
    var lower := ToLower(text);
    var pieces := Split(lower, IsWhitespace);
    SumZeroIff(pieces);
    PiecesNoLetter(pieces);
    SplitConcat(lower, IsWhitespace);
    forall c | IsLowerLetter(c)
      ensures !IsWhitespace(c)
    {
      LetterIsVisible(c);
    }
    RemoveKeepsOthers(lower, IsWhitespace, IsLowerLetter);
    LowerNoLetter(text);
  }

  lemma LetterIsVisible(c: char)
    requires IsLowerLetter(c)
    ensures !IsWhitespace(c)
  {
  }

  /** Every piece counts nothing exactly when the pieces together hold no
      lower-case letter. */
  lemma {:induction false} PiecesNoLetter(pieces: seq<string>)
    ensures (forall k :: 0 <= k < |pieces| ==> WordSyllables(pieces[k]) == 0)
      <==> NoneSatisfy(Concat(pieces), IsLowerLetter)
  {
    forall k | 0 <= k < |pieces|
      ensures WordSyllables(pieces[k]) == 0 <==> NoneSatisfy(pieces[k], IsLowerLetter)
    {
      WordZeroIff(pieces[k]);
    }
    ConcatNoneIff(pieces, IsLowerLetter);
  }

  lemma WordZeroIff(w: string)
    ensures WordSyllables(w) == 0 <==> NoneSatisfy(w, IsLowerLetter)
  {
  }

  /** The lower-cased text has a lower-case letter exactly where the text
      has an ASCII letter. */
  lemma LowerNoLetter(text: string)
    ensures NoneSatisfy(ToLower(text), IsLowerLetter) <==> forall i :: 0 <= i < |text| ==> !IsAsciiLetter(text[i])
  {
    var lower := ToLower(text);
    assert forall i :: 0 <= i < |text| ==> (IsLowerLetter(lower[i]) <==> IsAsciiLetter(text[i]));
  }

  /** A sum of estimates is zero exactly when every estimate is. */
  lemma {:induction false} SumZeroIff(words: seq<string>)
    ensures SumSyllables(words) == 0 <==> forall k :: 0 <= k < |words| ==> WordSyllables(words[k]) == 0
    decreases |words|
  {
    if |words| > 0 {
      SumZeroIff(words[1..]);
      assert SumSyllables(words) == WordSyllables(words[0]) + SumSyllables(words[1..]);
      assert forall k :: 0 < k < |words| ==> words[k] == words[1..][k - 1];
    }
  }

  /** The number of matches of `/[aeiouy]+/g` in `w`, found left to right:
      a match begins at every vowel that does not follow a vowel. The count
      is the number of maximal vowel runs. */
  method VowelGroups(w: string) returns (g: nat)
    ensures g == Runs(w, IsVowel)
  {
    g := 0;
    for i := 0 to |w|
      invariant g == Runs(w[..i], IsVowel)
    {
      if IsVowel(w[i]) && (i == 0 || !IsVowel(w[i - 1])) {
        g := g + 1;
      }
      RunsSnoc(w[..i], w[i], IsVowel);
      assert w[..i + 1] == w[..i] + [w[i]];
    }
    assert w[..|w|] == w;
  }

  /** One pass of the `countSyllables` loop body: what the token adds to
      the total. */
  method TokenEstimate(word: string) returns (c: nat)
    ensures c == WordSyllables(word)
  {
    var clean := Remove(word, NotLowerLetter);
    if |clean| == 0 {
      return 0;
    }
    c := VowelGroups(clean);
    if clean[|clean| - 1] == 'e' && c > 1 {
      c := c - 1;
    }
    if c == 0 {
      c := 1;
    }
  }

  /** `countSyllables` as its loop runs: tokens without letters are skipped,
      every other token adds its estimate. The total is the sum of the
      per-token estimates. */
  method CountSyllablesLoop(text: string) returns (count: nat)
    ensures count == CountSyllables(text)
  {
    count := AddEstimates(Split(ToLower(text), IsWhitespace));
  }

  /** The loop over the tokens, in order, accumulating their estimates. */
  method AddEstimates(words: seq<string>) returns (count: nat)
    ensures count == SumSyllables(words)
  {
    count := 0;
    for i := 0 to |words|
      invariant count == SumSyllables(words[..i])
    {
      var c := TokenEstimate(words[i]);
      count := count + c;
      SumPrefix(words, i);
    }
    assert words[..|words|] == words;
  }

  /** The sum over a prefix one token longer. */
  lemma SumPrefix(words: seq<string>, i: nat)
    requires i < |words|
    ensures SumSyllables(words[..i + 1]) == SumSyllables(words[..i]) + WordSyllables(words[i])
  {
    PrefixSnoc(words, i);
    SumSnoc(words[..i], words[i]);
  }

  /** A syllable needs a letter: the syllables of a piece are at most its
      length. */
  lemma {:induction false} SumAtMostLength(words: seq<string>)
    ensures SumSyllables(words) <= |Concat(words)|
    decreases |words|
  {
    if |words| > 0 {
      SumAtMostLength(words[1..]);
    }
  }

  /** Lower-casing keeps every character's whitespace status, so it keeps
      the number of visible characters. */
  lemma {:induction false} RemoveLowerLength(s: string)
    ensures |Remove(ToLower(s), IsWhitespace)| == |Remove(s, IsWhitespace)|
    decreases |s|
  {
    if |s| > 0 {
      RemoveLowerLength(s[1..]);
      assert ToLower(s)[1..] == ToLower(s[1..]);
      LowerKeepsWhitespace(s[0]);
    }
  }

  // ---------------------------------------------------------------------------
  // score

  /** The Flesch Reading Ease formula, in exact arithmetic. */
  function Flesch(words: nat, sentences: nat, syllables: nat): (f: real)
    requires words > 0 && sentences > 0
    ensures f < 206.835
  {
    assert words as real / sentences as real > 0.0;
    assert syllables as real / words as real >= 0.0;
    206.835 - 1.015 * (words as real / sentences as real) - 84.6 * (syllables as real / words as real)
  }

  /** `Math.round(x)`: the nearest integer, a half rounded up. */
  function Round(x: real): (r: int)
    ensures r as real - 0.5 <= x < r as real + 0.5
  {
    (x + 0.5).Floor
  }

  /** `Math.max(0, Math.min(100, x))` */
  function Clamp(x: int): (r: int)
    ensures 0 <= r <= 100
    ensures 0 <= x <= 100 ==> r == x
    ensures x < 0 ==> r == 0
    ensures x > 100 ==> r == 100
  {
    if x < 0 then 0 else if x > 100 then 100 else x
  }

  /** The readability percentage: 100 for a text without words or without
      sentences, otherwise the rounded and clamped Flesch score. */
  function Score(words: nat, sentences: nat, syllables: nat): (r: int)
    ensures 0 <= r <= 100
    ensures sentences == 0 || words == 0 ==> r == 100
    ensures sentences > 0 && words > 0 ==>
      var f := Flesch(words, sentences, syllables);
      && (0.0 <= f < 100.0 ==> r as real - 0.5 <= f < r as real + 0.5)
      && (f < 0.0 ==> r == 0)
      && (f >= 100.0 ==> r == 100)
  {
    var f: real := if sentences > 0 && words > 0 then Flesch(words, sentences, syllables) else 100.0;
    Clamp(Round(f))
  }

  /** More syllables for the same words and sentences never make a text
      score as easier. */
  lemma ScoreAntitoneInSyllables(words: nat, sentences: nat, y1: nat, y2: nat)
    requires y1 <= y2
    ensures Score(words, sentences, y2) <= Score(words, sentences, y1)
  {
    if words > 0 && sentences > 0 {
      assert y1 as real / words as real <= y2 as real / words as real by {
        DivMono(y1 as real, y2 as real, words as real);
      }
      FloorMono(Flesch(words, sentences, y2) + 0.5, Flesch(words, sentences, y1) + 0.5);
    }
  }

  lemma DivMono(a: real, b: real, d: real)
    requires 0.0 < d && a <= b
    ensures a / d <= b / d
  {
  }

  lemma FloorMono(x: real, y: real)
    requires x <= y
    ensures x.Floor <= y.Floor
  {
  }

  /** Text whose words have one syllable on average or fewer, in sentences
      of at most 21 words on average, scores the full 100: its Flesch score
      is at least 206.835 - 1.015 * 21 - 84.6 = 100.92. */
  lemma PlainShortTextScores100(words: nat, sentences: nat, syllables: nat)
    requires words > 0 && sentences > 0
    requires syllables <= words && words <= 21 * sentences
    ensures Score(words, sentences, syllables) == 100
  {
    var w, s, y := words as real, sentences as real, syllables as real;
    QuotientAtMost(w, 21.0, s);
    QuotientAtMost(y, 1.0, w);
    var f := Flesch(words, sentences, syllables);
    assert f == 206.835 - 1.015 * (w / s) - 84.6 * (y / w);
    assert f >= 100.5;
  }

  /** `a / d <= b` when `a <= b * d`, for positive `d`. */
  lemma QuotientAtMost(a: real, b: real, d: real)
    requires 0.0 < d && a <= b * d
    ensures a / d <= b
  {
    var q := a / d;
    assert q * d == a;
    assert (b - q) * d == b * d - a;
    NonNegativeFactor(b - q, d);
  }

  lemma NonNegativeFactor(x: real, d: real)
    requires 0.0 < d && 0.0 <= x * d
    ensures 0.0 <= x
  {
  }

  /** `label`: the first threshold the score is below, else "Very Easy". */
  function LabelFor(score: int): (l: Label)
    ensures l == VeryHard <==> score < 30
    ensures l == Hard <==> 30 <= score < 50
    ensures l == Moderate <==> 50 <= score < 60
    ensures l == Easy <==> 60 <= score < 70
    ensures l == VeryEasy <==> 70 <= score
  {
    if score < 30 then VeryHard
    else if score < 50 then Hard
    else if score < 60 then Moderate
    else if score < 70 then Easy
    else VeryEasy
  }

  /** A higher score never gets a harder label. */
  lemma LabelMonotone(a: int, b: int)
    requires a <= b
    ensures Rank(LabelFor(a)) <= Rank(LabelFor(b))
  {
  }

  /** `calculateReadability` */
  function CalculateReadability(text: string): (m: Metrics)
    ensures m.words == Runs(text, IsVisible)
    ensures m.characters == CharacterCount(text)
    ensures m.characters <= |text| && (m.characters == 0 <==> AllWhitespace(text))
    ensures m.readability == Score(m.words, SentenceCount(text), CountSyllables(text))
    ensures 0 <= m.readability <= 100
    ensures m.readabilityLabel == LabelName(LabelFor(m.readability))
    ensures m.words == 0 || SentenceCount(text) == 0 ==>
      m.readability == 100 && m.readabilityLabel == "Very Easy"
  {
    var words := WordCount(text);
    var characters := CharacterCount(text);
    var sentences := SentenceCount(text);
    var syllables := CountSyllables(text);
    var readability := Score(words, sentences, syllables);
    Metrics(words, characters, readability, LabelName(LabelFor(readability)))
  }

  /** Blank text: no words, no characters, score 100, "Very Easy". */
  lemma BlankText(text: string)
    requires AllWhitespace(text)
    ensures CalculateReadability(text) == Metrics(0, 0, 100, "Very Easy")
  {
    BlankHasNoVisibleRun(text);
  }

  lemma {:induction false} BlankHasNoVisibleRun(s: string)
    requires AllWhitespace(s)
    ensures Runs(s, IsVisible) == 0
    decreases |s|
  {
    if |s| > 0 {
      BlankHasNoVisibleRun(s[1..]);
    }
  }
}
