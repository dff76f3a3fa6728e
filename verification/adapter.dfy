/** The response handling shared by the three provider adapters
    (`humanizeWithGemini`, `humanizeWithCohere`, `humanizeWithMistral`). The
    three differ only in endpoint, credentials, model name, instruction text
    and the path by which the rewritten text is read out of the response;
    everything after that path is the same, and is modelled once here. */
module Adapter {
  import opened Text
  import Decimal

  datatype Option<T> = None | Some(value: T)

  /** What one provider request came to. `Failed`: the request threw, the
      status was not OK, the body could not be parsed, or the value at the
      extraction path could not be trimmed. `Ok(content)`: the extraction
      path yielded `content`, `None` when some step of it was missing. */
  datatype Outcome = Failed | Ok(content: Option<string>)

  const EmDash: char := '\U{2014}'

  predicate IsQuote(c: char) {
    c == '"' || c == '\''
  }

  predicate NoEmDash(s: string) {
    forall i :: 0 <= i < |s| ==> s[i] != EmDash
  }

  /** `t.replace(/^["']|["']$/g, '')`: a quote in first position goes, and
      so does a quote in last position that was not the first one; the two
      are independent of each other, and everything between stays in place. */
  function StripQuotes(t: string): (r: string)
    ensures var a := if |t| > 0 && IsQuote(t[0]) then 1 else 0;
      && a + |r| <= |t| <= a + |r| + 1
      && r == t[a..a + |r|]
      && (a + |r| < |t| <==> |t| > a && IsQuote(t[|t| - 1]))
  {
    var rest := if |t| > 0 && IsQuote(t[0]) then t[1..] else t;
    if |rest| > 0 && IsQuote(rest[|rest| - 1]) then rest[..|rest| - 1] else rest
  }

  /** The same replacement, computed as the regular expression engine scans
      `t`: at each position it tries `^["']` (only at position 0), then
      `["']$` (only at the last position); a matched quote is dropped, any
      other character is kept. */
  method StripQuotesScan(t: string) returns (r: string)
    ensures r == StripQuotes(t)
  {
    var i := if |t| > 0 && IsQuote(t[0]) then 1 else 0;
    var j := if |t| > i && IsQuote(t[|t| - 1]) then |t| - 1 else |t|;
    StripQuotesSlice(t, i, j);
    r := "";
    var p := 0;
    while p < |t|
      invariant 0 <= p <= |t|
      invariant r == t[if p < i then p else i .. if p < j then p else j]
    {
      if p == 0 && IsQuote(t[p]) {
        // `^["']` matches: the quote is replaced by nothing
        assert i == 1;
      } else if p == |t| - 1 && IsQuote(t[p]) {
        // `["']$` matches
        assert j == p;
      } else {
        assert i <= p < j;
        assert t[i..p + 1] == t[i..p] + [t[p]];
        r := r + [t[p]];
      }
      p := p + 1;
    }
  }

  lemma {:induction false} StripQuotesSlice(t: string, i: nat, j: nat)
    requires i == if |t| > 0 && IsQuote(t[0]) then 1 else 0
    requires j == if |t| > i && IsQuote(t[|t| - 1]) then |t| - 1 else |t|
    ensures i <= j <= |t| && StripQuotes(t) == t[i..j]
  {
    var rest := t[i..];
    assert rest == if |t| > 0 && IsQuote(t[0]) then t[1..] else t;
    if |rest| > 0 && IsQuote(rest[|rest| - 1]) {
      assert rest[..|rest| - 1] == t[i..j];
    }
  }

  /** `s.replace(/—/g, '-')`: every em dash becomes a hyphen-minus, all
      other characters stay as they are, in place. */
  function ReplaceEmDashes(s: string): (r: string)
    ensures |r| == |s| && NoEmDash(r)
    ensures forall i :: 0 <= i < |s| ==> r[i] == (if s[i] == EmDash then '-' else s[i])
  {
    if |s| == 0 then []
    else [if s[0] == EmDash then '-' else s[0]] + ReplaceEmDashes(s[1..])
  }

  /** The normalisation applied to whatever text the adapter returns when
      the request succeeded. */
  function Normalize(t: string): (r: string)
    ensures NoEmDash(r)
  {
    ReplaceEmDashes(StripQuotes(t))
  }

  /** `content?.trim() || sentence`: the trimmed content unless it is
      missing or blank. */
  function Extract(sentence: string, content: Option<string>): (r: string)
    ensures content.Some? && !AllWhitespace(content.value) ==> IsTrimOf(r, content.value) && |r| > 0
    ensures content.None? || AllWhitespace(content.value) ==> r == sentence
  {
    match content
    case None => sentence
    case Some(c) =>
      TrimEmptyIffBlank(c);
      var t := Trim(c);
      if |t| > 0 then t else sentence
  }

  /** One adapter call, from the outcome of its request: the original
      sentence, untouched, on any failure; otherwise the extracted text
      with quotes stripped and em dashes replaced. */
  function Adapt(sentence: string, outcome: Outcome): (r: string)
    ensures outcome.Failed? ==> r == sentence
    ensures outcome.Ok? ==> NoEmDash(r) && |r| <= |Extract(sentence, outcome.content)|
    ensures outcome == Ok(None) ==> r == Normalize(sentence)
  {
    match outcome
    case Failed => sentence
    case Ok(content) => Normalize(Extract(sentence, content))
  }

  /** Missing content and blank content fall back to the original sentence,
      which is then normalised like any response. */
  lemma BlankContentFallsBack(sentence: string, c: string)
    requires AllWhitespace(c)
    ensures Adapt(sentence, Ok(Some(c))) == Adapt(sentence, Ok(None)) == Normalize(sentence)
  {
  }

  /** Nothing else changes: the result is the trimmed content, less at most
      one quote at each end, with each em dash turned into a hyphen in
      place. */
  lemma AdaptKeepsContent(sentence: string, c: string)
    requires !AllWhitespace(c)
    ensures var t, r := Trim(c), Adapt(sentence, Ok(Some(c)));
      var a := if IsQuote(t[0]) then 1 else 0;
      && a + |r| <= |t| <= a + |r| + 1
      && (a + |r| < |t| <==> |t| > a && IsQuote(t[|t| - 1]))
      && forall k :: 0 <= k < |r| ==> r[k] == (if t[a + k] == EmDash then '-' else t[a + k])
  {
    TrimEmptyIffBlank(c);
    NormalizeInPlace(Trim(c));
  }

  /** Normalisation drops at most one character from each end and maps the
      rest in place. */
  lemma NormalizeInPlace(t: string)
    requires |t| > 0
    ensures var r, a := Normalize(t), if IsQuote(t[0]) then 1 else 0;
      && a + |r| <= |t| <= a + |r| + 1
      && (a + |r| < |t| <==> |t| > a && IsQuote(t[|t| - 1]))
      && forall k :: 0 <= k < |r| ==> r[k] == (if t[a + k] == EmDash then '-' else t[a + k])
  {
    var m := StripQuotes(t);
    var a := if IsQuote(t[0]) then 1 else 0;
    assert m == t[a..a + |m|];
    forall k | 0 <= k < |m|
      ensures m[k] == t[a + k]
    {
    }
  }

  /** A response wrapped in double quotes loses both quotes, and nothing
      else, whatever lies between them. */
  lemma QuotedResponse(sentence: string, body: string)
    requires NoEmDash(body)
    ensures Adapt(sentence, Ok(Some("\"" + body + "\""))) == body
  {
    var c := "\"" + body + "\"";
    assert c[0] == '"' && c[|c| - 1] == '"';
    TrimVisibleEnds(c);
    AdaptTrimmed(sentence, c);
    assert c[1..] == body + "\"";
    assert c[1..][..|c| - 2] == body;
    ReplaceNoEmDash(body);
  }

  /** Content that is already its own non-empty trim is normalised as it is. */
  lemma AdaptTrimmed(sentence: string, c: string)
    requires |c| > 0 && Trim(c) == c
    ensures Adapt(sentence, Ok(Some(c))) == Normalize(c)
  {
    TrimEmptyIffBlank(c);
  }

  /** The two ends are stripped independently: the quotes need not match, a
      lone quote at either end goes, and only one quote goes per end. */
  lemma QuotesIndependent()
    ensures StripQuotes("\"Hi'") == "Hi"
    ensures StripQuotes("'Hi") == "Hi"
    ensures StripQuotes("Hi\"") == "Hi"
    ensures StripQuotes("\"\"Hi\"\"") == "\"Hi\""
    ensures StripQuotes("\"") == ""
  {
    assert "\"Hi'"[1..][..2] == "Hi";
    assert "\"\"Hi\"\""[1..][..4] == "\"Hi\"";
  }

  /** Text without em dashes passes the dash replacement unchanged. */
  lemma ReplaceNoEmDash(s: string)
    requires NoEmDash(s)
    ensures ReplaceEmDashes(s) == s
  {
  }

  // ---------------------------------------------------------------------------
  // request

  /** `sentence.split(/\s+/).length`, the count put into the request: one
      more than the number of whitespace runs, so a leading or trailing run
      adds a piece. */
  function PromptWordCount(sentence: string): (n: nat)
    ensures n == Runs(sentence, IsWhitespace) + 1
  {
    SplitCount(sentence, IsWhitespace);
    |Split(sentence, IsWhitespace)|
  }

  /** For a sentence as the segmenter produces it, non-empty and trimmed,
      that count is the number of words in it. */
  lemma PromptCountIsWordCount(sentence: string)
    requires |sentence| > 0 && IsVisible(sentence[0]) && IsVisible(sentence[|sentence| - 1])
    ensures PromptWordCount(sentence) == Runs(sentence, IsVisible)
  {
    VisibleRuns(sentence);
  }

  /** The fixed text between the instructions and the count. */
  const Lead: string := "\n\nOriginal sentence ("

  /** The fixed text between the count and the sentence. */
  const Words: string := " words): "

  /** The text sent to the provider: the provider's instructions, a blank
      line, then `Original sentence (<count> words): ` and the sentence. The
      count field is canonical decimal, without leading zeros, and reads back
      as the whitespace-split piece count. */
  function RequestText(instructions: string, sentence: string): (r: string)
    ensures |instructions| + |Lead| + |Words + sentence| < |r|
    ensures r[..|instructions|] == instructions
    ensures r[..|instructions| + |Lead|] == instructions + Lead
    ensures r[|r| - |Words + sentence|..] == Words + sentence
    ensures var count := r[|instructions| + |Lead|..|r| - |Words + sentence|];
      && (forall i :: 0 <= i < |count| ==> Decimal.IsDigit(count[i]))
      && (|count| > 1 ==> count[0] != '0')
      && Decimal.Parse(count) == PromptWordCount(sentence)
  {
    var count := Decimal.Render(PromptWordCount(sentence));
    Decimal.ParseRender(PromptWordCount(sentence));
    RequestLayout(instructions, count, sentence);
    instructions + Lead + count + Words + sentence
  }

  /** The contract of `RequestText` fixes the count field: the only
      canonical decimal text with that value is the rendering of the word
      count, as `${wordCount}` produces it. */
  lemma RequestCountRendered(instructions: string, sentence: string)
    ensures var r := RequestText(instructions, sentence);
      r[|instructions| + |Lead|..|r| - |Words + sentence|] == Decimal.Render(PromptWordCount(sentence))
  {
    var r := RequestText(instructions, sentence);
    var count := r[|instructions| + |Lead|..|r| - |Words + sentence|];
    assert Decimal.Canonical(count);
    Decimal.RenderUnique(count);
  }

  lemma RequestLayout(instructions: string, count: string, sentence: string)
    ensures var r := instructions + Lead + count + Words + sentence;
      && |r| == |instructions| + |Lead| + |count| + |Words + sentence|
      && r[..|instructions|] == instructions
      && r[..|instructions| + |Lead|] == instructions + Lead
      && r[|r| - |Words + sentence|..] == Words + sentence
      && r[|instructions| + |Lead|..|r| - |Words + sentence|] == count
  {
    var p := instructions + Lead;
    var r := p + count + Words + sentence;
    assert r == p + (count + (Words + sentence));
    assert r[..|p|] == p;
    assert p[..|instructions|] == instructions;
    assert r[..|instructions|] == p[..|instructions|];
  }
}
