# Text humanizer pipeline: a Dafny model

This project models the deterministic core of a small web application. The application rewrites text so that it reads as if a person wrote it, and scores the result's readability. The model has three parts.

- **Segmentation and orchestration** (`textProcessor.ts`).
  - `splitIntoSentences` splits a text into sentences with the pattern `/[^.!?]+[.!?]+/g`. When nothing matches, it falls back to the whole text. Every piece is trimmed and empty pieces are dropped.
  - `humanizeText` sends sentence `i` to provider `i % 3`: Gemini, Cohere, Mistral.
  - It keeps the original sentence when a call throws and reports progress `((i + 1) / n) * 100` after each sentence.
  - It joins the results with single spaces.
- **Provider adapters** (`gemini.ts`, `cohere.ts`, `mistral.ts`).
  - Each adapter puts `Original sentence (<k> words): <sentence>` into its request.
  - It reads the rewritten text from the response. Missing or blank text falls back to the sentence.
  - It strips one quote at each end, independently of the other end, and turns every em dash into `-`.
  - On any failure it returns the sentence untouched.
  - Only the extraction path and the request differ between the three adapters. The post-processing they share is modelled once, in module `Adapter`.
- **Readability** (`readability.ts`).
  - `calculateReadability` counts words, non-whitespace characters, sentences and syllables.
  - It computes the Flesch Reading Ease score (Flesch 1948: 206.835 - 1.015 W/S - 84.6 Y/W), rounds it, clamps it to [0, 100] and labels it.

## Modules

| module | file | contents |
|---|---|---|
| `Text` | `text.dfy` | The ECMAScript whitespace class (the WhiteSpace and LineTerminator code points matched by `\s` and removed by `trim`), `trim`, `split` on a run-matching character class, `replace(/\s/g, '')`, `filter`, `join` and ASCII lower-casing. |
| `Decimal` | `decimal.dfy` | A natural number rendered as a template literal renders it, and a parser to read the rendering back. |
| `Segmenter` | `segmenter.dfy` | `splitIntoSentences`. |
| `Adapter` | `adapter.dfy` | The request text and response handling shared by the three providers. |
| `Orchestrator` | `orchestrator.dfy` | `humanizeText` as a fold, and as the loop that builds the call log and progress log. |
| `Readability` | `readability.dfy` | `calculateReadability` and `countSyllables`. |

The providers are not code in the model. For `humanizeText` they are an environment function `env(i, provider, sentence)`. It returns either `Returned(text)` or `Threw`, so every mix of answers and failures is covered. For an adapter, the request's outcome is a parameter:

- `Failed` stands for a thrown fetch, a non-OK status or an unparsable body.
- `Ok(None)` means the extraction path is missing.
- `Ok(Some(text))` carries the extracted text.

The provider instructions (the prompt constants) are an opaque string parameter.

Three behaviours of the code are easy to misread, and each is stated by a lemma:

- A leading quote and a trailing quote are stripped independently of each other (src/services/gemini.ts:53). Mismatched quotes both go, and a lone quote at one end goes too (`Adapter.QuotesIndependent`).
- Once the sentence pattern matches anywhere, an unterminated remainder after the last terminator is dropped (src/services/textProcessor.ts:6). `"Hi! ok"` yields only `"Hi!"` (`Segmenter.TrailingFragmentDropped`).
- Whitespace-only text yields no sentence (src/services/textProcessor.ts:6-7), so `humanizeText` makes no provider call and returns `""` (`Segmenter.BlankYieldsNothing`, `Orchestrator.HumanizeText`). Any text with a visible character yields at least one sentence (`Segmenter.NonBlankYieldsSentence`).

## Model

| member | source | states |
|---|---|---|
| Text.Trim | src/services/textProcessor.ts:7 | `trim` yields the slice of the input that lies between whitespace-only ends, and neither end of the slice is whitespace. Whitespace is every ECMAScript WhiteSpace and LineTerminator code point, including tab, newline, carriage return and no-break space. |
| Text.TrimUnique | src/services/textProcessor.ts:7 | The trim property determines the result: two strings that are both trims of the same input are equal. |
| Text.TrimEmptyIffBlank | src/services/textProcessor.ts:7 | Trimming yields the empty string exactly when the input is whitespace only, newlines and tabs included. |
| Text.Split | src/utils/readability.ts:9 | `split` on a run pattern yields at least one piece, and no piece holds a separator character. `SplitFree`, `SplitAt`, `SplitConcat` and `SplitCount` fix the pieces exactly. |
| Text.SplitFree | src/utils/readability.ts:9 | A string with no separator character splits into itself alone. |
| Text.SplitAt | src/utils/readability.ts:11 | When the first separator run starts at `k` and has length `n`, the pieces are the text before the run, followed by the pieces of the text after it. Empty leading and trailing pieces come out as `split` gives them. |
| Text.SplitCount | src/utils/readability.ts:35 | Splitting on runs of a character class yields one more piece than there are runs. |
| Text.SplitConcat | src/utils/readability.ts:11 | The split pieces, put back together, are the input with every separator character removed. No character is lost or reordered. |
| Text.SplitNonEmptyCount | src/utils/readability.ts:9 | There are as many non-empty split pieces as maximal runs of non-separator characters. |
| Text.Filter | src/services/textProcessor.ts:7 | `filter` keeps only elements that pass, keeps every element that passes, and never grows the sequence. |
| Text.FilterAppend | src/services/textProcessor.ts:7 | Filtering works piecewise on a concatenation, so the kept elements stay in their original order. |
| Text.FilterSingle | src/utils/readability.ts:11 | A one-element sequence keeps its element exactly when it passes. Together with `FilterAppend` this fixes the result for every input. |
| Text.Remove | src/utils/readability.ts:10 | `replace(/\s/g, '')` shortens the string by exactly the number of whitespace characters in it. The result holds exactly the input's other characters and no whitespace. |
| Text.RemoveAppend | src/utils/readability.ts:39 | Removal works piecewise on a concatenation, so the kept characters stay in their original order. |
| Text.RemoveSingle | src/utils/readability.ts:39 | A single character is dropped exactly when it is in the removed class. Together with `RemoveAppend` this fixes the result for every input. |
| Text.RunsSnoc | src/utils/readability.ts:42 | Appending a character adds a maximal run exactly when that character starts a new run. |
| Text.Join | src/services/textProcessor.ts:37 | Joining no element gives `""`, and a joined string starts with its first element. `JoinSnoc` fixes the rest of the result. |
| Text.JoinSnoc | src/services/textProcessor.ts:37 | Joining one more element appends the separator and that element, with no separator before a lone first element. |
| Text.JoinLength | src/services/textProcessor.ts:37 | A joined string is as long as its elements together plus one separator between each two neighbours. |
| Text.SplitJoin | src/services/textProcessor.ts:37 | Joining with single spaces and splitting on whitespace runs are inverse when every joined piece is non-empty and holds no whitespace. |
| Text.ToLower | src/utils/readability.ts:35 | Lower-casing maps each character in place: ASCII capitals become lower case and every other character is kept. |
| Decimal.Render | src/services/gemini.ts:40 | The interpolated count is a non-empty string of decimal digits with no leading zero. |
| Decimal.ParseRender | src/services/cohere.ts:48 | Reading the interpolated count back as a decimal number gives the count. |
| Decimal.RenderUnique | src/services/gemini.ts:40 | A digit string with no leading zero is the rendering of its value, so each count has exactly one such text. |
| Decimal.RenderInjective | src/services/mistral.ts:46 | Different counts are interpolated as different strings. |
| Segmenter.Matches | src/services/textProcessor.ts:6 | Every match of the global sentence pattern starts with a non-terminator and ends with a terminator. Its terminators form its final run. |
| Segmenter.MatchesTile | src/services/textProcessor.ts:6 | The matches, one after another, are the text with its leading terminators and its unterminated tail cut off. Nothing in between is lost or reordered. |
| Segmenter.MatchesNonEmptyIff | src/services/textProcessor.ts:6 | The pattern matches something exactly when some non-terminator comes before some terminator. |
| Segmenter.TrimAll | src/services/textProcessor.ts:7 | The map over the pieces gives one trim per piece, in order. |
| Segmenter.SplitIntoSentences | src/services/textProcessor.ts:5-8 | Every sentence is non-empty, and neither its first nor its last character is whitespace. |
| Segmenter.BlankYieldsNothing | src/services/textProcessor.ts:6-7 | Whitespace-only or empty text yields no sentence, because the whole-text fallback is trimmed and then dropped. |
| Segmenter.NoMatchYieldsWholeText | src/services/textProcessor.ts:6-7 | Non-blank text with no terminated sentence yields exactly one sentence: the whole text, trimmed. |
| Segmenter.NonBlankYieldsSentence | src/services/textProcessor.ts:6-7 | Text with any character other than whitespace yields at least one sentence. |
| Segmenter.MatchedSentences | src/services/textProcessor.ts:6-7 | Once the pattern matches, the sentences are exactly the trimmed matches, in order. Each sentence ends with its terminators. |
| Segmenter.TrimOfMatch | src/services/textProcessor.ts:7 | Trimming a match keeps it non-empty and keeps its final run of terminators. |
| Segmenter.TrailingFragmentDropped | src/services/textProcessor.ts:6-7 | `"Hi! ok"` yields only `"Hi!"`: the unterminated tail is lost. |
| Segmenter.ExampleMatches | src/services/textProcessor.ts:6 | The global match of `"Hi! ok"` is the single match `"Hi!"`. |
| Adapter.StripQuotes | src/services/gemini.ts:53 | At most one quote goes from the front, and at most one from the back. The back quote goes exactly when the string's last character is a quote that is not the removed front one. The rest stays in place. |
| Adapter.StripQuotesScan | src/services/cohere.ts:61 | A left-to-right scan gives the same result as `StripQuotes`. The scan tries the start anchor at position 0 and the end anchor at the last position. |
| Adapter.QuotesIndependent | src/services/mistral.ts:59 | The two ends are stripped independently. Mismatched quotes both go, a lone quote at either end goes, doubled quotes lose one layer, and a lone quote character becomes the empty string. |
| Adapter.ReplaceEmDashes | src/services/gemini.ts:53 | Every em dash becomes `-`, every other character is kept in place, and no em dash remains. |
| Adapter.ReplaceNoEmDash | src/services/cohere.ts:61 | Text without an em dash passes the replacement unchanged. |
| Adapter.Normalize | src/services/mistral.ts:59 | The post-processed text contains no em dash. |
| Adapter.NormalizeInPlace | src/services/gemini.ts:53 | Post-processing drops the first character exactly when it is a quote and the last exactly when it is a further quote. Every other character stays in place, with an em dash turned into `-`. |
| Adapter.Extract | src/services/gemini.ts:51 | Present content with a visible character gives its non-empty trim. Missing or whitespace-only content, newlines included, gives the original sentence. |
| Adapter.Adapt | src/services/gemini.ts:46-57 | A failure returns the sentence unchanged. Success returns text with no em dash, no longer than the extracted text. Missing content returns the normalised sentence. |
| Adapter.BlankContentFallsBack | src/services/cohere.ts:59-61 | Whitespace-only content gives the same result as missing content: the original sentence, normalised. |
| Adapter.AdaptKeepsContent | src/services/mistral.ts:57-59 | The result is the trimmed content with a leading quote dropped, a trailing quote dropped exactly when the trimmed content ends with a further quote, and em dashes mapped one for one to hyphens. Nothing else changes. |
| Adapter.AdaptTrimmed | src/services/cohere.ts:59-61 | Content that is already trimmed and non-empty goes straight to post-processing. |
| Adapter.QuotedResponse | src/services/cohere.ts:59-61 | A response wrapped in double quotes, such as `"Hello there."`, comes out as its body, for every body without an em dash. |
| Adapter.PromptWordCount | src/services/gemini.ts:31 | The count sent with the sentence is one more than the number of whitespace runs in it, counting tabs and newlines. |
| Adapter.PromptCountIsWordCount | src/services/cohere.ts:36 | For a trimmed, non-empty sentence the count is its number of words. |
| Adapter.RequestText | src/services/mistral.ts:34-46 | The request starts with the instructions and ends with ` words): ` followed by the verbatim sentence. Between them, the count field is canonical decimal: digits with no leading zero, which read back as the whitespace-split piece count. |
| Adapter.RequestCountRendered | src/services/gemini.ts:31-40 | The count field is exactly the decimal rendering of the word count, as `${wordCount}` writes it. With `Decimal.RenderUnique`, the canonical-decimal clause of `RequestText` leaves no other possible field. |
| Orchestrator.ProviderFor | src/services/textProcessor.ts:14-22 | Sentence `i` goes to Gemini, Cohere or Mistral exactly when `i % 3` is 0, 1 or 2. |
| Orchestrator.Settle | src/services/textProcessor.ts:24-30 | A call that returned contributes its text, and a call that threw contributes the sentence. What this means for the output is stated by `Rewrite`, `FailureIsolated` and `IdentityProviders`. |
| Orchestrator.Rewrite | src/services/textProcessor.ts:20-30 | There is one result per sentence, in order. Each is what its position's provider returned for it, or the sentence itself when that call threw. |
| Orchestrator.Progress | src/services/textProcessor.ts:33 | Each reported value lies in (0, 100], and the value after the last sentence is exactly 100. |
| Orchestrator.ProgressRises | src/services/textProcessor.ts:32-34 | The progress values rise strictly from one sentence to the next. |
| Orchestrator.Dispatch | src/services/textProcessor.ts:20-35 | The loop builds the fold's results. It makes exactly one call per sentence, to the provider its position selects, and reports progress `((i + 1) / n) * 100` once per sentence. |
| Orchestrator.HumanizeText | src/services/textProcessor.ts:10-38 | The output is the per-sentence results joined by single spaces. It makes one call per sentence and reports strictly rising progress that ends at 100. Blank text makes no call, reports no progress and yields `""`. |
| Orchestrator.IdentityProviders | src/services/textProcessor.ts:24-30 | With providers that return their input, the results are the sentences themselves. |
| Orchestrator.FailureIsolated | src/services/textProcessor.ts:27-30 | A call that throws leaves the original sentence at its own position and changes no other position. |
| Orchestrator.AdapterEnv | src/services/cohere.ts:54-65 | The real adapters never throw to the orchestrator: every call settles with a returned text. |
| Orchestrator.AdaptersNeverThrow | src/services/mistral.ts:52-63 | With the real adapters every position holds its adapter's result. When every request fails, the results are the input sentences unchanged. |
| Readability.WordCount | src/utils/readability.ts:9 | `words` is the number of maximal runs of characters other than whitespace, so `"a\nb"` has two. |
| Readability.CharacterCount | src/utils/readability.ts:10 | `characters` is the text length less its number of whitespace characters. It is zero exactly when the text is blank. |
| Readability.SentenceCount | src/utils/readability.ts:11 | The sentence count is at most one more than the number of terminator runs. |
| Readability.SentenceCountIsRuns | src/utils/readability.ts:11 | With the whitespace taken out, the sentence count is the number of maximal runs of characters other than terminators: a piece between terminator runs counts exactly when it has a visible character. |
| Readability.SentenceCountZeroIff | src/utils/readability.ts:11 | The count is zero exactly when the text consists only of whitespace and terminators. |
| Readability.WordSyllables | src/utils/readability.ts:39-46 | A token without letters `a`-`z` counts zero. Any other token counts at least one and at most its letter count, and within one of its vowel-group count. |
| Readability.TokenSyllables | src/utils/readability.ts:39-46 | Before lower-casing, a token contributes nothing exactly when it has no ASCII letter. |
| Readability.VowelGroups | src/utils/readability.ts:42-43 | Counting matches of `/[aeiouy]+/g` left to right, one per vowel that does not follow a vowel, gives the number of maximal vowel runs. |
| Readability.TokenEstimate | src/utils/readability.ts:39-46 | The loop body for one token computes the token's estimate: letters `a`-`z` only, one per vowel group, one less for a final `e` when there is more than one group, and at least one. |
| Readability.AddEstimates | src/utils/readability.ts:38-49 | The loop over the tokens totals their estimates, in order. |
| Readability.CountSyllables | src/utils/readability.ts:34-52 | A text never has more syllables than characters other than whitespace. |
| Readability.SyllablesZeroIff | src/utils/readability.ts:34-52 | A text has no syllable exactly when it has no ASCII letter. |
| Readability.CountSyllablesLoop | src/utils/readability.ts:34-52 | The loop that skips letterless tokens totals the per-token estimates of the whitespace-split, lower-cased text. |
| Readability.Flesch | src/utils/readability.ts:15 | For positive word and sentence counts the Flesch value is below 206.835. |
| Readability.Round | src/utils/readability.ts:18 | `Math.round` gives the integer within half a unit, a half rounding up. |
| Readability.Clamp | src/utils/readability.ts:18 | The clamped score lies in [0, 100]. Values already in range are kept, and values out of range go to the nearer bound. `Score` states what this gives for a Flesch value below 0 or from 100 up. |
| Readability.Score | src/utils/readability.ts:14-18 | The score lies in [0, 100]. Zero words or zero sentences gives 100. Otherwise an in-range Flesch value is rounded to within half a point, a negative one gives 0, and one of 100 or more gives 100. |
| Readability.ScoreAntitoneInSyllables | src/utils/readability.ts:14-18 | More syllables with the same words and sentences never raise the score. |
| Readability.PlainShortTextScores100 | src/utils/readability.ts:14-18 | At most one syllable per word and at most 21 words per sentence scores 100. |
| Readability.LabelFor | src/utils/readability.ts:20-24 | Each label is chosen exactly on its band: below 30, 30-49, 50-59, 60-69, and 70 or more. |
| Readability.LabelName | src/utils/readability.ts:20-24 | Each label has its own name, and each name belongs to exactly one label. |
| Readability.LabelMonotone | src/utils/readability.ts:20-24 | A higher score never gets a harder label. |
| Readability.CalculateReadability | src/utils/readability.ts:8-32 | `words` counts visible runs and `characters` counts the characters other than whitespace. The score is the clamped, rounded Flesch value of the word, sentence and syllable counts, and is labelled by its band. No words or no sentences gives 100, "Very Easy". |
| Readability.BlankText | src/utils/readability.ts:8-32 | Whitespace-only and empty text give words 0, characters 0, readability 100 and "Very Easy". |

## Left out

- The React user interface (`App.tsx`): input state, buttons, clipboard and the progress bar. It only consumes the pipeline's output.
- The network: `fetch`, URLs, headers, API keys from the environment, and JSON parsing of responses. The request's outcome is a parameter of `Adapter.Adapt`. Each provider's extraction path is part of that outcome.
- The prompt constants: they are natural-language instructions with no checkable meaning, and are an opaque parameter of `Adapter.RequestText`.
- `async`/`await`: the loop is sequential in the source and is modelled as a fold and as a loop.
- `console.error` logging.
- The orchestrator's `catch` branch is modelled, but with the real adapters it is unreachable (`Orchestrator.AdaptersNeverThrow`). The adapters catch everything themselves.
- Orchestrator.HumanizeText: the `onProgress` callback is optional in the source. The model always returns the progress values that would be reported. Without a callback, nothing is reported.
- Readability.Score: the Flesch formula and the progress ratio are computed in exact rational arithmetic, not IEEE-754 doubles. Results can differ where a double lands on the other side of a .5 rounding boundary.
- Readability.CharacterCount: strings are sequences of Unicode scalar values, not UTF-16 code units. A character outside the Basic Multilingual Plane therefore counts once rather than twice.
- Text.ToLower: only ASCII letters are lower-cased. A few other characters lower-case into ASCII letters in JavaScript, such as the Kelvin sign (U+212A) and the capital I with dot above (U+0130). The model keeps those unchanged, so tokens made of them may count differently in the syllable count.
- The exact values for a sample sentence such as "The cat sat on the mat." are not stated. `Readability.PlainShortTextScores100` gives the score 100 for any text with its counts (6 words, 1 sentence, 6 syllables).
