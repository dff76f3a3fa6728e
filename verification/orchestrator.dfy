/** `humanizeText`: segment the text, send sentence `i` to provider `i % 3`
    (Gemini, Cohere, Mistral), keep the original sentence where a call
    throws, report progress after every sentence, and join the results with
    single spaces. The providers are not modelled as code: an environment
    function gives the result of the call for each sentence, so any mix of
    answers and failures, on any provider, is covered. */
module Orchestrator {
  import opened Text
  import Segmenter
  import Adapter

  datatype Provider = Gemini | Cohere | Mistral

  /** The fixed order of the providers list. */
  const Providers: seq<Provider> := [Gemini, Cohere, Mistral]

  /** The provider sentence `i` is sent to, by position alone. */
  function ProviderFor(i: nat): (p: Provider)
    ensures p == Gemini <==> i % 3 == 0
    ensures p == Cohere <==> i % 3 == 1
    ensures p == Mistral <==> i % 3 == 2
  {
    Providers[i % 3]
  }

  /** What awaiting one provider function produced. */
  datatype CallResult = Returned(text: string) | Threw

  /** `env(i, p, s)`: the result of the call made for sentence number `i`,
      to provider `p`, with sentence text `s`. */
  type Env = (nat, Provider, string) -> CallResult

  /** The sentence that goes into the output for one call. */
  function Settle(r: CallResult, sentence: string): (s: string)
    ensures r.Threw? ==> s == sentence
    ensures r.Returned? ==> s == r.text
  {
    match r
    case Returned(t) => t
    case Threw => sentence
  }

  /** The fold over the sentences: one result per sentence, in order, each
      from the call to the provider its position selects, or the sentence
      itself when that call threw. */
  function Rewrite(sentences: seq<string>, env: Env): (rs: seq<string>)
    ensures |rs| == |sentences|
    ensures forall i :: 0 <= i < |rs| ==>
      rs[i] == Settle(env(i, ProviderFor(i), sentences[i]), sentences[i])
    decreases |sentences|
  {
    if |sentences| == 0 then []
    else
      var n := |sentences| - 1;
      Rewrite(sentences[..n], env) + [Settle(env(n, ProviderFor(n), sentences[n]), sentences[n])]
  }

  /** The progress value reported after sentence `i` of `n`:
      `((i + 1) / n) * 100`, in exact arithmetic. */
  function Progress(i: nat, n: nat): (r: real)
    requires i < n
    ensures 0.0 < r <= 100.0
    ensures i + 1 == n ==> r == 100.0
  {
    DivStrictMono((i + 1) as real, n as real, n as real);
    assert n as real / n as real == 1.0;
    ((i + 1) as real / n as real) * 100.0
  }

  /** Progress rises strictly from one sentence to the next. */
  lemma ProgressRises(n: nat)
    ensures forall i, j :: 0 <= i < j < n ==> Progress(i, n) < Progress(j, n)
  {
    forall i, j | 0 <= i < j < n
      ensures Progress(i, n) < Progress(j, n)
    {
      DivStrictMono((i + 1) as real, (j + 1) as real, n as real);
    }
  }

  /** The values reported for `n` sentences, one per sentence, rise
      strictly, and the last is exactly 100. */
  lemma ProgressValues(progress: seq<real>, n: nat)
    requires |progress| == n && forall i :: 0 <= i < n ==> progress[i] == Progress(i, n)
    ensures forall i, j :: 0 <= i < j < n ==> progress[i] < progress[j]
    ensures n > 0 ==> progress[n - 1] == 100.0
  {
    ProgressRises(n);
  }

  lemma DivStrictMono(a: real, b: real, d: real)
    requires 0.0 < d && a <= b
    ensures a / d <= b / d
    ensures a < b ==> a / d < b / d
  {
  }

  /** The sequential loop of `humanizeText` over the segmented sentences.
      Besides the rewritten sentences it returns the calls made, in order,
      as (provider, sentence) pairs, and the values passed to the progress
      callback, in order. */
  method Dispatch(sentences: seq<string>, env: Env)
    returns (humanized: seq<string>, calls: seq<(Provider, string)>, progress: seq<real>)
    ensures humanized == Rewrite(sentences, env)
    ensures |calls| == |sentences|
    ensures forall i :: 0 <= i < |sentences| ==> calls[i] == (ProviderFor(i), sentences[i])
    ensures |progress| == |sentences|
    ensures forall i :: 0 <= i < |sentences| ==> progress[i] == Progress(i, |sentences|)
  {
    var n := |sentences|;
    humanized := [];
    calls := [];
    progress := [];
    for i := 0 to n
      invariant humanized == Rewrite(sentences[..i], env)
      invariant |calls| == i && forall k :: 0 <= k < i ==> calls[k] == (ProviderFor(k), sentences[k])
      invariant |progress| == i && forall k :: 0 <= k < i ==> progress[k] == Progress(k, n)
    {
      var api := ProviderFor(i);
      CallsStep(calls, sentences, i);
      calls := calls + [(api, sentences[i])];
      match env(i, api, sentences[i]) {
        case Returned(h) =>
          humanized := humanized + [h];
        case Threw =>
          humanized := humanized + [sentences[i]];
      }
      ProgressStep(progress, n, i);
      progress := progress + [Progress(i, n)];
      RewritePrefix(sentences, i, env);
    }
    assert sentences[..n] == sentences;
  }

  /** The call log grows by the call for sentence `i`. */
  lemma CallsStep(calls: seq<(Provider, string)>, sentences: seq<string>, i: nat)
    requires i < |sentences|
    requires |calls| == i && forall k :: 0 <= k < i ==> calls[k] == (ProviderFor(k), sentences[k])
    ensures var c := calls + [(ProviderFor(i), sentences[i])];
      |c| == i + 1 && forall k :: 0 <= k < i + 1 ==> c[k] == (ProviderFor(k), sentences[k])
  {
  }

  /** The progress log grows by the value for sentence `i`. */
  lemma ProgressStep(progress: seq<real>, n: nat, i: nat)
    requires i < n
    requires |progress| == i && forall k :: 0 <= k < i ==> progress[k] == Progress(k, n)
    ensures var p := progress + [Progress(i, n)];
      |p| == i + 1 && forall k :: 0 <= k < i + 1 ==> p[k] == Progress(k, n)
  {
  }

  /** The fold over a prefix one sentence longer. */
  lemma RewritePrefix(sentences: seq<string>, i: nat, env: Env)
    requires i < |sentences|
    ensures Rewrite(sentences[..i + 1], env)
      == Rewrite(sentences[..i], env) + [Settle(env(i, ProviderFor(i), sentences[i]), sentences[i])]
  {
    assert sentences[..i + 1][..i] == sentences[..i];
  }

  /** `humanizeText`: one call per sentence, to the provider its position
      selects; the results joined by single spaces; progress reported once
      per sentence, strictly rising to exactly 100. Blank text makes no call
      and yields the empty string. */
  method HumanizeText(text: string, env: Env)
    returns (output: string, calls: seq<(Provider, string)>, progress: seq<real>)
    ensures var ss := Segmenter.SplitIntoSentences(text);
      && output == Join(Rewrite(ss, env), " ")
      && |calls| == |ss|
      && (forall i :: 0 <= i < |ss| ==> calls[i] == (ProviderFor(i), ss[i]))
      && |progress| == |ss|
      && (forall i :: 0 <= i < |ss| ==> progress[i] == Progress(i, |ss|))
    ensures forall i, j :: 0 <= i < j < |progress| ==> progress[i] < progress[j]
    ensures |progress| > 0 ==> progress[|progress| - 1] == 100.0
    ensures AllWhitespace(text) ==> output == "" && |calls| == 0 && |progress| == 0
  {
    var sentences := Segmenter.SplitIntoSentences(text);
    var humanized;
    humanized, calls, progress := Dispatch(sentences, env);
    output := Join(humanized, " ");
    ProgressValues(progress, |sentences|);
    if AllWhitespace(text) {
      Segmenter.BlankYieldsNothing(text);
      assert Rewrite(sentences, env) == [];
    }
  }

  /** With providers that hand back their input, the output is the
      sentences joined by single spaces. */
  lemma IdentityProviders(sentences: seq<string>, env: Env)
    requires forall i, p, s :: env(i, p, s) == Returned(s)
    ensures Rewrite(sentences, env) == sentences
  {
  }

  /** A call that throws costs only its own position: there the original
      sentence is kept, and every other position is as it would have been. */
  lemma FailureIsolated(sentences: seq<string>, env: Env, env': Env, i: nat)
    requires i < |sentences|
    requires forall j, p, s :: j != i ==> env'(j, p, s) == env(j, p, s)
    requires env'(i, ProviderFor(i), sentences[i]) == Threw
    ensures |Rewrite(sentences, env')| == |sentences|
    ensures Rewrite(sentences, env')[i] == sentences[i]
    ensures forall j :: 0 <= j < |sentences| && j != i ==>
      Rewrite(sentences, env')[j] == Rewrite(sentences, env)[j]
  {
  }

  /** The environment made of the real adapters, each call settled by the
      outcome of its request. */
  function AdapterEnv(outcome: (nat, Provider, string) -> Adapter.Outcome): (env: Env)
    ensures forall i, p, s :: env(i, p, s).Returned?
  {
    (i: nat, p: Provider, s: string) => Returned(Adapter.Adapt(s, outcome(i, p, s)))
  }

  /** With the real adapters nothing throws, so every position holds what
      its adapter returned; and when every request fails the output is the
      input sentences, unchanged, joined by single spaces. */
  lemma AdaptersNeverThrow(sentences: seq<string>, outcome: (nat, Provider, string) -> Adapter.Outcome)
    ensures forall i :: 0 <= i < |sentences| ==>
      Rewrite(sentences, AdapterEnv(outcome))[i] == Adapter.Adapt(sentences[i], outcome(i, ProviderFor(i), sentences[i]))
    ensures (forall i, p, s :: outcome(i, p, s) == Adapter.Failed) ==>
      Rewrite(sentences, AdapterEnv(outcome)) == sentences
  {
  }
}
