/** The provider layer of back-end/providers.py: which back end answers,
    whether the configuration is usable, how a back end's reply becomes the
    answer text, how a failed request becomes a message, and the retry loop
    of `call_llm`. Every HTTP exchange is an input `Outcome`; the requests
    themselves, the session and the sleeps are not modelled. */
module Providers {
  import opened Results
  import opened Strings

  // ---------------------------------------------------------------------------
  // Provider selection and configuration
  // ---------------------------------------------------------------------------

  const DefaultProvider := "gemini"
  const OllamaName := "ollama"

  /** `LLMConfig.get_provider()`: `LLM_PROVIDER`, lower-cased, "gemini" when
      the variable is unset. */
  function GetProvider(env: Option<string>): (p: string)
    ensures env.None? ==> p == DefaultProvider
    ensures env.Some? ==> |p| == |env.value| && NoUpper(p)
    ensures env.Some? ==> forall i :: 0 <= i < |p| ==> p[i] == LowerChar(env.value[i])
  {
    if env.None? then DefaultProvider else Lower(env.value)
  }

  datatype Backend = GeminiApi | OllamaApi

  /** The branch of `call_llm`: "ollama" selects Ollama, any other provider
      name falls through to Gemini. */
  function BackendOf(provider: string): (b: Backend)
    ensures b == OllamaApi <==> provider == OllamaName
  {
    if provider == OllamaName then OllamaApi else GeminiApi
  }

  /** Ollama answers exactly when `LLM_PROVIDER` is set and spells "ollama"
      in any mix of ASCII case; an unset or unknown provider means Gemini. */
  lemma OllamaIsCaseInsensitive(env: Option<string>)
    ensures BackendOf(GetProvider(env)) == OllamaApi <==> env.Some? && Lower(env.value) == OllamaName
    ensures BackendOf(GetProvider(Some("OLLAMA"))) == OllamaApi
    ensures BackendOf(GetProvider(Some("Ollama"))) == OllamaApi
    ensures BackendOf(GetProvider(None)) == GeminiApi
  {
    assert Lower("OLLAMA") == OllamaName;
    assert Lower("Ollama") == OllamaName;
  }

  /** The outcome of the `GET {base_url}/api/tags` probe. */
  datatype Probe = ProbeStatus(code: int) | ProbeFailed

  /** `LLMConfig.validate_config()`. `geminiKey` is `GEMINI_API_KEY` (unset
      reads as ""); `probe` is what the Ollama server answered. */
  function ValidateConfig(provider: string, geminiKey: Option<string>, probe: Probe): (ok: bool)
    ensures ok ==> provider == DefaultProvider || provider == OllamaName
    ensures provider == OllamaName ==> (ok <==> probe == ProbeStatus(200))
    ensures provider == DefaultProvider && (geminiKey.None? || geminiKey.value == "") ==> !ok
  {
    if provider == DefaultProvider then
      var key := if geminiKey.Some? then Strip(geminiKey.value) else "";
      key != ""
    else if provider == OllamaName then
      probe.ProbeStatus? && probe.code == 200
    else
      false
  }

  /** The configuration is valid exactly when Gemini is selected with a key
      that is not blank, or Ollama is selected and its server answered 200. */
  lemma ValidateConfigCases(provider: string, geminiKey: Option<string>, probe: Probe)
    ensures ValidateConfig(provider, geminiKey, probe) <==>
      || (provider == "gemini" && geminiKey.Some? && !IsBlank(geminiKey.value))
      || (provider == "ollama" && probe == ProbeStatus(200))
  {
    if geminiKey.Some? {
      StripEnds(geminiKey.value);
    }
  }

  // ---------------------------------------------------------------------------
  // HTTP outcomes and failures
  // ---------------------------------------------------------------------------

  /** Why a request failed, in the terms `requests` reports. */
  datatype Failure =
    | TimedOut(connecting: bool)           // ConnectTimeout when connecting, ReadTimeout otherwise
    | Unreachable(detail: string)          // ConnectionError without a timeout
    | BadStatus(code: int, detail: string) // HTTPError from raise_for_status
    | NotJson(detail: string)              // the body did not decode as JSON

  /** What one POST produced: a decoded reply or a failure. */
  datatype Outcome<T> = Received(reply: T) | Failed(failure: Failure)

  // ---------------------------------------------------------------------------
  // Gemini
  // ---------------------------------------------------------------------------

  datatype Part = Part(text: Option<string>)
  datatype Content = Content(parts: Option<seq<Part>>)
  datatype Candidate = Candidate(content: Option<Content>)
  datatype GeminiReply = GeminiReply(candidates: Option<seq<Candidate>>)

  const GeminiEmpty := "Desculpe, não consegui gerar uma resposta. Tente reformular sua pergunta."
  const GeminiTimeout := "Tempo limite excedido ao acessar o Gemini. Tente novamente."
  const GeminiRateLimited := "Limite de taxa excedido. Aguarde um momento antes de tentar novamente."
  const GeminiBadKey := "Chave de API inválida. Verifique suas configurações."
  const GeminiUnavailable := "Serviço temporariamente indisponível. Tente novamente em alguns instantes."
  const GeminiCommPrefix := "Erro de comunicação com o Gemini: "
  const GeminiParseError := "Erro ao processar resposta do Gemini."

  /** Text with no whitespace at either end and at least one character: what
      survives `text.strip()` followed by `if text:`. */
  predicate Clean(t: string) {
    t != [] && !IsSpace(t[0]) && !IsSpace(t[|t| - 1])
  }

  function TextOf(p: Part): string {
    if p.text.Some? then p.text.value else ""
  }

  /** The lists `f` produces for the elements of `s`, concatenated in order. */
  function FlatMap<A>(s: seq<A>, f: A -> seq<string>): seq<string> {
    if s == [] then [] else f(s[0]) + FlatMap(s[1..], f)
  }

  lemma {:induction false} FlatMapAppend<A>(a: seq<A>, b: seq<A>, f: A -> seq<string>)
    ensures FlatMap(a + b, f) == FlatMap(a, f) + FlatMap(b, f)
  {
    if a != [] {
      assert (a + b)[1..] == a[1..] + b;
      assert (a + b)[0] == a[0];
      FlatMapAppend(a[1..], b, f);
    } else {
      assert a + b == b;
    }
  }

  predicate AllClean(ts: seq<string>) {
    forall k :: 0 <= k < |ts| ==> Clean(ts[k])
  }

  lemma AllCleanAppend(a: seq<string>, b: seq<string>)
    requires AllClean(a) && AllClean(b)
    ensures AllClean(a + b)
  {
    forall k | 0 <= k < |a + b| ensures Clean((a + b)[k]) {
      if k < |a| {
        assert (a + b)[k] == a[k];
      } else {
        assert (a + b)[k] == b[k - |a|];
      }
    }
  }

  lemma {:induction false} FlatMapClean<A>(s: seq<A>, f: A -> seq<string>)
    requires forall k :: 0 <= k < |s| ==> AllClean(f(s[k]))
    ensures AllClean(FlatMap(s, f))
  {
    if s != [] {
      FlatMapClean(s[1..], f);
      AllCleanAppend(f(s[0]), FlatMap(s[1..], f));
    }
  }

  /** What one part contributes: its stripped text, unless that is empty. */
  function PartText(p: Part): seq<string> {
    var t := Strip(TextOf(p));
    if t != [] then [t] else []
  }

  /** The stripped, non-empty texts of the parts, in order. */
  function PartTexts(parts: seq<Part>): seq<string> {
    FlatMap(parts, PartText)
  }

  function CandidateTexts(c: Candidate): seq<string> {
    if c.content.Some? && c.content.value.parts.Some? then PartTexts(c.content.value.parts.value) else []
  }

  function Texts(cands: seq<Candidate>): seq<string> {
    FlatMap(cands, CandidateTexts)
  }

  /** The loop over `data.get("candidates", [])`. */
  function ReplyTexts(reply: GeminiReply): seq<string> {
    if reply.candidates.Some? then Texts(reply.candidates.value) else []
  }

  /** A part contributes its stripped text, or nothing when that is blank. */
  lemma PartTextOne(p: Part)
    ensures PartText(p) == if IsBlank(TextOf(p)) then [] else [Strip(TextOf(p))]
    ensures AllClean(PartText(p))
  {
    var t := Strip(TextOf(p));
    StripEnds(TextOf(p));
    if t != [] {
      assert PartText(p) == [t];
      assert Clean(t);
    }
  }

  /** Every kept text is stripped and non-empty. */
  lemma PartTextsClean(parts: seq<Part>)
    ensures AllClean(PartTexts(parts))
  {
    forall k | 0 <= k < |parts| ensures AllClean(PartText(parts[k])) {
      PartTextOne(parts[k]);
    }
    FlatMapClean(parts, PartText);
  }

  lemma CandidateTextsClean(c: Candidate)
    ensures AllClean(CandidateTexts(c))
  {
    if c.content.Some? && c.content.value.parts.Some? {
      PartTextsClean(c.content.value.parts.value);
    }
  }

  lemma TextsClean(cands: seq<Candidate>)
    ensures AllClean(Texts(cands))
  {
    forall k | 0 <= k < |cands| ensures AllClean(CandidateTexts(cands[k])) {
      CandidateTextsClean(cands[k]);
    }
    FlatMapClean(cands, CandidateTexts);
  }

  lemma ReplyTextsClean(reply: GeminiReply)
    ensures AllClean(ReplyTexts(reply))
  {
    if reply.candidates.Some? {
      TextsClean(reply.candidates.value);
    }
  }

  /** A single part yields at most one text, stripped. */
  lemma PartTextsOne(p: Part)
    ensures PartTexts([p]) == if IsBlank(TextOf(p)) then [] else [Strip(TextOf(p))]
  {
    PartTextOne(p);
    assert [p][1..] == [];
    assert PartTexts([p]) == PartText(p) + FlatMap([], PartText);
  }

  /** Part lists, and candidate lists, contribute their texts in order. */
  lemma PartTextsAppend(a: seq<Part>, b: seq<Part>)
    ensures PartTexts(a + b) == PartTexts(a) + PartTexts(b)
  {
    FlatMapAppend(a, b, PartText);
  }

  lemma TextsAppend(a: seq<Candidate>, b: seq<Candidate>)
    ensures Texts(a + b) == Texts(a) + Texts(b)
  {
    FlatMapAppend(a, b, CandidateTexts);
  }

  /** A candidate without `content` or without `content.parts` contributes
      nothing. */
  lemma SkipsCandidateWithoutParts(c: Candidate, rest: seq<Candidate>)
    requires c.content.None? || c.content.value.parts.None?
    ensures Texts([c] + rest) == Texts(rest)
  {
    assert ([c] + rest)[1..] == rest;
  }

  lemma {:induction false} JoinEnds(ts: seq<string>)
    requires ts != [] && AllClean(ts)
    ensures Clean(ts[0]) && Clean(ts[|ts| - 1])
    ensures var j := JoinWith(ts, '\n');
      j != [] && j[0] == ts[0][0] && j[|j| - 1] == ts[|ts| - 1][|ts[|ts| - 1]| - 1]
  {
    assert Clean(ts[0]) && Clean(ts[|ts| - 1]);
    if |ts| > 1 {
      var rest := ts[1..];
      JoinEnds(rest);
      var tail := JoinWith(rest, '\n');
      assert JoinWith(ts, '\n') == ts[0] + ['\n'] + tail;
      assert rest[|rest| - 1] == ts[|ts| - 1];
    }
  }

  lemma StripOfClean(s: string)
    requires Clean(s)
    ensures Strip(s) == s
  {
  }

  /** `"\n".join(out).strip()`, with the apology when nothing was kept. */
  function GeminiText(reply: GeminiReply): (r: string)
    ensures ReplyTexts(reply) == [] ==> r == GeminiEmpty
    ensures ReplyTexts(reply) != [] ==> r == JoinWith(ReplyTexts(reply), '\n') && Clean(r)
  {
    var out := ReplyTexts(reply);
    ReplyTextsClean(reply);
    JoinOfCleanIsClean(out);
    var joined := Strip(JoinWith(out, '\n'));
    if joined == [] then GeminiEmpty else joined
  }

  /** Joining clean texts with newlines needs no further stripping. */
  lemma JoinOfCleanIsClean(ts: seq<string>)
    requires AllClean(ts)
    ensures ts == [] ==> Strip(JoinWith(ts, '\n')) == []
    ensures ts != [] ==> Clean(JoinWith(ts, '\n')) && Strip(JoinWith(ts, '\n')) == JoinWith(ts, '\n')
  {
    if ts != [] {
      JoinEnds(ts);
      StripOfClean(JoinWith(ts, '\n'));
    }
  }

  /** Which message `call_gemini` raises for a failed request. */
  datatype GeminiFault =
    | GeminiTimedOut
    | GeminiThrottled
    | GeminiKeyRejected
    | GeminiDown
    | GeminiCommunication(detail: string)
    | GeminiUnparsable

  /** The `except` clauses of `call_gemini`. A timeout is caught before the
      general request error; an HTTP status picks the class for 429, 401 and
      5xx; any other status, and a connection error, which carries no
      response, are generic communication errors. */
  function ClassifyGemini(f: Failure): (g: GeminiFault)
    ensures g == GeminiTimedOut <==> f.TimedOut?
    ensures g == GeminiThrottled <==> f.BadStatus? && f.code == 429
    ensures g == GeminiKeyRejected <==> f.BadStatus? && f.code == 401
    ensures g == GeminiDown <==> f.BadStatus? && f.code >= 500
    ensures g.GeminiCommunication? <==>
      f.Unreachable? || (f.BadStatus? && f.code != 429 && f.code != 401 && f.code < 500)
    ensures g.GeminiCommunication? ==> g.detail == f.detail
    ensures g == GeminiUnparsable <==> f.NotJson?
  {
    match f
    case TimedOut(_) => GeminiTimedOut
    case Unreachable(d) => GeminiCommunication(d)
    case BadStatus(code, d) =>
      if code == 429 then GeminiThrottled
      else if code == 401 then GeminiKeyRejected
      else if code >= 500 then GeminiDown
      else GeminiCommunication(d)
    case NotJson(_) => GeminiUnparsable
  }

  /** The text of the exception `call_gemini` raises; a communication error
      carries the exception text after a fixed prefix. */
  function GeminiMessage(g: GeminiFault): (m: string)
    ensures g.GeminiCommunication? ==>
      |m| == |GeminiCommPrefix| + |g.detail| && m[..|GeminiCommPrefix|] == GeminiCommPrefix && m[|GeminiCommPrefix|..] == g.detail
  {
    match g
    case GeminiTimedOut => GeminiTimeout
    case GeminiThrottled => GeminiRateLimited
    case GeminiKeyRejected => GeminiBadKey
    case GeminiDown => GeminiUnavailable
    case GeminiCommunication(d) => GeminiCommPrefix + d
    case GeminiUnparsable => GeminiParseError
  }

  /** `call_gemini` once the request has been made. */
  function Gemini(outcome: Outcome<GeminiReply>): (r: Result<string>)
    ensures r.Ok? <==> outcome.Received?
    ensures outcome.Received? ==> r.value == GeminiText(outcome.reply)
    ensures outcome.Failed? ==> r.error == GeminiMessage(ClassifyGemini(outcome.failure))
  {
    match outcome
    case Received(reply) => Ok(GeminiText(reply))
    case Failed(f) => Err(GeminiMessage(ClassifyGemini(f)))
  }

  // ---------------------------------------------------------------------------
  // Ollama
  // ---------------------------------------------------------------------------

  datatype OllamaReply = OllamaReply(response: Option<string>)

  const OllamaEmpty := "Não consegui gerar uma resposta. O modelo pode estar sobrecarregado."
  const OllamaDown := "Servidor Ollama não está respondendo. Verifique se o Ollama está rodando."
  const OllamaTimeout := "Tempo limite excedido. O modelo pode estar processando uma solicitação muito longa."
  const OllamaCommPrefix := "Erro de comunicação com o Ollama: "

  /** `(data.get("response") or "").strip()`, with the overload message when
      that is empty. */
  function OllamaText(reply: OllamaReply): (r: string)
    ensures var raw := if reply.response.Some? then reply.response.value else "";
      && (IsBlank(raw) ==> r == OllamaEmpty)
      && (!IsBlank(raw) ==> r == Strip(raw) && Clean(r))
  {
    var raw := if reply.response.Some? then reply.response.value else "";
    StripEnds(raw);
    var result := Strip(raw);
    if result == [] then OllamaEmpty else result
  }

  /** Which message `call_ollama` raises for a failed request; `Raw` is an
      exception that escapes with its own message. */
  datatype OllamaFault =
    | OllamaUnreachable
    | OllamaTimedOut
    | OllamaModelMissing
    | OllamaCommunication(detail: string)
    | OllamaRaw(detail: string)

  /** The `except` clauses of `call_ollama`. `ConnectTimeout` is both a
      connection error and a timeout, and the connection clause comes first,
      so only a read timeout is reported as a timeout. A status of 404 means
      the model is missing. A reply that is not JSON raises a `ValueError`,
      which no clause catches. */
  function ClassifyOllama(f: Failure): (g: OllamaFault)
    ensures g == OllamaUnreachable <==> f.Unreachable? || (f.TimedOut? && f.connecting)
    ensures g == OllamaTimedOut <==> f.TimedOut? && !f.connecting
    ensures g == OllamaModelMissing <==> f.BadStatus? && f.code == 404
    ensures g.OllamaCommunication? <==> f.BadStatus? && f.code != 404
    ensures g.OllamaRaw? <==> f.NotJson?
    ensures g.OllamaCommunication? || g.OllamaRaw? ==> g.detail == f.detail
  {
    match f
    case TimedOut(connecting) => if connecting then OllamaUnreachable else OllamaTimedOut
    case Unreachable(_) => OllamaUnreachable
    case BadStatus(code, d) => if code == 404 then OllamaModelMissing else OllamaCommunication(d)
    case NotJson(d) => OllamaRaw(d)
  }

  /** The text of the exception `call_ollama` raises. A missing model is
      named twice, once quoted and once in the suggested `ollama pull`; a
      communication error carries the exception text after a fixed prefix;
      an escaping exception keeps its own text. */
  function OllamaMessage(model: string, g: OllamaFault): (m: string)
    ensures g == OllamaModelMissing ==>
      && |m| > |model| + 8
      && m[..8] == "Modelo '" && m[8..8 + |model|] == model && m[|m| - |model|..] == model
    ensures g.OllamaCommunication? ==>
      |m| == |OllamaCommPrefix| + |g.detail| && m[..|OllamaCommPrefix|] == OllamaCommPrefix && m[|OllamaCommPrefix|..] == g.detail
    ensures g.OllamaRaw? ==> m == g.detail
  {
    match g
    case OllamaUnreachable => OllamaDown
    case OllamaTimedOut => OllamaTimeout
    case OllamaModelMissing => "Modelo '" + model + "' não encontrado. Execute: ollama pull " + model
    case OllamaCommunication(d) => OllamaCommPrefix + d
    case OllamaRaw(d) => d
  }

  /** `call_ollama` once the request has been made. */
  function Ollama(model: string, outcome: Outcome<OllamaReply>): (r: Result<string>)
    ensures r.Ok? <==> outcome.Received?
    ensures outcome.Received? ==> r.value == OllamaText(outcome.reply)
    ensures outcome.Failed? ==> r.error == OllamaMessage(model, ClassifyOllama(outcome.failure))
  {
    match outcome
    case Received(reply) => Ok(OllamaText(reply))
    case Failed(f) => Err(OllamaMessage(model, ClassifyOllama(f)))
  }

  // ---------------------------------------------------------------------------
  // call_llm
  // ---------------------------------------------------------------------------

  const MaxRetries := 2
  const EmptyPrompt := "Prompt cannot be empty"

  function Pow2(k: nat): (p: nat)
    ensures p >= 1
  {
    if k == 0 then 1 else 2 * Pow2(k - 1)
  }

  /** `not prompt or not prompt.strip()`. */
  function PromptIsEmpty(prompt: string): (b: bool)
    ensures b <==> IsBlank(prompt)
  {
    StripEnds(prompt);
    prompt == [] || Strip(prompt) == []
  }

  /** `call_llm(prompt, ...)`. A blank prompt is refused before any request.
      Otherwise the back end chosen by `LLM_PROVIDER` is called as `Retry`
      describes; `results(i)` is what that back end's call (`Gemini` or
      `Ollama`) returned on attempt `i`. */
  method CallLlm(prompt: string, provider: Option<string>, results: nat -> Result<string>)
    returns (r: Result<string>, backend: Backend, attempts: nat, waits: seq<nat>)
    ensures backend == BackendOf(GetProvider(provider))
    ensures IsBlank(prompt) ==> r == Err(EmptyPrompt) && attempts == 0 && waits == []
    ensures !IsBlank(prompt) ==> 1 <= attempts <= MaxRetries + 1 && r == results(attempts - 1)
    ensures !IsBlank(prompt) ==> forall i :: 0 <= i < attempts - 1 ==> results(i).Err?
    ensures !IsBlank(prompt) && r.Err? ==> attempts == MaxRetries + 1
    ensures !IsBlank(prompt) ==> |waits| == attempts - 1
    ensures forall i :: 0 <= i < |waits| ==> waits[i] == Pow2(i)
  {
    backend := BackendOf(GetProvider(provider));
    if PromptIsEmpty(prompt) {
      return Err(EmptyPrompt), backend, 0, [];
    }
    r, attempts, waits := Retry(results);
  }

  /** The attempt loop of `call_llm`: up to `max_retries + 1` attempts; the
      first success is returned, and after the last failure its error is
      raised again. `waits` are the backoff sleeps before each retry without
      their random jitter: 1 s, then 2 s. */
  method Retry(call: nat -> Result<string>) returns (r: Result<string>, attempts: nat, waits: seq<nat>)
    ensures 1 <= attempts <= MaxRetries + 1
    ensures r == call(attempts - 1)
    ensures forall i :: 0 <= i < attempts - 1 ==> call(i).Err?
    ensures r.Err? ==> attempts == MaxRetries + 1
    ensures |waits| == attempts - 1
    ensures forall i :: 0 <= i < |waits| ==> waits[i] == Pow2(i)
  {
    attempts := 0;
    waits := [];
    while true
      invariant attempts <= MaxRetries
      invariant forall i :: 0 <= i < attempts ==> call(i).Err?
      invariant |waits| == attempts
      invariant forall i :: 0 <= i < |waits| ==> waits[i] == Pow2(i)
      decreases MaxRetries - attempts
    {
      r := call(attempts);
      attempts := attempts + 1;
      if r.Ok? || attempts == MaxRetries + 1 {
        return;
      }
      waits := waits + [Pow2(attempts - 1)];
    }
  }
}
