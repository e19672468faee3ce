/** The chat front of app.py that does not talk to a model: the `/calc`
    character whitelist, the slash-command dispatch of `answer_sync`, and the
    chunked server-sent-event stream that `answer_stream` produces when the
    provider is not Ollama. */
module Chat {
  import opened Results
  import opened Strings

  // ---------------------------------------------------------------------------
  // /calc whitelist
  // ---------------------------------------------------------------------------

  /** One character of the class `[0-9\.\+\-\*\/\(\)\s%]`. */
  predicate CalcChar(c: char) {
    ('0' <= c <= '9') || c in ".+-*/()%" || IsSpace(c)
  }

  /** A character that can begin a Python name (an ASCII letter, `_`, or any
      non-ASCII character that is not whitespace), i.e. the start of anything
      `eval` could look up or call. */
  predicate CanStartName(c: char) {
    ('a' <= c <= 'z') || ('A' <= c <= 'Z') || c == '_' || (c as int >= 128 && !IsSpace(c))
  }

  const InvalidExpression := "Expressão inválida"

  /** The guard in `Tools.calc`: the whole expression must match the class
      above one or more times; otherwise it raises "Expressão inválida". An
      accepted expression holds no character that could start a name, so the
      `eval` behind it only ever sees numbers and operators. */
  function CalcGuard(expr: string): (r: Result<string>)
    ensures r.Ok? <==> |expr| > 0 && forall i :: 0 <= i < |expr| ==> CalcChar(expr[i])
    ensures r.Ok? ==> r.value == expr && forall i :: 0 <= i < |expr| ==> !CanStartName(expr[i])
    ensures r.Err? ==> r.error == InvalidExpression
  {
    if |expr| > 0 && forall i :: 0 <= i < |expr| ==> CalcChar(expr[i]) then Ok(expr)
    else Err(InvalidExpression)
  }

  // ---------------------------------------------------------------------------
  // Slash commands of answer_sync
  // ---------------------------------------------------------------------------

  datatype Command =
    | Calc(expr: string)
    | Http(url: string)
    | Rss(topic: string)
    | Ask(question: string)

  /** The prefix dispatch at the top of `answer_sync`, tried in the order
      "/calc ", "/http ", "/rss "; anything else goes to the model. */
  function Dispatch(q: string): (c: Command)
    ensures c.Calc? <==> StartsWith(q, "/calc ")
    ensures c.Http? <==> !StartsWith(q, "/calc ") && StartsWith(q, "/http ")
    ensures c.Rss? <==> !StartsWith(q, "/calc ") && !StartsWith(q, "/http ") && StartsWith(q, "/rss ")
    ensures c.Calc? ==> q == "/calc " + c.expr
    ensures c.Http? ==> c.url == Strip(q[6..])
    ensures c.Rss? ==> c.topic == Strip(q[5..])
    ensures c.Ask? ==> c.question == q
  {
    if StartsWith(q, "/calc ") then
      assert q == "/calc " + q[6..];
      Calc(q[6..])
    else if StartsWith(q, "/http ") then
      Http(Strip(q[6..]))
    else if StartsWith(q, "/rss ") then
      Rss(Strip(q[5..]))
    else Ask(q)
  }

  /** A calculator command written out with its prefix dispatches back to
      the same expression. */
  lemma DispatchCalcInverse(arg: string)
    ensures Dispatch("/calc " + arg) == Calc(arg)
  {
    assert ("/calc " + arg)[..6] == "/calc ";
    assert ("/calc " + arg)[6..] == arg;
  }

  /** An HTTP command written out with its prefix dispatches to the stripped
      address. */
  lemma DispatchHttpInverse(arg: string)
    ensures Dispatch("/http " + arg) == Http(Strip(arg))
  {
    var q := "/http " + arg;
    assert q[..6] == "/http ";
    assert q[5] != "/calc "[5] || q[1] != "/calc "[1];
    assert q[6..] == arg;
  }

  /** An RSS command written out with its prefix dispatches to the stripped
      topic. */
  lemma DispatchRssInverse(arg: string)
    ensures Dispatch("/rss " + arg) == Rss(Strip(arg))
  {
    var q := "/rss " + arg;
    assert q[..5] == "/rss ";
    assert q[1] != "/calc "[1] && q[1] != "/http "[1];
    assert q[5..] == arg;
  }

  /** A question that does not begin with a slash goes to the model
      unchanged. */
  lemma DispatchPlainQuestion(q: string)
    requires q == [] || q[0] != '/'
    ensures Dispatch(q) == Ask(q)
  {
    if q != [] {
      assert |q| >= 5 ==> q[..5][0] != '/';
      assert |q| >= 6 ==> q[..6][0] != '/';
    }
  }

  datatype RssItem = RssItem(title: string, link: string)

  const CalcErrorPrefix := "Erro no calc: "
  const HttpRefused := "URL não permitida ou vazia."
  const RssNothing := "Nada encontrado."

  function RssLine(item: RssItem): string {
    "- [" + item.title + "](" + item.link + ")"
  }

  /** One Markdown link line per item, in search order. */
  function RssLines(items: seq<RssItem>): (lines: seq<string>)
    ensures |lines| == |items|
    ensures forall k :: 0 <= k < |items| ==> lines[k] == "- [" + items[k].title + "](" + items[k].link + ")"
  {
    seq(|items|, k requires 0 <= k < |items| => RssLine(items[k]))
  }

  function RssHeader(topic: string): string {
    "**RSS** sobre “" + topic + "”:\n\n"
  }

  function JoinLines(lines: seq<string>): string {
    JoinWith(lines, '\n')
  }

  /** `/calc`: the evaluated expression, or "Erro no calc: " and the reason
      the guard or the evaluation raised. */
  function CalcReply(expr: string, eval: string -> Result<string>): (r: string)
    ensures CalcGuard(expr).Err? ==> r == CalcErrorPrefix + InvalidExpression
    ensures CalcGuard(expr).Ok? && eval(expr).Ok? ==> r == eval(expr).value
    ensures CalcGuard(expr).Ok? && eval(expr).Err? ==> r == CalcErrorPrefix + eval(expr).error
  {
    var checked := CalcGuard(expr);
    if checked.Err? then CalcErrorPrefix + checked.error
    else
      var value := eval(expr);
      if value.Ok? then value.value else CalcErrorPrefix + value.error
  }

  /** `/http`: the fetched text, or a refusal when the guarded fetch gave
      nothing or an empty page. */
  function HttpReply(fetched: Option<string>): (r: string)
    ensures r != ""
    ensures fetched.Some? && fetched.value != "" ==> r == fetched.value
    ensures fetched == None || fetched == Some("") ==> r == HttpRefused
  {
    if fetched.None? || fetched.value == "" then HttpRefused else fetched.value
  }

  /** `/rss`: "Nada encontrado." exactly when the search found nothing,
      otherwise a header naming the topic followed by the items' link lines
      joined by newlines. */
  function RssReply(topic: string, items: seq<RssItem>): (r: string)
    ensures r == RssNothing <==> items == []
    ensures items != [] ==> StartsWith(r, RssHeader(topic))
    ensures items != [] ==> r == RssHeader(topic) + JoinLines(RssLines(items))
  {
    if items == [] then RssNothing
    else
      var header := RssHeader(topic);
      var reply := header + JoinLines(RssLines(items));
      assert reply[0] != RssNothing[0];
      assert reply[..|header|] == header;
      reply
  }

  /** The reply `answer_sync` gives to a slash command, with the calculator,
      the guarded HTTP fetch and the RSS search as parameters; `None` means
      the question goes on to the model. */
  function SlashReply(
    q: string,
    eval: string -> Result<string>,
    fetch: string -> Option<string>,
    search: string -> seq<RssItem>): (r: Option<string>)
    ensures r.None? <==> Dispatch(q).Ask?
    ensures Dispatch(q).Calc? ==> r == Some(CalcReply(Dispatch(q).expr, eval))
    ensures Dispatch(q).Http? ==> r == Some(HttpReply(fetch(Dispatch(q).url)))
    ensures Dispatch(q).Rss? ==> r == Some(RssReply(Dispatch(q).topic, search(Dispatch(q).topic)))
  {
    match Dispatch(q)
    case Calc(expr) => Some(CalcReply(expr, eval))
    case Http(url) => Some(HttpReply(fetch(url)))
    case Rss(topic) => Some(RssReply(topic, search(topic)))
    case Ask(_) => None
  }

  // ---------------------------------------------------------------------------
  // Chunked SSE stream (provider other than Ollama)
  // ---------------------------------------------------------------------------

  const ChunkSize: nat := 220

  function Concat(parts: seq<string>): string {
    if parts == [] then [] else Concat(parts[..|parts| - 1]) + parts[|parts| - 1]
  }

  /** `[text[i:i+220] for i in range(0, len(text), 220)]`: consecutive
      slices that rebuild the text, every one but the last exactly 220
      characters long, none empty. */
  method ChunkText(text: string) returns (parts: seq<string>)
    ensures Concat(parts) == text
    ensures |parts| == (|text| + ChunkSize - 1) / ChunkSize
    ensures forall k :: 0 <= k < |parts| ==> 0 < |parts[k]| <= ChunkSize
    ensures forall k :: 0 <= k < |parts| - 1 ==> |parts[k]| == ChunkSize
  {
    parts := [];
    var i := 0;
    while i < |text|
      invariant i <= |text|
      invariant i == |parts| * ChunkSize
      invariant Concat(parts) == text[..i]
      invariant forall k :: 0 <= k < |parts| ==> |parts[k]| == ChunkSize
    {
      var j := if i + ChunkSize <= |text| then i + ChunkSize else |text|;
      assert Concat(parts + [text[i..j]]) == Concat(parts) + text[i..j] by {
        assert (parts + [text[i..j]])[..|parts|] == parts;
      }
      assert text[..i] + text[i..j] == text[..j];
      if j < i + ChunkSize {
        parts := parts + [text[i..j]];
        assert text[..j] == text;
        return;
      }
      parts := parts + [text[i..j]];
      i := j;
    }
    assert text[..i] == text;
  }

  datatype Event = Start | Delta(text: string) | End | Failure(message: string)

  function Payload(events: seq<Event>): string {
    if events == [] then []
    else
      var last := events[|events| - 1];
      Payload(events[..|events| - 1]) + (if last.Delta? then last.text else [])
  }

  lemma PayloadAppend(events: seq<Event>, e: Event)
    ensures Payload(events + [e]) == Payload(events) + (if e.Delta? then e.text else [])
  {
    assert (events + [e])[..|events|] == events;
  }

  /** A well-formed answer stream for `text`: `start`, then non-empty deltas
      of at most 220 characters that concatenate to `text`, then `end`. */
  predicate StreamOf(events: seq<Event>, text: string) {
    && |events| >= 2 && events[0] == Start && events[|events| - 1] == End
    && (forall k :: 0 < k < |events| - 1 ==> events[k].Delta? && 0 < |events[k].text| <= ChunkSize)
    && Payload(events) == text
  }

  /** `answer_stream` outside Ollama: a `start` event, one `data` event per
      220-character slice of the model's answer, then `end`. The data payloads
      concatenate back to the answer. */
  method AnswerStream(answer: string) returns (events: seq<Event>)
    ensures |events| >= 2 && events[0] == Start && events[|events| - 1] == End
    ensures forall k :: 0 < k < |events| - 1 ==> events[k].Delta? && 0 < |events[k].text| <= ChunkSize
    ensures Payload(events) == answer
    ensures StreamOf(events, answer)
  {
    var parts := ChunkText(answer);
    events := [Start];
    var k := 0;
    while k < |parts|
      invariant k <= |parts|
      invariant |events| == k + 1 && events[0] == Start
      invariant forall m :: 0 < m < |events| ==> events[m] == Delta(parts[m - 1])
      invariant Payload(events) == Concat(parts[..k])
    {
      PayloadAppend(events, Delta(parts[k]));
      assert parts[..k + 1][..k] == parts[..k];
      events := events + [Delta(parts[k])];
      k := k + 1;
    }
    assert parts[..k] == parts;
    PayloadAppend(events, End);
    events := events + [End];
  }

  const MissingQuery := "Falta parâmetro q"

  /** The `/responder_stream` route: a blank `q` yields a lone error event;
      otherwise the stream of the model's answer to the stripped query. */
  method ResponderStream(q: string, answer: string -> string) returns (events: seq<Event>)
    ensures Strip(q) == [] <==> events == [Failure(MissingQuery)]
    ensures Strip(q) != [] ==> StreamOf(events, answer(Strip(q)))
  {
    var query := Strip(q);
    if query == [] {
      events := [Failure(MissingQuery)];
    } else {
      events := AnswerStream(answer(query));
    }
  }
}
