/** `POST /api/summarize`, as served by the Cloudflare worker and by the
    Netlify function. Both read `previousContent` and `currentContent` from the
    JSON request, reject a request missing either, send both versions to a
    language model, pull the JSON object out of its free-text answer with the
    greedy pattern `/\{[\s\S]*\}/`, and answer with that object merged over
    `{ success: true }`.

    The language model and `JSON.parse` are foreign: they enter as function
    parameters, so whatever a handler does not pass them cannot influence its
    answer. */
module Summarize {
  import opened Wrappers
  import opened Json
  import opened Http

  const MissingContent := "Missing content"
  const Unparsed := "Unable to parse changes"
  const FailedToSummarize := "Failed to summarize"

  const PreviousHeading := "PREVIOUS VERSION:\n"
  const Divider := "\n\n---\n\nCURRENT VERSION:\n"

  /** The model's answer: the text of the first choice (`None` when there is
      no choice, message or content), or a failed call with the thrown
      error's message (`None` for a thrown value that is not an `Error`). */
  datatype ModelReply =
    | Answered(content: Option<string>)
    | CallFailed(error: Option<string>)

  /** The foreign pieces of the JavaScript runtime: `JSON.parse` (failing with
      the SyntaxError's message) and the string conversion a template literal
      applies to a value that is not a string, which fails with the
      TypeError's message when the value has no callable `toString` or
      `valueOf` (`{"toString": 1}`, say). */
  datatype Runtime = Runtime(
    parse: string -> Result<Value, string>,
    toText: Value -> Result<string, string>)

  /** `${v}` in a template literal: a string is inserted as it is. */
  function TemplateText(v: Value, rt: Runtime): (r: Result<string, string>)
    ensures v.JStr? ==> r == Success(v.s)
    ensures !v.JStr? ==> r == rt.toText(v)
  {
    if v.JStr? then Success(v.s) else rt.toText(v)
  }

  /** The user message: both versions verbatim, the previous one after its
      heading and the current one after the divider, at the very end. */
  function Payload(previous: string, current: string): (p: string)
    ensures |p| == |PreviousHeading| + |previous| + |Divider| + |current|
    ensures p[..|PreviousHeading|] == PreviousHeading
    ensures p[|PreviousHeading|..|PreviousHeading| + |previous|] == previous
    ensures p[|PreviousHeading| + |previous|..|p| - |current|] == Divider
    ensures p[|p| - |current|..] == current
  {
    PreviousHeading + previous + Divider + current
  }

  /** Two payloads built around the same previous text are equal exactly
      when the current texts are. */
  lemma PayloadDeterminesCurrent(previous: string, c1: string, c2: string)
    ensures Payload(previous, c1) == Payload(previous, c2) <==> c1 == c2
  {
    if Payload(previous, c1) == Payload(previous, c2) {
      var p := Payload(previous, c1);
      assert |c1| == |c2|;
      assert c1 == p[|p| - |c1|..] == c2;
    }
  }

  // ------------------------------------------------------- brace extraction

  /** The reply holds a `{` somewhere before a `}`. */
  predicate HasBracePair(text: string) {
    exists i, j | 0 <= i < j < |text| :: text[i] == '{' && text[j] == '}'
  }

  /** The index of the first `c` at or after `i` (`|s|` when there is none). */
  function FindFirst(s: string, c: char, i: nat): (k: nat)
    requires i <= |s|
    ensures i <= k <= |s|
    ensures forall m | i <= m < k :: s[m] != c
    ensures k < |s| ==> s[k] == c
    decreases |s| - i
  {
    if i == |s| || s[i] == c then i else FindFirst(s, c, i + 1)
  }

  /** The index of the last `c` before `j` (`-1` when there is none). */
  function FindLast(s: string, c: char, j: nat): (k: int)
    requires j <= |s|
    ensures -1 <= k < j
    ensures forall m | k < m < j :: s[m] != c
    ensures k >= 0 ==> s[k] == c
    decreases j
  {
    if j == 0 then -1 else if s[j - 1] == c then j - 1 else FindLast(s, c, j - 1)
  }

  /** `text.match(/\{[\s\S]*\}/)`: the leftmost `{` that has a `}` after it,
      up to and including the last `}` of the text. */
  function ExtractObject(text: string): (m: Option<string>)
    ensures m.Some? <==> HasBracePair(text)
    ensures m.Some? ==>
      var i := FindFirst(text, '{', 0);
      var j := FindLast(text, '}', |text|);
      && 0 <= i < j < |text|
      && m.value == text[i..j + 1]
      && (forall k | 0 <= k < i :: text[k] != '{')
      && (forall k | j < k < |text| :: text[k] != '}')
    ensures m.Some? ==> |m.value| >= 2 && m.value[0] == '{' && m.value[|m.value| - 1] == '}'
  {
    var i := FindFirst(text, '{', 0);
    var j := FindLast(text, '}', |text|);
    BracePairBounds(text);
    if i < j then Some(text[i..j + 1]) else None
  }

  /** A brace pair exists exactly when the first `{` comes before the last `}`. */
  lemma BracePairBounds(text: string)
    ensures HasBracePair(text) <==> FindFirst(text, '{', 0) < FindLast(text, '}', |text|)
  {
    var i := FindFirst(text, '{', 0);
    var j := FindLast(text, '}', |text|);
    if HasBracePair(text) {
      var a, b :| 0 <= a < b < |text| && text[a] == '{' && text[b] == '}';
      assert i <= a;
      assert b <= j;
    }
    if i < j {
      assert text[i] == '{' && text[j] == '}';
    }
  }

  // ------------------------------------------------------------- answering

  /** The record sent when the answer holds no brace pair. */
  const Fallback: Object := map[
    "success" := JBool(true),
    "hasChanges" := JBool(false),
    "summary" := JStr(Unparsed),
    "subjects" := JArr([])]

  /** `{ success: true, ...parsed }`: the parsed object's keys win. */
  function Merge(parsed: Value): (obj: Object)
    ensures obj.Keys == {"success"} + Spread(parsed).Keys
    ensures forall k | k in Spread(parsed) :: obj[k] == Spread(parsed)[k]
    ensures "success" !in Spread(parsed) ==> obj["success"] == JBool(true)
  {
    map["success" := JBool(true)] + Spread(parsed)
  }

  /** Lines 80-94 of the worker: turn the model's text into the response. A
      failed parse is thrown and ends as a 500, like a failed call. */
  function Answer(text: string, parse: string -> Result<Value, string>): (out: Outcome)
    ensures out.Responded? && out.body.JsonBody?
    ensures !HasBracePair(text) ==> out == Responded(200, JsonBody(Fallback))
    ensures HasBracePair(text) ==>
      var m := ExtractObject(text).value;
      match parse(m)
      case Success(v) => out == Responded(200, JsonBody(Merge(v)))
      case Failure(e) => out == Responded(500, ErrorBody(e))
  {
    match ExtractObject(text)
    case None => Responded(200, JsonBody(Fallback))
    case Some(m) =>
      match parse(m)
      case Success(v) => Responded(200, JsonBody(Merge(v)))
      case Failure(e) => Responded(500, ErrorBody(e))
  }

  /** Everything after validation: call the model on the payload and answer. */
  function Summarize(previous: string, current: string, model: string -> ModelReply,
                     parse: string -> Result<Value, string>): (out: Outcome)
    ensures out.Responded? && out.body.JsonBody?
    ensures out.status == 200 || out.status == 500
    ensures model(Payload(previous, current)).CallFailed? ==>
      out == Responded(500, ErrorBody(model(Payload(previous, current)).error.GetOr(FailedToSummarize)))
    ensures model(Payload(previous, current)).Answered? ==>
      out == Answer(model(Payload(previous, current)).content.GetOr(""), parse)
  {
    match model(Payload(previous, current))
    case CallFailed(error) => Responded(500, ErrorBody(error.GetOr(FailedToSummarize)))
    case Answered(content) => Answer(content.GetOr(""), parse)
  }

  /** Destructure the request and validate it: `null` cannot be destructured
      (a TypeError that escapes the handler), and a field that is absent,
      `null`, `false`, `0` or `""` is missing content. Building the payload
      is inside the `try`: a field that cannot be turned into text ends as a
      500 before the model is called, the previous version's first. */
  function Respond(request: Value, rt: Runtime, model: string -> ModelReply): (out: Outcome)
    ensures out.Escaped? <==> request.JNull?
    ensures out.Responded? ==> out.status == 200 || out.status == 400 || out.status == 500
    ensures out.Responded? ==> out.body.JsonBody?
    ensures !request.JNull? && Truthy(Member(request, "previousContent")) && Truthy(Member(request, "currentContent")) ==>
      var previous := TemplateText(Member(request, "previousContent").value, rt);
      var current := TemplateText(Member(request, "currentContent").value, rt);
      && (previous.Failure? ==> out == Responded(500, ErrorBody(previous.error)))
      && (previous.Success? && current.Failure? ==> out == Responded(500, ErrorBody(current.error)))
      && (previous.Success? && current.Success? ==> out == Summarize(previous.value, current.value, model, rt.parse))
  {
    if request.JNull? then Escaped
    else
      var previous := Member(request, "previousContent");
      var current := Member(request, "currentContent");
      if !Truthy(previous) || !Truthy(current) then Responded(400, ErrorBody(MissingContent))
      else
        match TemplateText(previous.value, rt)
        case Failure(e) => Responded(500, ErrorBody(e))
        case Success(p) =>
          match TemplateText(current.value, rt)
          case Failure(e) => Responded(500, ErrorBody(e))
          case Success(c) => Summarize(p, c, model, rt.parse)
  }

  /** The Cloudflare worker's route: the body is parsed outside the `try`,
      so a body that is not JSON escapes the handler. */
  function WorkerHandle(body: string, rt: Runtime, model: string -> ModelReply): (out: Outcome)
    ensures rt.parse(body).Failure? ==> out == Escaped
    ensures rt.parse(body).Success? ==> out == Respond(rt.parse(body).value, rt, model)
  {
    match rt.parse(body)
    case Failure(_) => Escaped
    case Success(request) => Respond(request, rt, model)
  }

  /** The Netlify function: anything but POST is refused before the body is
      looked at; an absent or empty body reads as `"{}"`. */
  function NetlifyHandle(httpMethod: string, body: Option<string>, rt: Runtime,
                         model: string -> ModelReply): (out: Outcome)
    ensures httpMethod != "POST" ==> out == Responded(405, TextBody("Method Not Allowed"))
    ensures httpMethod == "POST" && body.Some? && body.value != "" ==>
      out == WorkerHandle(body.value, rt, model)
  {
    if httpMethod != "POST" then Responded(405, TextBody("Method Not Allowed"))
    else
      var text := if body.None? || body.value == "" then "{}" else body.value;
      match rt.parse(text)
      case Failure(_) => Escaped
      case Success(request) => Respond(request, rt, model)
  }

  // ---------------------------------------------------------------- lemmas

  /** A 400 comes back exactly when the request is an object-like value whose
      `previousContent` or `currentContent` is falsy; it is always the same
      body, so the model cannot have been consulted. */
  lemma {:induction false} MissingContentIff(request: Value, rt: Runtime, model: string -> ModelReply)
    ensures var out := Respond(request, rt, model);
      (out.Responded? && out.status == 400) <==>
        (!request.JNull? &&
         (!Truthy(Member(request, "previousContent")) || !Truthy(Member(request, "currentContent"))))
    ensures var out := Respond(request, rt, model);
      out.Responded? && out.status == 400 ==> out.body == ErrorBody(MissingContent)
  {
    if !request.JNull? {
      var previous := Member(request, "previousContent");
      var current := Member(request, "currentContent");
      if Truthy(previous) && Truthy(current) {
        var p := TemplateText(previous.value, rt);
        var c := TemplateText(current.value, rt);
        if p.Success? && c.Success? {
          var out := Summarize(p.value, c.value, model, rt.parse);
          assert out.status != 400;
        }
      }
    }
  }

  /** A truthy field that cannot be turned into text (an object without a
      callable `toString`) ends as a 500 with the conversion's message,
      whatever the model would have answered. */
  lemma UnconvertibleFieldIs500(fields: map<string, Value>, rt: Runtime,
                                model1: string -> ModelReply, model2: string -> ModelReply)
    requires "previousContent" in fields && "currentContent" in fields
    requires Truthy(Some(fields["currentContent"]))
    requires fields["previousContent"].JObj? && rt.toText(fields["previousContent"]).Failure?
    ensures Respond(JObj(fields), rt, model1) == Responded(500, ErrorBody(rt.toText(fields["previousContent"]).error))
    ensures Respond(JObj(fields), rt, model1) == Respond(JObj(fields), rt, model2)
  {
  }

  /** Absent and empty fields are both rejected. */
  lemma EmptyOrAbsentRejected(fields: map<string, Value>, rt: Runtime, model: string -> ModelReply)
    requires "previousContent" !in fields || fields["previousContent"] == JStr("")
    ensures Respond(JObj(fields), rt, model) == Responded(400, ErrorBody(MissingContent))
  {
  }

  /** A Netlify request without a body is treated as `{}` and rejected. */
  lemma NetlifyMissingBody(rt: Runtime, model: string -> ModelReply)
    requires rt.parse("{}") == Success(JObj(map[]))
    ensures NetlifyHandle("POST", None, rt, model) == Responded(400, ErrorBody(MissingContent))
    ensures NetlifyHandle("POST", Some(""), rt, model) == Responded(400, ErrorBody(MissingContent))
  {
  }

  /** Where the two deployments part ways: an empty body is a 400 on Netlify
      but escapes the worker, since `""` is not JSON. */
  lemma EmptyBodyDiffers(rt: Runtime, model: string -> ModelReply)
    requires rt.parse("{}") == Success(JObj(map[]))
    requires rt.parse("").Failure?
    ensures WorkerHandle("", rt, model) == Escaped
    ensures NetlifyHandle("POST", Some(""), rt, model) != WorkerHandle("", rt, model)
  {
  }

  /** A valid request whose answer holds no brace pair (including an answer
      with no content at all) gets the fixed fallback record. */
  lemma NoObjectFallback(previous: string, current: string, model: string -> ModelReply,
                         parse: string -> Result<Value, string>)
    requires model(Payload(previous, current)).Answered?
    requires !HasBracePair(model(Payload(previous, current)).content.GetOr(""))
    ensures Summarize(previous, current, model, parse) == Responded(200, JsonBody(Fallback))
  {
  }

  /** With no answer text at all, the fallback record is sent. */
  lemma NoContentFallback(previous: string, current: string, model: string -> ModelReply,
                          parse: string -> Result<Value, string>)
    requires model(Payload(previous, current)) == Answered(None)
    ensures Summarize(previous, current, model, parse) == Responded(200, JsonBody(Fallback))
  {
    assert !HasBracePair("");
  }

  /** A parsed object is passed through with `success: true` added, unless it
      brings its own `success`, which wins (a 200 can then say
      `success: false`). */
  lemma ParsedObjectWins(text: string, parse: string -> Result<Value, string>, fields: Object)
    requires HasBracePair(text)
    requires parse(ExtractObject(text).value) == Success(JObj(fields))
    ensures Answer(text, parse).status == 200
    ensures forall k | k in fields :: Answer(text, parse).body.obj[k] == fields[k]
    ensures "success" !in fields ==> Answer(text, parse).body.obj["success"] == JBool(true)
  {
  }

  /** A parse failure is not degraded to the fallback: it is a 500 whose
      `success` is false. */
  lemma ParseFailureIs500(text: string, parse: string -> Result<Value, string>)
    requires HasBracePair(text)
    requires parse(ExtractObject(text).value).Failure?
    ensures Answer(text, parse) == Responded(500, ErrorBody(parse(ExtractObject(text).value).error))
    ensures Answer(text, parse).body.obj["success"] == JBool(false)
  {
  }
}
