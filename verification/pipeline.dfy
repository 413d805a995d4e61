/** How the dashboard's summarize request meets the endpoint: the request the
    client builds always passes validation, and only a reply the model really
    produced can become a history entry. */
module Pipeline {
  import opened Wrappers
  import opened Json
  import Http
  import Summarize
  import Poll

  /** The body `summarizeChanges` posts. */
  function ClientRequest(oldContent: string, newContent: string): Value {
    JObj(map["previousContent" := JStr(oldContent), "currentContent" := JStr(newContent)])
  }

  /** What `res.json()` makes of an endpoint outcome: a JSON body is read back
      as the object it holds; a text body ("Method Not Allowed") and the
      platform's answer to an escaped exception are not JSON, so reading them
      throws. */
  function ClientView(out: Http.Outcome): Poll.SummarizeOutcome {
    if out.Responded? && out.body.JsonBody? then Poll.SummarizeReplied(JObj(out.body.obj))
    else Poll.SummarizeThrew
  }

  /** The client only summarizes remembered, non-empty content against new,
      non-empty content, so its request is never a 400 and goes straight to
      the model. */
  lemma ClientRequestIsValid(oldContent: string, newContent: string, rt: Summarize.Runtime,
                             model: string -> Summarize.ModelReply)
    requires oldContent != "" && newContent != ""
    ensures Summarize.Respond(ClientRequest(oldContent, newContent), rt, model)
         == Summarize.Summarize(oldContent, newContent, model, rt.parse)
  {
  }

  /** A reply the client records came from a parsed model answer whose own
      `hasChanges` was truthy: failed calls, failed parses and the fallback
      record never reach the history. */
  lemma OnlyParsedChangesAreRecorded(previous: string, current: string,
      model: string -> Summarize.ModelReply, parse: string -> Result<Value, string>)
    requires
      var view := ClientView(Summarize.Summarize(previous, current, model, parse));
      view.SummarizeReplied? && Poll.Qualifies(view.result)
    ensures model(Summarize.Payload(previous, current)).Answered?
    ensures
      var text := model(Summarize.Payload(previous, current)).content.GetOr("");
      && Summarize.HasBracePair(text)
      && parse(Summarize.ExtractObject(text).value).Success?
      && Truthy(Member(parse(Summarize.ExtractObject(text).value).value, "hasChanges"))
  {
  }
}
