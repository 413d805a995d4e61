/** What an endpoint hands back to its platform: a status code and a body, or
    an exception that escapes the handler (the platform then answers with its
    own generic failure). */
module Http {
  import Json
  import Wrappers

  datatype Body =
    | JsonBody(obj: Json.Object)
    | TextBody(text: string)

  datatype Outcome =
    | Responded(status: int, body: Body)
    | Escaped

  /** `{ success: false, error: message }` as a JSON body. */
  function ErrorBody(message: string): (b: Body)
    ensures b.JsonBody? && b.obj.Keys == {"success", "error"}
    ensures b.obj["success"] == Json.JBool(false) && b.obj["error"] == Json.JStr(message)
  {
    JsonBody(map["success" := Json.JBool(false), "error" := Json.JStr(message)])
  }

  /** The message an `error instanceof Error ? error.message : fallback`
      expression produces; `None` stands for a thrown value that is not an
      `Error`. */
  function ErrorMessage(error: Wrappers.Option<string>, fallback: string): string {
    error.GetOr(fallback)
  }
}
