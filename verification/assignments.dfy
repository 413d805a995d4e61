/** The `GET /api/assignments` scraper used by the Netlify and the Vercel
    deployments (the two handlers behave the same): pick the main
    content region of the page, clean its whitespace, and answer with it. */
module Assignments {
  import opened Wrappers
  import Json
  import Http
  import JsText
  import Normalize

  /** The `.text()` of each candidate region of the page, after navigation,
      footers, scripts and sidebars have been removed. */
  datatype PageTexts = PageTexts(
    entryContent: string,
    postContent: string,
    article: string,
    main: string,
    body: string)

  /** What fetching the page gave: its candidate texts, a reply whose status
      is not 2xx, or a thrown value (an `Error` with its message, or `None`
      for anything else). */
  datatype PageFetch =
    | Loaded(texts: PageTexts)
    | NotOk(status: nat, statusText: string)
    | Threw(error: Option<string>)

  /** `c0 || c1 || ... || last` on strings: the first non-empty candidate, or
      `last` (possibly empty) when every candidate is empty. */
  function FirstNonEmpty(candidates: seq<string>, last: string): (r: string)
    ensures (forall i | 0 <= i < |candidates| :: candidates[i] == "") ==> r == last
    ensures (exists i | 0 <= i < |candidates| :: candidates[i] != "") ==>
      exists i | 0 <= i < |candidates| ::
        && r == candidates[i]
        && r != ""
        && forall j | 0 <= j < i :: candidates[j] == ""
  {
    if |candidates| == 0 then last
    else if candidates[0] != "" then candidates[0]
    else
      var r := FirstNonEmpty(candidates[1..], last);
      assert forall i | 1 <= i < |candidates| :: candidates[i] == candidates[1..][i - 1];
      r
  }

  /** The main content: the entry content region, else the post content, else
      the article, else the `main` element, else the whole body. */
  function MainContent(p: PageTexts): (r: string)
    ensures p.entryContent != "" ==> r == p.entryContent
    ensures p.entryContent == "" && p.postContent != "" ==> r == p.postContent
    ensures p.entryContent == "" && p.postContent == "" && p.article != "" ==> r == p.article
    ensures p.entryContent == "" && p.postContent == "" && p.article == "" && p.main != "" ==> r == p.main
    ensures p.entryContent == "" && p.postContent == "" && p.article == "" && p.main == "" ==> r == p.body
  {
    var candidates := [p.entryContent, p.postContent, p.article, p.main];
    assert candidates[0] == p.entryContent && candidates[1] == p.postContent;
    assert candidates[2] == p.article && candidates[3] == p.main;
    FirstNonEmpty(candidates, p.body)
  }

  /** The message of the error thrown for a reply that is not 2xx. */
  function HttpErrorMessage(status: nat, statusText: string): string {
    "HTTP " + JsText.Decimal(status) + ": " + statusText
  }

  /** The handler: 200 with the cleaned main content and the fetch time, or
      500 with the thrown error's message. */
  function Handle(fetch: PageFetch, fetchedAt: string): (out: Http.Outcome)
    ensures out.Responded? && out.body.JsonBody?
    ensures out.status == 200 <==> fetch.Loaded?
    ensures fetch.Loaded? ==>
      && out.body.obj.Keys == {"success", "content", "fetchedAt"}
      && out.body.obj["success"] == Json.JBool(true)
      && out.body.obj["content"].JStr?
      && Normalize.IsClean(out.body.obj["content"].s)
      && out.body.obj["content"].s == Normalize.Clean(MainContent(fetch.texts))
      && out.body.obj["fetchedAt"] == Json.JStr(fetchedAt)
    ensures !fetch.Loaded? ==> out.status == 500 && "success" in out.body.obj && out.body.obj["success"] == Json.JBool(false)
    ensures fetch.NotOk? ==>
      out.body == Http.ErrorBody(HttpErrorMessage(fetch.status, fetch.statusText))
    ensures fetch == Threw(None) ==> out.body == Http.ErrorBody("Failed to fetch page")
    ensures fetch.Threw? && fetch.error.Some? ==> out.body == Http.ErrorBody(fetch.error.value)
  {
    match fetch
    case Loaded(texts) =>
      var cleaned := Normalize.Clean(MainContent(texts));
      Http.Responded(200, Http.JsonBody(map[
        "success" := Json.JBool(true),
        "content" := Json.JStr(cleaned),
        "fetchedAt" := Json.JStr(fetchedAt)]))
    case NotOk(status, statusText) =>
      Http.Responded(500, Http.ErrorBody(HttpErrorMessage(status, statusText)))
    case Threw(error) =>
      Http.Responded(500, Http.ErrorBody(Http.ErrorMessage(error, "Failed to fetch page")))
  }

  /** Re-scraping an unchanged page gives the same content, and content that
      went through the scraper is a fixed point of cleaning: the client's
      equality test is not fooled by whitespace the scraper already settled. */
  lemma ContentIsStable(texts: PageTexts, t1: string, t2: string)
    ensures Handle(Loaded(texts), t1).body.obj["content"] == Handle(Loaded(texts), t2).body.obj["content"]
    ensures var c := Handle(Loaded(texts), t1).body.obj["content"].s; Normalize.Clean(c) == c
  {
    Normalize.CleanIdempotent(MainContent(texts));
  }
}
