# Homework-updates watcher: a Dafny model of its change pipeline

The system watches one school blog page that lists weekly assignments. A
dashboard polls a scraper endpoint every few seconds. The scraper picks the
page's main content and cleans its whitespace. When the text differs from the
last text seen, the dashboard asks a summarize endpoint to compare the two
versions. That endpoint has a language model describe the change as JSON,
pulls the JSON object out of the model's free-text answer, and returns it.
Qualifying answers go into an in-memory history that holds at most twenty
entries, newest first.

This project models that pipeline as pure functions over immutable data and
proves what each step promises:

- `normalize.dfy` models the cleaning chain: tab to space, space runs to one,
  three or more line feeds to two, then trim.
- `assignments.dfy` models main-content selection and the `GET /api/assignments`
  handler. The Netlify and Vercel copies of that handler answer with the same
  statuses and bodies; only their response APIs differ.
- `summarize.dfy` models `POST /api/summarize` for the Cloudflare worker and
  the Netlify function: request validation, the method check, the user payload,
  the greedy `/\{[\s\S]*\}/` extraction, the merge, the fallback record and the
  error statuses.
- `poll.dfy` models one dashboard poll cycle as a state step, with the
  invariants every reachable state keeps.
- `dashboard.dfy` models the subject-tab filter, the relative-time label and
  the update count.
- `pipeline.dfy` connects the client's summarize request to the endpoint.
- Shared pieces: `json.dfy` (JSON values, JavaScript truthiness and property
  access), `http.dfy` (response shapes), `js_text.dfy` (the JavaScript
  whitespace class, ASCII lower-casing, `includes`, decimal rendering) and
  `wrappers.dfy`.

Two things are foreign: the language model, and `JSON.parse` together with
`String()` of non-string values. Both enter as function parameters. So when a
handler does not consult the model, its answer provably cannot depend on it.

## Model

| member | source | states |
|---|---|---|
| Normalize.ReplaceTabs | netlify/functions/assignments.ts:38 | Every tab becomes a space and nothing else changes; the output has no tab and the same length. |
| Normalize.CollapseSpaces | netlify/functions/assignments.ts:39 | Never longer than the input, keeps its first character, only uses input characters, and leaves no two spaces in a row. |
| Normalize.CollapseSpacesRun | netlify/functions/assignments.ts:39 | A maximal run of one or more spaces becomes exactly one space and the rest of the text is processed on its own, as the greedy global replace does. |
| Normalize.CollapseSpacesKeeps | netlify/functions/assignments.ts:39 | A character other than a space is copied through and the rest of the text is processed on its own; with `CollapseSpacesRun` this fixes the step on every text. |
| Normalize.CollapseSpacesFixes | api/assignments.ts:32 | Text with no double space passes the space-collapsing step unchanged. |
| Normalize.CollapseNewlines | netlify/functions/assignments.ts:40 | Leaves no three line feeds in a row, keeps the first two characters and never lengthens; it preserves the absence of double spaces, because a run of line feeds never shrinks below two. |
| Normalize.CollapseNewlinesRun | netlify/functions/assignments.ts:40 | A maximal run of k line feeds keeps min(k, 2) of them and the rest is processed on its own. |
| Normalize.CollapseNewlinesKeeps | netlify/functions/assignments.ts:40 | A character other than a line feed is copied through and the rest of the text is processed on its own; with `CollapseNewlinesRun` this fixes the step on every text. |
| Normalize.CollapseNewlinesFixes | api/assignments.ts:33 | Text with no triple line feed passes the line-feed step unchanged. |
| Normalize.Trim | netlify/functions/assignments.ts:41 | The result is a contiguous slice of the input with no JavaScript whitespace at either end, and everything cut off on both sides is whitespace. |
| Normalize.TrimFixes | api/assignments.ts:34 | Text with no whitespace at either end is not changed by trimming. |
| Normalize.Clean | netlify/functions/assignments.ts:37-41 | The cleaned text has no tab, no double space, no triple line feed and no leading or trailing whitespace; it is never longer than the input, and each character comes from the input or is a space that replaced a tab. |
| Normalize.CleanFixes | api/assignments.ts:30-34 | Text that already has the clean shape is returned unchanged. |
| Normalize.CleanIdempotent | netlify/functions/assignments.ts:37-41 | Cleaning twice equals cleaning once. |
| Normalize.WhitespaceLinesSurvive | netlify/functions/assignments.ts:39-40 | Line feeds separated by single spaces are not a run, so `a\n \n \nb` comes through cleaning unchanged. |
| Assignments.FirstNonEmpty | netlify/functions/assignments.ts:29-34 | A chain of `\|\|` over strings returns the first non-empty candidate when there is one (all earlier candidates are empty), else the last operand. |
| Assignments.MainContent | api/assignments.ts:23-28 | The content comes from the entry-content region, else post-content, else article, else main, else the body text (possibly empty). |
| Assignments.Handle | netlify/functions/assignments.ts:16-61 | Status is 200 exactly when the page loaded; the 200 body is `{success:true, content, fetchedAt}`, whose content is the cleaned main content and has the clean shape. Failures are 500 with `success:false` and the thrown message: `HTTP <status>: <text>` for a non-2xx reply, the `Error`'s own message when fetching throws one, "Failed to fetch page" for any other thrown value. |
| Assignments.ContentIsStable | api/assignments.ts:30-40 | The same page gives the same content at any fetch time, and that content is a fixed point of cleaning. |
| JsText.IncludesIff | src/react-app/pages/Home.tsx:120 | The left-to-right `includes` scan is true exactly when the needle occurs at some index. |
| JsText.Decimal | src/react-app/pages/Home.tsx:111-113 | A template literal renders a non-negative integer below 10^21 as non-empty digits with no leading zero, and those digits read back to the number. |
| JsText.DecimalUnique | src/react-app/pages/Home.tsx:111-113 | Every digit string without a leading zero is the rendering of its own value, so the rendering is the only such spelling. |
| Summarize.Payload | src/worker/index.ts:74 | The user message begins with the PREVIOUS VERSION heading, holds the previous text verbatim right after it, then the divider, and ends with the current text verbatim. |
| Summarize.PayloadDeterminesCurrent | src/worker/index.ts:74 | For a fixed previous text, two payloads are equal exactly when the current texts are. |
| Summarize.ExtractObject | src/worker/index.ts:83 | A match exists exactly when some `{` precedes some `}`. The match runs from the first `{` to the last `}`, so it starts with `{` and ends with `}`. |
| Summarize.BracePairBounds | netlify/functions/summarize.ts:52 | A `{` before a `}` exists exactly when the first `{` lies before the last `}`. |
| Summarize.Merge | src/worker/index.ts:86 | `{success:true, ...parsed}` has the parsed keys plus `success`; every parsed key keeps its parsed value, including `success`, and `success` is forced to true when the parsed object lacks it. |
| Summarize.Answer | src/worker/index.ts:80-94 | No brace pair gives 200 with the fixed fallback record. A parsed match gives 200 with the merged object. A failed parse gives 500 with the parser's message. |
| Summarize.Summarize | src/worker/index.ts:53-100 | The status is always 200 or 500. A failed model call gives 500 with `success:false` and the error's message, or "Failed to summarize" for a non-Error. An answered call is handled by `Answer` on the answer text, read as "" when absent. |
| Summarize.Respond | src/worker/index.ts:39-74 | The handler escapes exactly when the request is `null`, which cannot be destructured; every other outcome is a JSON response with status 200, 400 or 500. With both fields truthy, a field whose template conversion throws gives a 500 with that message (the previous version is converted first); otherwise the payload built from both texts goes to the model. |
| Summarize.WorkerHandle | src/worker/index.ts:39-46 | A body that is not JSON escapes the worker's handler, because it is parsed outside the `try`; a body that parses goes on to validation as the request. |
| Summarize.NetlifyHandle | netlify/functions/summarize.ts:4-17 | Any method other than POST gives 405 "Method Not Allowed" whatever the body. A POST with a non-empty body behaves exactly like the worker. |
| Summarize.MissingContentIff | src/worker/index.ts:44-46 | The answer is 400 exactly when a field is absent or falsy (null, false, 0 or ""), and it is always `{success:false, error:"Missing content"}`, so the model is never consulted. |
| Summarize.EmptyOrAbsentRejected | netlify/functions/summarize.ts:11-17 | An absent or empty `previousContent` gives the 400 "Missing content" response. |
| Summarize.NetlifyMissingBody | netlify/functions/summarize.ts:9-17 | A POST with no body or an empty body is read as `{}` and gets 400 "Missing content". |
| Summarize.EmptyBodyDiffers | src/worker/index.ts:39-46 | An empty body is a 400 on Netlify but escapes the worker, since the empty string is not JSON. |
| Summarize.NoObjectFallback | netlify/functions/summarize.ts:62-71 | An answer with no `{`…`}` pair gives 200 `{success:true, hasChanges:false, summary:"Unable to parse changes", subjects:[]}`. |
| Summarize.NoContentFallback | src/worker/index.ts:80 | An answer with no content is read as the empty string and gets the fallback record. |
| Summarize.ParsedObjectWins | netlify/functions/summarize.ts:53-59 | A parsed object gives 200 carrying each of its keys unchanged; `success` is added as true only when the object lacks it. |
| Summarize.ParseFailureIs500 | src/worker/index.ts:85 | A match that fails to parse is not turned into the fallback: it is a 500 with `success:false`. |
| Summarize.UnconvertibleFieldIs500 | src/worker/index.ts:53-74 | Inside the `try`, a truthy object field whose conversion to text throws gives a 500 with the conversion's message, and the answer does not depend on the model. |
| Poll.Record | src/react-app/pages/Home.tsx:59-64 | The new record comes first, followed by the old history minus whatever falls past twenty entries; the length is min(old + 1, 20). |
| Poll.RecordAllBound | src/react-app/pages/Home.tsx:59-64 | After any run of recorded replies, the newest is first and the length is min(old + n, 20): twenty or more fill the history exactly. |
| Poll.ApplySummary | src/react-app/pages/Home.tsx:46-71 | A reply with truthy `success` and `hasChanges` is prepended, keeping its fields as sent, and stamps `lastUpdated`. A thrown error, a `null` reply or any other reply leaves the state untouched. |
| Poll.Step | src/react-app/pages/Home.tsx:73-98 | A thrown fetch changes nothing and any reply stamps `lastCheck`. A failed reply or empty content changes nothing else. A successful non-empty fetch always becomes the remembered content. |
| Poll.InitialInv | src/react-app/pages/Home.tsx:40-44 | The starting state satisfies the cycle invariant. |
| Poll.StepKeepsInv | src/react-app/pages/Home.tsx:79-91 | Every step keeps the invariant: no remembered content exactly while the first fetch is pending, remembered content never empty, at most twenty entries, and every entry except possibly the oldest is an update. |
| Poll.FirstFetchStarts | src/react-app/pages/Home.tsx:82-89 | The first successful fetch replaces the history with exactly the "Monitoring started" record, clears the flag, remembers the content and stamps `lastCheck`; `lastUpdated` is left as it was, so "Last Updated" still shows "--". |
| Poll.SameContentIsQuiet | src/react-app/pages/Home.tsx:80-91 | Fetching the remembered content again changes only `lastCheck`, whatever the summarizer would say. |
| Poll.ChangedContent | src/react-app/pages/Home.tsx:80-81 | Different content consults the summarizer on (old, new) and remembers the new content. A qualifying reply is prepended as the record `{hasChanges, summary, subjects, now}` taken from the reply, capped at twenty, and stamps `lastUpdated`; any other reply leaves the history and `lastUpdated` unchanged. |
| Poll.ThreePollScenario | src/react-app/pages/Home.tsx:73-98 | Polling "A", then "A", then "B" with a change-reporting summarizer gives the start record, no change, then the reported update in front of the start record. |
| Poll.TotalUpdatesCounts | src/react-app/pages/Home.tsx:157 | The "Total Updates" count is the number of history positions whose entry has a truthy `hasChanges`. |
| Poll.TotalUpdatesCountsAllButStart | src/react-app/pages/Home.tsx:157 | In a reachable state the "Total Updates" card counts every entry except possibly the oldest, the start record. |
| Dashboard.Slug | src/react-app/pages/Home.tsx:120 | Whitespace and `/` become `-` and letters are lower-cased; the slug has no whitespace, no slash and no upper-case ASCII letter. |
| Dashboard.SlugIdempotent | src/react-app/pages/Home.tsx:120 | Slugging a slug changes nothing. |
| Dashboard.SubjectMatches | src/react-app/pages/Home.tsx:120 | A subject with a string `name` answers whether its slug contains the tab id; any other subject throws. |
| Dashboard.AnySubjectMatches | src/react-app/pages/Home.tsx:119-121 | `some` is true exactly when a subject matches and every subject before it was readable and did not match. It is false exactly when every subject is readable and none matches. |
| Dashboard.FilterBy | src/react-app/pages/Home.tsx:118-122 | The result exists exactly when every entry's subjects can be read. It is then an order-preserving sub-list in which every kept entry occurs as often as in the history and no other entry occurs, so it is exactly `items.filter(...)`. |
| Dashboard.FilterSummaries | src/react-app/pages/Home.tsx:116-123 | The "all" tab returns the history unchanged; any other tab gives the subject filter for its id, every shown entry having a subject whose slug contains the id. |
| Dashboard.KeptHasMatchingSubject | src/react-app/pages/Home.tsx:118-122 | An entry kept by a tab has a subject with a string name whose slug contains the tab's id. |
| Dashboard.WellFormedNeverThrows | src/react-app/pages/Home.tsx:116-123 | A tab never throws when every entry has a `subjects` array of objects with string names. |
| Dashboard.MissingSubjectsBreaksTabs | src/react-app/pages/Home.tsx:116-123 | One entry without a `subjects` array makes every tab other than "all" throw. |
| Dashboard.PheNeverMatchesItsTitle | src/react-app/pages/Home.tsx:30 | The `phe` tab cannot select "Physical and Health Education": its slug `physical-and-health-education` does not contain `phe`. |
| Dashboard.ArtTabMatchesItsTitle | src/react-app/pages/Home.tsx:29 | The slash in "Art/ADST" becomes the hyphen of the `art-adst` tab id, so that tab matches its own title. |
| Dashboard.Classify | src/react-app/pages/Home.tsx:106-114 | Below one minute (negative values included) is "just now". The minute, hour and day buckets cover [1 min, 1 h), [1 h, 1 d) and [1 d, ∞). Each count is the floor of the difference over the unit, e.g. 1 to 59 minutes. |
| Dashboard.FormatRelativeTime | src/react-app/pages/Home.tsx:106-114 | The label reads back to exactly the bucket and count of the difference, and it is the only text that does. |
| Dashboard.RenderParses | src/react-app/pages/Home.tsx:110-113 | Every label ("just now", `<n>m ago`, `<n>h ago`, `<n>d ago`) reads back to the bucket it came from. |
| Dashboard.LabelsAreRendered | src/react-app/pages/Home.tsx:110-113 | Every text that reads back as a bucket is exactly that bucket's label: a count with a leading zero is not a label. |
| Pipeline.ClientRequestIsValid | src/react-app/pages/Home.tsx:49-53 | The request the dashboard posts, two non-empty texts, always passes validation and goes straight to the model with both texts. |
| Pipeline.OnlyParsedChangesAreRecorded | src/react-app/pages/Home.tsx:56 | A reply the dashboard records came from a model answer that contained a brace pair and parsed to a value with a truthy `hasChanges`. Failed calls, failed parses and the fallback record never reach the history. |

## Left out

- Network I/O is not modelled: fetching the page, the User-Agent header, the Firecrawl scrape and the HTTP calls between dashboard and endpoints. Their results are inputs (`PageFetch`, `FetchOutcome`, `SummarizeOutcome`).
- The Cloudflare worker's own `GET /api/assignments` is not modelled. It hands Firecrawl's markdown through without cleaning, so none of the cleaning properties hold for it.
- HTML parsing (cheerio loading, removing navigation and sidebars, `.text()`) is a foreign library. The candidate region texts are opaque strings.
- The language-model call is a function parameter: prompt wording, model name and the 0.3 sampling temperature are not modelled.
- `JSON.parse` is a function parameter. `JSON.stringify` of a response and the client's `res.json()` of it are taken to give back the same object. JSON numbers are reals, and only their zero test is used.
- Summarize.Respond: the model client is assumed to be configured. Both summarize handlers construct it outside the `try`, so a missing API key would make every valid request escape; the model does not cover that.
- What a platform sends when an exception escapes a handler (`Escaped`) is not modelled. The dashboard is taken to fail reading such a reply as JSON.
- Json.Spread: spreading a parsed value that is not an object merges nothing. Spreading a string or array would add index keys, but a text that starts with `{` and parses is always an object.
- Summarize.TemplateText: the conversion of a truthy non-string field (number, boolean, array, object) is left abstract as `Runtime.toText`, which may fail. Which values make it fail, and the text it gives when it succeeds, are not modelled.
- Dashboard.Slug: only ASCII letters are lower-cased. The Unicode case mappings of `toLowerCase`, including those that change length, are not modelled.
- The timer that starts each cycle every five seconds, overlapping cycles (there is no single-flight guard), React's batching of state updates, and the `loading`/`analyzing` flags are not modelled. A cycle is one atomic step.
- JsText.Decimal: numbers are exact integers, and `${n}` is taken as plain decimal digits. JavaScript computes `diff`, the counts and the status as doubles, and writes `${n}` in exponent form from 10^21 on. Every HTTP status and every count between two valid dates lies far below that.
- Poll.Step: every clock read in one cycle is the same `now`. The code reads the clock separately for `lastCheck`, the start record and a recorded reply.
- Strings are sequences of Unicode scalar values, while JavaScript strings are UTF-16 code units. Lone surrogates cannot be expressed, and a character outside the Basic Multilingual Plane counts as one position rather than two.
- Response headers (`Content-Type`, CORS) and the platform's serialisation of a response body are not modelled. A response is a status and a body.
- The page rendering is not modelled: JSX, the stat and update cards, and the build configuration.

## Behaviour worth knowing

- **Parse failure.** Only an answer with no brace pair becomes the fallback record. A brace pair that `JSON.parse` rejects throws, and the handler answers 500 (`Summarize.ParseFailureIs500`).
- **Missing fields.** The dashboard stores a reply's `subjects` and `summary` as they are, with no default (`Poll.ApplySummary`). An entry without a `subjects` array then makes every subject tab throw (`Dashboard.MissingSubjectsBreaksTabs`).
- **Whitespace collapsing.** Only the space character is collapsed, after tabs become spaces. Other horizontal whitespace, such as no-break spaces and carriage returns, stays.
- **Single-flight guard.** There is none: a poll cycle can start while the previous one is still waiting.
- **Success flag.** A parsed answer's own `success` key overrides the endpoint's `success: true`, so a 200 response can say `success: false` (`Summarize.Merge`).
