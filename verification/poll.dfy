/** The dashboard's poll cycle (`fetchAssignments` with `summarizeChanges`):
    one atomic step that takes the scraper's answer and, when the content
    changed, the summarizer's answer, and updates the remembered content, the
    first-fetch flag, the update history and the two timestamps.

    The summarizer enters as a function of (old content, new content), so a
    step that does not call it cannot depend on it. */
module Poll {
  import opened Wrappers
  import opened Json

  const HistoryCap: nat := 20
  const StartMessage := "Monitoring started. You'll see updates here when the page changes."

  /** One entry of the update history. The three reply fields are kept exactly
      as the summarizer sent them, with no coercion: `summary` or `subjects`
      may be absent (`None`) or of any JSON kind. */
  datatype Summary = Summary(
    hasChanges: Value,
    summary: Option<Value>,
    subjects: Option<Value>,
    timestamp: int)

  /** The two refs and three pieces of component state a cycle touches. */
  datatype CycleState = CycleState(
    previousContent: Option<string>,
    isFirstFetch: bool,
    history: seq<Summary>,
    lastCheck: Option<int>,
    lastUpdated: Option<int>)

  /** What `fetch("/api/assignments")` followed by `res.json()` gave: a
      thrown error, or the reply's `success` flag and `content` (absent when
      the reply has none). */
  datatype FetchOutcome =
    | FetchThrew
    | FetchReplied(success: bool, content: Option<string>)

  /** What `fetch("/api/summarize")` followed by `res.json()` gave: a thrown
      error (network failure, or a body that is not JSON), or the parsed reply. */
  datatype SummarizeOutcome =
    | SummarizeThrew
    | SummarizeReplied(result: Value)

  const Initial := CycleState(None, true, [], None, None)

  /** The synthetic record that replaces the history on the first fetch. */
  function StartRecord(now: int): Summary {
    Summary(JBool(false), Some(JStr(StartMessage)), Some(JArr([])), now)
  }

  /** `[rec, ...history].slice(0, 20)`: newest first, oldest dropped past the cap. */
  function Record(rec: Summary, history: seq<Summary>): (r: seq<Summary>)
    ensures |r| == if |history| < HistoryCap then |history| + 1 else HistoryCap
    ensures r[0] == rec
    ensures r[1..] == history[..|r| - 1]
  {
    ([rec] + history)[..if |history| + 1 < HistoryCap then |history| + 1 else HistoryCap]
  }

  /** `result.success && result.hasChanges`, the test for keeping a reply. */
  predicate Qualifies(result: Value) {
    !result.JNull? && Truthy(Member(result, "success")) && Truthy(Member(result, "hasChanges"))
  }

  /** `summarizeChanges` after its request: a reply with a truthy `success`
      and `hasChanges` is recorded and stamps `lastUpdated`; anything else,
      including a thrown error or a `null` reply, changes nothing. */
  function ApplySummary(s: CycleState, outcome: SummarizeOutcome, now: int): (s': CycleState)
    ensures s'.previousContent == s.previousContent && s'.isFirstFetch == s.isFirstFetch
    ensures s'.lastCheck == s.lastCheck
    ensures outcome.SummarizeReplied? && Qualifies(outcome.result) ==>
      && s'.history == Record(Summary(Member(outcome.result, "hasChanges").value,
                                      Member(outcome.result, "summary"),
                                      Member(outcome.result, "subjects"), now), s.history)
      && s'.lastUpdated == Some(now)
    ensures !(outcome.SummarizeReplied? && Qualifies(outcome.result)) ==> s' == s
  {
    match outcome
    case SummarizeThrew => s
    case SummarizeReplied(result) =>
      if Qualifies(result) then
        var rec := Summary(Member(result, "hasChanges").value, Member(result, "summary"),
                           Member(result, "subjects"), now);
        s.(history := Record(rec, s.history), lastUpdated := Some(now))
      else s
  }

  /** The three ways a successful fetch of `content` can go. */
  datatype Decision = Changed(stored: string) | StartMonitoring | Unchanged

  /** The branch `fetchAssignments` takes: a summary when there is remembered
      (non-empty) content that differs, else the start record on the first
      fetch, else nothing. */
  function Decide(previous: Option<string>, isFirstFetch: bool, content: string): Decision {
    if previous.Some? && previous.value != "" && previous.value != content then Changed(previous.value)
    else if isFirstFetch then StartMonitoring
    else Unchanged
  }

  /** One poll cycle. A fetch that throws changes nothing; any reply stamps
      `lastCheck`; a successful reply with non-empty content is acted on and
      always becomes the remembered content. */
  function Step(s: CycleState, fetch: FetchOutcome, summarize: (string, string) -> SummarizeOutcome,
                now: int): (s': CycleState)
    ensures fetch.FetchThrew? ==> s' == s
    ensures fetch.FetchReplied? ==> s'.lastCheck == Some(now)
    ensures fetch.FetchReplied? && !(fetch.success && fetch.content.Some? && fetch.content.value != "") ==>
      s' == s.(lastCheck := Some(now))
    ensures fetch.FetchReplied? && fetch.success && fetch.content.Some? && fetch.content.value != "" ==>
      s'.previousContent == fetch.content
  {
    match fetch
    case FetchThrew => s
    case FetchReplied(success, content) =>
      var checked := s.(lastCheck := Some(now));
      if success && content.Some? && content.value != "" then
        var c := content.value;
        var acted :=
          match Decide(s.previousContent, s.isFirstFetch, c)
          case Changed(stored) => ApplySummary(checked, summarize(stored, c), now)
          case StartMonitoring => checked.(history := [StartRecord(now)], isFirstFetch := false)
          case Unchanged => checked;
        acted.(previousContent := Some(c))
      else checked
  }

  /** A history entry the summarizer produced: its `hasChanges` was truthy. */
  predicate IsUpdate(rec: Summary) {
    Truthy(Some(rec.hasChanges))
  }

  /** What every reachable state satisfies: no remembered content exactly while
      the first fetch is pending; remembered content is never empty; the
      history is empty until the first fetch, is never longer than the cap, and
      holds only summarizer updates except possibly its oldest entry, which
      may be the start record. */
  ghost predicate Inv(s: CycleState) {
    && (s.previousContent.None? <==> s.isFirstFetch)
    && (s.previousContent.Some? ==> s.previousContent.value != "")
    && (s.isFirstFetch ==> s.history == [])
    && (!s.isFirstFetch ==> |s.history| >= 1)
    && |s.history| <= HistoryCap
    && (forall i | 0 <= i < |s.history| - 1 :: IsUpdate(s.history[i]))
  }

  lemma InitialInv()
    ensures Inv(Initial)
  {
  }

  /** Every step keeps the invariant. */
  lemma {:induction false} StepKeepsInv(s: CycleState, fetch: FetchOutcome,
                                        summarize: (string, string) -> SummarizeOutcome, now: int)
    requires Inv(s)
    ensures Inv(Step(s, fetch, summarize, now))
  {
    if fetch.FetchReplied? && fetch.success && fetch.content.Some? && fetch.content.value != "" {
      var c := fetch.content.value;
      var checked := s.(lastCheck := Some(now));
      match Decide(s.previousContent, s.isFirstFetch, c)
      case Changed(stored) =>
        var outcome := summarize(stored, c);
        if outcome.SummarizeReplied? && Qualifies(outcome.result) {
          var result := outcome.result;
          var rec := Summary(Member(result, "hasChanges").value, Member(result, "summary"),
                             Member(result, "subjects"), now);
          var h := Record(rec, s.history);
          assert IsUpdate(rec);
          forall i | 0 <= i < |h| - 1 ensures IsUpdate(h[i]) {
            if i > 0 {
              assert h[i] == h[1..][i - 1] == s.history[i - 1];
            }
          }
        }
      case StartMonitoring =>
      case Unchanged =>
    }
  }

  /** On the first successful fetch the history is replaced, not prepended,
      by the single start record, and the flag is cleared. */
  lemma FirstFetchStarts(s: CycleState, content: string,
                         summarize: (string, string) -> SummarizeOutcome, now: int)
    requires Inv(s) && s.isFirstFetch && content != ""
    ensures var s' := Step(s, FetchReplied(true, Some(content)), summarize, now);
      && s'.history == [StartRecord(now)]
      && !s'.isFirstFetch
      && s'.previousContent == Some(content)
      && s'.lastCheck == Some(now)
      && s'.lastUpdated == s.lastUpdated
  {
  }

  /** Fetching the remembered content again changes nothing but `lastCheck`,
      whatever the summarizer would have said. */
  lemma SameContentIsQuiet(s: CycleState, summarize: (string, string) -> SummarizeOutcome, now: int)
    requires Inv(s) && s.previousContent.Some?
    ensures Step(s, FetchReplied(true, s.previousContent), summarize, now) == s.(lastCheck := Some(now))
  {
  }

  /** Different content consults the summarizer on (old, new), records its
      reply only when it qualifies, and remembers the new content. */
  lemma ChangedContent(s: CycleState, content: string,
                       summarize: (string, string) -> SummarizeOutcome, now: int)
    requires Inv(s) && s.previousContent.Some? && s.previousContent.value != content && content != ""
    ensures var s' := Step(s, FetchReplied(true, Some(content)), summarize, now);
      var outcome := summarize(s.previousContent.value, content);
      && s'.previousContent == Some(content)
      && s'.isFirstFetch == s.isFirstFetch
      && (outcome.SummarizeReplied? && Qualifies(outcome.result) ==>
            |s'.history| == (if |s.history| < HistoryCap then |s.history| + 1 else HistoryCap)
            && s'.history[0] == Summary(Member(outcome.result, "hasChanges").value,
                                        Member(outcome.result, "summary"),
                                        Member(outcome.result, "subjects"), now)
            && s'.history[1..] == s.history[..|s'.history| - 1]
            && s'.lastUpdated == Some(now))
      && (!(outcome.SummarizeReplied? && Qualifies(outcome.result)) ==>
            s'.history == s.history && s'.lastUpdated == s.lastUpdated)
  {
  }

  /** `summaries.filter(s => s.hasChanges).length`. */
  function TotalUpdates(history: seq<Summary>): (n: nat)
    ensures n <= |history|
  {
    if |history| == 0 then 0
    else (if IsUpdate(history[0]) then 1 else 0) + TotalUpdates(history[1..])
  }

  /** The positions at or after `k` that hold an update. */
  function UpdatesFrom(history: seq<Summary>, k: nat): set<nat> {
    set i: nat | k <= i < |history| && IsUpdate(history[i])
  }

  /** The card shows how many entries of the history are updates. */
  lemma TotalUpdatesCounts(history: seq<Summary>)
    ensures TotalUpdates(history) == |UpdatesFrom(history, 0)|
  {
    CountFrom(history, 0);
  }

  lemma {:induction false} CountFrom(history: seq<Summary>, k: nat)
    requires k <= |history|
    ensures TotalUpdates(history[k..]) == |UpdatesFrom(history, k)|
    decreases |history| - k
  {
    if k == |history| {
      assert UpdatesFrom(history, k) == {};
    } else {
      CountFrom(history, k + 1);
      assert history[k..][1..] == history[k + 1..];
      assert history[k..][0] == history[k];
      if IsUpdate(history[k]) {
        assert UpdatesFrom(history, k) == UpdatesFrom(history, k + 1) + {k};
      } else {
        assert UpdatesFrom(history, k) == UpdatesFrom(history, k + 1);
      }
    }
  }

  /** In any reachable state, the "Total Updates" card counts every entry
      but possibly the oldest: it misses at most the start record. */
  lemma {:induction false} TotalUpdatesCountsAllButStart(s: CycleState)
    requires Inv(s)
    ensures |s.history| - 1 <= TotalUpdates(s.history) <= |s.history|
  {
    AllButLastCounted(s.history);
  }

  lemma {:induction false} AllButLastCounted(h: seq<Summary>)
    requires forall i | 0 <= i < |h| - 1 :: IsUpdate(h[i])
    ensures |h| - 1 <= TotalUpdates(h)
    decreases |h|
  {
    if |h| > 1 {
      assert IsUpdate(h[0]);
      assert forall i | 0 <= i < |h[1..]| - 1 :: h[1..][i] == h[i + 1];
      AllButLastCounted(h[1..]);
    }
  }
  /** Recording `recs` one after another, first to last. */
  function RecordAll(recs: seq<Summary>, history: seq<Summary>): seq<Summary>
    decreases |recs|
  {
    if |recs| == 0 then history else RecordAll(recs[1..], Record(recs[0], history))
  }

  /** After any run of recorded replies the history holds the newest one first
      and is as long as it can be up to the cap; twenty or more fill it. */
  lemma {:induction false} RecordAllBound(recs: seq<Summary>, history: seq<Summary>)
    requires |history| <= HistoryCap
    ensures var h := RecordAll(recs, history);
      |h| == (if |history| + |recs| < HistoryCap then |history| + |recs| else HistoryCap)
    ensures |recs| > 0 ==> RecordAll(recs, history)[0] == recs[|recs| - 1]
    decreases |recs|
  {
    if |recs| > 0 {
      RecordAllBound(recs[1..], Record(recs[0], history));
      if |recs| > 1 {
        assert recs[1..][|recs[1..]| - 1] == recs[|recs| - 1];
      }
    }
  }

  /** Three polls: "A", "A" again, then "B" with a summarizer that reports a
      change. The history gains the start record, stays put, then gains the
      reported update in front. */
  lemma ThreePollScenario(summarize: (string, string) -> SummarizeOutcome, reply: Object)
    requires "success" in reply && reply["success"] == JBool(true)
    requires "hasChanges" in reply && reply["hasChanges"] == JBool(true)
    requires summarize("A", "B") == SummarizeReplied(JObj(reply))
    ensures var s1 := Step(Initial, FetchReplied(true, Some("A")), summarize, 1);
      var s2 := Step(s1, FetchReplied(true, Some("A")), summarize, 2);
      var s3 := Step(s2, FetchReplied(true, Some("B")), summarize, 3);
      && s1.history == [StartRecord(1)]
      && s2.history == [StartRecord(1)]
      && |s3.history| == 2
      && s3.history[0] == Summary(JBool(true), Member(JObj(reply), "summary"), Member(JObj(reply), "subjects"), 3)
      && s3.history[1] == StartRecord(1)
      && s3.lastUpdated == Some(3)
  {
    var s1 := Step(Initial, FetchReplied(true, Some("A")), summarize, 1);
    var s2 := Step(s1, FetchReplied(true, Some("A")), summarize, 2);
    assert s2.previousContent == Some("A") && s2.history == [StartRecord(1)];
    assert "A" != "B";
  }
}
