/** The pure helpers of the dashboard page: the subject filter over the update
    history, the relative-time label of the stat cards, and the "Total
    Updates" count (`Poll.TotalUpdates`). */
module Dashboard {
  import opened Wrappers
  import opened Json
  import opened JsText
  import Poll

  /** The subject tabs: the id matched against slugs, and the title shown. */
  datatype SubjectFilter = SubjectFilter(id: string, title: string)

  const SubjectFilters: seq<SubjectFilter> := [
    SubjectFilter("all", "All"),
    SubjectFilter("language-arts", "Language Arts"),
    SubjectFilter("math", "Math"),
    SubjectFilter("science", "Science"),
    SubjectFilter("social-studies", "Social Studies"),
    SubjectFilter("art-adst", "Art/ADST"),
    SubjectFilter("phe", "Physical and Health Education"),
    SubjectFilter("career", "Career"),
    SubjectFilter("music", "Music"),
    SubjectFilter("other", "Other")]

  // ------------------------------------------------------------- filtering

  /** `name.toLowerCase().replace(/[\s\/]/g, "-")`: whitespace and slashes
      become hyphens, letters become lower case. */
  function Slug(name: string): (r: string)
    ensures |r| == |name|
    ensures forall i | 0 <= i < |r| :: !IsWhite(r[i]) && r[i] != '/' && !IsAsciiUpper(r[i])
    ensures forall i | 0 <= i < |name| :: IsWhite(name[i]) || name[i] == '/' ==> r[i] == '-'
    ensures forall i | 0 <= i < |name| :: !IsWhite(name[i]) && name[i] != '/' ==> r[i] == LowerAscii(name[i])
  {
    seq(|name|, i requires 0 <= i < |name| =>
      if IsWhite(name[i]) || name[i] == '/' then '-' else LowerAscii(name[i]))
  }

  /** A slug is its own slug, so the filter ids, which are slugs, are stable. */
  lemma SlugIdempotent(name: string)
    ensures Slug(Slug(name)) == Slug(name)
  {
  }

  /** One subject entry against the filter: `Some(match)`, or `None` when
      `sub.name.toLowerCase()` throws because the entry has no string name. */
  function SubjectMatches(sub: Value, filterId: string): (r: Option<bool>)
    ensures r.Some? <==> Member(sub, "name").Some? && Member(sub, "name").value.JStr?
    ensures r.Some? ==> r.value == Includes(Slug(Member(sub, "name").value.s), filterId)
  {
    match Member(sub, "name")
    case Some(JStr(name)) => Some(Includes(Slug(name), filterId))
    case _ => None
  }

  /** `subjects.some(...)`: stops at the first match, so only the entries
      before it have to be readable. */
  function AnySubjectMatches(subjects: seq<Value>, filterId: string): (r: Option<bool>)
    ensures r == Some(false) <==> forall k | 0 <= k < |subjects| :: SubjectMatches(subjects[k], filterId) == Some(false)
    ensures r == Some(true) <==>
      exists k | 0 <= k < |subjects| ::
        && SubjectMatches(subjects[k], filterId) == Some(true)
        && forall j | 0 <= j < k :: SubjectMatches(subjects[j], filterId) == Some(false)
  {
    if |subjects| == 0 then Some(false)
    else
      var rest := AnySubjectMatches(subjects[1..], filterId);
      assert forall k | 1 <= k < |subjects| :: subjects[k] == subjects[1..][k - 1];
      if SubjectMatches(subjects[0], filterId) == Some(true) then Some(true)
      else if SubjectMatches(subjects[0], filterId).None? then None
      else
        assert forall k | 0 < k < |subjects| && SubjectMatches(subjects[k], filterId) == Some(true) ::
          (forall j | 0 <= j < k :: SubjectMatches(subjects[j], filterId) == Some(false)) ==>
          (forall j | 0 <= j < k - 1 :: SubjectMatches(subjects[1..][j], filterId) == Some(false));
        rest
  }

  /** Whether a history entry is kept: `None` when its `subjects` is not an
      array, since `.some` is then not a function and the call throws. */
  function Keeps(s: Poll.Summary, filterId: string): Option<bool> {
    match s.subjects
    case Some(JArr(items)) => AnySubjectMatches(items, filterId)
    case _ => None
  }

  /** `a` is `b` with some entries left out, in the same order. */
  predicate IsSublist<T(==)>(a: seq<T>, b: seq<T>)
    decreases |b|
  {
    if |a| == 0 then true
    else if |b| == 0 then false
    else (a[0] == b[0] && IsSublist(a[1..], b[1..])) || IsSublist(a, b[1..])
  }

  /** `items.filter(...)` for one filter id; `None` when any entry throws. */
  function FilterBy(items: seq<Poll.Summary>, filterId: string): (r: Option<seq<Poll.Summary>>)
    ensures r.Some? <==> forall i | 0 <= i < |items| :: Keeps(items[i], filterId).Some?
    ensures r.Some? ==> IsSublist(r.value, items)
    ensures r.Some? ==> forall x | x in r.value :: Keeps(x, filterId) == Some(true)
    ensures r.Some? ==> forall i | 0 <= i < |items| :: Keeps(items[i], filterId) == Some(true) ==> items[i] in r.value
    ensures r.Some? ==> forall x :: multiset(r.value)[x] == if Keeps(x, filterId) == Some(true) then multiset(items)[x] else 0
  {
    if |items| == 0 then Some([])
    else
      var rest := FilterBy(items[1..], filterId);
      assert forall i | 1 <= i < |items| :: items[i] == items[1..][i - 1];
      match Keeps(items[0], filterId)
      case None => None
      case Some(keep) =>
        if rest.None? then None
        else if keep then
          var r := [items[0]] + rest.value;
          assert r[1..] == rest.value;
          KeptCounts(items, filterId, rest.value, keep);
          Some(r)
        else
          KeptCounts(items, filterId, rest.value, keep);
          Some(rest.value)
  }

  /** One step of the filter keeps each entry's count: the head is counted
      exactly when it is kept. */
  lemma {:induction false} KeptCounts(items: seq<Poll.Summary>, filterId: string, rest: seq<Poll.Summary>, keep: bool)
    requires |items| > 0 && Keeps(items[0], filterId) == Some(keep)
    requires forall x :: multiset(rest)[x] == if Keeps(x, filterId) == Some(true) then multiset(items[1..])[x] else 0
    ensures forall x :: multiset(if keep then [items[0]] + rest else rest)[x]
                     == if Keeps(x, filterId) == Some(true) then multiset(items)[x] else 0
  {
    assert items == [items[0]] + items[1..];
  }

  /** `filterSummaries`: the "all" tab shows the history as it is; any other
      tab shows, in order, the entries with a subject whose slug contains the
      tab's id, or throws (`None`) when an entry's subjects cannot be read. */
  function FilterSummaries(items: seq<Poll.Summary>, activeFilter: string): (r: Option<seq<Poll.Summary>>)
    ensures activeFilter == "all" ==> r == Some(items)
    ensures r.Some? ==> IsSublist(r.value, items)
    ensures activeFilter != "all" ==> r == FilterBy(items, activeFilter)
    ensures activeFilter != "all" && r.Some? ==> forall x | x in r.value :: Keeps(x, activeFilter) == Some(true)
  {
    SublistRefl(items);
    if activeFilter == "all" then Some(items) else FilterBy(items, activeFilter)
  }

  /** The whole history is its own sublist. */
  lemma {:induction false} SublistRefl<T>(a: seq<T>)
    ensures IsSublist(a, a)
    decreases |a|
  {
    if |a| > 0 {
      SublistRefl(a[1..]);
    }
  }

  /** An entry kept by a subject tab has a subject whose name's slug contains
      the tab's id. */
  lemma {:induction false} KeptHasMatchingSubject(s: Poll.Summary, filterId: string)
    requires Keeps(s, filterId) == Some(true)
    ensures s.subjects.Some? && s.subjects.value.JArr?
    ensures exists k | 0 <= k < |s.subjects.value.items| ::
      var sub := s.subjects.value.items[k];
      && Member(sub, "name").Some? && Member(sub, "name").value.JStr?
      && Includes(Slug(Member(sub, "name").value.s), filterId)
  {
    var items := s.subjects.value.items;
    var k :| 0 <= k < |items| && SubjectMatches(items[k], filterId) == Some(true);
  }

  /** An entry the summarizer shaped as asked: `subjects` is an array of
      objects that each carry a string `name`. */
  predicate WellFormed(s: Poll.Summary) {
    && s.subjects.Some? && s.subjects.value.JArr?
    && forall k | 0 <= k < |s.subjects.value.items| ::
         Member(s.subjects.value.items[k], "name").Some?
         && Member(s.subjects.value.items[k], "name").value.JStr?
  }

  /** A history of well-formed entries never makes a tab throw. */
  lemma {:induction false} WellFormedNeverThrows(items: seq<Poll.Summary>, activeFilter: string)
    requires forall i | 0 <= i < |items| :: WellFormed(items[i])
    ensures FilterSummaries(items, activeFilter).Some?
  {
    forall i | 0 <= i < |items| ensures Keeps(items[i], activeFilter).Some? {
      var subjects := items[i].subjects.value.items;
      AllNamedAnswers(subjects, activeFilter);
    }
  }

  lemma {:induction false} AllNamedAnswers(subjects: seq<Value>, filterId: string)
    requires forall k | 0 <= k < |subjects| ::
      Member(subjects[k], "name").Some? && Member(subjects[k], "name").value.JStr?
    ensures AnySubjectMatches(subjects, filterId).Some?
    decreases |subjects|
  {
    if |subjects| > 0 {
      assert forall k | 0 <= k < |subjects[1..]| :: subjects[1..][k] == subjects[k + 1];
      AllNamedAnswers(subjects[1..], filterId);
    }
  }

  /** Replies are stored without coercion, so one entry without a `subjects`
      array makes every subject tab throw, whatever the other entries hold. */
  lemma MissingSubjectsBreaksTabs(items: seq<Poll.Summary>, i: nat, activeFilter: string)
    requires i < |items| && !(items[i].subjects.Some? && items[i].subjects.value.JArr?)
    requires activeFilter != "all"
    ensures FilterSummaries(items, activeFilter) == None
  {
    assert Keeps(items[i], activeFilter).None?;
  }

  /** The tab "Physical and Health Education" can never select the entry its
      title names: that name's slug, `physical-and-health-education`, does not
      contain `phe`. */
  lemma PheNeverMatchesItsTitle()
    ensures SubjectFilters[6] == SubjectFilter("phe", "Physical and Health Education")
    ensures !Includes(Slug(SubjectFilters[6].title), SubjectFilters[6].id)
  {
    assert SubjectFilters[6] == SubjectFilter("phe", "Physical and Health Education");
    var s := PheSlug();
    PheNotIncluded(s);
  }

  lemma PheNotIncluded(s: string)
    requires s == "physical-and-health-education"
    ensures !Includes(s, "phe")
  {
    assert s[..3] != "phe" by { assert s[2] == 'y'; }
    assert s[1..] == "hysical-and-health-education";
    NoLowerP(s[1..]);
    AbsentStartNotIncluded(s[1..], "phe");
  }

  lemma PheSlug() returns (s: string)
    ensures s == Slug("Physical and Health Education") == "physical-and-health-education"
  {
    s := Slug("Physical and Health Education");
    assert s == "physical-and-health-education";
  }

  lemma NoLowerP(s: string)
    requires s == "hysical-and-health-education"
    ensures 'p' !in s
  {
  }

  /** A needle whose first character never occurs is not included. */
  lemma {:induction false} AbsentStartNotIncluded(hay: string, needle: string)
    requires |needle| > 0 && needle[0] !in hay
    ensures !Includes(hay, needle)
    decreases |hay|
  {
    if |hay| >= |needle| {
      assert hay[0] != needle[0];
      AbsentStartNotIncluded(hay[1..], needle);
    }
  }

  /** The slash in the title "Art/ADST" becomes the hyphen of the tab id `art-adst`. */
  lemma ArtTabMatchesItsTitle()
    ensures SubjectFilters[5] == SubjectFilter("art-adst", "Art/ADST")
    ensures Slug("Art/ADST") == "art-adst"
    ensures Includes(Slug("Art/ADST"), "art-adst")
  {
  }

  // --------------------------------------------------------- relative time

  const Minute: nat := 60000
  const Hour: nat := 3600000
  const Day: nat := 86400000

  /** How long ago, as `formatRelativeTime` buckets it. */
  datatype Elapsed = JustNow | MinutesAgo(n: nat) | HoursAgo(n: nat) | DaysAgo(n: nat)

  /** The bucket of a millisecond difference, with the count rounded down.
      Negative differences (a clock that moved back) are "just now". */
  function Classify(diff: int): (e: Elapsed)
    ensures e.JustNow? <==> diff < Minute
    ensures e.MinutesAgo? <==> Minute <= diff < Hour
    ensures e.HoursAgo? <==> Hour <= diff < Day
    ensures e.DaysAgo? <==> Day <= diff
    ensures e.MinutesAgo? ==> 1 <= e.n < 60 && e.n * Minute <= diff < (e.n + 1) * Minute
    ensures e.HoursAgo? ==> 1 <= e.n < 24 && e.n * Hour <= diff < (e.n + 1) * Hour
    ensures e.DaysAgo? ==> 1 <= e.n && e.n * Day <= diff < (e.n + 1) * Day
  {
    if diff < Minute then JustNow
    else if diff < Hour then MinutesAgo(diff / Minute)
    else if diff < Day then HoursAgo(diff / Hour)
    else DaysAgo(diff / Day)
  }

  /** The label text of a bucket. */
  function Render(e: Elapsed): string {
    match e
    case JustNow => "just now"
    case MinutesAgo(n) => Ago(n, 'm')
    case HoursAgo(n) => Ago(n, 'h')
    case DaysAgo(n) => Ago(n, 'd')
  }

  /** `formatRelativeTime`, given `now.getTime() - date.getTime()`: the one
      label that reads back as the difference's bucket. */
  function FormatRelativeTime(diff: int): (text: string)
    ensures ParseLabel(text) == Some(Classify(diff))
    ensures forall t | ParseLabel(t) == Some(Classify(diff)) :: t == text
  {
    RenderParses(Classify(diff));
    forall t | ParseLabel(t) == Some(Classify(diff))
      ensures t == Render(Classify(diff))
    {
      LabelsAreRendered(t);
    }
    Render(Classify(diff))
  }

  /** Reads a label back into its bucket: "just now", or a count written
      without leading zeros, a unit letter and " ago". */
  function ParseLabel(text: string): Option<Elapsed> {
    if text == "just now" then Some(JustNow)
    else if |text| <= 5 || text[|text| - 4..] != " ago" then None
    else
      var digits := text[..|text| - 5];
      if !IsCanonical(digits) then None
      else
        var n := DigitsValue(digits);
        match text[|text| - 5]
        case 'm' => Some(MinutesAgo(n))
        case 'h' => Some(HoursAgo(n))
        case 'd' => Some(DaysAgo(n))
        case _ => None
  }

  /** Every label names its bucket unambiguously. */
  lemma RenderParses(e: Elapsed)
    ensures ParseLabel(Render(e)) == Some(e)
  {
    match e
    case JustNow =>
    case MinutesAgo(n) => DecimalLabel(n, 'm');
    case HoursAgo(n) => DecimalLabel(n, 'h');
    case DaysAgo(n) => DecimalLabel(n, 'd');
  }

  /** Every text that reads as a bucket is that bucket's label. */
  lemma LabelsAreRendered(t: string)
    ensures ParseLabel(t).Some? ==> t == Render(ParseLabel(t).value)
  {
    if ParseLabel(t).Some? && t != "just now" {
      var digits := t[..|t| - 5];
      DecimalUnique(digits);
      assert t == digits + [t[|t| - 5]] + " ago";
    }
  }

  /** `${n}m ago` and its kin. */
  function Ago(n: nat, unit: char): string {
    Decimal(n) + [unit] + " ago"
  }

  lemma DecimalLabel(n: nat, unit: char)
    ensures var text := Ago(n, unit);
      && text != "just now"
      && |text| > 5
      && text[|text| - 4..] == " ago"
      && text[|text| - 5] == unit
      && text[..|text| - 5] == Decimal(n)
  {
  }
}
