/**
 * The discovery service around the graph: the record-to-dictionary conversion
 * with camelCase keys, the completeness validator over such dictionaries, and
 * the result shaping of `discover_scholarships` and `run_daily_discovery`.
 */
module Service {
  import opened Wrappers
  import opened Text
  import opened State

  /** A JSON-style record: field name to text. */
  type Dict = map<string, string>

  /** `d.get(key, '')`. */
  function Get(d: Dict, key: string): string {
    if key in d then d[key] else ""
  }

  /** The fifteen keys of a record dictionary. */
  const DICT_KEYS: set<string> := {
    "id", "title", "description", "amount", "deadline", "eligibility", "requirements",
    "applicationUrl", "provider", "category", "status", "createdDate", "modifiedDate",
    "createdBy", "lastModifiedBy"}

  /**
   * `_scholarship_data_to_dict` (and the same literal inside
   * `discover_scholarships`): the fifteen fields under their camelCase keys.
   */
  function ToDict(s: Scholarship): Dict {
    map["id" := s.id, "title" := s.title, "description" := s.description, "amount" := s.amount,
        "deadline" := s.deadline, "eligibility" := s.eligibility, "requirements" := s.requirements,
        "applicationUrl" := s.applicationUrl, "provider" := s.provider, "category" := s.category,
        "status" := s.status, "createdDate" := s.createdDate, "modifiedDate" := s.modifiedDate,
        "createdBy" := s.createdBy, "lastModifiedBy" := s.lastModifiedBy]
  }

  /** The record a dictionary with the fifteen keys describes. */
  function FromDict(d: Dict): Scholarship {
    Scholarship(Get(d, "id"), Get(d, "title"), Get(d, "description"), Get(d, "amount"),
                Get(d, "deadline"), Get(d, "eligibility"), Get(d, "requirements"),
                Get(d, "applicationUrl"), Get(d, "provider"), Get(d, "category"),
                Get(d, "status"), Get(d, "createdDate"), Get(d, "modifiedDate"),
                Get(d, "createdBy"), Get(d, "lastModifiedBy"))
  }

  /** Each key holds its field unchanged, so reading the dictionary back gives the record it came from. */
  lemma ToDictRoundTrip(s: Scholarship)
    ensures FromDict(ToDict(s)) == s
  {
  }

  /** The dictionary has exactly the fifteen keys. */
  lemma ToDictKeys(s: Scholarship)
    ensures ToDict(s).Keys == DICT_KEYS
  {
  }

  /** The dictionaries of the records, in collection order. */
  function ToDicts(recs: seq<Scholarship>): (ds: seq<Dict>)
    ensures |ds| == |recs|
  {
    seq(|recs|, i requires 0 <= i < |recs| => ToDict(recs[i]))
  }

  // ---------------------------------------------------------------------------
  // Completeness validation

  /** The keys the validators look up. */
  const TITLE_KEY: string := "title"
  const DESCRIPTION_KEY: string := "description"
  const AMOUNT_KEY: string := "amount"
  const DEADLINE_KEY: string := "deadline"
  const PROVIDER_KEY: string := "provider"
  const URL_KEY: string := "applicationUrl"

  /** The critical fields and the names the validator reports them under. */
  const CRITICAL_FIELDS: seq<string> := [TITLE_KEY, DESCRIPTION_KEY, AMOUNT_KEY, DEADLINE_KEY, PROVIDER_KEY]
  const CRITICAL_NAMES: seq<string> := ["Title", "Description", "Amount", "Deadline", "Provider"]

  /** Lower-cased stripped values that count as "no value". */
  const PLACEHOLDERS: seq<string> := ["not available", "n/a", "not specified"]

  const TITLE_TOO_SHORT: string := "Title (too short)"
  const DESCRIPTION_TOO_SHORT: string := "Description (too short)"
  const INVALID_URL: string := "Valid Application URL"

  /** A value that, stripped, is empty or a placeholder. */
  predicate Unfilled(v: string) {
    Trim(v) == "" || Lower(Trim(v)) in PLACEHOLDERS
  }

  /** A link with an `http://` or `https://` scheme. */
  predicate WebLink(url: string) {
    StartsWith(url, "http://") || StartsWith(url, "https://")
  }

  /** The names of the fields among the first `k` critical ones that `unfilled` rejects, in order. */
  function MissingNames(d: Dict, k: nat, unfilled: string -> bool): (names: seq<string>)
    requires k <= |CRITICAL_FIELDS|
    ensures forall n :: n in names ==> n in CRITICAL_NAMES[..k]
  {
    if k == 0 then []
    else
      MissingNames(d, k - 1, unfilled)
      + (if unfilled(Get(d, CRITICAL_FIELDS[k - 1])) then [CRITICAL_NAMES[k - 1]] else [])
  }

  /** The short-title rule: a non-empty title under 5 characters adds its problem. */
  function CheckTitle(problems: seq<string>, title: string): seq<string> {
    if title != "" && |title| < 5 then problems + [TITLE_TOO_SHORT] else problems
  }

  /** The short-description rule: a non-empty description under 20 characters adds its problem. */
  function CheckDescription(problems: seq<string>, description: string): seq<string> {
    if description != "" && |description| < 20 then problems + [DESCRIPTION_TOO_SHORT] else problems
  }

  /** The link rule: a link that, stripped, lacks a web scheme adds its problem. */
  function CheckLink(problems: seq<string>, url: string): seq<string> {
    if !WebLink(Trim(url)) then problems + [INVALID_URL] else problems
  }

  /** Every problem `validate_scholarship_completeness` reports for a dictionary, in report order. */
  function CompletenessProblems(d: Dict): seq<string> {
    var fields := MissingNames(d, |CRITICAL_FIELDS|, Unfilled);
    CheckLink(CheckDescription(CheckTitle(fields, Get(d, TITLE_KEY)), Get(d, DESCRIPTION_KEY)), Get(d, URL_KEY))
  }

  /** The loop over the critical fields, collecting the names of those `unfilled` rejects. */
  method CollectMissing(d: Dict, unfilled: string -> bool) returns (missing: seq<string>)
    ensures missing == MissingNames(d, |CRITICAL_FIELDS|, unfilled)
  {
    missing := [];
    var k := 0;
    while k < |CRITICAL_FIELDS|
      invariant 0 <= k <= |CRITICAL_FIELDS|
      invariant missing == MissingNames(d, k, unfilled)
    {
      if unfilled(Get(d, CRITICAL_FIELDS[k])) {
        missing := missing + [CRITICAL_NAMES[k]];
      }
      k := k + 1;
    }
  }

  /**
   * `validate_scholarship_completeness`: walks the critical fields in order,
   * then the two length rules and the link rule, collecting problems; valid
   * exactly when there are none.
   */
  method ValidateScholarshipCompleteness(d: Dict) returns (valid: bool, missing: seq<string>)
    ensures missing == CompletenessProblems(d)
    ensures valid <==> missing == []
  {
    missing := CollectMissing(d, Unfilled);
    var title := Get(d, TITLE_KEY);
    if title != "" && |title| < 5 {
      missing := missing + [TITLE_TOO_SHORT];
    }
    var description := Get(d, DESCRIPTION_KEY);
    if description != "" && |description| < 20 {
      missing := missing + [DESCRIPTION_TOO_SHORT];
    }
    var url := Trim(Get(d, URL_KEY));
    if url == "" || !WebLink(url) {
      missing := missing + [INVALID_URL];
    }
    valid := |missing| == 0;
  }

  /** A critical field is named among the first `k` names exactly when `unfilled` rejects it. */
  lemma {:induction false} MissingNamesIff(d: Dict, k: nat, i: nat, unfilled: string -> bool)
    requires i < k <= |CRITICAL_FIELDS|
    ensures CRITICAL_NAMES[i] in MissingNames(d, k, unfilled) <==> unfilled(Get(d, CRITICAL_FIELDS[i]))
  {
    if i < k - 1 {
      MissingNamesIff(d, k - 1, i, unfilled);
      // the name added at step k is a different one
      assert CRITICAL_NAMES[k - 1] != CRITICAL_NAMES[i];
    } else {
      // the names of earlier fields are all different from this one
      assert CRITICAL_NAMES[i] !in CRITICAL_NAMES[..i];
    }
  }

  /** No name is collected among the first `k` exactly when `unfilled` accepts all of them. */
  lemma {:induction false} MissingNamesEmpty(d: Dict, k: nat, unfilled: string -> bool)
    requires k <= |CRITICAL_FIELDS|
    ensures MissingNames(d, k, unfilled) == [] <==>
      forall i :: 0 <= i < k ==> !unfilled(Get(d, CRITICAL_FIELDS[i]))
  {
    if k > 0 {
      MissingNamesEmpty(d, k - 1, unfilled);
    }
  }

  /**
   * Each critical field is reported (under its display name) exactly when its
   * stripped value is empty or a placeholder.
   */
  lemma CriticalReportedIff(d: Dict, i: nat)
    requires i < |CRITICAL_FIELDS|
    ensures CRITICAL_NAMES[i] in CompletenessProblems(d) <==> Unfilled(Get(d, CRITICAL_FIELDS[i]))
  {
    MissingNamesIff(d, |CRITICAL_FIELDS|, i, Unfilled);
    var title, description, url := Get(d, TITLE_KEY), Get(d, DESCRIPTION_KEY), Get(d, URL_KEY);
    var fields := MissingNames(d, |CRITICAL_FIELDS|, Unfilled);
    var n := CRITICAL_NAMES[i];
    assert |n| <= 11;
    RuleIgnoresShortName(fields, title, description, url, n);
  }

  /** The rules only add problems whose names are longer than 11 characters. */
  lemma RuleIgnoresShortName(fields: seq<string>, title: string, description: string, url: string, n: string)
    requires |n| <= 11
    ensures n in CheckLink(CheckDescription(CheckTitle(fields, title), description), url) <==> n in fields
  {
    var a := CheckTitle(fields, title);
    var b := CheckDescription(a, description);
    assert a == fields || a == fields + [TITLE_TOO_SHORT];
    assert b == a || b == a + [DESCRIPTION_TOO_SHORT];
    assert CheckLink(b, url) == b || CheckLink(b, url) == b + [INVALID_URL];
    LongNameNotAdded(fields, TITLE_TOO_SHORT, n);
    LongNameNotAdded(a, DESCRIPTION_TOO_SHORT, n);
    LongNameNotAdded(b, INVALID_URL, n);
  }

  /** Appending a name longer than `n` does not change whether `n` is listed. */
  lemma LongNameNotAdded(names: seq<string>, p: string, n: string)
    requires |n| <= 11 < |p|
    ensures n in names + [p] <==> n in names
  {
    assert forall x :: x in names + [p] <==> x in names || x == p;
  }

  /**
   * A dictionary is complete exactly when every critical field is filled, the
   * title has at least 5 characters, the description at least 20, and the
   * stripped link has a web scheme.
   */
  lemma CompleteIff(d: Dict)
    ensures CompletenessProblems(d) == [] <==>
      && (forall i :: 0 <= i < |CRITICAL_FIELDS| ==> !Unfilled(Get(d, CRITICAL_FIELDS[i])))
      && |Get(d, TITLE_KEY)| >= 5
      && |Get(d, DESCRIPTION_KEY)| >= 20
      && WebLink(Trim(Get(d, URL_KEY)))
  {
    MissingNamesEmpty(d, |CRITICAL_FIELDS|, Unfilled);
    ChecksAddNothingIff(MissingNames(d, |CRITICAL_FIELDS|, Unfilled), Get(d, TITLE_KEY), Get(d, DESCRIPTION_KEY), Get(d, URL_KEY));
    EmptyUnfilled();
    assert CRITICAL_FIELDS[0] == TITLE_KEY && CRITICAL_FIELDS[1] == DESCRIPTION_KEY;
  }

  /** The empty value is unfilled. */
  lemma EmptyUnfilled()
    ensures Unfilled("")
  {
    assert Trim("") == "";
  }

  /**
   * The three rules after the field check report nothing exactly when nothing
   * was reported before them, a non-empty title has 5 characters, a non-empty
   * description 20, and the stripped link has a web scheme.
   */
  lemma ChecksAddNothingIff(fields: seq<string>, title: string, description: string, url: string)
    ensures CheckLink(CheckDescription(CheckTitle(fields, title), description), url) == [] <==>
      && fields == []
      && (title == "" || |title| >= 5)
      && (description == "" || |description| >= 20)
      && WebLink(Trim(url))
  {
    var a := CheckTitle(fields, title);
    var b := CheckDescription(a, description);
    assert a == [] <==> fields == [] && (title == "" || |title| >= 5);
    assert b == [] <==> a == [] && (description == "" || |description| >= 20);
  }

  // ---------------------------------------------------------------------------
  // Result shaping

  /** What one run of the graph gives back to the service, or the exception it raised. */
  datatype GraphOutcome =
    | GraphRaised(message: string)
    | GraphFinished(collection: Option<seq<Scholarship>>, saved: Option<int>, skipped: Option<int>, sourceCount: nat)

  /** The dictionary `discover_scholarships` returns; a failed discovery carries no records and zero counts. */
  datatype DiscoveryReport = DiscoveryReport(
    success: bool,
    error: string,
    scholarships: seq<Dict>,
    discovered: nat,
    saved: int,
    skipped: int,
    criteria: string,
    sourceCount: nat)

  const NO_SCHOLARSHIPS_FOUND: string := "No scholarships found"

  /**
   * `discover_scholarships`: a finished run with a collection reports its records
   * as dictionaries, the saved count the graph reported or else the number
   * discovered, and the skipped count or else 0; a missing collection or a raised
   * exception reports failure with no records and zero counts.
   */
  function Discover(outcome: GraphOutcome, criteria: string): (r: DiscoveryReport)
    ensures r.success <==> outcome.GraphFinished? && outcome.collection.Some?
    ensures r.success ==> r.scholarships == ToDicts(outcome.collection.value)
    ensures r.success ==> r.discovered == |r.scholarships| && r.criteria == criteria
    ensures r.success && outcome.saved.None? ==> r.saved == r.discovered
    ensures r.success && outcome.saved.Some? ==> r.saved == outcome.saved.value
    ensures r.success && outcome.skipped.None? ==> r.skipped == 0
    ensures r.success && outcome.skipped.Some? ==> r.skipped == outcome.skipped.value
    ensures r.success ==> r.sourceCount == outcome.sourceCount
    ensures outcome.GraphFinished? && outcome.collection.None? ==> r.error == NO_SCHOLARSHIPS_FOUND
    ensures !r.success ==> r.scholarships == [] && r.discovered == 0 && r.saved == 0 && r.skipped == 0
    ensures outcome.GraphRaised? ==> r.error == outcome.message
  {
    match outcome
    case GraphRaised(message) => DiscoveryReport(false, message, [], 0, 0, 0, "", 0)
    case GraphFinished(collection, saved, skipped, sources) =>
      match collection
      case None => DiscoveryReport(false, NO_SCHOLARSHIPS_FOUND, [], 0, 0, 0, "", 0)
      case Some(recs) =>
        var ds := ToDicts(recs);
        DiscoveryReport(true, "", ds, |ds|, saved.GetOr(|ds|), skipped.GetOr(0), criteria, sources)
  }

  /** The criteria a daily run uses when none are given: a fixed sentence naming the year. */
  function DailyDefaultCriteria(year: nat): (c: string)
    ensures Contains(c, NatToString(year))
  {
    var prefix := "new scholarships and financial aid opportunities for college students ";
    var c := prefix + NatToString(year) + " with application deadlines";
    assert MatchAt(c, NatToString(year), |prefix|);
    ContainsIff(c, NatToString(year));
    c
  }

  /** Given criteria are kept; missing (empty) criteria fall back to the daily default. */
  function DailyCriteria(criteria: string, year: nat): string {
    if criteria == "" then DailyDefaultCriteria(year) else criteria
  }

  /** The summary `run_daily_discovery` returns. */
  datatype DailySummary =
    | DailySucceeded(discovered: nat, saved: int, skipped: int, criteria: string, sourceCount: nat,
                     sample: Option<seq<Dict>>)
    | DailyFailed(error: string, discovered: nat, saved: int, skipped: int)

  /**
   * The summary of one daily run given what discovery reported: a failed
   * discovery gives a failure with zero counts; otherwise the counts are copied
   * and the first two records are attached as a sample when there are any.
   */
  function DailySummaryOf(d: DiscoveryReport, criteria: string): (r: DailySummary)
    ensures r.DailySucceeded? <==> d.success
    ensures r.DailyFailed? ==> r.discovered == 0 && r.saved == 0 && r.skipped == 0 && r.error == d.error
    ensures r.DailySucceeded? ==> r.discovered == |d.scholarships| && r.saved == d.saved && r.skipped == d.skipped
    ensures r.DailySucceeded? ==> (r.sample.Some? <==> d.scholarships != [])
    ensures r.DailySucceeded? && r.sample.Some? ==>
      |r.sample.value| == (if |d.scholarships| < 2 then |d.scholarships| else 2)
      && r.sample.value <= d.scholarships
  {
    if !d.success then DailyFailed(d.error, 0, 0, 0)
    else
      var sample := if d.scholarships != [] then Some(d.scholarships[..if |d.scholarships| < 2 then |d.scholarships| else 2]) else None;
      DailySucceeded(|d.scholarships|, d.saved, d.skipped, criteria, d.sourceCount, sample)
  }

  /** `run_daily_discovery`: default the criteria, discover, summarise. */
  function RunDailyDiscovery(criteria: string, year: nat, run: string -> GraphOutcome): (r: DailySummary)
    ensures var c := DailyCriteria(criteria, year); var o := run(c);
      && (r.DailySucceeded? <==> o.GraphFinished? && o.collection.Some?)
      && (r.DailySucceeded? ==> r.criteria == c && r.discovered == |o.collection.value| && r.sourceCount == o.sourceCount)
      && (o.GraphRaised? ==> r.DailyFailed? && r.error == o.message)
  {
    var c := DailyCriteria(criteria, year);
    DailySummaryOf(Discover(run(c), c), c)
  }

  /**
   * A daily run whose graph finished with `n` records but reported no saved
   * count reports all `n` as saved, and samples the first two of them.
   */
  lemma DailySavedDefaultsToDiscovered(criteria: string, year: nat, run: string -> GraphOutcome)
    requires var o := run(DailyCriteria(criteria, year)); o.GraphFinished? && o.collection.Some? && o.saved.None?
    ensures var r := RunDailyDiscovery(criteria, year, run);
      r.DailySucceeded? && r.saved == r.discovered
  {
  }

  /** Empty criteria are replaced by the default, which names the year; other criteria are used as given. */
  lemma DailyCriteriaNamesYear(criteria: string, year: nat)
    ensures criteria == "" ==> Contains(DailyCriteria(criteria, year), NatToString(year))
    ensures criteria != "" ==> DailyCriteria(criteria, year) == criteria
  {
  }
}
