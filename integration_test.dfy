/**
 * The integration test script: three fixed mock records are enhanced into
 * record dictionaries, each is checked by the script's own quality validator,
 * and the passing ones are kept; the script passes when at least one was saved.
 */
module IntegrationTest {
  import opened Text
  import opened State
  import opened Gates
  import opened Service
  import opened QualityReport

  /** The three mock records the script runs on (`MOCK_SCHOLARSHIP_DATA`). */
  const MOCKS: seq<Candidate> := [MOCK_STEM, MOCK_ARTS, MOCK_TECH]

  /** The first mock record. */
  const MOCK_STEM: Candidate :=
    Candidate(
      "STEM Excellence Scholarship",
      "A comprehensive scholarship program for outstanding students in Science, Technology, Engineering, and Mathematics fields. This scholarship supports undergraduate and graduate students who demonstrate exceptional academic achievement and leadership potential in STEM disciplines.",
      "$5,000",
      "2025-08-15",
      "Undergraduate or graduate students, 3.5 GPA minimum, STEM majors, US citizens or permanent residents",
      "Application form, Academic transcript, Two letters of recommendation, Personal statement (500 words), Research portfolio",
      "https://" + "stemfoundation.org/scholarships/excellence/apply",
      "National STEM Education Foundation",
      "STEM")

  /** The second mock record. */
  const MOCK_ARTS: Candidate :=
    Candidate(
      "Arts and Humanities Leadership Award",
      "Supporting creative minds and future leaders in arts, literature, philosophy, and cultural studies. This award recognizes students who combine artistic excellence with community engagement and leadership skills.",
      "$3,000",
      "2025-07-20",
      "Undergraduate students, 3.0 GPA minimum, Arts or Humanities majors, demonstrated community service",
      "Application form, Portfolio of work, Essay on leadership in arts, Transcript, One letter of recommendation",
      "https://" + "artshumanities.edu/awards/leadership/apply",
      "Arts and Humanities Coalition",
      "Arts & Humanities")

  /** The third mock record. */
  const MOCK_TECH: Candidate :=
    Candidate(
      "Diversity in Technology Scholarship",
      "Promoting diversity and inclusion in technology fields by supporting underrepresented students pursuing computer science, software engineering, and related technical disciplines.",
      "$4,500",
      "2025-09-30",
      "Underrepresented minorities in tech, Computer Science or related majors, All academic levels welcome",
      "Application form, Diversity statement, Technical project showcase, Academic records, Mentor recommendation",
      "https://" + "techfuture.org/diversity-scholarship",
      "Tech Future Initiative",
      "Diversity & Inclusion")

  /** The producer recorded on every test record. */
  const TEST_AGENT: string := "scholarship-agent@integration-test"

  /** `f"{n:03d}"`: the number in decimal, zero-padded to three digits. */
  function Pad3(n: nat): (r: string)
    ensures n < 1000 ==> |r| == 3
    ensures forall i :: 0 <= i < |r| ==> IsDigit(r[i])
  {
    if n < 1000 then Padded(n, 3) else NatToString(n)
  }

  /** The identifier of the `i`-th (0-based) test record. */
  function TestId(i: nat): string {
    "test-scholarship-" + Pad3(i + 1)
  }

  /** The padded number reads back as the number. */
  lemma Pad3Value(n: nat)
    ensures DigitsValue(Pad3(n)) == n
  {
    if n < 1000 {
      assert Pow10(3) == 1000;
      PaddedValue(n, 3);
    }
  }

  /** Different positions get different identifiers. */
  lemma TestIdsDistinct(i: nat, j: nat)
    requires i != j
    ensures TestId(i) != TestId(j)
  {
    Pad3Value(i + 1);
    Pad3Value(j + 1);
    assert TestId(i)[17..] == Pad3(i + 1);
    assert TestId(j)[17..] == Pad3(j + 1);
  }

  /** The dictionary the script builds for the `i`-th mock, stamped at `now`. */
  function Enhanced(c: Candidate, i: nat, now: string): Dict {
    map["id" := TestId(i), "title" := c.title, "description" := c.description, "amount" := c.amount,
        "deadline" := c.deadline, "eligibility" := c.eligibility, "requirements" := c.requirements,
        "applicationUrl" := c.applicationUrl, "provider" := c.provider, "category" := c.category,
        "status" := "active", "createdDate" := now, "modifiedDate" := now,
        "createdBy" := TEST_AGENT, "lastModifiedBy" := TEST_AGENT]
  }

  /** Lower-cased stripped values this script treats as "no value". */
  const BLANKS: seq<string> := ["not available", "n/a"]

  /** A value that, stripped, is empty or (lower-cased) a placeholder. */
  predicate Blank(v: string) {
    Trim(v) == "" || Lower(Trim(v)) in BLANKS
  }

  /** None of the given fields is blank. */
  predicate NoneBlank(d: Dict, keys: seq<string>) {
    forall i :: 0 <= i < |keys| ==> !Blank(Get(d, keys[i]))
  }

  /**
   * The script's `validate_scholarship_quality`: no key field blank, a title of
   * at least 5 and a description of at least 20 characters (unstripped), and a
   * link (unstripped) with a web scheme.
   */
  predicate ValidQuality(d: Dict) {
    && NoneBlank(d, REQUIRED_FIELDS)
    && |Get(d, TITLE_KEY)| >= 5
    && |Get(d, DESCRIPTION_KEY)| >= 20
    && WebLink(Get(d, URL_KEY))
  }

  /** The enhanced dictionary of every mock, in order; `clock(i)` is the time read for the `i`-th. */
  function Enhance(mocks: seq<Candidate>, clock: nat -> string): (ds: seq<Dict>)
    ensures |ds| == |mocks|
  {
    seq(|mocks|, i requires 0 <= i < |mocks| => Enhanced(mocks[i], i, clock(i)))
  }

  /** The elements `ok` accepts, in their order. */
  function Keep<T>(xs: seq<T>, ok: T -> bool): (out: seq<T>)
    ensures |out| <= |xs|
    ensures forall x :: x in out ==> x in xs && ok(x)
  {
    if xs == [] then []
    else Keep(xs[..|xs| - 1], ok) + (if ok(xs[|xs| - 1]) then [xs[|xs| - 1]] else [])
  }

  /** Keeping what every element satisfies keeps everything. */
  lemma {:induction false} KeepAll<T>(xs: seq<T>, ok: T -> bool)
    requires forall i :: 0 <= i < |xs| ==> ok(xs[i])
    ensures Keep(xs, ok) == xs
  {
    if xs != [] {
      var init := xs[..|xs| - 1];
      assert forall i :: 0 <= i < |init| ==> init[i] == xs[i];
      KeepAll(init, ok);
      assert xs == init + [xs[|xs| - 1]];
    }
  }

  /** The result record `create_test_results` returns. */
  datatype TestResults = TestResults(
    success: bool,
    scholarships: seq<Dict>,
    discovered: nat,
    saved: nat,
    skipped: nat,
    criteria: string,
    sourcesCount: nat)

  /** The search criteria the test results report. */
  const TEST_CRITERIA: string := "STEM and diversity scholarships for college students 2025"

  /**
   * `create_test_results`: enhance each mock in order, keep and count the
   * passing ones as saved, count the others as skipped. `clock(i)` is the time
   * read while enhancing the `i`-th mock.
   */
  method CreateTestResults(mocks: seq<Candidate>, clock: nat -> string) returns (r: TestResults)
    ensures r.success && r.discovered == |mocks| && r.criteria == TEST_CRITERIA && r.sourcesCount == 3
    ensures r.scholarships == Keep(Enhance(mocks, clock), ValidQuality)
    ensures r.saved == |r.scholarships| && r.saved + r.skipped == |mocks|
  {
    ghost var all := Enhance(mocks, clock);
    r := TestResults(true, [], |mocks|, 0, 0, TEST_CRITERIA, 3);
    var i := 0;
    while i < |mocks|
      invariant 0 <= i <= |mocks|
      invariant r.success && r.discovered == |mocks| && r.criteria == TEST_CRITERIA && r.sourcesCount == 3
      invariant r.scholarships == Keep(all[..i], ValidQuality)
      invariant r.saved == |r.scholarships| && r.saved + r.skipped == i
    {
      var enhanced := Enhanced(mocks[i], i, clock(i));
      assert all[..i + 1][..i] == all[..i] && all[i] == enhanced;
      if ValidQuality(enhanced) {
        r := r.(scholarships := r.scholarships + [enhanced], saved := r.saved + 1);
      } else {
        r := r.(skipped := r.skipped + 1);
      }
      i := i + 1;
    }
    assert all[..i] == all;
  }

  /** Non-space at the end and fourteen characters before it. */
  predicate TailShaped(v: string) {
    |v| >= 15 && !IsSpace(v[|v| - 1]) && !IsSpace(v[|v| - 15])
  }

  /** Non-space at both ends, and not of a placeholder's length. */
  predicate Unpadded(v: string) {
    |v| > 0 && !IsSpace(v[0]) && !IsSpace(v[|v| - 1]) && |v| != 3 && |v| != 13
  }

  /** A value with no surrounding whitespace and not of a placeholder's length is not blank. */
  lemma NotBlankUnpadded(v: string)
    requires Unpadded(v)
    ensures !Blank(v)
  {
    TrimUnpadded(v);
  }

  /** A value whose last character and the one fourteen before it are not whitespace strips to at least fifteen characters. */
  lemma TrimKeepsTail(v: string)
    requires TailShaped(v)
    ensures |Trim(v)| >= 15
  {
    var s := TrimStart(v);
    assert |s| >= 15;
    assert s[|s| - 1] == v[|v| - 1];
  }

  /** A value that strips to more characters than any placeholder has is not blank. */
  lemma LongIsNotBlank(v: string)
    requires |Trim(v)| >= 15
    ensures !Blank(v)
  {
    assert |Lower(Trim(v))| >= 15;
    assert forall b :: b in BLANKS ==> |b| < 15;
  }

  /** A value with non-space characters at its end and fourteen before it is not blank. */
  lemma NotBlankByTail(v: string)
    requires TailShaped(v)
    ensures !Blank(v)
  {
    TrimKeepsTail(v);
    LongIsNotBlank(v);
  }

  /** The six key fields of an enhanced mock are its candidate's fields. */
  lemma EnhancedFields(c: Candidate, i: nat, now: string)
    ensures var d := Enhanced(c, i, now);
      && Get(d, TITLE_KEY) == c.title && Get(d, DESCRIPTION_KEY) == c.description
      && Get(d, AMOUNT_KEY) == c.amount && Get(d, DEADLINE_KEY) == c.deadline
      && Get(d, PROVIDER_KEY) == c.provider && Get(d, URL_KEY) == c.applicationUrl
  {
  }

  /** A candidate with no blank key field, a long enough title and description and a link passes the validator. */
  lemma CandidatePasses(c: Candidate, i: nat, now: string)
    requires !Blank(c.title) && !Blank(c.description) && !Blank(c.amount)
    requires !Blank(c.deadline) && !Blank(c.provider) && !Blank(c.applicationUrl)
    requires |c.title| >= 5 && |c.description| >= 20
    requires WebLink(c.applicationUrl)
    ensures ValidQuality(Enhanced(c, i, now))
  {
    EnhancedFields(c, i, now);
    var d := Enhanced(c, i, now);
    RequiredFieldsEach(k => !Blank(Get(d, k)));
  }

  /** A secure link is a web link. */
  lemma SecureLink(rest: string)
    ensures WebLink("https://" + rest)
  {
    assert ("https://" + rest)[..8] == "https://";
  }

  /** The shape of the fields of a mock record, checked character by character. */
  predicate WellFormedMock(c: Candidate) {
    && TailShaped(c.title) && TailShaped(c.description) && Unpadded(c.amount)
    && Unpadded(c.deadline) && TailShaped(c.provider) && TailShaped(c.applicationUrl)
    && |c.description| >= 20
  }

  /** A well-formed mock with a secure link passes the validator. */
  lemma WellFormedPasses(c: Candidate, rest: string, i: nat, now: string)
    requires WellFormedMock(c) && c.applicationUrl == "https://" + rest
    ensures ValidQuality(Enhanced(c, i, now))
  {
    NotBlankByTail(c.title);
    NotBlankByTail(c.description);
    NotBlankUnpadded(c.amount);
    NotBlankUnpadded(c.deadline);
    NotBlankByTail(c.provider);
    NotBlankByTail(c.applicationUrl);
    SecureLink(rest);
    CandidatePasses(c, i, now);
  }

  /** The first mock is well formed. */
  lemma StemWellFormed()
    ensures WellFormedMock(MOCK_STEM)
  {
  }

  /** The second mock is well formed. */
  lemma ArtsWellFormed()
    ensures WellFormedMock(MOCK_ARTS)
  {
  }

  /** The third mock is well formed. */
  lemma TechWellFormed()
    ensures WellFormedMock(MOCK_TECH)
  {
  }

  /** The script's verdict: it passes when the run succeeded and saved at least one record. */
  predicate IntegrationPasses(r: TestResults) {
    r.success && r.saved > 0
  }

  /** The secure links of the three mocks, after their scheme. */
  const MOCK_LINK_TAILS: seq<string> := [
    "stemfoundation.org/scholarships/excellence/apply",
    "artshumanities.edu/awards/leadership/apply",
    "techfuture.org/diversity-scholarship"]

  /** Well-formed candidates with secure links all pass, so all of them are kept. */
  lemma WellFormedAllKept(mocks: seq<Candidate>, tails: seq<string>, clock: nat -> string)
    requires |tails| == |mocks|
    requires forall k :: 0 <= k < |mocks| ==> WellFormedMock(mocks[k]) && mocks[k].applicationUrl == "https://" + tails[k]
    ensures Keep(Enhance(mocks, clock), ValidQuality) == Enhance(mocks, clock)
  {
    var all := Enhance(mocks, clock);
    forall k | 0 <= k < |all|
      ensures ValidQuality(all[k])
    {
      WellFormedPasses(mocks[k], tails[k], k, clock(k));
    }
    KeepAll(all, ValidQuality);
  }

  /** All three mocks pass, so every one of them is saved, in order. */
  lemma AllMocksSaved(clock: nat -> string)
    ensures Keep(Enhance(MOCKS, clock), ValidQuality) == Enhance(MOCKS, clock)
  {
    StemWellFormed();
    ArtsWellFormed();
    TechWellFormed();
    WellFormedAllKept(MOCKS, MOCK_LINK_TAILS, clock);
  }

  /** The script's run over its own mocks saves all three and passes. */
  method RunIntegrationTest(clock: nat -> string) returns (passed: bool, r: TestResults)
    ensures r.saved == 3 && r.skipped == 0
    ensures passed
  {
    r := CreateTestResults(MOCKS, clock);
    AllMocksSaved(clock);
    passed := IntegrationPasses(r);
  }

  /** Stripping a link that starts with a web scheme keeps the scheme. */
  lemma StrippedLinkKeepsScheme(url: string)
    requires WebLink(url)
    ensures WebLink(Trim(url))
  {
    var p := if StartsWith(url, "http://") then "http://" else "https://";
    assert TrimStart(url) == url by {
      assert url[0] == p[0];
    }
    var t := Trim(url);
    assert url[|p| - 1] == p[|p| - 1];
    assert |t| >= |p|;
    assert t[..|p|] == url[..|p|];
  }

  /** A record this validator accepts is complete for the service's validator unless a field reads "not specified". */
  lemma ValidIsComplete(d: Dict)
    requires ValidQuality(d)
    requires forall i :: 0 <= i < |CRITICAL_FIELDS| ==> Lower(Trim(Get(d, CRITICAL_FIELDS[i]))) != "not specified"
    ensures CompletenessProblems(d) == []
  {
    forall i | 0 <= i < |CRITICAL_FIELDS|
      ensures !Unfilled(Get(d, CRITICAL_FIELDS[i]))
    {
      assert CRITICAL_FIELDS[i] == REQUIRED_FIELDS[i];
    }
    StrippedLinkKeepsScheme(Get(d, URL_KEY));
    CompleteIff(d);
  }

  /** "Not available" is already stripped, and lower-cases to the first placeholder. */
  lemma NotAvailableForms()
    ensures Trim(NOT_AVAILABLE) == NOT_AVAILABLE && Lower(NOT_AVAILABLE) == BLANKS[0]
  {
    TrimUnpadded(NOT_AVAILABLE);
  }

  /** A value equal to "Not available" reads as blank here. */
  lemma NotAvailableBlank(v: string)
    requires v == NOT_AVAILABLE
    ensures Blank(v)
  {
    NotAvailableForms();
  }

  /** A field that is not blank here is present for the quality tally. */
  lemma FilledIsPresent(d: Dict, key: string)
    requires !Blank(Get(d, key))
    ensures Present(d, key)
  {
    if key in d && d[key] == NOT_AVAILABLE {
      NotAvailableBlank(d[key]);
    }
  }

  /** A record this validator accepts has all six key fields present, so it grades high. */
  lemma ValidIsHighQuality(d: Dict)
    requires ValidQuality(d)
    ensures QualityOf(d) == High
  {
    RequiredFieldsEach(k => !Blank(Get(d, k)));
    FilledIsPresent(d, TITLE_KEY);
    FilledIsPresent(d, DESCRIPTION_KEY);
    FilledIsPresent(d, AMOUNT_KEY);
    FilledIsPresent(d, DEADLINE_KEY);
    FilledIsPresent(d, PROVIDER_KEY);
    FilledIsPresent(d, URL_KEY);
    RequiredFieldsEach(k => Present(d, k));
    AllPresentIsHigh(d);
  }
}
