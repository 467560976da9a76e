/**
 * The pure judgements applied to records: the lenient gate after extraction,
 * the strict gate before a row is written, the deadline-to-status rule and the
 * keyword categoriser.
 */
module Gates {
  import opened Wrappers
  import opened Text
  import opened State

  /** Empty, or the "Not available" marker. */
  predicate Missing(v: string) {
    v == "" || v == NOT_AVAILABLE
  }

  /** Python's `any(kw in s for kw in kws)`. */
  predicate AnyContains(s: string, kws: seq<string>) {
    exists i :: 0 <= i < |kws| && Contains(s, kws[i])
  }

  /** The words whose presence in the lower-cased link text lets the lenient gate accept it. */
  const URL_INDICATORS: seq<string> := ["http://", "https://", "website", "official", "application", "apply"]

  predicate HasUrlIndicator(url: string) {
    AnyContains(Lower(url), URL_INDICATORS)
  }

  /**
   * `validate_scholarship_quality` (the post-extraction gate): a candidate is
   * rejected when title or description is empty, the description is under 30
   * characters, the deadline or the link is missing, or the lower-cased link
   * carries none of the indicator words; every other candidate is accepted.
   */
  function LenientGate(c: Candidate): (ok: bool)
    ensures ok <==>
      && c.title != "" && c.description != ""
      && |c.description| >= 30
      && !Missing(c.deadline)
      && !Missing(c.applicationUrl)
      && HasUrlIndicator(c.applicationUrl)
  {
    if c.title == "" || c.description == "" then false
    else if |c.description| < 30 then false
    else if Missing(c.deadline) then false
    else if Missing(c.applicationUrl) then false
    else HasUrlIndicator(c.applicationUrl)
  }

  /** An absolute http or https link always carries an indicator word. */
  lemma AbsoluteUrlHasIndicator(url: string)
    requires StartsWith(url, "http://") || StartsWith(url, "https://")
    ensures HasUrlIndicator(url)
  {
    var scheme: string := if StartsWith(url, "http://") then "http://" else "https://";
    var low := Lower(url);
    assert forall i :: 0 <= i < |scheme| ==> low[i] == LowerChar(scheme[i]) == scheme[i];
    assert low[..|scheme|] == scheme;
    assert MatchAt(low, scheme, 0);
    var k := if scheme == "http://" then 0 else 1;
    assert URL_INDICATORS[k] == scheme;
  }

  /** A candidate with a complete description, a deadline and an absolute link passes the lenient gate. */
  lemma LenientAcceptsAbsoluteUrls(c: Candidate)
    requires c.title != "" && |c.description| >= 30 && !Missing(c.deadline)
    requires StartsWith(c.applicationUrl, "http://") || StartsWith(c.applicationUrl, "https://")
    ensures LenientGate(c)
  {
    var u := c.applicationUrl;
    AbsoluteUrlHasIndicator(u);
    assert u[0] == 'h' by {
      if StartsWith(u, "http://") {
        assert u[..7][0] == 'h';
      } else {
        assert u[..8][0] == 'h';
      }
    }
    InitialHNotMissing(u);
  }

  /** A value starting with `h` is neither empty nor "Not available". */
  lemma InitialHNotMissing(v: string)
    requires |v| > 0 && v[0] == 'h'
    ensures !Missing(v)
  {
    assert NOT_AVAILABLE[0] == 'N';
  }

  /** The shape `\d{4}-\d{2}-\d{2}` at the start of the string (what `re.match` tests). */
  predicate IsoPrefix(s: string) {
    && |s| >= 10
    && IsDigit(s[0]) && IsDigit(s[1]) && IsDigit(s[2]) && IsDigit(s[3])
    && s[4] == '-' && IsDigit(s[5]) && IsDigit(s[6])
    && s[7] == '-' && IsDigit(s[8]) && IsDigit(s[9])
  }

  /** The shape `\d{2}/\d{2}/\d{4}` at the start of the string. */
  predicate UsPrefix(s: string) {
    && |s| >= 10
    && IsDigit(s[0]) && IsDigit(s[1]) && s[2] == '/'
    && IsDigit(s[3]) && IsDigit(s[4]) && s[5] == '/'
    && IsDigit(s[6]) && IsDigit(s[7]) && IsDigit(s[8]) && IsDigit(s[9])
  }

  /**
   * `validate_scholarship_for_sheets` (the pre-persist gate): title of at least
   * 5 characters, description of at least 20, a deadline that is missing or
   * starts with the `YYYY-MM-DD` shape, and a provider that is present. The
   * application link is not looked at.
   */
  function StrictGate(s: Scholarship): (ok: bool)
    ensures ok <==>
      && |s.title| >= 5
      && |s.description| >= 20
      && (Missing(s.deadline) || IsoPrefix(s.deadline))
      && !Missing(s.provider)
  {
    if s.title == "" || s.description == "" then false
    else if |s.title| < 5 then false
    else if |s.description| < 20 then false
    else if !Missing(s.deadline) && !IsoPrefix(s.deadline) then false
    else if Missing(s.provider) then false
    else true
  }

  /** The strict gate gives the same verdict whatever the application link is. */
  lemma StrictGateIgnoresUrl(s: Scholarship, url: string)
    ensures StrictGate(s.(applicationUrl := url)) == StrictGate(s)
  {
  }

  /**
   * A candidate the lenient gate accepts reaches the sheet's quality bar once its
   * title has 5 characters, its provider is present and its deadline has the
   * `YYYY-MM-DD` shape.
   */
  lemma LenientThenStrict(st: Stamp, c: Candidate)
    requires LenientGate(c)
    requires |c.title| >= 5 && !Missing(c.provider) && IsoPrefix(c.deadline)
    ensures StrictGate(CreateNew(st, c))
  {
  }

  /** A calendar date. */
  datatype Date = Date(year: int, month: int, day: int)

  predicate LeapYear(y: int) {
    y % 4 == 0 && (y % 100 != 0 || y % 400 == 0)
  }

  function DaysInMonth(y: int, m: int): int
    requires 1 <= m <= 12
  {
    if m == 2 then (if LeapYear(y) then 29 else 28)
    else if m == 4 || m == 6 || m == 9 || m == 11 then 30
    else 31
  }

  /** A date the standard library's `date` type can hold. */
  predicate ValidDate(d: Date) {
    1 <= d.year <= 9999 && 1 <= d.month <= 12 && 1 <= d.day <= DaysInMonth(d.year, d.month)
  }

  /** `a > b` on dates. */
  predicate After(a: Date, b: Date) {
    a.year > b.year
    || (a.year == b.year && a.month > b.month)
    || (a.year == b.year && a.month == b.month && a.day > b.day)
  }

  /**
   * `strptime(s, '%Y-%m-%d')` on a string that starts with the `YYYY-MM-DD` shape:
   * it succeeds exactly when nothing follows the shape and the date exists.
   */
  function StrptimeIso(s: string): (r: Option<Date>)
    requires IsoPrefix(s)
    ensures r.Some? ==> |s| == 10 && ValidDate(r.value)
  {
    var d := Date(DigitsValue(s[..4]), DigitsValue(s[5..7]), DigitsValue(s[8..10]));
    if |s| == 10 && ValidDate(d) then Some(d) else None
  }

  /** `strptime(s, '%m/%d/%Y')` on a string that starts with the `MM/DD/YYYY` shape. */
  function StrptimeUs(s: string): (r: Option<Date>)
    requires UsPrefix(s)
    ensures r.Some? ==> |s| == 10 && ValidDate(r.value)
  {
    var d := Date(DigitsValue(s[6..10]), DigitsValue(s[..2]), DigitsValue(s[3..5]));
    if |s| == 10 && ValidDate(d) then Some(d) else None
  }

  /** Zero-padded decimal digits of `n`, `width` of them. */
  function Padded(n: nat, width: nat): (r: string)
    ensures |r| == width
    ensures forall i :: 0 <= i < |r| ==> IsDigit(r[i])
  {
    if width == 0 then "" else Padded(n / 10, width - 1) + [DigitChar(n % 10)]
  }

  /** Reading back `width` padded digits gives the number when it fits. */
  lemma {:induction false} PaddedValue(n: nat, width: nat)
    requires n < Pow10(width)
    ensures DigitsValue(Padded(n, width)) == n
  {
    if width > 0 {
      PaddedValue(n / 10, width - 1);
      var r := Padded(n, width);
      assert r[..|r| - 1] == Padded(n / 10, width - 1);
    }
  }

  function Pow10(k: nat): (p: nat)
    ensures p >= 1
  {
    if k == 0 then 1 else 10 * Pow10(k - 1)
  }

  /** A date written as `YYYY-MM-DD`. */
  function FormatIso(d: Date): (s: string)
    requires ValidDate(d)
    ensures IsoPrefix(s) && |s| == 10
  {
    Padded(d.year, 4) + "-" + Padded(d.month, 2) + "-" + Padded(d.day, 2)
  }

  /** Parsing a date written as `YYYY-MM-DD` gives the date back. */
  lemma IsoRoundTrip(d: Date)
    requires ValidDate(d)
    ensures StrptimeIso(FormatIso(d)) == Some(d)
  {
    FormatIsoLayout(d);
    assert Pow10(2) == 100 && Pow10(4) == 10000;
    PaddedValue(d.year, 4);
    PaddedValue(d.month, 2);
    PaddedValue(d.day, 2);
  }

  /** Where the three numbers sit in the written date. */
  lemma FormatIsoLayout(d: Date)
    requires ValidDate(d)
    ensures var s := FormatIso(d);
      s[..4] == Padded(d.year, 4) && s[5..7] == Padded(d.month, 2) && s[8..10] == Padded(d.day, 2)
  {
    var y, m, dd := Padded(d.year, 4), Padded(d.month, 2), Padded(d.day, 2);
    var s := y + "-" + m + "-" + dd;
    assert s[..4] == y;
    assert s[5..7] == m;
    assert s[8..10] == dd;
  }

  /**
   * `is_active_scholarship`: an empty or "Not available" deadline is not active;
   * a deadline that parses (as `YYYY-MM-DD`, as `MM/DD/YYYY`, or else through the
   * general date parser `fallback`) is active when it lies strictly after `today`;
   * a deadline that does not parse is treated as active.
   */
  function IsActive(deadline: string, today: Date, fallback: string -> Option<Date>): bool
  {
    if Missing(deadline) then false
    else
      var parsed :=
        if IsoPrefix(deadline) then StrptimeIso(deadline)
        else if UsPrefix(deadline) then StrptimeUs(deadline)
        else fallback(deadline);
      match parsed
      case None => true
      case Some(d) => After(d, today)
  }

  /** A `YYYY-MM-DD` deadline is active exactly when it is after today. */
  lemma IsActiveIsoDeadline(d: Date, today: Date, fallback: string -> Option<Date>)
    requires ValidDate(d)
    ensures IsActive(FormatIso(d), today, fallback) <==> After(d, today)
  {
    IsoRoundTrip(d);
    assert FormatIso(d) != NOT_AVAILABLE by { assert FormatIso(d)[0] != NOT_AVAILABLE[0]; }
  }

  /** An empty or "Not available" deadline is never active. */
  lemma MissingDeadlineInactive(deadline: string, today: Date, fallback: string -> Option<Date>)
    requires Missing(deadline)
    ensures !IsActive(deadline, today, fallback)
  {
  }

  /** A deadline that no parser accepts is optimistically active. */
  lemma UnparseableDeadlineActive(deadline: string, today: Date, fallback: string -> Option<Date>)
    requires !Missing(deadline) && !IsoPrefix(deadline) && !UsPrefix(deadline)
    requires fallback(deadline) == None
    ensures IsActive(deadline, today, fallback)
  {
  }

  /** `"2099-01-01"` is active on any date of this millennium and `"2000-01-01"` is expired after it. */
  lemma StatusExamples(today: Date, fallback: string -> Option<Date>)
    requires ValidDate(today) && 2000 <= today.year < 2099
    requires today != Date(2000, 1, 1)
    ensures IsActive("2099-01-01", today, fallback)
    ensures !IsActive("2000-01-01", today, fallback)
  {
    assert FormatIso(Date(2099, 1, 1)) == "2099-01-01";
    IsActiveIsoDeadline(Date(2099, 1, 1), today, fallback);
    assert FormatIso(Date(2000, 1, 1)) == "2000-01-01";
    IsActiveIsoDeadline(Date(2000, 1, 1), today, fallback);
  }

  /** The status written on an extracted record (line 431 of the graph module). */
  function StatusFor(deadline: string, today: Date, fallback: string -> Option<Date>): (st: string)
    ensures st == "active" || st == "expired"
    ensures st == "active" <==> IsActive(deadline, today, fallback)
  {
    if IsActive(deadline, today, fallback) then "active" else "expired"
  }

  /** One category and the keywords that select it. */
  datatype Rule = Rule(name: string, keywords: seq<string>)

  const GENERAL: string := "General"

  /** The categories in the order they are tried. */
  const RULES: seq<Rule> := [
    Rule("STEM", ["stem", "science", "technology", "engineering", "math", "computer",
                  "programming", "data", "research", "laboratory", "technical"]),
    Rule("Medical/Health", ["medical", "health", "nursing", "pharmacy", "medicine", "healthcare",
                            "doctor", "physician", "dental", "veterinary"]),
    Rule("Arts & Humanities", ["art", "arts", "music", "creative", "design", "visual", "performing",
                               "theater", "theatre", "dance", "painting", "sculpture"]),
    Rule("Business & Economics", ["business", "entrepreneurship", "leadership", "management",
                                  "finance", "marketing", "economics"]),
    Rule("Diversity & Inclusion", ["diversity", "minority", "underrepresented", "hispanic", "latino",
                                   "african american", "indigenous", "women", "female", "lgbtq"]),
    Rule("Environmental", ["environmental", "sustainability", "climate", "green", "conservation",
                           "renewable energy", "ecology"])]

  /** The seven labels the categoriser can return. */
  const CATEGORY_LABELS: set<string> := {
    "STEM", "Medical/Health", "Arts & Humanities", "Business & Economics",
    "Diversity & Inclusion", "Environmental", "General"}

  /** The label of the first rule with a keyword in `content`, or "General". */
  function FirstMatch(content: string, rules: seq<Rule>): (cat: string)
    ensures cat == GENERAL || exists i :: 0 <= i < |rules| && rules[i].name == cat
  {
    if rules == [] then GENERAL
    else if AnyContains(content, rules[0].keywords) then rules[0].name
    else FirstMatch(content, rules[1..])
  }

  /** The text the categoriser searches: `f"{title} {description}".lower()`. */
  function CategoryText(title: string, description: string): string {
    Lower(title + " " + description)
  }

  /** `auto_categorize_scholarship`: always one of the seven labels. */
  function AutoCategorize(title: string, description: string): (cat: string)
    ensures cat in CATEGORY_LABELS
  {
    FirstMatch(CategoryText(title, description), RULES)
  }

  /** Rule labels are pairwise distinct and differ from the default. */
  predicate DistinctLabels(rules: seq<Rule>) {
    && (forall i :: 0 <= i < |rules| ==> rules[i].name != GENERAL)
    && (forall i, j :: 0 <= i < j < |rules| ==> rules[i].name != rules[j].name)
  }

  /** With distinct labels, rule `k` wins exactly when it is the first rule with a hit. */
  lemma {:induction false} FirstMatchIsFirstHit(content: string, rules: seq<Rule>, k: nat)
    requires DistinctLabels(rules) && k < |rules|
    ensures FirstMatch(content, rules) == rules[k].name <==>
      AnyContains(content, rules[k].keywords) &&
      forall j :: 0 <= j < k ==> !AnyContains(content, rules[j].keywords)
  {
    if k > 0 {
      if AnyContains(content, rules[0].keywords) {
        assert rules[0].name != rules[k].name;
      } else {
        assert DistinctLabels(rules[1..]);
        FirstMatchIsFirstHit(content, rules[1..], k - 1);
        assert forall j :: 1 <= j < k ==> rules[1..][j - 1] == rules[j];
      }
    }
  }

  /** With distinct labels, the default is returned exactly when no rule has a hit. */
  lemma {:induction false} FirstMatchDefault(content: string, rules: seq<Rule>)
    requires DistinctLabels(rules)
    ensures FirstMatch(content, rules) == GENERAL <==>
      forall j :: 0 <= j < |rules| ==> !AnyContains(content, rules[j].keywords)
  {
    if rules != [] && !AnyContains(content, rules[0].keywords) {
      assert DistinctLabels(rules[1..]);
      FirstMatchDefault(content, rules[1..]);
      assert forall j :: 1 <= j < |rules| ==> rules[1..][j - 1] == rules[j];
    }
  }

  /**
   * The categoriser tries STEM, Medical/Health, Arts & Humanities, Business &
   * Economics, Diversity & Inclusion and Environmental in that order and returns
   * the first whose keyword list hits the lower-cased text; "General" when none does.
   */
  lemma AutoCategorizeFirstHit(title: string, description: string, k: nat)
    requires k < |RULES|
    ensures AutoCategorize(title, description) == RULES[k].name <==>
      AnyContains(CategoryText(title, description), RULES[k].keywords) &&
      forall j :: 0 <= j < k ==> !AnyContains(CategoryText(title, description), RULES[j].keywords)
    ensures AutoCategorize(title, description) == GENERAL <==>
      forall j :: 0 <= j < |RULES| ==> !AnyContains(CategoryText(title, description), RULES[j].keywords)
  {
    assert DistinctLabels(RULES);
    FirstMatchIsFirstHit(CategoryText(title, description), RULES, k);
    FirstMatchDefault(CategoryText(title, description), RULES);
  }
}
