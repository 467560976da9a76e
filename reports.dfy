/**
 * The data-quality tally the command-line runner, the integration test and the
 * pipeline test each print: every record is graded by how many of six key
 * fields it fills, and the grades are counted.
 */
module QualityReport {
  import opened State
  import opened Service

  /** The six fields whose presence is counted. */
  const REQUIRED_FIELDS: seq<string> := [TITLE_KEY, DESCRIPTION_KEY, AMOUNT_KEY, DEADLINE_KEY, PROVIDER_KEY, URL_KEY]

  /** A property holds of every required field exactly when it holds of each of the six by name. */
  lemma RequiredFieldsEach(ok: string -> bool)
    ensures (forall i :: 0 <= i < |REQUIRED_FIELDS| ==> ok(REQUIRED_FIELDS[i])) <==>
      ok(TITLE_KEY) && ok(DESCRIPTION_KEY) && ok(AMOUNT_KEY) && ok(DEADLINE_KEY) && ok(PROVIDER_KEY) && ok(URL_KEY)
  {
    var r := REQUIRED_FIELDS;
    assert r[0] == TITLE_KEY && r[1] == DESCRIPTION_KEY && r[2] == AMOUNT_KEY;
    assert r[3] == DEADLINE_KEY && r[4] == PROVIDER_KEY && r[5] == URL_KEY;
    if ok(TITLE_KEY) && ok(DESCRIPTION_KEY) && ok(AMOUNT_KEY) && ok(DEADLINE_KEY) && ok(PROVIDER_KEY) && ok(URL_KEY) {
      forall i | 0 <= i < |REQUIRED_FIELDS|
        ensures ok(REQUIRED_FIELDS[i])
      {
        assert i == 0 || i == 1 || i == 2 || i == 3 || i == 4 || i == 5;
      }
    }
  }

  /** A field is present when it holds a non-empty value other than exactly "Not available". */
  predicate Present(d: Dict, key: string) {
    key in d && d[key] != "" && d[key] != NOT_AVAILABLE
  }

  /** How many of `keys` are present in `d`. */
  function PresentCount(d: Dict, keys: seq<string>): (n: nat)
    ensures n <= |keys|
  {
    if keys == [] then 0
    else PresentCount(d, keys[..|keys| - 1]) + (if Present(d, keys[|keys| - 1]) then 1 else 0)
  }

  datatype Quality = High | Medium | Low

  /** Five or six present fields grade high, three or four medium, fewer low. */
  function Grade(present: nat): Quality {
    if present >= 5 then High else if present >= 3 then Medium else Low
  }

  /** The grade of one record. */
  function QualityOf(d: Dict): Quality {
    Grade(PresentCount(d, REQUIRED_FIELDS))
  }

  /** The number of records with grade `q`. */
  function CountGrade(recs: seq<Dict>, q: Quality): (n: nat)
    ensures n <= |recs|
  {
    if recs == [] then 0
    else CountGrade(recs[..|recs| - 1], q) + (if QualityOf(recs[|recs| - 1]) == q then 1 else 0)
  }

  datatype QualityCounts = QualityCounts(high: nat, medium: nat, low: nat)

  /**
   * `validate_discovery_quality` (and its copies `generate_quality_report` and
   * `validate_scholarship_quality` in the test scripts): one pass over the
   * records, bumping the counter of each record's grade.
   */
  method ValidateDiscoveryQuality(recs: seq<Dict>) returns (counts: QualityCounts)
    ensures counts == QualityCounts(CountGrade(recs, High), CountGrade(recs, Medium), CountGrade(recs, Low))
  {
    counts := QualityCounts(0, 0, 0);
    var i := 0;
    while i < |recs|
      invariant 0 <= i <= |recs|
      invariant counts == QualityCounts(CountGrade(recs[..i], High), CountGrade(recs[..i], Medium), CountGrade(recs[..i], Low))
    {
      assert recs[..i + 1][..i] == recs[..i];
      var present := PresentCount(recs[i], REQUIRED_FIELDS);
      if present >= 5 {
        counts := counts.(high := counts.high + 1);
      } else if present >= 3 {
        counts := counts.(medium := counts.medium + 1);
      } else {
        counts := counts.(low := counts.low + 1);
      }
      i := i + 1;
    }
    assert recs[..i] == recs;
  }

  /** Every record lands in exactly one bucket, so the buckets add up to the number of records. */
  lemma {:induction false} CountsSum(recs: seq<Dict>)
    ensures CountGrade(recs, High) + CountGrade(recs, Medium) + CountGrade(recs, Low) == |recs|
  {
    if recs != [] {
      CountsSum(recs[..|recs| - 1]);
    }
  }

  /** A record grades high exactly with at least five fields present, medium with three or four. */
  lemma GradeThresholds(d: Dict)
    ensures QualityOf(d) == High <==> PresentCount(d, REQUIRED_FIELDS) >= 5
    ensures QualityOf(d) == Medium <==> 3 <= PresentCount(d, REQUIRED_FIELDS) <= 4
    ensures QualityOf(d) == Low <==> PresentCount(d, REQUIRED_FIELDS) <= 2
  {
  }

  /** The count reaches the length of the field list exactly when every listed field is present. */
  lemma {:induction false} PresentCountAll(d: Dict, keys: seq<string>)
    ensures PresentCount(d, keys) == |keys| <==> forall i :: 0 <= i < |keys| ==> Present(d, keys[i])
  {
    if keys != [] {
      var init := keys[..|keys| - 1];
      PresentCountAll(d, init);
      assert forall i :: 0 <= i < |init| ==> init[i] == keys[i];
      assert keys == init + [keys[|keys| - 1]];
    }
  }

  /** A record with all six fields present grades high. */
  lemma AllPresentIsHigh(d: Dict)
    requires forall i :: 0 <= i < |REQUIRED_FIELDS| ==> Present(d, REQUIRED_FIELDS[i])
    ensures QualityOf(d) == High
  {
    PresentCountAll(d, REQUIRED_FIELDS);
  }
}
