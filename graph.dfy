/**
 * The agent graph: the research-loop rule, the fixed node wiring, the JSON
 * finalize node (inline research, extraction, lenient gate, categorising and
 * status, legacy fallback) and the wired pipeline from extraction to the sheet.
 */
module Graph {
  import opened Wrappers
  import opened Text
  import opened State
  import opened Gates
  import opened LegacyParser
  import opened GapFill
  import opened Sink

  /** The nodes of the graph, and its end. */
  datatype Node =
    | GenerateQueries
    | WebResearch
    | Reflection
    | FinalizeSummary
    | FinalizeJson
    | SearchMissingDetails
    | SearchMissingUrls
    | SaveToSheets
    | End

  /**
   * `evaluate_scholarship_research`: finish (to the text summary) once the loop
   * count, 0 when absent, reaches the loop limit, 2 when absent, or once three
   * research results are in; otherwise research again.
   */
  function EvaluateResearch(loopCount: Option<int>, maxLoops: Option<int>, results: seq<string>): (next: Node)
    ensures next == FinalizeSummary || next == WebResearch
    ensures next == FinalizeSummary <==> loopCount.GetOr(0) >= maxLoops.GetOr(2) || |results| >= 3
  {
    if loopCount.GetOr(0) >= maxLoops.GetOr(2) then FinalizeSummary
    else if |results| >= 3 then FinalizeSummary
    else WebResearch
  }

  /** More research never turns a decision to finish back into more research. */
  lemma EvaluateResearchMonotone(loopCount: Option<int>, maxLoops: Option<int>, results: seq<string>, more: seq<string>)
    requires EvaluateResearch(loopCount, maxLoops, results) == FinalizeSummary
    ensures EvaluateResearch(loopCount, maxLoops, results + more) == FinalizeSummary
  {
  }

  /**
   * The edges of the compiled graph. The conditional edge out of query
   * generation always picks the JSON finalize node; research, reflection and
   * detail search are registered without edges.
   */
  function Successor(n: Node): Option<Node> {
    match n
    case GenerateQueries => Some(FinalizeJson)
    case FinalizeJson => Some(SearchMissingUrls)
    case SearchMissingUrls => Some(SaveToSheets)
    case SaveToSheets => Some(End)
    case FinalizeSummary => Some(End)
    case _ => None
  }

  /** The nodes visited from `n`, following at most `steps` edges. */
  function Path(n: Node, steps: nat): (p: seq<Node>)
    ensures |p| >= 1 && p[0] == n
    ensures forall i :: 0 < i < |p| ==> Successor(p[i - 1]) == Some(p[i])
    decreases steps
  {
    if steps == 0 then [n]
    else match Successor(n)
      case None => [n]
      case Some(m) => [n] + Path(m, steps - 1)
  }

  /** The wired run is a straight line from query generation to the end. */
  lemma WiredPipeline()
    ensures Path(GenerateQueries, 10) == [GenerateQueries, FinalizeJson, SearchMissingUrls, SaveToSheets, End]
  {
  }

  /** The nodes no edge leads to. */
  predicate Orphan(n: Node) {
    n == WebResearch || n == Reflection || n == FinalizeSummary || n == SearchMissingDetails
  }

  /** No path from query generation ever visits research, reflection, the text summary or the detail search. */
  lemma {:induction false} OrphansUnreachable(n: Node, steps: nat, i: nat)
    requires !Orphan(n) && i < |Path(n, steps)|
    ensures !Orphan(Path(n, steps)[i])
  {
    if i > 0 {
      var p := Path(n, steps);
      assert Successor(p[i - 1]) == Some(p[i]);
      match p[i - 1] {
        case GenerateQueries =>
        case WebResearch =>
        case Reflection =>
        case FinalizeSummary =>
        case FinalizeJson =>
        case SearchMissingDetails =>
        case SearchMissingUrls =>
        case SaveToSheets =>
        case End =>
      }
    }
  }

  /** The separator between research texts when they are combined. */
  const RESULT_SEPARATOR: string := "\n---\n\n"

  /** A candidate's category, filled in by the categoriser when empty or "Not available". */
  function ShapeCandidate(c: Candidate): (d: Candidate)
    ensures d.(category := c.category) == c
    ensures !Missing(d.category)
    ensures !Missing(c.category) ==> d == c
    ensures Missing(c.category) ==> d.category == AutoCategorize(c.title, c.description)
  {
    if Missing(c.category) then
      var cat := AutoCategorize(c.title, c.description);
      assert cat in CATEGORY_LABELS;
      c.(category := cat)
    else c
  }

  /** The record made from an accepted candidate: a new record whose status follows the deadline. */
  function ExtractedRecord(c: Candidate, st: Stamp, today: Date, fallback: string -> Option<Date>): (r: Scholarship)
    ensures Content(r) == ShapeCandidate(c)
    ensures r.status == "active" <==> IsActive(c.deadline, today, fallback)
    ensures r.status == "active" || r.status == "expired"
    ensures r.id == st.id && r.createdDate == r.modifiedDate == st.now
  {
    CreateNew(st, ShapeCandidate(c)).(status := StatusFor(c.deadline, today, fallback))
  }

  /** How many candidates pass the lenient gate. */
  function CountPassing(cands: seq<Candidate>): (n: nat)
    ensures n <= |cands|
  {
    if cands == [] then 0
    else CountPassing(cands[..|cands| - 1]) + (if LenientGate(cands[|cands| - 1]) then 1 else 0)
  }

  /**
   * The records the candidate loop adds, in candidate order; candidate `i` uses
   * stamp `stamp(i)`. Each one passed the lenient gate, has a category, and is
   * "active" exactly when its deadline is.
   */
  function AcceptedRecords(cands: seq<Candidate>, stamp: nat -> Stamp, today: Date, fallback: string -> Option<Date>)
    : (out: seq<Scholarship>)
    ensures |out| == CountPassing(cands)
    ensures forall k :: 0 <= k < |out| ==>
      && LenientGate(Content(out[k]))
      && !Missing(out[k].category)
      && (out[k].status == "active" <==> IsActive(out[k].deadline, today, fallback))
      && (out[k].status == "active" || out[k].status == "expired")
  {
    if cands == [] then []
    else
      var last := |cands| - 1;
      var c := cands[last];
      var front := AcceptedRecords(cands[..last], stamp, today, fallback);
      if LenientGate(c) then
        var r := ExtractedRecord(c, stamp(last), today, fallback);
        assert Content(r).(category := c.category) == c;
        front + [r]
      else front
  }

  /**
   * The candidate loop is a filter and a map: a passing candidate `i` becomes
   * the record at the position that counts the passing candidates before it,
   * made from that candidate with stamp `stamp(i)`. With the length
   * `CountPassing(cands)` this fixes every record.
   */
  lemma {:induction false} AcceptedRecordsAt(cands: seq<Candidate>, stamp: nat -> Stamp, today: Date,
                                             fallback: string -> Option<Date>, i: nat)
    requires i < |cands| && LenientGate(cands[i])
    ensures var out := AcceptedRecords(cands, stamp, today, fallback);
      && CountPassing(cands[..i]) < |out|
      && out[CountPassing(cands[..i])] == ExtractedRecord(cands[i], stamp(i), today, fallback)
  {
    var last := |cands| - 1;
    var front := cands[..last];
    if i < last {
      AcceptedRecordsAt(front, stamp, today, fallback, i);
      assert front[..i] == cands[..i];
    } else {
      assert cands[..i] == front;
    }
  }

  /** When every candidate passes, every candidate becomes its record, in order. */
  lemma {:induction false} AllPassingAllAccepted(cands: seq<Candidate>, stamp: nat -> Stamp, today: Date,
                                                 fallback: string -> Option<Date>)
    requires forall i :: 0 <= i < |cands| ==> LenientGate(cands[i])
    ensures AcceptedRecords(cands, stamp, today, fallback)
      == seq(|cands|, i requires 0 <= i < |cands| => ExtractedRecord(cands[i], stamp(i), today, fallback))
  {
    var out := AcceptedRecords(cands, stamp, today, fallback);
    CountPassingAll(cands);
    forall i | 0 <= i < |cands|
      ensures out[i] == ExtractedRecord(cands[i], stamp(i), today, fallback)
    {
      CountPassingAll(cands[..i]);
      AcceptedRecordsAt(cands, stamp, today, fallback, i);
    }
  }

  /** All candidates passing, all are counted. */
  lemma {:induction false} CountPassingAll(cands: seq<Candidate>)
    requires forall i :: 0 <= i < |cands| ==> LenientGate(cands[i])
    ensures CountPassing(cands) == |cands|
  {
    if cands != [] {
      CountPassingAll(cands[..|cands| - 1]);
    }
  }

  /** What one query of the inline research gives back: a text (possibly empty), or an exception. */
  datatype ResearchOutcome = Answer(text: string) | ResearchRaised

  /** What the structured extraction gives back: candidates, or an exception. */
  datatype Extraction = Extracted(cands: seq<Candidate>) | ExtractionFailed

  /** The texts the inline research gathers, in query order; nothing when a query raises. */
  function InlineResearch(queries: seq<string>, research: string -> ResearchOutcome): Option<seq<string>>
  {
    if queries == [] then Some([])
    else
      match InlineResearch(queries[..|queries| - 1], research)
      case None => None
      case Some(texts) =>
        match research(queries[|queries| - 1])
        case ResearchRaised => None
        case Answer(t) => Some(if t != "" then texts + [t] else texts)
  }

  /** The gathered texts are exactly the non-empty answers. */
  lemma {:induction false} InlineResearchNonEmpty(queries: seq<string>, research: string -> ResearchOutcome)
    requires InlineResearch(queries, research).Some?
    ensures |InlineResearch(queries, research).value| <= |queries|
    ensures forall t :: t in InlineResearch(queries, research).value ==> t != ""
  {
    if queries != [] {
      InlineResearchNonEmpty(queries[..|queries| - 1], research);
    }
  }

  /** The loop that runs the inline research; `raised` when one query raised. */
  method RunInlineResearch(queries: seq<string>, research: string -> ResearchOutcome)
    returns (raised: bool, texts: seq<string>)
    ensures raised <==> InlineResearch(queries, research).None?
    ensures !raised ==> texts == InlineResearch(queries, research).value
  {
    texts := [];
    var i := 0;
    while i < |queries|
      invariant 0 <= i <= |queries|
      invariant InlineResearch(queries[..i], research) == Some(texts)
    {
      assert queries[..i + 1][..i] == queries[..i];
      match research(queries[i]) {
        case ResearchRaised =>
          RaisedStaysRaised(queries, research, i + 1);
          return true, texts;
        case Answer(t) =>
          if t != "" {
            texts := texts + [t];
          }
      }
      i := i + 1;
    }
    assert queries[..i] == queries;
    return false, texts;
  }

  /** Once a query raises, the research of every longer prefix fails. */
  lemma {:induction false} RaisedStaysRaised(queries: seq<string>, research: string -> ResearchOutcome, n: nat)
    requires 0 < n <= |queries| && InlineResearch(queries[..n], research).None?
    ensures InlineResearch(queries, research).None?
    decreases |queries| - n
  {
    if n < |queries| {
      assert queries[..n + 1][..n] == queries[..n];
      RaisedStaysRaised(queries, research, n + 1);
    } else {
      assert queries[..n] == queries;
    }
  }

  /** The loop that adds the accepted candidates to the collection. */
  method AddAcceptedCandidates(coll: ScholarshipCollection, cands: seq<Candidate>, stamp: nat -> Stamp,
                               today: Date, fallback: string -> Option<Date>)
    modifies coll
    ensures coll.scholarships == old(coll.scholarships) + AcceptedRecords(cands, stamp, today, fallback)
  {
    var i := 0;
    while i < |cands|
      invariant 0 <= i <= |cands|
      invariant coll.scholarships == old(coll.scholarships) + AcceptedRecords(cands[..i], stamp, today, fallback)
    {
      assert cands[..i + 1][..i] == cands[..i];
      var c := cands[i];
      if LenientGate(c) {
        var r := ExtractedRecord(c, stamp(i), today, fallback);
        coll.AddScholarship(r);
      }
      i := i + 1;
    }
    assert cands[..i] == cands;
  }

  /** The loop that adds the records of the legacy parser to the collection. */
  method AddAll(coll: ScholarshipCollection, recs: seq<Scholarship>)
    modifies coll
    ensures coll.scholarships == old(coll.scholarships) + recs
  {
    var i := 0;
    while i < |recs|
      invariant 0 <= i <= |recs|
      invariant coll.scholarships == old(coll.scholarships) + recs[..i]
    {
      assert recs[..i + 1] == recs[..i] + [recs[i]];
      coll.AddScholarship(recs[i]);
      i := i + 1;
    }
    assert recs[..i] == recs;
  }

  /** The records the finalize node adds for some combined research text. */
  function FinalizedRecords(content: string, extract: string -> Extraction, stamp: nat -> Stamp,
                            today: Date, fallback: string -> Option<Date>): seq<Scholarship>
  {
    if Trim(content) == [] then []
    else match extract(content)
      case Extracted(cands) => AcceptedRecords(cands, stamp, today, fallback)
      case ExtractionFailed => LegacyParse(content, stamp)
  }

  /** The research texts the finalize node works on: the existing ones, or the inline research when there are none. */
  function ResearchTexts(existing: seq<string>, queries: seq<string>, research: string -> ResearchOutcome)
    : Option<seq<string>>
  {
    if existing == [] then InlineResearch(queries, research) else Some(existing)
  }

  /**
   * `finalize_scholarship_summary_json`: when the run has no research text yet,
   * every query is researched inline (a raising query fails the run); the texts
   * are combined, and unless the combination is blank, the extracted candidates
   * that pass the lenient gate are added with their category filled in and their
   * status set by the deadline, or, when the extraction raises, the records the
   * legacy parser finds in the combined text are added.
   */
  method FinalizeScholarshipSummaryJson(st: RunState, research: string -> ResearchOutcome,
                                        extract: string -> Extraction, stamp: nat -> Stamp,
                                        today: Date, fallback: string -> Option<Date>)
    returns (raised: bool)
    modifies st`webResearchResult, st.collection
    ensures var texts := ResearchTexts(old(st.webResearchResult), st.searchQuery, research);
      raised <==> texts.None?
    ensures raised ==> st.collection.scholarships == old(st.collection.scholarships)
    ensures var texts := ResearchTexts(old(st.webResearchResult), st.searchQuery, research);
      !raised ==>
        && st.webResearchResult == texts.value
        && st.collection.scholarships == old(st.collection.scholarships)
             + FinalizedRecords(Join(texts.value, RESULT_SEPARATOR), extract, stamp, today, fallback)
  {
    if st.webResearchResult == [] {
      var failed, texts := RunInlineResearch(st.searchQuery, research);
      if failed {
        return true;
      }
      st.webResearchResult := texts;
    }
    var content := Join(st.webResearchResult, RESULT_SEPARATOR);
    if Trim(content) == [] {
      return false;
    }
    match extract(content) {
      case Extracted(cands) =>
        AddAcceptedCandidates(st.collection, cands, stamp, today, fallback);
      case ExtractionFailed =>
        var recs := ParseLegacyScholarshipFormat(content, stamp);
        AddAll(st.collection, recs);
    }
    return false;
  }

  /** Every row the sink writes passes the strict gate. */
  lemma WrittenRowsPassGate(key: string -> string, seen: set<string>, recs: seq<Scholarship>, i: nat)
    requires i < |Walk(key, seen, recs).appended|
    ensures var row := RowsOf(Walk(key, seen, recs).appended)[i];
      |row| == 15 && StrictGate(FromRow(row))
  {
    var a := Walk(key, seen, recs).appended;
    assert a[i] in a;
  }

  /**
   * The wired JSON pipeline after query generation: finalize, link search,
   * sheet. A run that does not raise and reaches the sheet writes only rows
   * of fifteen cells that pass the strict gate.
   */
  method RunJsonPipeline(st: RunState, sheet: Sheet, research: string -> ResearchOutcome,
                         extract: string -> Extraction, search: string -> SearchOutcome,
                         access: SheetAccess, stamp: nat -> Stamp, today: Date,
                         fallback: string -> Option<Date>)
    returns (raised: bool)
    modifies st, st.collection, sheet
    ensures raised ==> sheet.rows == old(sheet.rows)
    ensures !raised ==> |old(sheet.rows)| <= |sheet.rows|
    ensures forall i :: |old(sheet.rows)| <= i < |sheet.rows| ==>
      |sheet.rows[i]| == 15 && StrictGate(FromRow(sheet.rows[i]))
  {
    raised := FinalizeScholarshipSummaryJson(st, research, extract, stamp, today, fallback);
    assert sheet.rows == old(sheet.rows);
    if raised {
      return;
    }
    SearchMissingApplicationUrls(st, search);
    ghost var rows0 := sheet.rows;
    assert rows0 == old(sheet.rows);
    ghost var recs := st.collection.scholarships;
    SavedRowsPassGate(rows0, recs);
    SaveToGoogleSheets(st, sheet, access);
    assert st.collection.scholarships == recs;
  }

  /** The rows the sink adds below the existing ones all have fifteen cells and pass the strict gate. */
  lemma SavedRowsPassGate(rows0: seq<seq<string>>, recs: seq<Scholarship>)
    ensures var rows := rows0 + RowsOf(Walk(TITLE_KEY, ExistingTitles(TITLE_KEY, rows0), recs).appended);
      forall i :: |rows0| <= i < |rows| ==> |rows[i]| == 15 && StrictGate(FromRow(rows[i]))
  {
    var seen := ExistingTitles(TITLE_KEY, rows0);
    var a := Walk(TITLE_KEY, seen, recs).appended;
    forall i | |rows0| <= i < |rows0 + RowsOf(a)|
      ensures |(rows0 + RowsOf(a))[i]| == 15 && StrictGate(FromRow((rows0 + RowsOf(a))[i]))
    {
      assert (rows0 + RowsOf(a))[i] == RowsOf(a)[i - |rows0|];
      WrittenRowsPassGate(TITLE_KEY, seen, recs, i - |rows0|);
    }
  }
}
