/**
 * The record model: one extracted candidate (the nine fields the extraction step
 * returns), the fifteen-field scholarship record, the collection that one run
 * fills, the fixed fifteen-column sheet layout, and the run state whose list
 * channels are merged by concatenation.
 */
module State {
  import opened Wrappers

  /** The "checked, not found" marker. */
  const NOT_AVAILABLE: string := "Not available"

  /** The producer recorded on every record `create_new` makes. */
  const AGENT_ID: string := "ScholarshipAgent"

  /** One candidate as the structured extraction returns it (nine content fields). */
  datatype Candidate = Candidate(
    title: string,
    description: string,
    amount: string,
    deadline: string,
    eligibility: string,
    requirements: string,
    applicationUrl: string,
    provider: string,
    category: string)

  /** One scholarship record: the nine content fields plus identity, status and audit metadata. */
  datatype Scholarship = Scholarship(
    id: string,
    title: string,
    description: string,
    amount: string,
    deadline: string,
    eligibility: string,
    requirements: string,
    applicationUrl: string,
    provider: string,
    category: string,
    status: string,
    createdDate: string,
    modifiedDate: string,
    createdBy: string,
    lastModifiedBy: string)

  /** What the environment supplies to one record creation: a fresh identifier and the current time. */
  datatype Stamp = Stamp(id: string, now: string)

  /** The nine content fields of a record. */
  function Content(s: Scholarship): Candidate {
    Candidate(s.title, s.description, s.amount, s.deadline, s.eligibility,
              s.requirements, s.applicationUrl, s.provider, s.category)
  }

  /**
   * `ScholarshipData.create_new`: the content fields are taken as given, the
   * identifier and both timestamps come from the stamp, both audit fields name
   * the agent, and the status starts as "Active".
   */
  function CreateNew(st: Stamp, c: Candidate): (r: Scholarship)
    ensures Content(r) == c
    ensures r.id == st.id
    ensures r.createdDate == r.modifiedDate == st.now
    ensures r.createdBy == r.lastModifiedBy == AGENT_ID
    ensures r.status == "Active"
  {
    Scholarship(st.id, c.title, c.description, c.amount, c.deadline, c.eligibility,
                c.requirements, c.applicationUrl, c.provider, c.category, "Active",
                st.now, st.now, AGENT_ID, AGENT_ID)
  }

  /** The header row of the sheet. */
  const HEADER: seq<string> := [
    "ID", "Title", "Description", "Amount", "Deadline", "Eligibility",
    "Requirements", "Application URL", "Provider", "Category", "Status",
    "Created Date", "Modified Date", "Created By", "Last Modified By"]

  /** Reads a record back from a fifteen-cell row, column by column. */
  function FromRow(row: seq<string>): Scholarship
    requires |row| == 15
  {
    Scholarship(row[0], row[1], row[2], row[3], row[4], row[5], row[6], row[7],
                row[8], row[9], row[10], row[11], row[12], row[13], row[14])
  }

  /**
   * One data row: fifteen cells in the header's column order, so that reading the
   * row back column by column gives the record again; the title is column 1.
   */
  function ToRow(s: Scholarship): (row: seq<string>)
    ensures |row| == |HEADER| == 15
    ensures FromRow(row) == s
    ensures row[1] == s.title
  {
    [s.id, s.title, s.description, s.amount, s.deadline, s.eligibility, s.requirements,
     s.applicationUrl, s.provider, s.category, s.status, s.createdDate, s.modifiedDate,
     s.createdBy, s.lastModifiedBy]
  }

  /** Two records with the same row are the same record. */
  lemma ToRowInjective(a: Scholarship, b: Scholarship)
    requires ToRow(a) == ToRow(b)
    ensures a == b
  {
    assert FromRow(ToRow(a)) == FromRow(ToRow(b));
  }

  /** The ordered records of one run. */
  class ScholarshipCollection {
    var scholarships: seq<Scholarship>

    constructor ()
      ensures scholarships == []
    {
      scholarships := [];
    }

    /** `add_scholarship`: appends at the end and leaves the earlier records as they were. */
    method AddScholarship(s: Scholarship)
      modifies this
      ensures scholarships == old(scholarships) + [s]
    {
      scholarships := scholarships + [s];
    }

    /**
     * `to_google_sheets_format`: nothing at all for an empty collection; otherwise
     * the header row followed by one row per record, in collection order.
     */
    method ToGoogleSheetsFormat() returns (rows: seq<seq<string>>)
      ensures scholarships == [] ==> rows == []
      ensures scholarships != [] ==> |rows| == |scholarships| + 1 && rows[0] == HEADER
      ensures scholarships != [] ==>
        forall i :: 0 <= i < |scholarships| ==> rows[i + 1] == ToRow(scholarships[i])
      ensures forall i :: 0 <= i < |rows| ==> |rows[i]| == 15
    {
      if scholarships == [] {
        return [];
      }
      rows := [HEADER];
      var i := 0;
      while i < |scholarships|
        invariant 0 <= i <= |scholarships|
        invariant |rows| == i + 1 && rows[0] == HEADER
        invariant forall k :: 0 <= k < i ==> rows[k + 1] == ToRow(scholarships[k])
      {
        rows := rows + [ToRow(scholarships[i])];
        i := i + 1;
      }
      forall j | 0 <= j < |rows| ensures |rows[j]| == 15 {
        if j > 0 { assert rows[j] == ToRow(scholarships[j - 1]); }
      }
    }
  }

  /** One gathered source citation. */
  datatype Source = Source(shortUrl: string, value: string)

  /** What a node hands back for the three list channels of the run state. */
  datatype ChannelUpdate = ChannelUpdate(
    searchQuery: seq<string>,
    webResearchResult: seq<string>,
    sourcesGathered: seq<Source>)

  /**
   * The run state. The three list channels are merged with list concatenation;
   * the optional fields are dictionary keys that may be absent. The three counts
   * and the save error are keys the sink writes into the state it is handed.
   */
  class RunState {
    var searchQuery: seq<string>
    var webResearchResult: seq<string>
    var sourcesGathered: seq<Source>
    var collection: ScholarshipCollection
    var researchLoopCount: Option<int>
    var maxResearchLoops: Option<int>
    var scholarshipsDiscovered: Option<nat>
    var scholarshipsSaved: Option<nat>
    var scholarshipsSkipped: Option<nat>
    var saveError: Option<string>

    constructor (queries: seq<string>)
      ensures searchQuery == queries && webResearchResult == [] && sourcesGathered == []
      ensures fresh(collection) && collection.scholarships == []
      ensures researchLoopCount == None && maxResearchLoops == None
      ensures scholarshipsDiscovered == None && scholarshipsSaved == None && scholarshipsSkipped == None
    ensures saveError == None
    {
      searchQuery := queries;
      webResearchResult := [];
      sourcesGathered := [];
      collection := new ScholarshipCollection();
      researchLoopCount := None;
      maxResearchLoops := None;
      scholarshipsDiscovered := None;
      scholarshipsSaved := None;
      scholarshipsSkipped := None;
      saveError := None;
    }

    /** The `operator.add` reducers: a node's output only ever extends the three lists. */
    method ApplyUpdate(u: ChannelUpdate)
      modifies this
      ensures searchQuery == old(searchQuery) + u.searchQuery
      ensures webResearchResult == old(webResearchResult) + u.webResearchResult
      ensures sourcesGathered == old(sourcesGathered) + u.sourcesGathered
      ensures collection == old(collection)
      ensures researchLoopCount == old(researchLoopCount) && maxResearchLoops == old(maxResearchLoops)
      ensures scholarshipsDiscovered == old(scholarshipsDiscovered)
      ensures scholarshipsSaved == old(scholarshipsSaved) && scholarshipsSkipped == old(scholarshipsSkipped)
      ensures saveError == old(saveError)
    {
      searchQuery := searchQuery + u.searchQuery;
      webResearchResult := webResearchResult + u.webResearchResult;
      sourcesGathered := sourcesGathered + u.sourcesGathered;
    }
  }

  /** Merging updates one after the other keeps every earlier entry in place. */
  lemma MergePreservesPrefix<T>(current: seq<T>, update: seq<T>)
    ensures (current + update)[..|current|] == current
  {
  }
}
