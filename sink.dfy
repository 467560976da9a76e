/**
 * The sheet sink: existing titles are read from the sheet, then the records are
 * walked in order and each one is either appended as a fifteen-cell row or
 * skipped, as a duplicate title or for failing the strict gate.
 */
module Sink {
  import opened Wrappers
  import opened Text
  import opened State
  import opened Gates

  /** The worksheet the records are appended to. */
  class Sheet {
    var rows: seq<seq<string>>

    constructor (initial: seq<seq<string>>)
      ensures rows == initial
    {
      rows := initial;
    }

    /** `append_row`: one more row at the bottom. */
    method AppendRow(row: seq<string>)
      modifies this
      ensures rows == old(rows) + [row]
    {
      rows := rows + [row];
    }
  }

  /** A title as the duplicate check compares it: `title.lower().strip()`. */
  function NormTitle(t: string): string {
    Trim(Lower(t))
  }

  /** The duplicate check ignores letter case. */
  lemma NormTitleIgnoresCase(t: string)
    ensures NormTitle(Lower(t)) == NormTitle(t)
  {
    LowerOfLower(Lower(t));
  }

  /** The key the sink compares titles by, as a function value. */
  const TITLE_KEY: string -> string := NormTitle

  /*
   * The walk and its lemmas take the title key as a parameter `key`; the sink
   * itself uses `NormTitle`.
   */

  /** The keys of column 1 of the rows that have one. */
  function TitlesOf(key: string -> string, rows: seq<seq<string>>): (titles: set<string>)
    ensures forall i :: 0 <= i < |rows| && |rows[i]| > 1 ==> key(rows[i][1]) in titles
    ensures forall t :: t in titles ==> exists i :: 0 <= i < |rows| && |rows[i]| > 1 && key(rows[i][1]) == t
  {
    if rows == [] then {}
    else
      var front := rows[..|rows| - 1];
      var last := rows[|rows| - 1];
      assert forall i :: 0 <= i < |front| ==> rows[i] == front[i];
      TitlesOf(key, front) + (if |last| > 1 then {key(last[1])} else {})
  }

  /** The titles already on the sheet: every row but the first (the header) counts. */
  function ExistingTitles(key: string -> string, rows: seq<seq<string>>): set<string> {
    if |rows| > 1 then TitlesOf(key, rows[1..]) else {}
  }

  /** The rows of `more` added at the bottom contribute their titles. */
  lemma {:induction false} TitlesOfAppend(key: string -> string, rows: seq<seq<string>>, more: seq<seq<string>>)
    ensures TitlesOf(key, rows + more) == TitlesOf(key, rows) + TitlesOf(key, more)
  {
    if more == [] {
      assert rows + more == rows;
    } else {
      var n := |more| - 1;
      assert (rows + more)[..|rows + more| - 1] == rows + more[..n];
      TitlesOfAppend(key, rows, more[..n]);
    }
  }

  /** What the walk over the records has produced so far. */
  datatype SinkRun = SinkRun(appended: seq<Scholarship>, skipped: nat, seen: set<string>)

  /** A record is appended when its title is new and it passes the strict gate. */
  predicate Accepts(key: string -> string, seen: set<string>, s: Scholarship) {
    key(s.title) !in seen && StrictGate(s)
  }

  /**
   * The walk over `recs` starting from the titles in `seen`: every record is
   * either appended or skipped, appended records keep their order, and every
   * appended title joins the seen set.
   */
  function Walk(key: string -> string, seen: set<string>, recs: seq<Scholarship>): (r: SinkRun)
    ensures |r.appended| + r.skipped == |recs|
    ensures seen <= r.seen
    ensures forall a :: a in r.appended ==> a in recs && StrictGate(a) && key(a.title) in r.seen
  {
    if recs == [] then SinkRun([], 0, seen)
    else
      var r := Walk(key, seen, recs[..|recs| - 1]);
      var s := recs[|recs| - 1];
      if Accepts(key, r.seen, s) then SinkRun(r.appended + [s], r.skipped, r.seen + {key(s.title)})
      else r.(skipped := r.skipped + 1)
  }

  /** The keys of the titles of some records. */
  function TitleSet(key: string -> string, recs: seq<Scholarship>): set<string> {
    set i | 0 <= i < |recs| :: key(recs[i].title)
  }

  /** Adding one record at the end adds its key to the key set. */
  lemma TitleSetSnoc(key: string -> string, recs: seq<Scholarship>, s: Scholarship)
    ensures TitleSet(key, recs + [s]) == TitleSet(key, recs) + {key(s.title)}
  {
    var app := recs + [s];
    forall t | t in TitleSet(key, app) ensures t in TitleSet(key, recs) + {key(s.title)} {
      var i :| 0 <= i < |app| && key(app[i].title) == t;
      if i < |recs| { assert app[i] == recs[i]; }
    }
    forall t | t in TitleSet(key, recs) ensures t in TitleSet(key, app) {
      var i :| 0 <= i < |recs| && key(recs[i].title) == t;
      assert app[i] == recs[i];
    }
    assert app[|app| - 1] == s;
  }

  /**
   * No two appended records share a key, none of their keys was known before,
   * and the seen set grows by exactly the appended keys.
   */
  lemma {:induction false} WalkAppendsDistinctTitles(key: string -> string, seen: set<string>, recs: seq<Scholarship>)
    ensures Walk(key, seen, recs).seen == seen + TitleSet(key, Walk(key, seen, recs).appended)
    ensures forall i :: 0 <= i < |Walk(key, seen, recs).appended| ==>
      key(Walk(key, seen, recs).appended[i].title) !in seen
    ensures forall i, j :: 0 <= i < j < |Walk(key, seen, recs).appended| ==>
      key(Walk(key, seen, recs).appended[i].title) != key(Walk(key, seen, recs).appended[j].title)
  {
    if recs != [] {
      var front := recs[..|recs| - 1];
      var r := Walk(key, seen, front);
      WalkAppendsDistinctTitles(key, seen, front);
      var s := recs[|recs| - 1];
      if Accepts(key, r.seen, s) {
        TitleSetSnoc(key, r.appended, s);
        var app := r.appended + [s];
        forall i | 0 <= i < |r.appended| ensures key(app[i].title) in r.seen {
          assert app[i] == r.appended[i] && r.appended[i] in r.appended;
        }
        assert app[|app| - 1] == s;
      }
    }
  }

  /** Once every key the walk saw is known, walking the same records again appends nothing. */
  lemma {:induction false} WalkAgainAppendsNothing(key: string -> string, seenA: set<string>, recs: seq<Scholarship>, seenB: set<string>)
    requires Walk(key, seenA, recs).seen <= seenB
    ensures Walk(key, seenB, recs).appended == []
    ensures Walk(key, seenB, recs).seen == seenB
  {
    if recs != [] {
      var front := recs[..|recs| - 1];
      var s := recs[|recs| - 1];
      var ra := Walk(key, seenA, front);
      assert ra.seen <= Walk(key, seenA, recs).seen;
      WalkAgainAppendsNothing(key, seenA, front, seenB);
      if Accepts(key, ra.seen, s) {
        assert key(s.title) in Walk(key, seenA, recs).seen;
      }
    }
  }

  /** The fifteen-cell rows of some records, in order. */
  function RowsOf(recs: seq<Scholarship>): (rows: seq<seq<string>>)
    ensures |rows| == |recs|
    ensures forall i :: 0 <= i < |recs| ==> rows[i] == ToRow(recs[i])
  {
    seq(|recs|, i requires 0 <= i < |recs| => ToRow(recs[i]))
  }

  /** The rows of some records carry exactly their titles. */
  lemma {:induction false} TitlesOfRows(key: string -> string, recs: seq<Scholarship>)
    ensures TitlesOf(key, RowsOf(recs)) == TitleSet(key, recs)
  {
    if recs != [] {
      var n := |recs| - 1;
      assert RowsOf(recs)[..n] == RowsOf(recs[..n]);
      TitlesOfRows(key, recs[..n]);
      assert recs == recs[..n] + [recs[n]];
      TitleSetSnoc(key, recs[..n], recs[n]);
    }
  }

  /** Below a header row, rows added at the bottom contribute their titles. */
  lemma ExistingTitlesAppend(key: string -> string, rows: seq<seq<string>>, more: seq<seq<string>>)
    requires |rows| >= 1
    ensures ExistingTitles(key, rows + more) == ExistingTitles(key, rows) + TitlesOf(key, more)
  {
    assert (rows + more)[1..] == rows[1..] + more;
    TitlesOfAppend(key, rows[1..], more);
    if |rows| == 1 {
      assert rows[1..] == [];
    }
  }

  /**
   * Saving the same records again to the sheet the first save produced saves
   * nothing, provided the sheet already had its header row.
   */
  lemma RerunSavesNothing(key: string -> string, rows: seq<seq<string>>, recs: seq<Scholarship>)
    requires |rows| >= 1
    ensures var r := Walk(key, ExistingTitles(key, rows), recs);
      Walk(key, ExistingTitles(key, rows + RowsOf(r.appended)), recs).appended == []
  {
    var seen := ExistingTitles(key, rows);
    var r := Walk(key, seen, recs);
    var after := rows + RowsOf(r.appended);
    ExistingTitlesAppend(key, rows, RowsOf(r.appended));
    TitlesOfRows(key, r.appended);
    WalkAppendsDistinctTitles(key, seen, recs);
    WalkAgainAppendsNothing(key, seen, recs, ExistingTitles(key, after));
  }

  /**
   * Without a header row the first row written is taken for the header on the
   * next run, so a record saved to an empty sheet is saved again.
   */
  lemma EmptySheetRerunDuplicates(s: Scholarship)
    requires StrictGate(s)
    ensures Walk(NormTitle, ExistingTitles(NormTitle, []), [s]).appended == [s]
    ensures Walk(NormTitle, ExistingTitles(NormTitle, RowsOf([s])), [s]).appended == [s]
  {
    assert [s][..0] == [];
  }

  /** How reaching the sheet went. */
  datatype SheetAccess =
    | Ready                         // credentials and sheet id present, the sheet opened and read
    | NotConfigured                 // credentials or sheet id missing
    | AccessFailed(error: string)   // authorising, opening or reading the sheet raised

  /** The loop that collects the titles already on the sheet. */
  method ReadExistingTitles(key: string -> string, rows: seq<seq<string>>) returns (titles: set<string>)
    ensures titles == ExistingTitles(key, rows)
  {
    titles := {};
    if |rows| > 1 {
      var body := rows[1..];
      var i := 0;
      while i < |body|
        invariant 0 <= i <= |body|
        invariant titles == TitlesOf(key, body[..i])
      {
        assert body[..i + 1][..i] == body[..i];
        if |body[i]| > 1 {
          titles := titles + {key(body[i][1])};
        }
        i := i + 1;
      }
      assert body[..i] == body;
    }
  }

  /** Appending one record's row extends the rows of the appended records by one. */
  lemma RowsOfSnoc(recs: seq<Scholarship>, s: Scholarship)
    ensures RowsOf(recs + [s]) == RowsOf(recs) + [ToRow(s)]
  {
  }

  /** The walk over one more record: it is appended when accepted, counted as skipped otherwise. */
  lemma WalkStep(key: string -> string, seen: set<string>, recs: seq<Scholarship>, i: nat)
    requires i < |recs|
    ensures var r := Walk(key, seen, recs[..i]);
      && (Accepts(key, r.seen, recs[i]) ==>
            Walk(key, seen, recs[..i + 1]) == SinkRun(r.appended + [recs[i]], r.skipped, r.seen + {key(recs[i].title)}))
      && (!Accepts(key, r.seen, recs[i]) ==> Walk(key, seen, recs[..i + 1]) == r.(skipped := r.skipped + 1))
  {
    assert recs[..i + 1][..i] == recs[..i];
  }

  /** The loop over the records: appends one row per accepted record and counts both outcomes. */
  method AppendAccepted(key: string -> string, sheet: Sheet, recs: seq<Scholarship>, seen0: set<string>)
    returns (saved: nat, skipped: nat)
    modifies sheet
    ensures sheet.rows == old(sheet.rows) + RowsOf(Walk(key, seen0, recs).appended)
    ensures saved == |Walk(key, seen0, recs).appended|
    ensures skipped == Walk(key, seen0, recs).skipped
  {
    var seen := seen0;
    saved, skipped := 0, 0;
    var i := 0;
    while i < |recs|
      invariant 0 <= i <= |recs|
      invariant sheet.rows == old(sheet.rows) + RowsOf(Walk(key, seen0, recs[..i]).appended)
      invariant saved == |Walk(key, seen0, recs[..i]).appended|
      invariant skipped == Walk(key, seen0, recs[..i]).skipped
      invariant seen == Walk(key, seen0, recs[..i]).seen
    {
      ghost var before := Walk(key, seen0, recs[..i]);
      WalkStep(key, seen0, recs, i);
      var s := recs[i];
      var t := key(s.title);
      if t in seen {
        skipped := skipped + 1;
      } else if !StrictGate(s) {
        skipped := skipped + 1;
      } else {
        assert Accepts(key, before.seen, s);
        ghost var rowsBefore := sheet.rows;
        sheet.AppendRow(ToRow(s));
        saved := saved + 1;
        seen := seen + {t};
        RowsOfSnoc(before.appended, s);
        assert sheet.rows == old(sheet.rows) + (RowsOf(before.appended) + [ToRow(s)]) by {
          assert sheet.rows == rowsBefore + [ToRow(s)];
        }
      }
      i := i + 1;
    }
    assert recs[..i] == recs;
  }

  /** The sink with the sheet reached: read the titles, walk the records, write the counts. */
  method SaveReady(key: string -> string, st: RunState, sheet: Sheet)
    modifies sheet, st`scholarshipsDiscovered, st`scholarshipsSaved, st`scholarshipsSkipped
    ensures sheet.rows == old(sheet.rows)
      + RowsOf(Walk(key, ExistingTitles(key, old(sheet.rows)), st.collection.scholarships).appended)
    ensures st.scholarshipsDiscovered == Some(|st.collection.scholarships|)
    ensures st.scholarshipsSaved ==
      Some(|Walk(key, ExistingTitles(key, old(sheet.rows)), st.collection.scholarships).appended|)
    ensures st.scholarshipsSkipped ==
      Some(Walk(key, ExistingTitles(key, old(sheet.rows)), st.collection.scholarships).skipped)
  {
    var recs := st.collection.scholarships;
    var existing := ReadExistingTitles(key, sheet.rows);
    var saved, skipped := AppendAccepted(key, sheet, recs, existing);
    st.scholarshipsDiscovered := Some(|recs|);
    st.scholarshipsSaved := Some(saved);
    st.scholarshipsSkipped := Some(skipped);
  }

  /**
   * `save_to_google_sheets`: nothing happens for an empty collection or a
   * missing configuration; a failure to reach the sheet records the record
   * count, zero saved and the error; otherwise the accepted records are
   * appended in order and the three counts are written to the run state.
   */
  method SaveToGoogleSheets(st: RunState, sheet: Sheet, access: SheetAccess)
    modifies sheet, st`scholarshipsDiscovered, st`scholarshipsSaved, st`scholarshipsSkipped, st`saveError
    ensures st.collection.scholarships == [] || access == NotConfigured ==>
      && sheet.rows == old(sheet.rows)
      && st.scholarshipsDiscovered == old(st.scholarshipsDiscovered)
      && st.scholarshipsSaved == old(st.scholarshipsSaved)
      && st.scholarshipsSkipped == old(st.scholarshipsSkipped)
      && st.saveError == old(st.saveError)
    ensures st.collection.scholarships != [] && access.AccessFailed? ==>
      && sheet.rows == old(sheet.rows)
      && st.scholarshipsDiscovered == Some(|st.collection.scholarships|)
      && st.scholarshipsSaved == Some(0)
      && st.scholarshipsSkipped == old(st.scholarshipsSkipped)
      && st.saveError == Some(access.error)
    ensures st.collection.scholarships != [] && access == Ready ==>
      && sheet.rows == old(sheet.rows)
           + RowsOf(Walk(TITLE_KEY, ExistingTitles(TITLE_KEY, old(sheet.rows)), st.collection.scholarships).appended)
      && st.scholarshipsDiscovered == Some(|st.collection.scholarships|)
      && st.scholarshipsSaved ==
           Some(|Walk(TITLE_KEY, ExistingTitles(TITLE_KEY, old(sheet.rows)), st.collection.scholarships).appended|)
      && st.scholarshipsSkipped ==
           Some(Walk(TITLE_KEY, ExistingTitles(TITLE_KEY, old(sheet.rows)), st.collection.scholarships).skipped)
      && st.saveError == old(st.saveError)
  {
    var recs := st.collection.scholarships;
    if recs == [] {
      return;
    }
    match access {
      case NotConfigured =>
        return;
      case AccessFailed(error) =>
        st.scholarshipsDiscovered := Some(|recs|);
        st.scholarshipsSaved := Some(0);
        st.saveError := Some(error);
      case Ready =>
        SaveReady(TITLE_KEY, st, sheet);
    }
  }
}
