/**
 * The fallback parser for the delimited text format: the content is split at
 * every `SCHOLARSHIP_START`, and every block that carries `SCHOLARSHIP_END`
 * and both a title and a description field becomes one record.
 */
module LegacyParser {
  import opened Wrappers
  import opened Text
  import opened State

  const SCHOLARSHIP_START: string := "SCHOLARSHIP_START"
  const SCHOLARSHIP_END: string := "SCHOLARSHIP_END"

  /** The text that closes a field: a newline and `FIELD_END`. */
  const FIELD_CLOSE: string := "\nFIELD_END"

  /** The text that opens the field with the given label. */
  function FieldMarker(name: string): string {
    "FIELD_START: " + name
  }

  /**
   * `re.split(m, s)` for a literal, non-empty separator: the pieces between the
   * leftmost non-overlapping occurrences of `m`.
   */
  function Split(s: string, m: string): (parts: seq<string>)
    requires |m| > 0
    ensures |parts| >= 1
    decreases |s|
  {
    var k := IndexOf(s, m);
    if k < 0 then [s] else [s[..k]] + Split(s[k + |m|..], m)
  }

  /** Joining the pieces with the separator gives the text back. */
  lemma {:induction false} SplitJoin(s: string, m: string)
    requires |m| > 0
    ensures Join(Split(s, m), m) == s
  {
    var k := IndexOf(s, m);
    if k >= 0 {
      var rest := s[k + |m|..];
      SplitJoin(rest, m);
      var tail := Split(rest, m);
      var parts := [s[..k]] + tail;
      assert Split(s, m) == parts;
      assert |parts| > 1 && parts[0] == s[..k] && parts[1..] == tail;
      assert Join(parts, m) == s[..k] + m + Join(tail, m);
      assert s[k..k + |m|] == m;
      assert s == s[..k] + s[k..k + |m|] + rest;
    }
  }

  /** No piece contains the separator. */
  lemma {:induction false} SplitPiecesFree(s: string, m: string, i: nat)
    requires |m| > 0 && i < |Split(s, m)|
    ensures !Contains(Split(s, m)[i], m)
    decreases |s|
  {
    var k := IndexOf(s, m);
    var piece := Split(s, m)[i];
    if k < 0 {
      ContainsIff(s, m);
    } else if i == 0 {
      assert piece == s[..k];
      if Contains(piece, m) {
        ContainsIff(piece, m);
        var j :| MatchAt(piece, m, j);
        assert s[j..j + |m|] == piece[j..j + |m|];
        assert MatchAt(s, m, j);
      }
    } else {
      SplitPiecesFree(s[k + |m|..], m, i - 1);
    }
  }

  /** First index at or after `q` whose character is not whitespace. */
  function SpaceRunEnd(s: string, q: nat): (w: nat)
    requires q <= |s|
    ensures q <= w <= |s|
    ensures forall k :: q <= k < w ==> IsSpace(s[k])
    ensures w == |s| || !IsSpace(s[w])
    decreases |s| - q
  {
    if q < |s| && IsSpace(s[q]) then SpaceRunEnd(s, q + 1) else q
  }

  /**
   * The tail `\s*\n(.*?)\nFIELD_END` of the field pattern, tried the way the
   * backtracking matcher does: with the newline at `j`, then `j - 1`, down to
   * `q`; the captured text runs to the nearest following `\nFIELD_END`.
   */
  function CaptureFrom(s: string, q: nat, j: int): (r: Option<string>)
    requires q <= |s| && j <= |s|
    decreases j - q + 1
  {
    if j < q then None
    else if j < |s| && s[j] == '\n' && IndexOfFrom(s, FIELD_CLOSE, j + 1) >= 0 then
      Some(s[j + 1..IndexOfFrom(s, FIELD_CLOSE, j + 1)])
    else CaptureFrom(s, q, j - 1)
  }

  /**
   * `re.search(r'FIELD_START: <name>\s*\n(.*?)\nFIELD_END', s, re.DOTALL)`,
   * from position `from` on: the capture of the leftmost marker occurrence at
   * which the rest of the pattern matches.
   */
  function SearchField(s: string, name: string, from: nat): (r: Option<string>)
    ensures r.Some? ==> Contains(s, FieldMarker(name))
    decreases |s| - from
  {
    var marker := FieldMarker(name);
    var p := IndexOfFrom(s, marker, from);
    if p < 0 then None
    else
      var q := p + |marker|;
      match CaptureFrom(s, q, SpaceRunEnd(s, q))
      case Some(v) => ContainsIff(s, marker); Some(v)
      case None => SearchField(s, name, p + 1)
  }

  /** A field written in the shape the format prescribes. */
  function FieldText(name: string, v: string): string {
    FieldMarker(name) + "\n" + v + FIELD_CLOSE
  }

  /** The close marker has its only newline in front. */
  lemma CloseNewlineFirst(k: int)
    requires 0 < k < |FIELD_CLOSE|
    ensures FIELD_CLOSE[k] != '\n'
  {
  }

  /** A close marker cannot start inside a value that does not contain one. */
  lemma NoCloseInside(whole: string, start: nat, v: string, a: int)
    requires start + |v| + |FIELD_CLOSE| <= |whole|
    requires whole[start..start + |v| + |FIELD_CLOSE|] == v + FIELD_CLOSE
    requires !Contains(v, FIELD_CLOSE)
    requires start <= a < start + |v|
    ensures !MatchAt(whole, FIELD_CLOSE, a)
  {
    var e := start + |v|;
    var w := whole[start..start + |v| + |FIELD_CLOSE|];
    if MatchAt(whole, FIELD_CLOSE, a) {
      assert forall t :: 0 <= t < |FIELD_CLOSE| ==> whole[a + t] == FIELD_CLOSE[t] by {
        forall t | 0 <= t < |FIELD_CLOSE| ensures whole[a + t] == FIELD_CLOSE[t] {
          assert whole[a..a + |FIELD_CLOSE|][t] == whole[a + t];
        }
      }
      if a + |FIELD_CLOSE| > e {
        assert whole[e] == w[|v|] == '\n';
        CloseNewlineFirst(e - a);
      } else {
        var o := a - start;
        forall t | 0 <= t < |FIELD_CLOSE| ensures v[o + t] == FIELD_CLOSE[t] {
          assert w[o + t] == whole[a + t];
        }
        assert v[o..o + |FIELD_CLOSE|] == FIELD_CLOSE;
        assert MatchAt(v, FIELD_CLOSE, o);
        ContainsIff(v, FIELD_CLOSE);
      }
    }
  }

  /** The nearest close marker at or after `start` is the one right after the value. */
  lemma CloseAfterValue(whole: string, start: nat, v: string)
    requires start + |v| + |FIELD_CLOSE| <= |whole|
    requires whole[start..start + |v| + |FIELD_CLOSE|] == v + FIELD_CLOSE
    requires !Contains(v, FIELD_CLOSE)
    ensures IndexOfFrom(whole, FIELD_CLOSE, start) == start + |v|
  {
    var e := start + |v|;
    assert whole[e..e + |FIELD_CLOSE|] == (v + FIELD_CLOSE)[|v|..];
    assert MatchAt(whole, FIELD_CLOSE, e);
    var r := IndexOfFrom(whole, FIELD_CLOSE, start);
    if r != -1 && r < e {
      NoCloseInside(whole, start, v, r);
    }
  }

  /** After a newline at `q` and a value that starts with a non-space, the capture is the value. */
  lemma CaptureValue(whole: string, q: nat, v: string)
    requires q + 1 + |v| + |FIELD_CLOSE| <= |whole|
    requires whole[q] == '\n'
    requires whole[q + 1..q + 1 + |v| + |FIELD_CLOSE|] == v + FIELD_CLOSE
    requires v != [] && !IsSpace(v[0])
    requires !Contains(v, FIELD_CLOSE)
    ensures CaptureFrom(whole, q, SpaceRunEnd(whole, q)) == Some(v)
  {
    var start := q + 1;
    assert whole[start] == (v + FIELD_CLOSE)[0] == v[0];
    assert SpaceRunEnd(whole, start) == start;
    assert SpaceRunEnd(whole, q) == start;
    CloseAfterValue(whole, start, v);
    assert whole[start..start + |v|] == (v + FIELD_CLOSE)[..|v|] == v;
    assert CaptureFrom(whole, q, q) == Some(v);
    assert whole[start] != '\n';
    assert CaptureFrom(whole, q, start) == CaptureFrom(whole, q, q);
  }

  /**
   * A field written as marker, newline, value and close marker reads back as
   * the value, provided it is the first occurrence of its marker, the value
   * does not start with whitespace and contains no close marker.
   */
  lemma FieldRoundTrip(pre: string, name: string, v: string, post: string)
    requires IndexOf(pre + FieldText(name, v) + post, FieldMarker(name)) == |pre|
    requires v != [] && !IsSpace(v[0])
    requires !Contains(v, FIELD_CLOSE)
    ensures SearchField(pre + FieldText(name, v) + post, name, 0) == Some(v)
  {
    FieldTextLayout(pre, name, v, post);
    FieldAt(pre + FieldText(name, v) + post, |pre|, name, v);
  }

  /** The field search finds a laid-out value behind the first occurrence of its marker. */
  lemma FieldAt(whole: string, p: nat, name: string, v: string)
    requires IndexOf(whole, FieldMarker(name)) == p
    requires var q := p + |FieldMarker(name)|;
      && q + 1 + |v| + |FIELD_CLOSE| <= |whole|
      && whole[q] == '\n'
      && whole[q + 1..q + 1 + |v| + |FIELD_CLOSE|] == v + FIELD_CLOSE
    requires v != [] && !IsSpace(v[0])
    requires !Contains(v, FIELD_CLOSE)
    ensures SearchField(whole, name, 0) == Some(v)
  {
    CaptureValue(whole, p + |FieldMarker(name)|, v);
    SearchFieldHit(whole, name, p, v);
  }

  /** Where the newline, the value and the close marker sit in a written field. */
  lemma FieldTextLayout(pre: string, name: string, v: string, post: string)
    ensures var whole := pre + FieldText(name, v) + post;
      var q := |pre| + |FieldMarker(name)|;
      && q + 1 + |v| + |FIELD_CLOSE| <= |whole|
      && whole[q] == '\n'
      && whole[q + 1..q + 1 + |v| + |FIELD_CLOSE|] == v + FIELD_CLOSE
  {
    var whole := pre + FieldText(name, v) + post;
    var q := |pre| + |FieldMarker(name)|;
    var tail := v + FIELD_CLOSE;
    assert whole == pre + FieldMarker(name) + "\n" + tail + post;
    assert whole[q + 1..q + 1 + |tail|] == tail;
  }

  /** The search stops at the first marker occurrence whose tail matches. */
  lemma SearchFieldHit(s: string, name: string, p: nat, v: string)
    requires IndexOfFrom(s, FieldMarker(name), 0) == p
    requires p + |FieldMarker(name)| <= |s|
    requires CaptureFrom(s, p + |FieldMarker(name)|, SpaceRunEnd(s, p + |FieldMarker(name)|)) == Some(v)
    ensures SearchField(s, name, 0) == Some(v)
  {
  }

  /** `v` is what the parser makes of field `name`: its stripped capture, or `default` when there is none. */
  predicate FilledFrom(block: string, name: string, default: string, v: string) {
    && (SearchField(block, name, 0).Some? ==> v == Trim(SearchField(block, name, 0).value))
    && (SearchField(block, name, 0).None? ==> v == default)
  }

  /** The stripped capture of a field, or `default` when the pattern finds none. */
  function FieldValue(block: string, name: string, default: string): (r: string)
    ensures FilledFrom(block, name, default, r)
    ensures SearchField(block, name, 0).Some? ==> Trim(r) == r
  {
    match SearchField(block, name, 0)
    case Some(v) => TrimIdempotent(v); Trim(v)
    case None => default
  }

  /** A well-formed field whose value has no surrounding whitespace is read back unchanged. */
  lemma FieldValueRoundTrip(pre: string, name: string, v: string, post: string, default: string)
    requires IndexOf(pre + FieldText(name, v) + post, FieldMarker(name)) == |pre|
    requires v != [] && !IsSpace(v[0]) && !IsSpace(v[|v| - 1])
    requires !Contains(v, FIELD_CLOSE)
    ensures FieldValue(pre + FieldText(name, v) + post, name, default) == v
  {
    FieldRoundTrip(pre, name, v, post);
    TrimUnpadded(v);
  }

  /** A block yields a record when it is closed and has both a title and a description. */
  predicate Usable(block: string) {
    && Contains(block, SCHOLARSHIP_END)
    && SearchField(block, "Title", 0).Some?
    && SearchField(block, "Description", 0).Some?
  }

  /**
   * The record one block yields: every captured value stripped, every absent
   * field "Not available" except the category, which defaults to "General",
   * and the metadata of a newly created record.
   */
  function BlockRecord(block: string, st: Stamp): (r: Option<Scholarship>)
    ensures r.Some? <==> Usable(block)
    ensures r.Some? ==> r.value.status == "Active" && r.value.id == st.id
    ensures r.Some? ==> Trim(r.value.title) == r.value.title && Trim(r.value.description) == r.value.description
    ensures r.Some? ==> r.value.title == Trim(SearchField(block, "Title", 0).value)
    ensures r.Some? ==> r.value.description == Trim(SearchField(block, "Description", 0).value)
    ensures r.Some? ==> FilledFrom(block, "Amount", NOT_AVAILABLE, r.value.amount)
    ensures r.Some? ==> FilledFrom(block, "Deadline", NOT_AVAILABLE, r.value.deadline)
    ensures r.Some? ==> FilledFrom(block, "Eligibility Criteria", NOT_AVAILABLE, r.value.eligibility)
    ensures r.Some? ==> FilledFrom(block, "Requirements", NOT_AVAILABLE, r.value.requirements)
    ensures r.Some? ==> FilledFrom(block, "Application URL", NOT_AVAILABLE, r.value.applicationUrl)
    ensures r.Some? ==> FilledFrom(block, "Provider", NOT_AVAILABLE, r.value.provider)
    ensures r.Some? ==> FilledFrom(block, "Category", "General", r.value.category)
  {
    if !Usable(block) then None
    else
      Some(CreateNew(st, Candidate(
        FieldValue(block, "Title", NOT_AVAILABLE),
        FieldValue(block, "Description", NOT_AVAILABLE),
        FieldValue(block, "Amount", NOT_AVAILABLE),
        FieldValue(block, "Deadline", NOT_AVAILABLE),
        FieldValue(block, "Eligibility Criteria", NOT_AVAILABLE),
        FieldValue(block, "Requirements", NOT_AVAILABLE),
        FieldValue(block, "Application URL", NOT_AVAILABLE),
        FieldValue(block, "Provider", NOT_AVAILABLE),
        FieldValue(block, "Category", "General"))))
  }

  /** A record as the legacy parser leaves it: active, with a stripped title and description. */
  predicate Cleaned(r: Scholarship) {
    r.status == "Active" && Trim(r.title) == r.title && Trim(r.description) == r.description
  }

  /** The record of one block as a list: one entry when the block is usable, none otherwise. */
  function RecordOf(block: string, st: Stamp): (rs: seq<Scholarship>)
    ensures |rs| == (if Usable(block) then 1 else 0)
    ensures forall k :: 0 <= k < |rs| ==> Cleaned(rs[k])
  {
    if Usable(block) then
      var r := BlockRecord(block, st).value;
      assert Cleaned(r);
      [r]
    else []
  }

  /** The records of the blocks, in order; block `i` uses stamp `stamp(i)`. */
  function Records(blocks: seq<string>, stamp: nat -> Stamp): (out: seq<Scholarship>)
    ensures |out| <= |blocks|
    ensures forall i :: 0 <= i < |out| ==> Cleaned(out[i])
  {
    if blocks == [] then []
    else
      var last := |blocks| - 1;
      var front, tail := Records(blocks[..last], stamp), RecordOf(blocks[last], stamp(last));
      front + tail
  }

  /** One more block adds its record, if it has one. */
  lemma RecordsSnoc(blocks: seq<string>, i: nat, stamp: nat -> Stamp)
    requires i < |blocks|
    ensures Records(blocks[..i + 1], stamp) == Records(blocks[..i], stamp) + RecordOf(blocks[i], stamp(i))
  {
    assert blocks[..i + 1][..i] == blocks[..i];
  }

  /** Usable blocks each give exactly one record. */
  lemma {:induction false} RecordsCountUsable(blocks: seq<string>, stamp: nat -> Stamp)
    requires forall b :: 0 <= b < |blocks| ==> Usable(blocks[b])
    ensures |Records(blocks, stamp)| == |blocks|
  {
    if blocks != [] {
      var last := |blocks| - 1;
      RecordsCountUsable(blocks[..last], stamp);
    }
  }

  /** `parse_legacy_scholarship_format` as a value: the records of every block after the first. */
  function LegacyParse(content: string, stamp: nat -> Stamp): (out: seq<Scholarship>)
    ensures |out| < |Split(content, SCHOLARSHIP_START)|
  {
    Records(Split(content, SCHOLARSHIP_START)[1..], stamp)
  }

  /** Text without the start marker yields no records. */
  lemma NoStartNoRecords(content: string, stamp: nat -> Stamp)
    requires !Contains(content, SCHOLARSHIP_START)
    ensures LegacyParse(content, stamp) == []
  {
  }

  /**
   * `parse_legacy_scholarship_format`: walks the blocks after the first one and
   * keeps the record of every usable block.
   */
  method ParseLegacyScholarshipFormat(content: string, stamp: nat -> Stamp) returns (out: seq<Scholarship>)
    ensures out == LegacyParse(content, stamp)
  {
    var blocks := Split(content, SCHOLARSHIP_START)[1..];
    out := [];
    var i := 0;
    while i < |blocks|
      invariant 0 <= i <= |blocks|
      invariant out == Records(blocks[..i], stamp)
    {
      RecordsSnoc(blocks, i, stamp);
      var r := BlockRecord(blocks[i], stamp(i));
      if r.Some? {
        out := out + [r.value];
      }
      i := i + 1;
    }
    assert blocks[..i] == blocks;
  }
}
