/**
 * The service's parser for the delimited summary text: every non-greedy
 * `SCHOLARSHIP_START … SCHOLARSHIP_END` block is read field by field into a
 * dictionary-shaped record, kept when it has a title.
 */
module SummaryParser {
  import opened Wrappers
  import opened Text
  import opened LegacyParser
  import opened GapFill

  const FIELD_END: string := "FIELD_END"

  /** The text that opens every field, whatever its label. */
  const ANY_FIELD_START: string := "FIELD_START:"

  /** What the service stamps on the records it parses. */
  const SERVICE_AGENT: string := "scholarship-agent"

  /** An occurrence inside a slice is an occurrence in the whole text. */
  lemma MatchInSlice(s: string, pat: string, lo: nat, hi: nat, j: int)
    requires lo <= hi <= |s| && MatchAt(s[lo..hi], pat, j)
    ensures MatchAt(s, pat, lo + j)
  {
    var t := s[lo..hi];
    assert t[j..j + |pat|] == pat;
    forall i | 0 <= i < |pat|
      ensures s[lo + j + i] == pat[i]
    {
      assert t[j..j + |pat|][i] == t[j + i] == s[lo + j + i];
    }
    assert s[lo + j..lo + j + |pat|] == pat;
  }

  /**
   * The texts `re.findall` finds for `open(.*?)close`: from the leftmost
   * `open` to the first `close` after it, then on from the end of that `close`.
   * The match is non-greedy, so no block holds `close`.
   */
  function Delimited(s: string, open: string, close: string): (blocks: seq<string>)
    requires |close| > 0
    ensures |blocks| <= |s|
    ensures forall i, j :: 0 <= i < |blocks| ==> !MatchAt(blocks[i], close, j)
    decreases |s|
  {
    var p := IndexOf(s, open);
    if p < 0 then []
    else
      var e := IndexOfFrom(s, close, p + |open|);
      if e < 0 then []
      else
        var rest := Delimited(s[e + |close|..], open, close);
        NoCloseBeforeFirst(s, close, p + |open|, e);
        ConsNoMatch(s[p + |open|..e], rest, close);
        [s[p + |open|..e]] + rest
  }

  /** A first block and further blocks free of `pat` make a list of blocks free of it. */
  lemma ConsNoMatch(x: string, rest: seq<string>, pat: string)
    requires forall j :: !MatchAt(x, pat, j)
    requires forall i, j :: 0 <= i < |rest| ==> !MatchAt(rest[i], pat, j)
    ensures forall i, j :: 0 <= i < |[x] + rest| ==> !MatchAt(([x] + rest)[i], pat, j)
  {
    forall i, j | 0 <= i < |[x] + rest|
      ensures !MatchAt(([x] + rest)[i], pat, j)
    {
      if i > 0 {
        assert ([x] + rest)[i] == rest[i - 1];
      }
    }
  }

  /** The text up to the first `pat` at or after `lo` holds no `pat`. */
  lemma NoCloseBeforeFirst(s: string, pat: string, lo: nat, e: int)
    requires |pat| > 0 && lo <= e && e == IndexOfFrom(s, pat, lo)
    ensures forall j :: !MatchAt(s[lo..e], pat, j)
  {
    forall j | MatchAt(s[lo..e], pat, j)
      ensures false
    {
      MatchInSlice(s, pat, lo, e, j);
    }
  }

  /** The blocks of `SCHOLARSHIP_START(.*?)SCHOLARSHIP_END` in a summary. */
  function SummaryBlocks(s: string): (blocks: seq<string>)
    ensures |blocks| <= |s|
  {
    Delimited(s, SCHOLARSHIP_START, SCHOLARSHIP_END)
  }

  /** No block of a summary holds an end marker. */
  lemma BlocksHoldNoEnd(s: string, i: nat, j: int)
    requires i < |SummaryBlocks(s)|
    ensures !MatchAt(SummaryBlocks(s)[i], SCHOLARSHIP_END, j)
  {
    assert SummaryBlocks(s)[i] == Delimited(s, SCHOLARSHIP_START, SCHOLARSHIP_END)[i];
  }

  /** A text without a start marker has no blocks. */
  lemma NoStartNoBlocks(s: string)
    requires !Contains(s, SCHOLARSHIP_START)
    ensures SummaryBlocks(s) == []
  {
  }

  /** One delimited block whose body holds no end marker is read back as that body. */
  lemma SingleBlockRoundTrip(b: string)
    requires forall j :: !MatchAt(b, SCHOLARSHIP_END, j)
    ensures SummaryBlocks(SCHOLARSHIP_START + b + SCHOLARSHIP_END) == [b]
  {
    var s := SCHOLARSHIP_START + b + SCHOLARSHIP_END;
    var lo := |SCHOLARSHIP_START|;
    var n := lo + |b|;
    assert s[..lo] == SCHOLARSHIP_START;
    assert MatchAt(s, SCHOLARSHIP_START, 0);
    assert s[n..n + |SCHOLARSHIP_END|] == SCHOLARSHIP_END;
    forall k | lo <= k < n
      ensures !MatchAt(s, SCHOLARSHIP_END, k)
    {
      if k + |SCHOLARSHIP_END| <= n {
        assert s[k..k + |SCHOLARSHIP_END|] == b[k - lo..k - lo + |SCHOLARSHIP_END|];
        assert !MatchAt(b, SCHOLARSHIP_END, k - lo);
      } else {
        var d := n - k;
        assert s[n] == 'S' && s[n + 1] == 'C';
        assert s[k..k + |SCHOLARSHIP_END|][d] == 'S';
        if d == 7 {
          assert s[k..k + |SCHOLARSHIP_END|][d + 1] == 'C';
        }
      }
    }
    assert MatchAt(s, SCHOLARSHIP_END, n);
    var e := IndexOfFrom(s, SCHOLARSHIP_END, lo);
    assert e != -1 ==> !(e < n) && !(n < e);
    DelimitedOne(s, SCHOLARSHIP_START, SCHOLARSHIP_END, b);
  }

  /** A text made of `open`, a body and `close`, with its first `close` right after the body, is one block. */
  lemma DelimitedOne(s: string, open: string, close: string, b: string)
    requires |close| > 0 && s == open + b + close
    requires MatchAt(s, open, 0) && IndexOfFrom(s, close, |open|) == |open| + |b|
    ensures Delimited(s, open, close) == [b]
  {
    var lo, n := |open|, |open| + |b|;
    assert IndexOf(s, open) == 0;
    assert s[lo..n] == b;
    assert s[n + |close|..] == [];
  }

  /**
   * `re.search(FIELD_START: <name>(.*?)FIELD_END, block)`, trimmed: the text
   * from the leftmost field marker to the first `FIELD_END` after it.
   */
  function SimpleField(block: string, name: string): (r: Option<string>)
    ensures r.Some? ==> Trim(r.value) == r.value
  {
    var m := FieldMarker(name);
    var q := IndexOf(block, m);
    if q < 0 then None
    else
      var e := IndexOfFrom(block, FIELD_END, q + |m|);
      if e < 0 then None
      else
        TrimIdempotent(block[q + |m|..e]);
        Some(Trim(block[q + |m|..e]))
  }

  /** A field written with its marker and `FIELD_END` is read back, trimmed. */
  lemma SimpleFieldRoundTrip(name: string, v: string)
    requires forall j :: !MatchAt(v, FIELD_END, j)
    ensures SimpleField(FieldMarker(name) + v + FIELD_END, name) == Some(Trim(v))
  {
    var m := FieldMarker(name);
    var s := m + v + FIELD_END;
    var lo := |m|;
    var n := lo + |v|;
    assert s[..lo] == m;
    assert MatchAt(s, m, 0);
    assert s[n..n + |FIELD_END|] == FIELD_END;
    forall k | lo <= k < n
      ensures !MatchAt(s, FIELD_END, k)
    {
      if k + |FIELD_END| <= n {
        assert s[k..k + |FIELD_END|] == v[k - lo..k - lo + |FIELD_END|];
        assert !MatchAt(v, FIELD_END, k - lo);
      } else {
        assert s[n] == 'F';
        assert s[k..k + |FIELD_END|][n - k] == 'F';
      }
    }
    assert MatchAt(s, FIELD_END, n);
    var e := IndexOfFrom(s, FIELD_END, lo);
    assert e != -1 ==> !(e < n) && !(n < e);
    assert e == n;
    assert s[lo..n] == v;
  }

  /**
   * The length of the separator `re.split(' - | by | @ | provided by ', …,
   * IGNORECASE)` matches at `k`, alternatives tried in order, or 0.
   */
  function SeparatorLenAt(t: string, k: nat): (n: nat)
    ensures n > 0 ==> k + n <= |t| && t[k] == ' '
  {
    if MatchAtIgnoreCase(t, " - ", k) then SpaceFirst(t, k, 3); 3
    else if MatchAtIgnoreCase(t, " by ", k) then SpaceFirst(t, k, 4); 4
    else if MatchAtIgnoreCase(t, " @ ", k) then SpaceFirst(t, k, 3); 3
    else if MatchAtIgnoreCase(t, " provided by ", k) then SpaceFirst(t, k, 13); 13
    else 0
  }

  /** A slice that lower-cases to a text starting with a space starts with a space. */
  lemma SpaceFirst(t: string, k: nat, n: nat)
    requires 0 < n && k + n <= |t| && Lower(t[k..k + n])[0] == ' '
    ensures t[k] == ' '
  {
    assert t[k..k + n][0] == t[k];
  }

  /** The leftmost index at or after `from` where a separator matches, or -1. */
  function FirstSeparator(t: string, from: nat): (r: int)
    ensures r == -1 || (from <= r && SeparatorLenAt(t, r) > 0)
    ensures forall k :: from <= k && (r == -1 || k < r) ==> SeparatorLenAt(t, k) == 0
    decreases |t| - from
  {
    if from >= |t| then -1
    else if SeparatorLenAt(t, from) > 0 then from
    else FirstSeparator(t, from + 1)
  }

  /**
   * Title and provider from the (trimmed) "Name and Provider" text: split at
   * the first separator, both halves trimmed; with no separator the whole text
   * is the title and the provider is empty.
   */
  function SplitNameProvider(text: string): (r: (string, string))
    requires Trim(text) == text
    ensures Trim(r.0) == r.0 && Trim(r.1) == r.1
    ensures FirstSeparator(text, 0) < 0 ==> r == (text, "")
    ensures var k := FirstSeparator(text, 0);
      k >= 0 ==> r == (Trim(text[..k]), Trim(text[k + SeparatorLenAt(text, k)..]))
  {
    var k := FirstSeparator(text, 0);
    if k < 0 then (text, "")
    else
      var after := k + SeparatorLenAt(text, k);
      TrimIdempotent(text[..k]);
      TrimIdempotent(text[after..]);
      (Trim(text[..k]), Trim(text[after..]))
  }

  /** The four separators, in the order the pattern tries them. */
  const SEPARATORS: seq<string> := [" - ", " by ", " @ ", " provided by "]

  /** A one-word name, a separator and a provider split into the name and the provider. */
  lemma SplitAtSeparator(name: string, sep: string, provider: string)
    requires sep in SEPARATORS
    requires forall i :: 0 <= i < |name| ==> name[i] != ' '
    requires Trim(name + sep + provider) == name + sep + provider
    ensures SplitNameProvider(name + sep + provider) == (Trim(name), Trim(provider))
  {
    var t := name + sep + provider;
    var n := |name|;
    assert t[..n] == name && t[n..n + |sep|] == sep && t[n + |sep|..] == provider;
    forall k | 0 <= k < n
      ensures t[k] != ' '
    {
      assert t[k] == t[..n][k];
    }
    SeparatorAt(t, n, sep);
    FirstSeparatorAt(t, n);
  }

  /** With no space before `n` and a separator at `n`, the first separator is at `n`. */
  lemma FirstSeparatorAt(t: string, n: nat)
    requires n <= |t| && SeparatorLenAt(t, n) > 0
    requires forall k :: 0 <= k < n ==> t[k] != ' '
    ensures FirstSeparator(t, 0) == n
  {
    NoSeparatorBefore(t, n);
    var k := FirstSeparator(t, 0);
    assert k != -1 ==> !(k < n) && !(n < k);
  }

  /** No separator can start where there is no space. */
  lemma NoSeparatorBefore(t: string, n: nat)
    requires n <= |t|
    requires forall k :: 0 <= k < n ==> t[k] != ' '
    ensures forall k :: 0 <= k < n ==> SeparatorLenAt(t, k) == 0
  {
  }

  /** A separator written in lower case is matched, by its own alternative, with its own length. */
  lemma SeparatorAt(t: string, n: nat, sep: string)
    requires sep in SEPARATORS
    requires n + |sep| <= |t| && t[n..n + |sep|] == sep
    ensures SeparatorLenAt(t, n) == |sep|
  {
    LowerOfLower(sep);
    assert MatchAtIgnoreCase(t, sep, n);
    assert t[n + 1] == sep[1];
    if sep != " - " {
      assert Lower(t[n..n + 3])[1] == LowerChar(sep[1]) != '-';
    }
    if (sep == " @ " || sep == " provided by ") && n + 4 <= |t| {
      assert Lower(t[n..n + 4])[1] == LowerChar(t[n + 1]) != 'b';
    }
    if sep == " provided by " {
      assert Lower(t[n..n + 3])[1] == LowerChar(sep[1]) != '@';
    }
  }

  /** The pattern `https?://\\S+` as written: a scheme, a literal backslash and a run of capital S. */
  predicate BackslashUrlAt(t: string, k: nat) {
    var j := AfterScheme(t, k);
    MatchAt(t, "http", k) && MatchAt(t, "://\\", j) && j + 4 < |t| && t[j + 4] == 'S'
  }

  /** Where `://` must start after the `http` at `k`: past the optional `s`. */
  function AfterScheme(t: string, k: nat): (j: nat)
    ensures j == k + 4 || j == k + 5
  {
    if k + 4 < |t| && t[k + 4] == 's' then k + 5 else k + 4
  }

  /** The pattern matches at `k` and at no earlier index. */
  predicate LeastBackslashUrl(t: string, k: nat) {
    BackslashUrlAt(t, k) && forall i: nat :: i < k ==> !BackslashUrlAt(t, i)
  }

  /** The end of the run of capital S starting at `i`. */
  function SRunEnd(t: string, i: nat): (e: nat)
    requires i <= |t|
    ensures i <= e <= |t|
    decreases |t| - i
  {
    if i < |t| && t[i] == 'S' then SRunEnd(t, i + 1) else i
  }

  /** The leftmost index at or after `from` where the pattern matches, or -1. */
  function FirstBackslashUrl(t: string, from: nat): (r: int)
    ensures r == -1 || (from <= r && BackslashUrlAt(t, r))
    ensures forall k :: from <= k && (r == -1 || k < r) ==> !BackslashUrlAt(t, k)
    decreases |t| - from
  {
    if from >= |t| then -1
    else if BackslashUrlAt(t, from) then from
    else FirstBackslashUrl(t, from + 1)
  }

  /** The leftmost match is the one the scan finds. */
  lemma LeastBackslashIsFirst(t: string)
    ensures forall k: nat :: LeastBackslashUrl(t, k) ==> k == FirstBackslashUrl(t, 0)
    ensures (forall k: nat :: !BackslashUrlAt(t, k)) <==> FirstBackslashUrl(t, 0) == -1
  {
    forall k: nat | BackslashUrlAt(t, k)
      ensures k < |t|
    {
      assert MatchAt(t, "http", k);
    }
  }

  /** The `url` the service records for a Source URL text: the leftmost match, or "". */
  function SourceUrl(text: string): (url: string)
    ensures url == "" || (StartsWith(url, "http") && '\\' in url)
    ensures url == "" <==> forall k: nat :: !BackslashUrlAt(text, k)
    ensures forall k: nat :: LeastBackslashUrl(text, k) ==> url == BackslashLink(text, k)
  {
    LeastBackslashIsFirst(text);
    var k := FirstBackslashUrl(text, 0);
    if k < 0 then "" else BackslashLink(text, k)
  }

  /** The match at `k`: the scheme, the backslash and the whole run of capital S after it. */
  function BackslashLink(text: string, k: nat): (url: string)
    requires BackslashUrlAt(text, k)
    ensures StartsWith(url, "http") && '\\' in url
    ensures url == text[k..SRunEnd(text, AfterScheme(text, k) + 4)]
  {
    var j := AfterScheme(text, k);
    var url := text[k..SRunEnd(text, j + 4)];
    assert url[..4] == text[k..k + 4] == "http";
    assert url[j + 3 - k] == text[j + 3] == '\\';
    url
  }

  /** An ordinary URL, with no backslash, is never recorded. */
  lemma OrdinaryUrlIgnored(text: string)
    requires '\\' !in text
    ensures SourceUrl(text) == ""
  {
  }

  /**
   * The description: the block with everything from its first `FIELD_START:`
   * to its last `FIELD_END` removed (when both are there), trimmed.
   */
  function BlockDescription(block: string): (d: string)
    ensures Trim(d) == d
    ensures !Contains(block, ANY_FIELD_START) ==> d == Trim(block)
  {
    var p := IndexOf(block, ANY_FIELD_START);
    var e := if p < 0 then -1 else LastIndexIn(block, FIELD_END, p + |ANY_FIELD_START|, |block| - |FIELD_END|);
    var kept := if e < 0 then block else block[..p] + block[e + |FIELD_END|..];
    TrimIdempotent(kept);
    Trim(kept)
  }

  /**
   * With fields in the middle, the description is what surrounds them: the span
   * from the first `FIELD_START:` to the last `FIELD_END` goes, whatever it holds.
   */
  lemma DescriptionDropsFieldSpan(pre: string, body: string, post: string)
    requires forall j :: !MatchAt(pre, ANY_FIELD_START, j)
    requires forall j :: !MatchAt(post, FIELD_END, j)
    ensures BlockDescription(pre + (ANY_FIELD_START + body + FIELD_END) + post) == Trim(pre + post)
  {
    var front := pre + ANY_FIELD_START + body + FIELD_END;
    var block := front + post;
    assert block == pre + (ANY_FIELD_START + body + FIELD_END) + post;
    var a := |pre|;
    var e0 := |front| - |FIELD_END|;
    FieldStartFirstAt(pre, ANY_FIELD_START + body + FIELD_END + post);
    assert pre + (ANY_FIELD_START + body + FIELD_END + post) == block;
    assert front[e0..] == FIELD_END;
    FieldEndLastAt(front, post, a + |ANY_FIELD_START|);
    assert block[..a] == pre;
    assert block[e0 + |FIELD_END|..] == post;
  }

  /** Behind a prefix without `FIELD_START:`, an opening marker is the first one. */
  lemma FieldStartFirstAt(pre: string, rest: string)
    requires forall j :: !MatchAt(pre, ANY_FIELD_START, j)
    requires |ANY_FIELD_START| <= |rest| && rest[..|ANY_FIELD_START|] == ANY_FIELD_START
    ensures IndexOf(pre + rest, ANY_FIELD_START) == |pre|
  {
    var s := pre + rest;
    var a := |pre|;
    assert s[a..a + |ANY_FIELD_START|] == rest[..|ANY_FIELD_START|];
    forall k | 0 <= k < a
      ensures !MatchAt(s, ANY_FIELD_START, k)
    {
      if k + |ANY_FIELD_START| <= a {
        assert s[k..k + |ANY_FIELD_START|] == pre[k..k + |ANY_FIELD_START|];
        assert !MatchAt(pre, ANY_FIELD_START, k);
        assert !MatchAt(s, ANY_FIELD_START, k);
      } else {
        var i := k + 11 - a;
        ColonOnlyLast(i);
        assert s[k + 11] == rest[i] == rest[..|ANY_FIELD_START|][i] == ANY_FIELD_START[i] != ':';
        if k + |ANY_FIELD_START| <= |s| {
          assert s[k..k + |ANY_FIELD_START|][11] == s[k + 11];
          assert ANY_FIELD_START[11] == ':';
        }
        assert !MatchAt(s, ANY_FIELD_START, k);
      }
    }
    assert MatchAt(s, ANY_FIELD_START, a);
    var r := IndexOf(s, ANY_FIELD_START);
    assert r >= 0 && !(r < a) && !(a < r);
  }

  /** `FIELD_START:` has its colon only at its end. */
  lemma ColonOnlyLast(i: nat)
    requires i < |ANY_FIELD_START| - 1
    ensures ANY_FIELD_START[i] != ':'
  {
    assert ANY_FIELD_START[i] == ANY_FIELD_START[..11][i];
    assert ANY_FIELD_START[..11] == "FIELD_START";
  }

  /** `FIELD_END` has an `F` only at its start. */
  lemma EndOpensOnlyOnce(i: nat)
    requires 0 < i < |FIELD_END|
    ensures FIELD_END[i] != 'F'
  {
    assert FIELD_END[i] == FIELD_END[1..][i - 1];
    assert FIELD_END[1..] == "IELD_END";
  }

  /** Before a suffix without `FIELD_END`, a closing marker is the last one. */
  lemma FieldEndLastAt(front: string, post: string, lo: int)
    requires |FIELD_END| <= |front| && front[|front| - |FIELD_END|..] == FIELD_END
    requires forall j :: !MatchAt(post, FIELD_END, j)
    requires lo <= |front| - |FIELD_END|
    ensures LastIndexIn(front + post, FIELD_END, lo, |front + post| - |FIELD_END|) == |front| - |FIELD_END|
  {
    var s := front + post;
    var e0 := |front| - |FIELD_END|;
    assert s[e0..e0 + |FIELD_END|] == front[e0..];
    forall k | e0 < k <= |s| - |FIELD_END|
      ensures !MatchAt(s, FIELD_END, k)
    {
      if k >= |front| {
        assert s[k..k + |FIELD_END|] == post[k - |front|..k - |front| + |FIELD_END|];
        assert !MatchAt(post, FIELD_END, k - |front|);
      } else {
        EndOpensOnlyOnce(k - e0);
        assert s[k] == front[k] == front[e0..][k - e0] == FIELD_END[k - e0] != 'F';
        assert s[k..k + |FIELD_END|][0] == s[k] != FIELD_END[0];
      }
    }
    assert MatchAt(s, FIELD_END, e0);
    var r := LastIndexIn(s, FIELD_END, lo, |s| - |FIELD_END|);
    assert r >= 0 && !(r < e0) && !(e0 < r);
  }

  /** A parsed record, with the service's dictionary keys. */
  datatype SummaryRecord = SummaryRecord(
    title: string,
    provider: string,
    amount: string,
    deadline: string,
    eligibility: string,
    requirements: string,
    url: string,
    category: string,
    status: string,
    createdDate: string,
    modifiedDate: string,
    createdBy: string,
    lastModifiedBy: string,
    description: string)

  /** A field's trimmed text, or "" when the block does not have it. */
  function FieldOrEmpty(block: string, name: string): (v: string)
    ensures Trim(v) == v
    ensures SimpleField(block, name).Some? ==> v == SimpleField(block, name).value
    ensures SimpleField(block, name).None? ==> v == ""
  {
    match SimpleField(block, name)
    case Some(v) => v
    case None => TrimIdempotent(""); ""
  }

  /** Title and provider from the "Name and Provider" field; both "" without one. */
  function NameAndProvider(block: string): (r: (string, string))
    ensures Trim(r.0) == r.0 && Trim(r.1) == r.1
    ensures SimpleField(block, "Name and Provider").Some? ==>
      r == SplitNameProvider(SimpleField(block, "Name and Provider").value)
    ensures SimpleField(block, "Name and Provider").None? ==> r == ("", "")
  {
    match SimpleField(block, "Name and Provider")
    case Some(v) => SplitNameProvider(v)
    case None => TrimIdempotent(""); ("", "")
  }

  /**
   * The title: from "Name and Provider" when that gives one, otherwise from the
   * first "Name" field, otherwise from the first "Title" field, otherwise "".
   */
  function BlockTitle(block: string): (t: string)
    ensures Trim(t) == t
    ensures NameAndProvider(block).0 != "" ==> t == NameAndProvider(block).0
    ensures NameAndProvider(block).0 == "" ==> t == FirstField(block, "Name", "Title")
  {
    var named := NameAndProvider(block).0;
    if named != "" then named else FirstField(block, "Name", "Title")
  }

  /** The `first` field when the block has it (even empty), otherwise the `second` field or "". */
  function FirstField(block: string, first: string, second: string): (v: string)
    ensures Trim(v) == v
    ensures SimpleField(block, first).Some? ==> v == SimpleField(block, first).value
    ensures SimpleField(block, first).None? ==> v == FieldOrEmpty(block, second)
  {
    match SimpleField(block, first)
    case Some(v) => v
    case None => FieldOrEmpty(block, second)
  }

  /** The title rule as a function value, so that reasoning about records does not expand it. */
  const TITLE_OF: string -> string := BlockTitle

  /** The url: the pattern's match in the "Source URL" field, or "". */
  function BlockUrl(block: string): (u: string)
    ensures u == "" || '\\' in u
    ensures SimpleField(block, "Source URL").Some? ==> u == SourceUrl(SimpleField(block, "Source URL").value)
    ensures SimpleField(block, "Source URL").None? ==> u == ""
  {
    match SimpleField(block, "Source URL")
    case Some(v) => SourceUrl(v)
    case None => ""
  }

  /**
   * The record for one block, dated `today` (a `%Y-%m-%d` text): fields not
   * found stay empty and the defaults fill the rest.
   */
  function BlockToRecord(block: string, today: string): (r: SummaryRecord)
    ensures r.category == "General" && r.status == "active"
    ensures r.createdBy == SERVICE_AGENT && r.lastModifiedBy == SERVICE_AGENT
    ensures r.createdDate == today && r.modifiedDate == today
    ensures r.title == BlockTitle(block) && r.provider == NameAndProvider(block).1
    ensures r.amount == FieldOrEmpty(block, "Award Amount")
    ensures r.deadline == FieldOrEmpty(block, "Deadline")
    ensures r.eligibility == FieldOrEmpty(block, "Eligibility")
    ensures r.requirements == FieldOrEmpty(block, "Application Requirements")
    ensures r.url == BlockUrl(block) && r.description == BlockDescription(block)
  {
    assert TITLE_OF(block) == BlockTitle(block);
    SummaryRecord(
      TITLE_OF(block), NameAndProvider(block).1,
      FieldOrEmpty(block, "Award Amount"),
      FieldOrEmpty(block, "Deadline"),
      FieldOrEmpty(block, "Eligibility"),
      FieldOrEmpty(block, "Application Requirements"),
      BlockUrl(block), "General", "active", today, today, SERVICE_AGENT, SERVICE_AGENT,
      BlockDescription(block))
  }

  /** Every text field of a parsed record is stripped. */
  lemma BlockFieldsTrimmed(block: string, today: string)
    ensures var r := BlockToRecord(block, today);
      && Trim(r.title) == r.title && Trim(r.provider) == r.provider
      && Trim(r.amount) == r.amount && Trim(r.deadline) == r.deadline
      && Trim(r.eligibility) == r.eligibility && Trim(r.requirements) == r.requirements
      && Trim(r.description) == r.description
  {
  }

  /** A recorded url always holds the backslash the pattern demands. */
  lemma BlockUrlNeedsBackslash(block: string, today: string)
    ensures var r := BlockToRecord(block, today);
      r.url == "" || '\\' in r.url
  {
  }

  /** A block with neither a name nor a title field gives no title, so no record. */
  lemma UntitledBlockHasNoTitle(block: string, today: string)
    requires !Contains(block, FieldMarker("Name")) && !Contains(block, FieldMarker("Title"))
    ensures BlockToRecord(block, today).title == ""
  {
    var name, long := FieldMarker("Name"), FieldMarker("Name and Provider");
    ContainsIff(block, name);
    ContainsIff(block, FieldMarker("Title"));
    assert long == name + " and Provider";
    PrefixMatches(block, long, name);
    assert IndexOf(block, long) == -1;
    assert SimpleField(block, "Name and Provider").None?;
    assert SimpleField(block, "Name").None? && SimpleField(block, "Title").None?;
    assert BlockTitle(block) == "";
  }

  /** Wherever a text occurs, each of its prefixes occurs too. */
  lemma PrefixMatches(s: string, long: string, short: string)
    requires short <= long
    ensures forall k :: MatchAt(s, long, k) ==> MatchAt(s, short, k)
  {
    forall k | MatchAt(s, long, k)
      ensures MatchAt(s, short, k)
    {
      assert s[k..k + |short|] == s[k..k + |long|][..|short|];
    }
  }

  /**
   * The records kept from a sequence of blocks: the record `build` makes of
   * each block, kept when it has a title, in block order.
   */
  function KeptRecords(blocks: seq<string>, build: string -> SummaryRecord): (out: seq<SummaryRecord>)
    ensures |out| <= |blocks|
  {
    if blocks == [] then []
    else
      var front := KeptRecords(blocks[..|blocks| - 1], build);
      var r := build(blocks[|blocks| - 1]);
      if r.title != "" then front + [r] else front
  }

  /** One more block adds its record when it has a title. */
  lemma KeptRecordsSnoc(blocks: seq<string>, i: nat, build: string -> SummaryRecord)
    requires i < |blocks|
    ensures KeptRecords(blocks[..i + 1], build)
      == KeptRecords(blocks[..i], build) + (if build(blocks[i]).title != "" then [build(blocks[i])] else [])
  {
    assert blocks[..i + 1][..i] == blocks[..i];
  }

  /** Every kept record is the titled record of one of the blocks. */
  lemma {:induction false} KeptRecordsFrom(blocks: seq<string>, build: string -> SummaryRecord, k: nat)
    requires k < |KeptRecords(blocks, build)|
    ensures KeptRecords(blocks, build)[k].title != ""
    ensures exists j :: 0 <= j < |blocks| && KeptRecords(blocks, build)[k] == build(blocks[j])
  {
    var last := |blocks| - 1;
    var front := KeptRecords(blocks[..last], build);
    if k < |front| {
      KeptRecordsFrom(blocks[..last], build, k);
      var j :| 0 <= j < last && front[k] == build(blocks[..last][j]);
      assert blocks[..last][j] == blocks[j];
    } else {
      assert KeptRecords(blocks, build)[k] == build(blocks[last]);
    }
  }

  /** When every block has a title, every block becomes a record, in order. */
  lemma {:induction false} AllTitledAllKept(blocks: seq<string>, build: string -> SummaryRecord)
    requires forall i :: 0 <= i < |blocks| ==> build(blocks[i]).title != ""
    ensures KeptRecords(blocks, build) == seq(|blocks|, i requires 0 <= i < |blocks| => build(blocks[i]))
  {
    if blocks != [] {
      AllTitledAllKept(blocks[..|blocks| - 1], build);
    }
  }

  /** The records the service keeps from a summary dated `today`. */
  function SummaryRecords(blocks: seq<string>, today: string): seq<SummaryRecord> {
    KeptRecords(blocks, b => BlockToRecord(b, today))
  }

  /** Every record the service keeps has a title and the service's defaults. */
  lemma SummaryRecordDefaults(blocks: seq<string>, today: string, k: nat)
    requires k < |SummaryRecords(blocks, today)|
    ensures var r := SummaryRecords(blocks, today)[k];
      && r.title != "" && r.category == "General" && r.status == "active"
      && r.createdBy == SERVICE_AGENT && r.createdDate == today
  {
    var build := b => BlockToRecord(b, today);
    KeptRecordsFrom(blocks, build, k);
    var j :| 0 <= j < |blocks| && KeptRecords(blocks, build)[k] == build(blocks[j]);
  }

  /** The loop over the blocks: build each block's record and keep it when it has a title. */
  method KeepTitled(blocks: seq<string>, build: string -> SummaryRecord) returns (out: seq<SummaryRecord>)
    ensures out == KeptRecords(blocks, build)
  {
    out := [];
    for i := 0 to |blocks|
      invariant out == KeptRecords(blocks[..i], build)
    {
      KeptRecordsSnoc(blocks, i, build);
      var r := build(blocks[i]);
      if r.title != "" {
        out := out + [r];
      }
    }
    assert blocks[..|blocks|] == blocks;
  }

  /** `_parse_scholarships_from_summary`: the blocks of the summary, read into records dated `today`. */
  method ParseScholarshipsFromSummary(summary: string, today: string) returns (out: seq<SummaryRecord>)
    ensures out == SummaryRecords(SummaryBlocks(summary), today)
    ensures |out| <= |SummaryBlocks(summary)|
  {
    out := KeepTitled(SummaryBlocks(summary), b => BlockToRecord(b, today));
  }
}
