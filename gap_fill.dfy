/**
 * The two gap-filling steps that run after extraction: the search for missing
 * application links (at most five records, a link is only replaced by a
 * non-generic one) and the search for missing details (at most three queries,
 * which only ever add research text).
 */
module GapFill {
  import opened Wrappers
  import opened Text
  import opened State
  import opened Gates

  /** What one call of the web-research step gives back: its research texts, or an exception. */
  datatype SearchOutcome = Results(texts: seq<string>) | Raised

  /** A slash-free string. */
  predicate NoSlash(s: string) {
    forall i :: 0 <= i < |s| ==> s[i] != '/'
  }

  /** `re.search(suffix + '$', u)`: `$` also matches just before a final newline. */
  predicate EndsAtAnchor(u: string, suffix: string) {
    EndsWith(u, suffix) || EndsWith(u, suffix + "\n")
  }

  /** `^https?://[^/]+/?$` without the trailing-slash forms, which `/$` covers already. */
  predicate BareDomain(u: string) {
    || (StartsWith(u, "http://") && |u| > 7 && NoSlash(u[7..]))
    || (StartsWith(u, "https://") && |u| > 8 && NoSlash(u[8..]))
  }

  /**
   * `is_generic_url`: empty or "Not available", or a link that ends in `/`, in
   * `/index.html` or `/index.php`, or is nothing but a scheme and a host.
   */
  predicate IsGenericUrl(u: string) {
    || Missing(u)
    || EndsAtAnchor(u, "/")
    || EndsAtAnchor(u, "/index.html")
    || EndsAtAnchor(u, "/index.php")
    || BareDomain(u)
  }

  /** A link whose last character is none of `/`, newline, `l` and `p` ends in none of the generic suffixes. */
  lemma NoGenericSuffix(u: string)
    requires |u| > 0 && u[|u| - 1] != '/' && u[|u| - 1] != '\n' && u[|u| - 1] != 'l' && u[|u| - 1] != 'p'
    ensures !EndsAtAnchor(u, "/") && !EndsAtAnchor(u, "/index.html") && !EndsAtAnchor(u, "/index.php")
  {
    forall suffix: string | |suffix| > 0 && EndsWith(u, suffix)
      ensures u[|u| - 1] == suffix[|suffix| - 1]
    {
      assert u[|u| - |suffix|..][|suffix| - 1] == u[|u| - 1];
    }
  }

  /**
   * An https link with a slash after its host whose last character is none of
   * `/`, newline, `l` and `p` is not generic.
   */
  lemma NamedPathNotGeneric(u: string, k: nat)
    requires StartsWith(u, "https://") && 8 <= k < |u| && u[k] == '/'
    requires u[|u| - 1] != '/' && u[|u| - 1] != '\n' && u[|u| - 1] != 'l' && u[|u| - 1] != 'p'
    ensures !IsGenericUrl(u)
  {
    assert u[0] == u[..8][0] && u[4] == u[..8][4];
    InitialHNotMissing(u);
    NoGenericSuffix(u);
    SlashAfterHost(u, k);
  }

  /** A link whose fifth character is `s` and with a slash after its scheme is not a bare host. */
  lemma SlashAfterHost(u: string, k: nat)
    requires 8 <= k < |u| && u[4] == 's' && u[k] == '/'
    ensures !BareDomain(u)
  {
    assert |"http://"| <= |u| ==> u[..7][4] == 's';
    assert u[8..][k - 8] == '/';
  }

  /** A scheme followed by a non-empty host without a slash is generic. */
  lemma BareHostGeneric(scheme: string, host: string)
    requires scheme == "http://" || scheme == "https://"
    requires |host| > 0 && NoSlash(host)
    ensures IsGenericUrl(scheme + host)
  {
    var u := scheme + host;
    assert u[..|scheme|] == scheme && u[|scheme|..] == host;
  }

  /** A character that `[^\s<>"]` accepts. */
  predicate UrlChar(c: char) {
    !IsSpace(c) && c != '<' && c != '>' && c != '"'
  }

  /** The end of the longest run of link characters that starts at `i`. */
  function UrlRunEnd(s: string, i: nat): (e: nat)
    requires i <= |s|
    ensures i <= e <= |s|
    ensures forall k :: i <= k < e ==> UrlChar(s[k])
    ensures e == |s| || !UrlChar(s[e])
    decreases |s| - i
  {
    if i < |s| && UrlChar(s[i]) then UrlRunEnd(s, i + 1) else i
  }

  /** `pat` (lower-case) occurs at `k` ignoring ASCII case. */
  predicate MatchAtIgnoreCase(s: string, pat: string, k: int) {
    0 <= k && k + |pat| <= |s| && Lower(s[k..k + |pat|]) == pat
  }

  /** The length of the `https?://` scheme at `p`, ignoring case, or 0 when there is none. */
  function SchemeLen(s: string, p: nat): (n: nat)
    ensures n == 0 || n == 7 || n == 8
    ensures n > 0 ==> p + n <= |s|
  {
    if MatchAtIgnoreCase(s, "https://", p) then 8
    else if MatchAtIgnoreCase(s, "http://", p) then 7
    else 0
  }

  /** The words that mark a link as an application link. */
  const APPLY_KEYWORDS: seq<string> := ["apply", "application", "form", "scholarship"]

  /**
   * `https?://[^\s<>"]+(?:apply|application|form|scholarship)[^\s<>"]*`, case
   * ignored, matches at `p`: a scheme followed by a run of link characters that
   * holds a keyword after its first character.
   */
  predicate ApplyUrlAt(s: string, p: nat) {
    var n := SchemeLen(s, p);
    && n > 0
    && UrlRunEnd(s, p + n) > p + n
    && AnyContains(Lower(s[p + n + 1..UrlRunEnd(s, p + n)]), APPLY_KEYWORDS)
  }

  /** `https://[^\s<>"]+` matches at `p` (case matters). */
  predicate HttpsUrlAt(s: string, p: nat) {
    MatchAt(s, "https://", p) && UrlRunEnd(s, p + 8) > p + 8
  }

  /** The leftmost position at or after `from` where an application link matches, or -1. */
  function FirstApplyUrl(s: string, from: nat): (r: int)
    ensures r == -1 || (from <= r < |s| && ApplyUrlAt(s, r))
    ensures forall k: nat :: from <= k < |s| && (r == -1 || k < r) ==> !ApplyUrlAt(s, k)
    decreases |s| - from
  {
    if from >= |s| then -1
    else if ApplyUrlAt(s, from) then from
    else FirstApplyUrl(s, from + 1)
  }

  /** The leftmost position at or after `from` where an https link matches, or -1. */
  function FirstHttpsUrl(s: string, from: nat): (r: int)
    ensures r == -1 || (from <= r < |s| && HttpsUrlAt(s, r))
    ensures forall k: nat :: from <= k < |s| && (r == -1 || k < r) ==> !HttpsUrlAt(s, k)
    decreases |s| - from
  {
    if from >= |s| then -1
    else if HttpsUrlAt(s, from) then from
    else FirstHttpsUrl(s, from + 1)
  }

  /** A match that starts with a scheme starts with `h` or `H`, never with `N`. */
  lemma SchemeStartsWithH(s: string, p: nat)
    requires SchemeLen(s, p) > 0
    ensures s[p] == 'h' || s[p] == 'H'
  {
    var pat: string := if SchemeLen(s, p) == 8 then "https://" else "http://";
    assert Lower(s[p..p + |pat|])[0] == pat[0] == 'h';
    assert s[p..p + |pat|][0] == s[p];
  }

  /** An application link matches at `p` and at no earlier position. */
  predicate LeastApplyUrl(s: string, p: nat) {
    ApplyUrlAt(s, p) && forall k: nat :: k < p ==> !ApplyUrlAt(s, k)
  }

  /** An https link matches at `h` and at no earlier position. */
  predicate LeastHttpsUrl(s: string, h: nat) {
    HttpsUrlAt(s, h) && forall k: nat :: k < h ==> !HttpsUrlAt(s, k)
  }

  /** No application link matches anywhere in `s`. */
  predicate NoApplyUrl(s: string) {
    forall k: nat :: k < |s| ==> !ApplyUrlAt(s, k)
  }

  /** The leftmost matches are the ones the scans find. */
  lemma LeastIsFirst(s: string)
    ensures forall p: nat :: LeastApplyUrl(s, p) ==> p == FirstApplyUrl(s, 0)
    ensures forall h: nat :: LeastHttpsUrl(s, h) ==> h == FirstHttpsUrl(s, 0)
    ensures NoApplyUrl(s) <==> FirstApplyUrl(s, 0) == -1
  {
    forall p: nat | LeastApplyUrl(s, p)
      ensures p == FirstApplyUrl(s, 0)
    {
      SchemeInside(s, p);
    }
    forall h: nat | LeastHttpsUrl(s, h)
      ensures h == FirstHttpsUrl(s, 0)
    {
      assert s[h..h + 8] == "https://";
    }
  }

  /** A link with a scheme starts inside the text. */
  lemma SchemeInside(s: string, p: nat)
    requires SchemeLen(s, p) > 0
    ensures p < |s|
  {
  }

  /**
   * `extract_application_url_from_text`: the first application link (case
   * ignored) if there is one, else the first https link, else "Not available".
   * Whatever it returns other than the marker is a piece of the text.
   */
  function ExtractApplicationUrl(text: string): (url: string)
    ensures url == NOT_AVAILABLE <==>
      forall k: nat :: k < |text| ==> !ApplyUrlAt(text, k) && !HttpsUrlAt(text, k)
    ensures url != NOT_AVAILABLE ==> Contains(text, url) && |url| > 7
    ensures forall p: nat :: LeastApplyUrl(text, p) ==> url == ApplyLink(text, p)
    ensures forall h: nat :: NoApplyUrl(text) && LeastHttpsUrl(text, h) ==> url == HttpsLink(text, h)
  {
    LeastIsFirst(text);
    var p := FirstApplyUrl(text, 0);
    if p >= 0 then ApplyLink(text, p)
    else
      var h := FirstHttpsUrl(text, 0);
      if h >= 0 then HttpsLink(text, h) else NOT_AVAILABLE
  }

  /** The application link matched at `p`: its scheme and the whole run of link characters after it. */
  function ApplyLink(text: string, p: nat): (url: string)
    requires ApplyUrlAt(text, p)
    ensures url != NOT_AVAILABLE && Contains(text, url) && |url| > 7
    ensures url == text[p..UrlRunEnd(text, p + SchemeLen(text, p))]
  {
    var e := UrlRunEnd(text, p + SchemeLen(text, p));
    SchemeStartsWithH(text, p);
    PieceFromH(text, p, e);
    text[p..e]
  }

  /** The https link matched at `h`: `https://` and the whole run of link characters after it. */
  function HttpsLink(text: string, h: nat): (url: string)
    requires HttpsUrlAt(text, h)
    ensures url != NOT_AVAILABLE && Contains(text, url) && |url| > 7
    ensures url == text[h..UrlRunEnd(text, h + 8)]
  {
    var e := UrlRunEnd(text, h + 8);
    assert text[h] == text[h..h + 8][0] == 'h';
    PieceFromH(text, h, e);
    text[h..e]
  }

  /** A piece of a text that starts with `h` or `H` and runs past a scheme is a found link, not the marker. */
  lemma PieceFromH(text: string, p: nat, e: nat)
    requires p + 7 < e <= |text| && (text[p] == 'h' || text[p] == 'H')
    ensures text[p..e] != NOT_AVAILABLE && Contains(text, text[p..e]) && |text[p..e]| > 7
  {
    assert text[p..e][0] == text[p];
    assert NOT_AVAILABLE[0] == 'N';
    assert MatchAt(text, text[p..e], p);
    ContainsIff(text, text[p..e]);
  }

  /** A text that opens with an application link yields exactly that link. */
  lemma ExtractLeadingApplyUrl(text: string, e: nat)
    requires StartsWith(text, "https://") && 8 < e <= |text|
    requires forall k :: 8 <= k < e ==> UrlChar(text[k])
    requires e == |text| || !UrlChar(text[e])
    requires AnyContains(Lower(text[9..e]), APPLY_KEYWORDS)
    ensures ExtractApplicationUrl(text) == text[..e]
  {
    HttpsScheme(text);
    UrlRunEndAt(text, 8, e);
    assert ApplyUrlAt(text, 0);
    assert FirstApplyUrl(text, 0) == 0;
    assert text[0..e] == text[..e];
  }

  /** A text starting with `https://` has a scheme of eight characters at its start. */
  lemma HttpsScheme(text: string)
    requires StartsWith(text, "https://")
    ensures SchemeLen(text, 0) == 8
  {
    assert text[0..8] == "https://";
    LowerOfLower(text[0..8]);
  }

  /** The run of link characters from `i` ends at the first position that is not one. */
  lemma UrlRunEndAt(s: string, i: nat, e: nat)
    requires i <= e <= |s|
    requires forall k :: i <= k < e ==> UrlChar(s[k])
    requires e == |s| || !UrlChar(s[e])
    ensures UrlRunEnd(s, i) == e
  {
  }

  /** The link a search outcome offers: the extracted link of the first research text, when it is not generic. */
  function FoundUrl(outcome: SearchOutcome): (r: Option<string>)
    ensures r.Some? ==> r.value != "" && !IsGenericUrl(r.value)
    ensures r.Some? ==> outcome.Results? && outcome.texts != [] && Contains(outcome.texts[0], r.value)
    ensures r.Some? <==>
      && outcome.Results? && outcome.texts != []
      && ExtractApplicationUrl(outcome.texts[0]) != ""
      && !IsGenericUrl(ExtractApplicationUrl(outcome.texts[0]))
    ensures r.Some? ==> r.value == ExtractApplicationUrl(outcome.texts[0])
  {
    match outcome
    case Raised => None
    case Results(texts) =>
      if texts == [] then None
      else
        var url := ExtractApplicationUrl(texts[0]);
        if url != "" && !IsGenericUrl(url) then Some(url) else None
  }

  /** A record whose link is empty, "Not available" or generic. */
  predicate NeedsUrl(s: Scholarship) {
    Missing(s.applicationUrl) || IsGenericUrl(s.applicationUrl)
  }

  /** At most this many records are searched for a link per run. */
  const URL_SEARCH_LIMIT: nat := 5

  /** The query used to look for a record's application link. */
  function UrlQuery(s: Scholarship): string {
    "\"" + s.title + "\" \"" + s.provider + "\" application form apply online 2025"
  }

  /** How many of `recs` need a link. */
  function CountNeedingUrl(recs: seq<Scholarship>): (n: nat)
    ensures n <= |recs|
  {
    if recs == [] then 0
    else CountNeedingUrl(recs[..|recs| - 1]) + (if NeedsUrl(recs[|recs| - 1]) then 1 else 0)
  }

  /** Counting one more record. */
  lemma CountNeedingUrlSnoc(recs: seq<Scholarship>, i: nat)
    requires i < |recs|
    ensures CountNeedingUrl(recs[..i + 1]) == CountNeedingUrl(recs[..i]) + (if NeedsUrl(recs[i]) then 1 else 0)
  {
    assert recs[..i + 1][..i] == recs[..i];
  }

  /** A record after the search, when `searched` records before it needed a link. */
  function FilledLink(s: Scholarship, searched: nat, search: string -> SearchOutcome): Scholarship {
    if NeedsUrl(s) && searched < URL_SEARCH_LIMIT then
      match FoundUrl(search(UrlQuery(s)))
      case Some(u) => s.(applicationUrl := u)
      case None => s
    else s
  }

  /** Record `i` after the search: searched when it is among the first five needing a link. */
  function UrlFilledAt(recs: seq<Scholarship>, search: string -> SearchOutcome, i: nat): (r: Scholarship)
    requires i < |recs|
  {
    FilledLink(recs[i], CountNeedingUrl(recs[..i]), search)
  }

  /** The collection after the link search. */
  function UrlFilled(recs: seq<Scholarship>, search: string -> SearchOutcome): (out: seq<Scholarship>)
    ensures |out| == |recs|
    ensures forall i :: 0 <= i < |recs| ==> out[i] == UrlFilledAt(recs, search, i)
  {
    seq(|recs|, i requires 0 <= i < |recs| => UrlFilledAt(recs, search, i))
  }

  /**
   * The link search changes nothing but application links, leaves a record with a
   * specific link alone, and writes only links that are not generic.
   */
  lemma UrlFilledChangesOnlyLinks(recs: seq<Scholarship>, search: string -> SearchOutcome, i: nat)
    requires i < |recs|
    ensures UrlFilled(recs, search)[i] == recs[i].(applicationUrl := UrlFilled(recs, search)[i].applicationUrl)
    ensures !NeedsUrl(recs[i]) ==> UrlFilled(recs, search)[i] == recs[i]
    ensures UrlFilled(recs, search)[i] != recs[i] ==>
      !IsGenericUrl(UrlFilled(recs, search)[i].applicationUrl) && CountNeedingUrl(recs[..i]) < URL_SEARCH_LIMIT
  {
  }

  /** How many positions differ between two equally long collections. */
  function ChangedCount(a: seq<Scholarship>, b: seq<Scholarship>): nat
    requires |a| == |b|
  {
    if a == [] then 0
    else ChangedCount(a[..|a| - 1], b[..|b| - 1]) + (if a[|a| - 1] != b[|b| - 1] then 1 else 0)
  }

  /** Counting one more position. */
  lemma ChangedCountSnoc(a: seq<Scholarship>, b: seq<Scholarship>, i: nat)
    requires |a| == |b| && i < |a|
    ensures ChangedCount(a[..i + 1], b[..i + 1]) == ChangedCount(a[..i], b[..i]) + (if a[i] != b[i] then 1 else 0)
  {
    assert a[..i + 1][..i] == a[..i];
    assert b[..i + 1][..i] == b[..i];
  }

  /** A record the link search changes needed a link and came before the limit was reached. */
  lemma UrlChangedOnlyIfSearched(recs: seq<Scholarship>, search: string -> SearchOutcome, i: nat)
    requires i < |recs|
    ensures UrlFilled(recs, search)[i] != recs[i] ==> NeedsUrl(recs[i]) && CountNeedingUrl(recs[..i]) < URL_SEARCH_LIMIT
  {
    UrlFilledChangesOnlyLinks(recs, search, i);
  }

  /**
   * One more record adds a change only when it also adds a record needing a
   * link, and only while fewer than five records needing one came before it.
   */
  lemma UrlChangeCounted(recs: seq<Scholarship>, search: string -> SearchOutcome, n: nat)
    requires 0 < n <= |recs|
    ensures var out := UrlFilled(recs, search);
      var c0, c1 := ChangedCount(recs[..n - 1], out[..n - 1]), ChangedCount(recs[..n], out[..n]);
      var m0, m1 := CountNeedingUrl(recs[..n - 1]), CountNeedingUrl(recs[..n]);
      && c0 <= c1 <= c0 + 1 && m0 <= m1
      && (c1 > c0 ==> m1 > m0 && m0 < URL_SEARCH_LIMIT)
  {
    var i := n - 1;
    assert i + 1 == n;
    ChangedCountSnoc(recs, UrlFilled(recs, search), i);
    CountNeedingUrlSnoc(recs, i);
    UrlChangedOnlyIfSearched(recs, search, i);
  }

  /** At most five records, all of them among those needing a link, are changed. */
  lemma {:induction false} UrlFilledTouchesAtMostFive(recs: seq<Scholarship>, search: string -> SearchOutcome, n: nat)
    requires n <= |recs|
    ensures ChangedCount(recs[..n], UrlFilled(recs, search)[..n]) <= CountNeedingUrl(recs[..n])
    ensures ChangedCount(recs[..n], UrlFilled(recs, search)[..n]) <= URL_SEARCH_LIMIT
  {
    if n > 0 {
      UrlFilledTouchesAtMostFive(recs, search, n - 1);
      UrlChangeCounted(recs, search, n);
    }
  }

  /**
   * `search_missing_application_urls`: walks the collection in order and, for
   * each of the first five records needing a link, runs the search and
   * replaces the link when the search offers a non-generic one. Errors raised
   * by the search are swallowed.
   */
  method SearchMissingApplicationUrls(st: RunState, search: string -> SearchOutcome)
    modifies st.collection
    ensures st.collection.scholarships == UrlFilled(old(st.collection.scholarships), search)
  {
    var c := st.collection;
    ghost var recs := c.scholarships;
    var searched := 0;
    var i := 0;
    while i < |c.scholarships|
      invariant |c.scholarships| == |recs|
      invariant 0 <= i <= |recs|
      invariant searched == CountNeedingUrl(recs[..i])
      invariant forall k :: 0 <= k < i ==> c.scholarships[k] == UrlFilledAt(recs, search, k)
      invariant forall k :: i <= k < |recs| ==> c.scholarships[k] == recs[k]
    {
      CountNeedingUrlSnoc(recs, i);
      var s, next := FillLink(c.scholarships[i], searched, search);
      c.scholarships := c.scholarships[i := s];
      searched := next;
      i := i + 1;
    }
  }

  /**
   * One step of the link search: a record needing a link, while fewer than five
   * have been searched, is searched and takes the link found; the count of
   * records needing a link goes up for every such record.
   */
  method FillLink(s: Scholarship, searched: nat, search: string -> SearchOutcome)
    returns (t: Scholarship, next: nat)
    ensures t == FilledLink(s, searched, search)
    ensures next == searched + (if NeedsUrl(s) then 1 else 0)
  {
    t, next := s, searched;
    if NeedsUrl(s) {
      if searched < URL_SEARCH_LIMIT {
        var outcome := search(UrlQuery(s));
        var found := FoundUrl(outcome);
        if found.Some? {
          t := s.(applicationUrl := found.value);
        }
      }
      next := searched + 1;
    }
  }

  /** A record lacks a link, a deadline or an amount. */
  predicate NeedsDetails(s: Scholarship) {
    Missing(s.applicationUrl) || Missing(s.deadline) || Missing(s.amount)
  }

  /** The records lacking details, in collection order. */
  function Incomplete(recs: seq<Scholarship>): (out: seq<Scholarship>)
    ensures |out| <= |recs|
    ensures forall k :: 0 <= k < |out| ==> NeedsDetails(out[k]) && out[k] in recs
    ensures forall i :: 0 <= i < |recs| && NeedsDetails(recs[i]) ==> recs[i] in out
  {
    if recs == [] then []
    else
      var front := recs[..|recs| - 1];
      var last := recs[|recs| - 1];
      assert forall i :: 0 <= i < |front| ==> recs[i] == front[i];
      Incomplete(front) + (if NeedsDetails(last) then [last] else [])
  }

  /**
   * The selection is an in-order filter: it distributes over concatenation
   * (and `IncompleteSingle` says which single records it keeps).
   */
  lemma {:induction false} IncompleteConcat(a: seq<Scholarship>, b: seq<Scholarship>)
    ensures Incomplete(a + b) == Incomplete(a) + Incomplete(b)
    decreases |b|
  {
    if b == [] {
      assert a + b == a;
    } else {
      var last := |b| - 1;
      var front := b[..last];
      assert (a + b)[..|a + b| - 1] == a + front;
      IncompleteConcat(a, front);
      IncompleteStep(a + b, a + front);
      IncompleteStep(b, front);
    }
  }

  /** A single record is kept exactly when it needs details. */
  lemma IncompleteSingle(r: Scholarship)
    ensures Incomplete([r]) == (if NeedsDetails(r) then [r] else [])
  {
    IncompleteStep([r], []);
  }

  /** Unfolds one step of the selection. */
  lemma IncompleteStep(recs: seq<Scholarship>, front: seq<Scholarship>)
    requires recs != [] && front == recs[..|recs| - 1]
    ensures Incomplete(recs) == Incomplete(front) + (if NeedsDetails(recs[|recs| - 1]) then [recs[|recs| - 1]] else [])
  {
  }

  /** A collection without gaps has nothing to search for. */
  lemma {:induction false} CompleteMeansNoSearch(recs: seq<Scholarship>)
    requires forall k :: 0 <= k < |recs| ==> !NeedsDetails(recs[k])
    ensures Incomplete(recs) == []
  {
    if recs != [] {
      CompleteMeansNoSearch(recs[..|recs| - 1]);
    }
  }

  /** At most this many detail searches are run. */
  const DETAIL_SEARCH_LIMIT: nat := 3

  /** The query used to look for a record's missing details. */
  function DetailQuery(s: Scholarship): string {
    "\"" + s.title + "\" " + s.provider + " application form deadline amount 2025"
  }

  /** Each detail query names the record's title and its provider. */
  lemma DetailQueryMentions(s: Scholarship)
    ensures Contains(DetailQuery(s), s.title) && Contains(DetailQuery(s), s.provider)
  {
    var q := DetailQuery(s);
    assert MatchAt(q, s.title, 1);
    assert MatchAt(q, s.provider, |s.title| + 3);
    ContainsIff(q, s.title);
    ContainsIff(q, s.provider);
  }

  /** The queries for the first three of the given records. */
  function QueriesFor(inc: seq<Scholarship>): (qs: seq<string>)
    ensures |qs| <= DETAIL_SEARCH_LIMIT && |qs| <= |inc|
    ensures |inc| >= DETAIL_SEARCH_LIMIT ==> |qs| == DETAIL_SEARCH_LIMIT
    ensures |inc| < DETAIL_SEARCH_LIMIT ==> |qs| == |inc|
    ensures forall k :: 0 <= k < |qs| ==> qs[k] == DetailQuery(inc[k])
  {
    var n := if |inc| < DETAIL_SEARCH_LIMIT then |inc| else DETAIL_SEARCH_LIMIT;
    seq(n, k requires 0 <= k < n => DetailQuery(inc[k]))
  }

  /** The queries for the first three incomplete records of the collection. */
  function DetailQueries(recs: seq<Scholarship>): seq<string> {
    QueriesFor(Incomplete(recs))
  }

  /** The research text the queries add, in query order; a search that raises adds nothing. */
  function Gathered(queries: seq<string>, search: string -> SearchOutcome): seq<string>
  {
    if queries == [] then []
    else
      var last := queries[|queries| - 1];
      Gathered(queries[..|queries| - 1], search)
        + match search(last) case Results(texts) => texts case Raised => []
  }

  /** The loop that turns the first three incomplete records into search queries. */
  method BuildDetailQueries(incomplete: seq<Scholarship>) returns (queries: seq<string>)
    ensures queries == QueriesFor(incomplete)
  {
    queries := [];
    var k := 0;
    while k < |incomplete| && k < DETAIL_SEARCH_LIMIT
      invariant 0 <= k <= |incomplete| && k <= DETAIL_SEARCH_LIMIT
      invariant |queries| == k
      invariant forall m :: 0 <= m < k ==> queries[m] == DetailQuery(incomplete[m])
    {
      queries := queries + [DetailQuery(incomplete[k])];
      k := k + 1;
    }
  }

  /** The loop that runs the detail searches and appends what they find. */
  method RunDetailSearches(st: RunState, queries: seq<string>, search: string -> SearchOutcome)
    modifies st`webResearchResult
    ensures st.webResearchResult == old(st.webResearchResult) + Gathered(queries, search)
  {
    var j := 0;
    while j < |queries|
      invariant 0 <= j <= |queries|
      invariant st.webResearchResult == old(st.webResearchResult) + Gathered(queries[..j], search)
    {
      var prefix := queries[..j + 1];
      assert prefix[..j] == queries[..j] && prefix[j] == queries[j];
      var outcome := search(queries[j]);
      if outcome.Results? {
        st.webResearchResult := st.webResearchResult + outcome.texts;
      }
      assert Gathered(prefix, search) == Gathered(queries[..j], search)
        + match outcome case Results(texts) => texts case Raised => [];
      j := j + 1;
    }
    assert queries[..j] == queries;
  }

  /**
   * `search_missing_scholarship_details`: the queries of the first three
   * incomplete records are searched and their research text is appended to the
   * run's research results; no record is edited.
   */
  method SearchMissingScholarshipDetails(st: RunState, search: string -> SearchOutcome)
    modifies st`webResearchResult
    ensures st.webResearchResult ==
      old(st.webResearchResult) + Gathered(DetailQueries(st.collection.scholarships), search)
  {
    var recs := st.collection.scholarships;
    var incomplete := CollectIncomplete(recs);
    if incomplete == [] {
      assert |QueriesFor(incomplete)| == 0;
      assert Gathered(DetailQueries(recs), search) == [];
      return;
    }
    var queries := BuildDetailQueries(incomplete);
    RunDetailSearches(st, queries, search);
  }

  /** The loop that picks out the records lacking details, in collection order. */
  method CollectIncomplete(recs: seq<Scholarship>) returns (incomplete: seq<Scholarship>)
    ensures incomplete == Incomplete(recs)
  {
    incomplete := [];
    var i := 0;
    while i < |recs|
      invariant 0 <= i <= |recs|
      invariant incomplete == Incomplete(recs[..i])
    {
      assert recs[..i + 1][..i] == recs[..i];
      if NeedsDetails(recs[i]) {
        incomplete := incomplete + [recs[i]];
      }
      i := i + 1;
    }
    assert recs[..i] == recs;
  }
}
