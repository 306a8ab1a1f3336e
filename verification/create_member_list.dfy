/**
  The member-list builder of create_member_list.py: the title pattern
  `【([ZU]\d+)[-A-Z]*】(.*?) トークイベント`, searched anywhere in a title,
  and the merge of rows that share a member name.
 */
module CreateMemberList {
  import opened Wrappers
  import opened Text
  import opened Seqs

  // ---------------------------------------------------------------------------
  // The title pattern

  const OPEN: char := '\U{3010}'
  const CLOSE: char := '\U{3011}'
  /** " トークイベント", with its leading space. */
  const MARKER: string := " \U{30C8}\U{30FC}\U{30AF}\U{30A4}\U{30D9}\U{30F3}\U{30C8}"

  /** `[ZU]`: the league letter. */
  predicate IsLeagueLetter(c: char) {
    c == 'Z' || c == 'U'
  }

  /** `[-A-Z]`: a character of the sub-league suffix. */
  predicate IsSuffixChar(c: char) {
    c == '-' || ('A' <= c <= 'Z')
  }

  /** The end of the longest run of `inClass` characters starting at `k`. */
  function RunEnd(s: string, k: nat, inClass: char -> bool): (m: nat)
    requires k <= |s|
    ensures k <= m <= |s|
    ensures forall i | k <= i < m :: inClass(s[i])
    ensures m == |s| || !inClass(s[m])
    decreases |s| - k
  {
    if k < |s| && inClass(s[k]) then RunEnd(s, k + 1, inClass) else k
  }

  /** No line break in `s[lo..hi]` (`.` does not match one). */
  predicate NoNewline(s: string, lo: int, hi: int)
    requires 0 <= lo <= hi <= |s|
  {
    forall i | lo <= i < hi :: s[i] != '\n'
  }

  /** " トークイベント" starts at `q`. */
  predicate MarkerAt(s: string, q: int) {
    0 <= q <= |s| && StartsWith(s[q..], MARKER)
  }

  /**
    The pattern matches at `p`: '【' at p, the code `s[p+1..d]` (a league
    letter and one or more digits), the suffix `s[d..a]`, '】' at a, and the
    name `s[a+1..q]` (no line break) followed by " トークイベント".
   */
  ghost predicate Matches(s: string, p: int, d: int, a: int, q: int) {
    && 0 <= p && p + 2 < d <= a < |s|
    && s[p] == OPEN && IsLeagueLetter(s[p + 1])
    && (forall i | p + 2 <= i < d :: IsDigit(s[i]))
    && (forall i | d <= i < a :: IsSuffixChar(s[i]))
    && s[a] == CLOSE
    && a + 1 <= q && MarkerAt(s, q) && NoNewline(s, a + 1, q)
  }

  /** The first position from `q` on where the marker starts, reached without crossing a line break. */
  function MarkerFrom(s: string, q: nat): (r: Option<nat>)
    requires q <= |s|
    ensures r.Some? ==> q <= r.value <= |s| && MarkerAt(s, r.value) && NoNewline(s, q, r.value)
    ensures r.Some? ==> forall j | q <= j < r.value :: !MarkerAt(s, j)
    ensures r.None? ==> forall j | q <= j && MarkerAt(s, j) :: !NoNewline(s, q, j)
    decreases |s| - q
  {
    if MarkerAt(s, q) then Some(q)
    else if q == |s| || s[q] == '\n' then None
    else MarkerFrom(s, q + 1)
  }

  /**
    The match at `p`, if any, as (d, a, q). `\d+` and `[-A-Z]*` must take
    their whole runs, since neither a digit nor a suffix character can
    stand where the next part begins; the name is the shortest possible.
   */
  function MatchAt(s: string, p: nat): Option<(nat, nat, nat)>
    requires p <= |s|
  {
    if p + 2 >= |s| || s[p] != OPEN || !IsLeagueLetter(s[p + 1]) then None
    else
      var d := RunEnd(s, p + 2, IsDigit);
      var a := RunEnd(s, d, IsSuffixChar);
      if d == p + 2 || a == |s| || s[a] != CLOSE then None
      else match MarkerFrom(s, a + 1)
        case None => None
        case Some(q) => Some((d, a, q))
  }

  /** At a given start, the runs are forced and the name is the shortest one. */
  lemma MatchAtIsLazyMatch(s: string, p: nat)
    requires p <= |s|
    ensures MatchAt(s, p).Some? ==> var (d, a, q) := MatchAt(s, p).value; Matches(s, p, d, a, q)
    ensures MatchAt(s, p).Some? ==> var (d, a, q) := MatchAt(s, p).value;
      forall d', a', q' | Matches(s, p, d', a', q') :: d' == d && a' == a && q <= q'
    ensures MatchAt(s, p).None? ==> forall d, a, q :: !Matches(s, p, d, a, q)
  {
    forall d', a', q' | Matches(s, p, d', a', q')
      ensures MatchAt(s, p).Some? && var (d, a, q) := MatchAt(s, p).value; d' == d && a' == a && q <= q'
    {
      ForcedRuns(s, p, d', a', q');
    }
  }

  /** Any match at `p` uses the longest digit and suffix runs. */
  lemma ForcedRuns(s: string, p: nat, d': int, a': int, q': int)
    requires Matches(s, p, d', a', q')
    ensures MatchAt(s, p).Some? && var (d, a, q) := MatchAt(s, p).value; d' == d && a' == a && q <= q'
  {
    var d := RunEnd(s, p + 2, IsDigit);
    // a shorter digit run would leave a digit where the suffix or '】' must be
    assert d' < d ==> IsDigit(s[d']);
    assert d' < a' ==> IsSuffixChar(s[d']);
    assert d' == a' ==> s[d'] == CLOSE;
    // a longer one would take the non-digit that ends the run
    assert d' == d;
    var a := RunEnd(s, d, IsSuffixChar);
    assert a' < a ==> IsSuffixChar(s[a']);
    assert a' == a;
    assert NoNewline(s, a + 1, q');
  }

  /** `re.search`: the first start position from `p` on where the pattern matches. */
  function SearchFrom(s: string, p: nat): (r: Option<(nat, nat, nat, nat)>)
    requires p <= |s|
    ensures r.Some? ==> p <= r.value.0 <= |s| && MatchAt(s, r.value.0) == Some((r.value.1, r.value.2, r.value.3))
    decreases |s| - p
  {
    if MatchAt(s, p).Some? then
      var m := MatchAt(s, p).value;
      Some((p, m.0, m.1, m.2))
    else if p == |s| then None
    else SearchFrom(s, p + 1)
  }

  /** A start the search passed over, or any start when it found nothing, has no match. */
  lemma {:induction false} SkippedHaveNoMatch(s: string, p: nat, p': nat)
    requires p <= p' <= |s|
    requires SearchFrom(s, p).None? || p' < SearchFrom(s, p).value.0
    ensures MatchAt(s, p').None?
    decreases p' - p
  {
    if p < p' {
      SkippedHaveNoMatch(s, p + 1, p');
    }
  }

  /** The search finds the first start with a match, and finds nothing only when no start has one. */
  lemma SearchFromIsLeftmost(s: string, p: nat)
    requires p <= |s|
    ensures SearchFrom(s, p).Some? ==> forall p' | p <= p' < SearchFrom(s, p).value.0 :: MatchAt(s, p').None?
    ensures SearchFrom(s, p).None? ==> forall p' | p <= p' <= |s| :: MatchAt(s, p').None?
  {
    forall p' | p <= p' <= |s| && (SearchFrom(s, p).None? || p' < SearchFrom(s, p).value.0)
      ensures MatchAt(s, p').None?
    {
      SkippedHaveNoMatch(s, p, p');
    }
  }

  /**
    `re.search(...)` on a title: the code (group 1) and the name (group 2)
    of the leftmost match, or nothing.
   */
  function ExtractCodeAndName(title: string): Option<(string, string)> {
    match SearchFrom(title, 0)
      case None => None
      case Some((p, d, a, q)) => Some((title[p + 1..d], title[a + 1..q]))
  }

  /**
    The extracted code is a league letter followed by digits, with the
    suffix left out; the name is what lies between '】' and the first
    " トークイベント" after it; the match is the leftmost one; and no
    result means the pattern occurs nowhere.
   */
  lemma ExtractCodeAndNameMeaning(title: string)
    ensures ExtractCodeAndName(title).Some? ==> exists p, d, a, q :: (Matches(title, p, d, a, q)
      && ExtractCodeAndName(title).value == (title[p + 1..d], title[a + 1..q])
      && (forall p', d', a', q' | Matches(title, p', d', a', q') :: p <= p' && (p' == p ==> q <= q')))
    ensures ExtractCodeAndName(title).Some? ==> var code := ExtractCodeAndName(title).value.0;
      |code| >= 2 && IsLeagueLetter(code[0]) && IsDigits(code[1..])
    ensures ExtractCodeAndName(title).None? ==> forall p, d, a, q :: !Matches(title, p, d, a, q)
  {
    var r := SearchFrom(title, 0);
    SearchFromIsLeftmost(title, 0);
    if r.Some? {
      FoundIsLeftmost(title, r.value.0, r.value.1, r.value.2, r.value.3);
    } else {
      forall p, d, a, q | Matches(title, p, d, a, q) ensures false {
        MatchAtIsLazyMatch(title, p);
      }
    }
  }

  /** The search result is a match, the leftmost one, with a league code. */
  lemma FoundIsLeftmost(title: string, p: nat, d: nat, a: nat, q: nat)
    requires SearchFrom(title, 0) == Some((p, d, a, q))
    ensures Matches(title, p, d, a, q)
    ensures ExtractCodeAndName(title) == Some((title[p + 1..d], title[a + 1..q]))
    ensures forall p', d', a', q' | Matches(title, p', d', a', q') :: p <= p' && (p' == p ==> q <= q')
    ensures var code := title[p + 1..d]; |code| >= 2 && IsLeagueLetter(code[0]) && IsDigits(code[1..])
  {
    MatchAtIsLazyMatch(title, p);
    SearchFromIsLeftmost(title, 0);
    forall p', d', a', q' | Matches(title, p', d', a', q') ensures p <= p' && (p' == p ==> q <= q') {
      MatchAtIsLazyMatch(title, p');
    }
    var code := title[p + 1..d];
    assert forall i | 0 <= i < |code[1..]| :: code[1..][i] == title[p + 2 + i];
  }

  /** `【Z1-A】白咲 ひとみ トークイベント`. */
  const EXAMPLE_TITLE: string := "\U{3010}Z1-A\U{3011}\U{767D}\U{54B2} \U{3072}\U{3068}\U{307F}" + MARKER

  /** In the example, the digits end at 3 and the suffix "-A" at 5. */
  lemma ExampleRuns()
    ensures RunEnd(EXAMPLE_TITLE, 2, IsDigit) == 3
    ensures RunEnd(EXAMPLE_TITLE, 3, IsSuffixChar) == 5
  {
    var s := EXAMPLE_TITLE;
    assert s[3] == '-' && s[4] == 'A' && s[5] == CLOSE;
    assert RunEnd(s, 5, IsSuffixChar) == 5;
  }

  /** In the example, the name runs from 6 to the marker at 12. */
  lemma ExampleMarker()
    ensures MarkerFrom(EXAMPLE_TITLE, 6) == Some(12)
  {
    var s := EXAMPLE_TITLE;
    assert s[12..] == MARKER;
    assert MarkerFrom(s, 12) == Some(12);
    forall j | 6 <= j < 12 ensures !MarkerAt(s, j) && s[j] != '\n' {
      assert s[j..][1] == s[j + 1];
    }
    assert MarkerFrom(s, 9) == Some(12);
  }

  /** The pattern matches the example at its start. */
  lemma ExampleMatch()
    ensures MatchAt(EXAMPLE_TITLE, 0) == Some((3, 5, 12))
  {
    ExampleRuns();
    ExampleMarker();
  }

  /** The example title gives code "Z1", without its "-A" suffix, and name "白咲 ひとみ". */
  lemma ExtractExample()
    ensures ExtractCodeAndName(EXAMPLE_TITLE) == Some(("Z1", "\U{767D}\U{54B2} \U{3072}\U{3068}\U{307F}"))
  {
    ExampleMatch();
    var s := EXAMPLE_TITLE;
    assert SearchFrom(s, 0) == Some((0, 3, 5, 12));
    assert s[1..3] == "Z1";
    assert s[6..12] == "\U{767D}\U{54B2} \U{3072}\U{3068}\U{307F}";
  }

  // ---------------------------------------------------------------------------
  // Extraction from the listing

  /** A listing anchor: its href and the text of its title element, if it has one. */
  datatype Anchor = Anchor(href: string, title: Option<string>)

  /**
    The row one anchor contributes: `[href, name, code]` when it has a title
    element whose text matches, nothing otherwise.
   */
  function AnchorRow(a: Anchor): Option<seq<string>> {
    if a.title.None? then None
    else
      match ExtractCodeAndName(a.title.value)
      case None => None
      case Some((code, name)) => Some([a.href, name, code])
  }

  /** extract_member_info: (url, name, code) for every anchor whose title matches, in order. */
  function ExtractMembers(anchors: seq<Anchor>): (rows: seq<seq<string>>)
    ensures |rows| <= |anchors|
    ensures forall i | 0 <= i < |rows| :: |rows[i]| == 3
  {
    if anchors == [] then []
    else
      var n := |anchors| - 1;
      var found := AnchorRow(anchors[n]);
      ExtractMembers(anchors[..n]) + (if found.Some? then [found.value] else [])
  }

  /**
    The extracted rows are exactly the rows of the matching anchors, in anchor
    order: row `k` comes from anchor `idx[k]`, the positions increase, and
    every anchor with a matching title has its row among them.
   */
  lemma ExtractMembersEmbedding(anchors: seq<Anchor>) returns (idx: seq<int>)
    ensures |idx| == |ExtractMembers(anchors)|
    ensures forall k | 0 <= k < |idx| ::
      0 <= idx[k] < |anchors| && AnchorRow(anchors[idx[k]]) == Some(ExtractMembers(anchors)[k])
    ensures forall k, l | 0 <= k < l < |idx| :: idx[k] < idx[l]
    ensures forall j | 0 <= j < |anchors| && AnchorRow(anchors[j]).Some? ::
      exists k :: 0 <= k < |idx| && idx[k] == j
  {
    ExtractMembersIsFilterMap(anchors);
    idx := FilterMapEmbedding(anchors, AnchorRow);
  }

  /** The extraction loop keeps, in order, the row each anchor contributes. */
  lemma {:induction false} ExtractMembersIsFilterMap(anchors: seq<Anchor>)
    ensures ExtractMembers(anchors) == FilterMap(anchors, AnchorRow)
  {
    if anchors != [] {
      ExtractMembersIsFilterMap(anchors[..|anchors| - 1]);
    }
  }

  /** An anchor whose title yields `(code, name)` contributes the row `[href, name, code]`. */
  lemma {:induction false} MatchingAnchorListed(anchors: seq<Anchor>, j: int, code: string, name: string)
    requires 0 <= j < |anchors| && anchors[j].title.Some?
    requires ExtractCodeAndName(anchors[j].title.value) == Some((code, name))
    ensures [anchors[j].href, name, code] in ExtractMembers(anchors)
  {
    var idx := ExtractMembersEmbedding(anchors);
    assert AnchorRow(anchors[j]) == Some([anchors[j].href, name, code]);
    var k :| 0 <= k < |idx| && idx[k] == j;
    assert ExtractMembers(anchors)[k] == [anchors[j].href, name, code];
  }

  /** Every extracted row is `[href, name, code]` of an anchor whose title yields `(code, name)`. */
  lemma ListedRowFromAnchor(anchors: seq<Anchor>, k: int) returns (j: int, code: string, name: string)
    requires 0 <= k < |ExtractMembers(anchors)|
    ensures 0 <= j < |anchors| && anchors[j].title.Some?
    ensures ExtractCodeAndName(anchors[j].title.value) == Some((code, name))
    ensures ExtractMembers(anchors)[k] == [anchors[j].href, name, code]
  {
    var idx := ExtractMembersEmbedding(anchors);
    j := idx[k];
    assert AnchorRow(anchors[j]) == Some(ExtractMembers(anchors)[k]);
    code := ExtractCodeAndName(anchors[j].title.value).value.0;
    name := ExtractCodeAndName(anchors[j].title.value).value.1;
  }

  /** Every extracted row's code has the league shape, and anchors without a title or a match add nothing. */
  lemma {:induction false} ExtractedCodesAreLeagueCodes(anchors: seq<Anchor>)
    ensures forall i | 0 <= i < |ExtractMembers(anchors)| ::
      var code := ExtractMembers(anchors)[i][2];
      |code| >= 2 && IsLeagueLetter(code[0]) && IsDigits(code[1..])
  {
    if anchors != [] {
      var n := |anchors| - 1;
      ExtractedCodesAreLeagueCodes(anchors[..n]);
      if anchors[n].title.Some? {
        ExtractCodeAndNameMeaning(anchors[n].title.value);
      }
    }
  }

  // ---------------------------------------------------------------------------
  // Merging rows that share a name

  /** A merged member: the first URL, the URL of the last repeat ("" if none), and the code. */
  datatype Record = Record(firstUrl: string, secondUrl: string, code: string)

  const HEADER: seq<string> := ["15min", "1hour", "name", "league"]

  /** Rows with fewer than three fields are skipped. */
  predicate Usable(row: seq<string>) {
    |row| >= 3
  }

  /** The names of the usable rows, in order, repeats included. */
  function NamesOf(rows: seq<seq<string>>): seq<string> {
    if rows == [] then []
    else
      var n := |rows| - 1;
      NamesOf(rows[..n]) + (if Usable(rows[n]) then [rows[n][1]] else [])
  }

  /** The record a usable row leaves: a new entry for a new name, else only the second URL changes. */
  function AddRow(records: map<string, Record>, row: seq<string>): map<string, Record>
    requires Usable(row)
  {
    var url, name, code := row[0], row[1], row[2];
    if name in records then records[name := records[name].(secondUrl := url)]
    else records[name := Record(url, "", code)]
  }

  /** The dictionary after `rows`. */
  function RecordsOf(rows: seq<seq<string>>): map<string, Record> {
    if rows == [] then map[]
    else
      var n := |rows| - 1;
      if Usable(rows[n]) then AddRow(RecordsOf(rows[..n]), rows[n]) else RecordsOf(rows[..n])
  }

  /** Unfolding `RecordsOf` over one more row; its keys are the names seen so far. */
  lemma RecordsStep(rows: seq<seq<string>>, i: nat)
    requires i < |rows|
    ensures Usable(rows[i]) ==> RecordsOf(rows[..i + 1]) == AddRow(RecordsOf(rows[..i]), rows[i])
    ensures !Usable(rows[i]) ==> RecordsOf(rows[..i + 1]) == RecordsOf(rows[..i])
    ensures forall name :: name in RecordsOf(rows[..i]) <==> name in NamesOf(rows[..i])
  {
    var prefix, row := rows[..i], rows[i];
    assert rows[..i + 1] == prefix + [row];
    assert (prefix + [row])[..|prefix|] == prefix;
    RecordKeys(prefix);
  }

  /** Unfolding the name order over one more row. */
  lemma NamesStep(rows: seq<seq<string>>, i: nat)
    requires i < |rows|
    ensures Usable(rows[i]) ==>
      Distinct(NamesOf(rows[..i + 1])) == Distinct(NamesOf(rows[..i])) + (if rows[i][1] in NamesOf(rows[..i]) then [] else [rows[i][1]])
    ensures !Usable(rows[i]) ==> Distinct(NamesOf(rows[..i + 1])) == Distinct(NamesOf(rows[..i]))
  {
    var prefix, row := rows[..i], rows[i];
    assert rows[..i + 1] == prefix + [row];
    assert (prefix + [row])[..|prefix|] == prefix;
    if Usable(row) {
      assert NamesOf(rows[..i + 1]) == NamesOf(prefix) + [row[1]];
      DistinctSnoc(NamesOf(prefix), row[1]);
    } else {
      assert NamesOf(rows[..i + 1]) == NamesOf(prefix);
    }
  }

  /** The loop of merge_duplicates over the data rows: the dictionary and its insertion order. */
  method MergeRows(rows: seq<seq<string>>) returns (records: map<string, Record>, order: seq<string>)
    ensures records == RecordsOf(rows)
    ensures order == Distinct(NamesOf(rows))
  {
    records := map[];
    order := [];
    var i := 0;
    while i < |rows|
      invariant 0 <= i <= |rows|
      invariant records == RecordsOf(rows[..i])
      invariant order == Distinct(NamesOf(rows[..i]))
    {
      var row := rows[i];
      RecordsStep(rows, i);
      NamesStep(rows, i);
      if |row| >= 3 {
        var url, name, code := row[0], row[1], row[2];
        if name in records {
          records := records[name := records[name].(secondUrl := url)];
        } else {
          records := records[name := Record(url, "", code)];
          order := order + [name];
        }
      }
      i := i + 1;
    }
    assert rows[..i] == rows;
  }

  /** A member's output row. */
  function OutputRow(name: string, record: Record): seq<string> {
    [record.firstUrl, record.secondUrl, name, record.code]
  }

  /**
    merge_duplicates without the files: nothing for an input without even a
    header line; otherwise the new header and one row per distinct name of
    the data rows, in first-appearance order.
   */
  method MergeDuplicates(lines: seq<seq<string>>) returns (out: Option<seq<seq<string>>>)
    ensures out.None? <==> lines == []
    ensures out.Some? ==>
      var rows := lines[1..];
      var order := Distinct(NamesOf(rows));
      && |out.value| == 1 + |order| && out.value[0] == HEADER
      && forall i | 0 <= i < |order| ::
        order[i] in RecordsOf(rows) && out.value[i + 1] == OutputRow(order[i], RecordsOf(rows)[order[i]])
  {
    if lines == [] {
      return None;
    }
    var rows := lines[1..];
    var records, order := MergeRows(rows);
    RecordKeys(rows);
    var result := [HEADER];
    var i := 0;
    while i < |order|
      invariant 0 <= i <= |order| && |result| == 1 + i && result[0] == HEADER
      invariant forall j | 0 <= j < i :: order[j] in records && result[j + 1] == OutputRow(order[j], records[order[j]])
    {
      var name := order[i];
      result := result + [OutputRow(name, records[name])];
      i := i + 1;
    }
    out := Some(result);
  }

  /** The dictionary holds exactly the names of the usable rows. */
  lemma {:induction false} RecordKeys(rows: seq<seq<string>>)
    ensures forall name :: name in RecordsOf(rows) <==> name in NamesOf(rows)
  {
    if rows != [] {
      RecordKeys(rows[..|rows| - 1]);
    }
  }

  /** Usable row `i` carries `name`. */
  predicate RowOf(rows: seq<seq<string>>, i: int, name: string)
    requires 0 <= i < |rows|
  {
    Usable(rows[i]) && rows[i][1] == name
  }

  /** One step of `RecordsOf`: only the last row's name can change. */
  lemma RecordsOfUnfold(rows: seq<seq<string>>)
    requires rows != []
    ensures var n := |rows| - 1;
      forall name | !RowOf(rows, n, name) ::
        (name in RecordsOf(rows) <==> name in RecordsOf(rows[..n]))
        && (name in RecordsOf(rows) ==> RecordsOf(rows)[name] == RecordsOf(rows[..n])[name])
    ensures var n := |rows| - 1;
      Usable(rows[n]) ==> RecordsOf(rows) == AddRow(RecordsOf(rows[..n]), rows[n])
  {
  }

  /** A prefix has the same usable rows at the same positions. */
  lemma PrefixRows(rows: seq<seq<string>>, n: nat)
    requires n <= |rows|
    ensures forall j, name | 0 <= j < n :: RowOf(rows[..n], j, name) == RowOf(rows, j, name)
    ensures forall j | 0 <= j < n :: rows[..n][j] == rows[j]
  {
  }

  /** The first usable row of a name fixes its first URL and code for good. */
  lemma {:induction false} FirstRowFixes(rows: seq<seq<string>>, name: string, i: int)
    requires 0 <= i < |rows| && RowOf(rows, i, name)
    requires forall j | 0 <= j < i :: !RowOf(rows, j, name)
    ensures name in RecordsOf(rows)
    ensures RecordsOf(rows)[name].firstUrl == rows[i][0] && RecordsOf(rows)[name].code == rows[i][2]
  {
    var n := |rows| - 1;
    PrefixRows(rows, n);
    if i == n {
      NoRowNoRecord(rows[..n], name);
    } else {
      FirstRowFixes(rows[..n], name, i);
    }
  }

  /** A name without a usable row has no record. */
  lemma {:induction false} NoRowNoRecord(rows: seq<seq<string>>, name: string)
    requires forall j | 0 <= j < |rows| :: !RowOf(rows, j, name)
    ensures name !in RecordsOf(rows)
  {
    if rows != [] {
      var n := |rows| - 1;
      PrefixRows(rows, n);
      NoRowNoRecord(rows[..n], name);
      assert !RowOf(rows, n, name);
      RecordsOfUnfold(rows);
    }
  }

  /** With one usable row of a name, its second URL stays empty. */
  lemma {:induction false} SingleRowNoSecond(rows: seq<seq<string>>, name: string, i: int)
    requires 0 <= i < |rows| && RowOf(rows, i, name)
    requires forall j | 0 <= j < |rows| && j != i :: !RowOf(rows, j, name)
    ensures name in RecordsOf(rows) && RecordsOf(rows)[name].secondUrl == ""
  {
    var n := |rows| - 1;
    PrefixRows(rows, n);
    RecordsOfUnfold(rows);
    if i == n {
      NoRowNoRecord(rows[..n], name);
    } else {
      SingleRowNoSecond(rows[..n], name, i);
      assert !RowOf(rows, n, name);
    }
  }

  /** With two or more usable rows of a name, the last one's URL is the second URL. */
  lemma {:induction false} LastRepeatIsSecond(rows: seq<seq<string>>, name: string, i: int, k: int)
    requires 0 <= i < k < |rows| && RowOf(rows, i, name) && RowOf(rows, k, name)
    requires forall j | k < j < |rows| :: !RowOf(rows, j, name)
    ensures name in RecordsOf(rows) && RecordsOf(rows)[name].secondUrl == rows[k][0]
  {
    var n := |rows| - 1;
    PrefixRows(rows, n);
    RecordsOfUnfold(rows);
    if k == n {
      RecordKeys(rows[..n]);
      NamedRowListed(rows[..n], name, i);
    } else {
      LastRepeatIsSecond(rows[..n], name, i, k);
      assert !RowOf(rows, n, name);
    }
  }

  /** A usable row's name is among the names. */
  lemma {:induction false} NamedRowListed(rows: seq<seq<string>>, name: string, i: int)
    requires 0 <= i < |rows| && RowOf(rows, i, name)
    ensures name in NamesOf(rows)
  {
    var n := |rows| - 1;
    PrefixRows(rows, n);
    if i < n {
      NamedRowListed(rows[..n], name, i);
    }
  }
}
