/**
  The roster rebuild of fix_member_list.py: titles of listed items are
  matched against the pattern 【group】name トークイベント, rows are grouped
  by member name, "鍵〆" titles supply the one-hour URL and others the
  15-minute URL, and a member without a one-hour URL falls back to the
  15-minute one.
 */
module FixMemberList {
  import opened Wrappers
  import opened Text
  import opened Seqs

  // ---------------------------------------------------------------------------
  // The title pattern, anchored at the start:
  //   【 (.+?) 】 (.+?) \s+ トークイベント

  const OPEN: char := '\U{3010}'
  const CLOSE: char := '\U{3011}'
  /** "トークイベント" */
  const EVENT: string := "\U{30C8}\U{30FC}\U{30AF}\U{30A4}\U{30D9}\U{30F3}\U{30C8}"

  /** No line break in `s[lo..hi]` (`.` does not match one). */
  predicate NoNewline(s: string, lo: int, hi: int)
    requires 0 <= lo <= hi <= |s|
  {
    forall i | lo <= i < hi :: s[i] != '\n'
  }

  /** The end of the run of whitespace starting at `k`. */
  function SpaceEnd(s: string, k: nat): (m: nat)
    requires k <= |s|
    ensures k <= m <= |s|
    ensures forall i | k <= i < m :: IsSpace(s[i])
    ensures m == |s| || !IsSpace(s[m])
    decreases |s| - k
  {
    if k < |s| && IsSpace(s[k]) then SpaceEnd(s, k + 1) else k
  }

  /** `\s+トークイベント` matches at `k`: the whitespace run must be taken whole, since 'ト' is not whitespace. */
  predicate TailAt(s: string, k: int) {
    0 <= k < |s| && IsSpace(s[k]) && StartsWith(s[SpaceEnd(s, k)..], EVENT)
  }

  /**
    The pattern matches with group 1 = `s[1..e]` and group 2 = `s[e+1..k]`:
    both non-empty and free of line breaks, `s[e]` is '】', and the
    whitespace-then-"トークイベント" tail starts at `k`.
   */
  ghost predicate Matches(s: string, e: int, k: int) {
    && 0 < |s| && s[0] == OPEN
    && ClosesAt(s, e) && NoNewline(s, 1, e)
    && e + 2 <= k <= |s| && NoNewline(s, e + 1, k) && TailAt(s, k)
  }

  /** `s[e]` is a '】' that can close group 1 (which needs at least one character). */
  predicate ClosesAt(s: string, e: int) {
    2 <= e < |s| && s[e] == CLOSE
  }

  /** The first '】' at position 2 or later, reached from `i` without crossing a line break. */
  function CloseFrom(s: string, i: nat): (r: Option<nat>)
    requires i <= |s|
    ensures r.Some? ==> i <= r.value < |s| && 2 <= r.value && s[r.value] == CLOSE && NoNewline(s, i, r.value)
    ensures r.Some? ==> forall e | i <= e < r.value && 2 <= e :: s[e] != CLOSE
    ensures r.None? ==> forall e | i <= e && ClosesAt(s, e) :: !NoNewline(s, i, e)
    decreases |s| - i
  {
    if i == |s| then None
    else if s[i] == CLOSE && 2 <= i then Some(i)
    else if s[i] == '\n' then None
    else CloseFrom(s, i + 1)
  }

  /** The first position from `k` on where the tail matches, reached without crossing a line break. */
  function TailFrom(s: string, k: nat): (r: Option<nat>)
    requires k <= |s|
    ensures r.Some? ==> k <= r.value < |s| && TailAt(s, r.value) && NoNewline(s, k, r.value)
    ensures r.Some? ==> forall j | k <= j < r.value :: !TailAt(s, j)
    ensures r.None? ==> forall j | k <= j < |s| && TailAt(s, j) :: !NoNewline(s, k, j)
    decreases |s| - k
  {
    if k == |s| then None
    else if TailAt(s, k) then Some(k)
    else if s[k] == '\n' then None
    else TailFrom(s, k + 1)
  }

  /** The match positions `(e, k)` the lazy groups settle on, if the title matches at its start. */
  function MatchTitle(s: string): (r: Option<(nat, nat)>)
    ensures r.Some? ==> 2 <= r.value.0 && r.value.0 + 2 <= r.value.1 < |s|
  {
    if |s| < 2 || s[0] != OPEN then None
    else match CloseFrom(s, 1)
      case None => None
      case Some(e) =>
        if e + 1 == |s| || s[e + 1] == '\n' then None
        else match TailFrom(s, e + 2)
          case None => None
          case Some(k) => Some((e, k))
  }

  /**
    `re.match` semantics: a result is a match, and the leftmost-shortest one
    (no match ends group 1 earlier, none with the same group 1 ends group 2
    earlier); no result means no match at all.
   */
  lemma MatchTitleIsLazyMatch(s: string)
    ensures MatchTitle(s).Some? ==> Matches(s, MatchTitle(s).value.0, MatchTitle(s).value.1)
    ensures MatchTitle(s).Some? ==> forall e, k | Matches(s, e, k) ::
      MatchTitle(s).value.0 <= e && (e == MatchTitle(s).value.0 ==> MatchTitle(s).value.1 <= k)
    ensures MatchTitle(s).None? ==> forall e, k :: !Matches(s, e, k)
  {
    if MatchTitle(s).None? {
      forall e, k | Matches(s, e, k) ensures false {
        NoMatchPastFirstClose(s, e, k);
      }
    }
  }

  /**
    Any match can be moved to the first '】': a longer group 1 only swallows
    characters group 2 could have taken. Hence backtracking in group 1 never
    finds a match the first '】' misses.
   */
  lemma NoMatchPastFirstClose(s: string, e: int, k: int)
    requires Matches(s, e, k)
    ensures MatchTitle(s).Some?
  {
    var first := CloseFrom(s, 1);
    assert first.Some?;
    var e0 := first.value;
    assert e0 <= e;
    assert NoNewline(s, e0 + 1, k) by {
      forall i | e0 + 1 <= i < k ensures s[i] != '\n' {
        if i < e {
          assert 1 <= i < e;
        } else if i == e {
          assert s[i] == CLOSE;
        }
      }
    }
    assert s[e0 + 1] != '\n';
    assert NoNewline(s, e0 + 2, k);
  }

  /** extract_member_info: the stripped group and name, or nothing when the title does not match. */
  function ExtractMemberInfo(title: string): (r: Option<(string, string)>)
    ensures r.Some? <==> MatchTitle(title).Some?
  {
    var m := MatchTitle(title);
    if m.None? then None
    else Some(StrippedGroups(title, m.value.0, m.value.1))
  }

  /** The two groups of a match, stripped. */
  function StrippedGroups(title: string, e: nat, k: nat): (string, string)
    requires e + 1 <= k <= |title| && 1 <= e
  {
    (Strip(title[1..e]), Strip(title[e + 1..k]))
  }

  /**
    extract_member_info returns the stripped groups of the leftmost-shortest
    match when there is one, and nothing when no match exists.
   */
  lemma ExtractMemberInfoMeaning(title: string)
    ensures ExtractMemberInfo(title).Some? ==> exists e, k :: (Matches(title, e, k)
      && ExtractMemberInfo(title).value == (Strip(title[1..e]), Strip(title[e + 1..k]))
      && forall e', k' | Matches(title, e', k') :: e <= e' && (e' == e ==> k <= k'))
    ensures ExtractMemberInfo(title).None? ==> forall e, k :: !Matches(title, e, k)
  {
    MatchTitleIsLazyMatch(title);
    if ExtractMemberInfo(title).Some? {
      var (e, k) := MatchTitle(title).value;
      assert ExtractMemberInfo(title).value == StrippedGroups(title, e, k);
    }
  }

  /** The concrete title used below: `【Z1】 山田 トークイベント 鍵〆`. */
  const EXAMPLE_TITLE: string := "\U{3010}Z1\U{3011} \U{5C71}\U{7530} " + EVENT + " \U{9375}\U{3006}"

  /** In the example title, group 1 ends at the '】' at 3 and the tail starts at the space at 7. */
  lemma ExampleMatch()
    ensures MatchTitle(EXAMPLE_TITLE) == Some((3, 7))
  {
    var s := EXAMPLE_TITLE;
    assert CloseFrom(s, 3) == Some(3);
    assert CloseFrom(s, 1) == Some(3);
    assert SpaceEnd(s, 7) == 8;
    assert s[8..][..7] == EVENT;
    assert TailAt(s, 7);
    assert !TailAt(s, 5) && !TailAt(s, 6);
    assert TailFrom(s, 5) == Some(7);
  }

  /** `" 山田".strip()` is "山田". */
  lemma ExampleStrip()
    ensures Strip(" \U{5C71}\U{7530}") == "\U{5C71}\U{7530}"
  {
    var name := "\U{5C71}\U{7530}";
    var padded := " \U{5C71}\U{7530}";
    assert IsSpace(padded[0]) && !IsSpace(padded[1]) && !IsSpace(padded[2]);
    assert SkipSpace(padded, 0) == SkipSpace(padded, 1) == 1;
    assert SkipSpaceBack(padded, 1, 3) == 3;
    assert padded[1..3] == name;
  }

  /** The groups at those positions, stripped. */
  lemma ExampleGroups()
    ensures StrippedGroups(EXAMPLE_TITLE, 3, 7) == ("Z1", "\U{5C71}\U{7530}")
  {
    var s := EXAMPLE_TITLE;
    assert s[1..3] == "Z1";
    assert s[4..7] == " \U{5C71}\U{7530}";
    ExampleStrip();
    assert Strip("Z1") == "Z1" by {
      assert !IsSpace('Z') && !IsSpace('1');
    }
  }

  /** The example title gives group "Z1" and name "山田". */
  lemma ExtractExample()
    ensures ExtractMemberInfo(EXAMPLE_TITLE) == Some(("Z1", "\U{5C71}\U{7530}"))
  {
    ExampleMatch();
    ExampleGroups();
  }

  /** A title that does not start with '【' never matches. */
  lemma ExtractIsAnchored(title: string)
    requires title == [] || title[0] != OPEN
    ensures ExtractMemberInfo(title) == None
  {
  }

  // ---------------------------------------------------------------------------
  // Grouping rows by member

  /** One input row of item.csv. */
  datatype TitleRow = TitleRow(title: string, url: string)

  /** A member's record: group, one-hour URL and 15-minute URL ("" when unset). */
  datatype MemberUrls = MemberUrls(group: string, url1Hour: string, url15Min: string)

  const NO_URLS: MemberUrls := MemberUrls("", "", "")

  /** "鍵〆": the marker of a one-hour pack. */
  const LOCKED_PACK: string := "\U{9375}\U{3006}"

  /**
    What the reading loop looks at in a row: its (group, name) when both are
    non-empty after stripping, whether its title contains "鍵〆", and its URL.
   */
  datatype ParsedRow = ParsedRow(member: Option<(string, string)>, locked: bool, url: string)

  /** The row as the loop sees it. */
  function ParseRow(row: TitleRow): (r: ParsedRow)
    ensures r.member.Some? <==> ExtractMemberInfo(row.title).Some? && ExtractMemberInfo(row.title).value.0 != "" && ExtractMemberInfo(row.title).value.1 != ""
    ensures r.member.Some? ==> r.member == ExtractMemberInfo(row.title)
    ensures r.locked <==> exists i | 0 <= i <= |row.title| :: StartsWith(row.title[i..], LOCKED_PACK)
    ensures r.url == row.url
  {
    var member := match ExtractMemberInfo(row.title)
      case None => None
      case Some((g, n)) => if g == "" || n == "" then None else Some((g, n));
    ParsedRow(member, Contains(row.title, LOCKED_PACK), row.url)
  }

  /** The names of the kept rows, in row order, repeats included. */
  function AcceptedNames(rows: seq<ParsedRow>): seq<string> {
    if rows == [] then []
    else
      var n := |rows| - 1;
      AcceptedNames(rows[..n]) + (match rows[n].member case Some((_, name)) => [name] case None => [])
  }

  /** The record one row leaves for its member. */
  function ApplyRow(info: MemberUrls, row: ParsedRow, group: string): MemberUrls {
    if row.locked then info.(group := group, url1Hour := row.url)
    else info.(group := group, url15Min := row.url)
  }

  /** A member's record after the rows, before the fallback step. */
  function InfoAfter(rows: seq<ParsedRow>, name: string): MemberUrls {
    if rows == [] then NO_URLS
    else
      var n := |rows| - 1;
      var prev := InfoAfter(rows[..n], name);
      match rows[n].member
        case Some((g, m)) => if m == name then ApplyRow(prev, rows[n], g) else prev
        case None => prev
  }
  /** The fallback step: an empty one-hour URL takes a non-empty 15-minute URL. */
  function Fallback(info: MemberUrls): (r: MemberUrls)
    ensures r.group == info.group && r.url15Min == info.url15Min
    ensures info.url1Hour != "" ==> r.url1Hour == info.url1Hour
    ensures info.url1Hour == "" ==> r.url1Hour == info.url15Min
    ensures r.url1Hour == "" <==> info.url1Hour == "" && info.url15Min == ""
  {
    if info.url1Hour == "" && info.url15Min != "" then info.(url1Hour := info.url15Min) else info
  }

  const HEADER: seq<string> := ["url_1hour", "url_15min", "name", "group"]

  /** A member's output row. */
  function OutputRow(name: string, info: MemberUrls): seq<string> {
    [info.url1Hour, info.url15Min, name, info.group]
  }

  /**
    main without the files: the header, then one row per kept member in
    first-appearance order, fields url_1hour, url_15min, name, group.
   */
  method FixMembers(titleRows: seq<TitleRow>) returns (out: seq<seq<string>>)
    ensures var rows := ParseRows(titleRows);
      && |out| == 1 + |Distinct(AcceptedNames(rows))| && out[0] == HEADER
      && forall i | 0 <= i < |Distinct(AcceptedNames(rows))| ::
        var name := Distinct(AcceptedNames(rows))[i];
        out[i + 1] == OutputRow(name, Fallback(InfoAfter(rows, name)))
  {
    out := RosterRows(ParseRows(titleRows));
  }

  /** The output rows for already parsed rows: grouping, the fallback step, then one row per member. */
  method RosterRows(rows: seq<ParsedRow>) returns (out: seq<seq<string>>)
    ensures |out| == 1 + |Distinct(AcceptedNames(rows))| && out[0] == HEADER
    ensures forall i | 0 <= i < |Distinct(AcceptedNames(rows))| ::
      var name := Distinct(AcceptedNames(rows))[i];
      out[i + 1] == OutputRow(name, Fallback(InfoAfter(rows, name)))
  {
    var members, order := GroupRows(rows);
    var fixedUp := map name | name in members :: Fallback(members[name]);
    out := [HEADER];
    var i := 0;
    while i < |order|
      invariant 0 <= i <= |order| && |out| == 1 + i && out[0] == HEADER
      invariant forall j | 0 <= j < i :: out[j + 1] == OutputRow(order[j], Fallback(InfoAfter(rows, order[j])))
    {
      var name := order[i];
      out := out + [OutputRow(name, fixedUp[name])];
      i := i + 1;
    }
  }

  /** Every row parsed, in order. */
  function ParseRows(titleRows: seq<TitleRow>): (rows: seq<ParsedRow>)
    ensures |rows| == |titleRows|
    ensures forall i | 0 <= i < |rows| :: rows[i] == ParseRow(titleRows[i])
  {
    seq(|titleRows|, i requires 0 <= i < |titleRows| => ParseRow(titleRows[i]))
  }

  /** The reading loop: each member's record, and the member order. */
  method GroupRows(rows: seq<ParsedRow>) returns (members: map<string, MemberUrls>, order: seq<string>)
    ensures order == Distinct(AcceptedNames(rows))
    ensures forall name :: name in members <==> name in AcceptedNames(rows)
    ensures forall name | name in members :: members[name] == InfoAfter(rows, name)
  {
    members := map[];
    order := [];
    var i := 0;
    while i < |rows|
      invariant 0 <= i <= |rows|
      invariant order == Distinct(AcceptedNames(rows[..i]))
      invariant members == MembersOf(rows[..i])
    {
      var row := rows[i];
      MembersOfStep(rows, i);
      if row.member.Some? {
        var name := row.member.value.1;
        // the default record of a first appearance, then this row's update
        var current := if name in members then members[name] else NO_URLS;
        if name !in members {
          order := order + [name];
        }
        members := members[name := ApplyRow(current, row, row.member.value.0)];
      }
      i := i + 1;
    }
    assert rows[..i] == rows;
    MembersOfIsInfoAfter(rows);
  }

  /** The records the reading loop holds after `rows`, built row by row. */
  function MembersOf(rows: seq<ParsedRow>): map<string, MemberUrls> {
    if rows == [] then map[]
    else
      var n := |rows| - 1;
      var prev := MembersOf(rows[..n]);
      match rows[n].member
        case Some((g, name)) => prev[name := ApplyRow(if name in prev then prev[name] else NO_URLS, rows[n], g)]
        case None => prev
  }

  /** Unfolding `MembersOf` and `Distinct` over one more row. */
  lemma MembersOfStep(rows: seq<ParsedRow>, i: nat)
    requires i < |rows|
    ensures rows[i].member.None? ==> MembersOf(rows[..i + 1]) == MembersOf(rows[..i])
    ensures rows[i].member.Some? ==>
      var name := rows[i].member.value.1;
      var prev := MembersOf(rows[..i]);
      MembersOf(rows[..i + 1]) == prev[name := ApplyRow(if name in prev then prev[name] else NO_URLS, rows[i], rows[i].member.value.0)]
    ensures rows[i].member.None? ==> Distinct(AcceptedNames(rows[..i + 1])) == Distinct(AcceptedNames(rows[..i]))
    ensures rows[i].member.Some? ==>
      var name := rows[i].member.value.1;
      Distinct(AcceptedNames(rows[..i + 1])) == Distinct(AcceptedNames(rows[..i])) + (if name in AcceptedNames(rows[..i]) then [] else [name])
    ensures forall name :: name in MembersOf(rows[..i]) <==> name in AcceptedNames(rows[..i])
  {
    var prefix, row := rows[..i], rows[i];
    assert rows[..i + 1] == prefix + [row];
    assert (prefix + [row])[..|prefix|] == prefix;
    MembersOfIsInfoAfter(prefix);
    if row.member.Some? {
      var names := AcceptedNames(prefix);
      var name := row.member.value.1;
      assert AcceptedNames(rows[..i + 1]) == names + [name];
      DistinctSnoc(names, name);
    } else {
      assert AcceptedNames(rows[..i + 1]) == AcceptedNames(prefix);
    }
  }

  /** The loop's records are the per-member reference records, for exactly the kept names. */
  lemma {:induction false} MembersOfIsInfoAfter(rows: seq<ParsedRow>)
    ensures forall name :: name in MembersOf(rows) <==> name in AcceptedNames(rows)
    ensures forall name | name in MembersOf(rows) :: MembersOf(rows)[name] == InfoAfter(rows, name)
  {
    if rows != [] {
      var n := |rows| - 1;
      MembersOfIsInfoAfter(rows[..n]);
      if rows[n].member.Some? {
        var name := rows[n].member.value.1;
        if name !in MembersOf(rows[..n]) {
          NotListedHasNoUrls(rows[..n], name);
        }
      }
    }
  }

  /** A name no kept row carries has the empty record. */
  lemma {:induction false} NotListedHasNoUrls(rows: seq<ParsedRow>, name: string)
    requires name !in AcceptedNames(rows)
    ensures InfoAfter(rows, name) == NO_URLS
  {
    if rows != [] {
      var n := |rows| - 1;
      NotListedHasNoUrls(rows[..n], name);
    }
  }

  // ---------------------------------------------------------------------------
  // What the records hold

  /** Row `i` is kept and belongs to `name`. */
  predicate RowOf(rows: seq<ParsedRow>, i: int, name: string)
    requires 0 <= i < |rows|
  {
    rows[i].member.Some? && rows[i].member.value.1 == name
  }

  /** The last kept row of a member sets the member's group. */
  lemma {:induction false} GroupIsLastRows(rows: seq<ParsedRow>, name: string, i: int)
    requires 0 <= i < |rows| && RowOf(rows, i, name)
    requires forall j | i < j < |rows| :: !RowOf(rows, j, name)
    ensures InfoAfter(rows, name).group == rows[i].member.value.0
  {
    var n := |rows| - 1;
    if i < n {
      assert !RowOf(rows, n, name);
      forall j | i < j < n ensures !RowOf(rows[..n], j, name) {
        assert rows[..n][j] == rows[j] && !RowOf(rows, j, name);
      }
      GroupIsLastRows(rows[..n], name, i);
    }
  }

  /**
    The URL of the last kept row of a member whose title does (`locked`) or
    does not contain "鍵〆" is the member's one-hour (resp. 15-minute) URL.
   */
  lemma {:induction false} UrlIsLastRows(rows: seq<ParsedRow>, name: string, i: int, locked: bool)
    requires 0 <= i < |rows| && RowOf(rows, i, name) && rows[i].locked == locked
    requires forall j | i < j < |rows| :: !(RowOf(rows, j, name) && rows[j].locked == locked)
    ensures locked ==> InfoAfter(rows, name).url1Hour == rows[i].url
    ensures !locked ==> InfoAfter(rows, name).url15Min == rows[i].url
  {
    var n := |rows| - 1;
    if i < n {
      UrlIsLastRows(rows[..n], name, i, locked);
    }
  }

  /** Without a kept "鍵〆" row (resp. other row) for a member, its one-hour (resp. 15-minute) URL stays empty. */
  lemma {:induction false} UrlUnsetWithoutRows(rows: seq<ParsedRow>, name: string, locked: bool)
    requires forall j | 0 <= j < |rows| :: !(RowOf(rows, j, name) && rows[j].locked == locked)
    ensures locked ==> InfoAfter(rows, name).url1Hour == ""
    ensures !locked ==> InfoAfter(rows, name).url15Min == ""
  {
    if rows != [] {
      var n := |rows| - 1;
      UrlUnsetWithoutRows(rows[..n], name, locked);
    }
  }

  /**
    The member order lists every kept name exactly once, each at its first
    kept row, in the order of those rows.
   */
  lemma MemberOrderIsFirstAppearance(rows: seq<ParsedRow>)
    ensures NoDuplicates(Distinct(AcceptedNames(rows)))
    ensures forall name :: name in Distinct(AcceptedNames(rows)) <==> name in AcceptedNames(rows)
    ensures IsSubsequence(Distinct(AcceptedNames(rows)), AcceptedNames(rows))
  {
    var idx := DistinctIsSubsequence(AcceptedNames(rows));
  }

  /** The names in the roster are exactly the names of the kept rows. */
  lemma {:induction false} AcceptedNamesAreRowNames(rows: seq<ParsedRow>)
    ensures forall name :: name in AcceptedNames(rows) <==> exists i :: 0 <= i < |rows| && RowOf(rows, i, name)
  {
    if rows != [] {
      var n := |rows| - 1;
      AcceptedNamesAreRowNames(rows[..n]);
      forall name ensures name in AcceptedNames(rows) <==> exists i :: 0 <= i < |rows| && RowOf(rows, i, name) {
        if name in AcceptedNames(rows[..n]) {
          var i :| 0 <= i < n && RowOf(rows[..n], i, name);
          assert RowOf(rows, i, name);
        }
        if i :| 0 <= i < |rows| && RowOf(rows, i, name) {
          if i < n {
            assert RowOf(rows[..n], i, name);
          }
        }
        if RowOf(rows, n, name) {
          assert name in AcceptedNames(rows);
        }
      }
    }
  }
}
