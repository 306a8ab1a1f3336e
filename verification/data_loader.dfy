/**
  The member roster (utils/data_loader.py): the display-name formatter, the
  CSV lines grouped by league, and the name-to-URL and name-to-league maps.
  The file is read elsewhere; here it is its sequence of lines.
 */
module DataLoader {
  import opened Wrappers
  import opened Text
  import opened Maps
  import opened Seqs

  // ---------------------------------------------------------------------------
  // Display names

  /** The HTML line break inserted into names. */
  const BREAK: string := "<br>"

  /** The ideographic (full-width) space U+3000. */
  const WIDE_SPACE: char := '\U{3000}'

  /** The class `[一-龯々]`. */
  predicate IsKanji(c: char) {
    ('\U{4E00}' <= c <= '\U{9FAF}') || c == '\U{3005}'
  }

  /** The class `[ぁ-んァ-ヶ]`. */
  predicate IsKana(c: char) {
    ('\U{3041}' <= c <= '\U{3093}') || ('\U{30A1}' <= c <= '\U{30F6}')
  }

  predicate AllKanji(s: string, lo: int, hi: int)
    requires 0 <= lo <= hi <= |s|
  {
    forall i | lo <= i < hi :: IsKanji(s[i])
  }

  predicate AllKana(s: string, lo: int, hi: int)
    requires 0 <= lo <= hi <= |s|
  {
    forall i | lo <= i < hi :: IsKana(s[i])
  }

  /** `([一-龯々]+)([ぁ-んァ-ヶ]+)` can match starting at position `p`. */
  ghost predicate MatchesAt(s: string, p: int)
    requires 0 <= p <= |s|
  {
    exists k, e | p < k < e <= |s| :: AllKanji(s, p, k) && AllKana(s, k, e)
  }

  /** The end of the longest kanji run starting at `i`. */
  function KanjiEnd(s: string, i: int): (j: int)
    requires 0 <= i <= |s|
    ensures i <= j <= |s| && AllKanji(s, i, j)
    ensures j == |s| || !IsKanji(s[j])
    decreases |s| - i
  {
    if i < |s| && IsKanji(s[i]) then KanjiEnd(s, i + 1) else i
  }

  /** The end of the longest kana run starting at `i`. */
  function KanaEnd(s: string, i: int): (j: int)
    requires 0 <= i <= |s|
    ensures i <= j <= |s| && AllKana(s, i, j)
    ensures j == |s| || !IsKana(s[j])
    decreases |s| - i
  {
    if i < |s| && IsKana(s[i]) then KanaEnd(s, i + 1) else i
  }

  /** A match at `p` exists exactly when the kanji run from `p` is non-empty and followed by kana. */
  lemma MatchAtIffRunThenKana(s: string, p: int)
    requires 0 <= p <= |s|
    ensures MatchesAt(s, p) <==> var k := KanjiEnd(s, p); p < k < |s| && IsKana(s[k])
  {
    var j := KanjiEnd(s, p);
    if MatchesAt(s, p) {
      var k, e :| p < k < e <= |s| && AllKanji(s, p, k) && AllKana(s, k, e);
      assert IsKana(s[k]) && !IsKanji(s[k]);
    }
    if p < j < |s| && IsKana(s[j]) {
      assert AllKana(s, j, j + 1);
    }
  }

  /**
    `re.search` for the pattern from position `p` on: the leftmost start, the
    greedy kanji group and the greedy kana group after it, as positions.
   */
  function Search(s: string, p: int): (r: Option<(int, int, int)>)
    requires 0 <= p <= |s|
    ensures r.None? <==> forall q | p <= q <= |s| :: !MatchesAt(s, q)
    ensures r.Some? ==> var (start, mid, end) := r.value;
      && p <= start < mid < end <= |s| && MatchesAt(s, start)
      && (forall q | p <= q < start :: !MatchesAt(s, q))
      && mid == KanjiEnd(s, start) && end == KanaEnd(s, mid)
    decreases |s| - p
  {
    MatchAtIffRunThenKana(s, p);
    var k := KanjiEnd(s, p);
    if p == |s| then
      None
    else if p < k < |s| && IsKana(s[k]) then
      Some((p, k, KanaEnd(s, k)))
    else
      Search(s, p + 1)
  }

  /**
    format_member_name: break at ASCII spaces; failing that at full-width
    spaces; failing that keep only the first kanji run followed by kana,
    broken between the two; failing that break a name longer than 4 in the
    middle.
   */
  function FormatMemberName(name: string): (r: string)
  {
    if ' ' in name then Replace(name, ' ', BREAK)
    else if WIDE_SPACE in name then Replace(name, WIDE_SPACE, BREAK)
    else
      match Search(name, 0)
      case Some((start, mid, end)) => name[start..mid] + BREAK + name[mid..end]
      case None =>
        if |name| > 4 then name[..|name| / 2] + BREAK + name[|name| / 2..] else name
  }

  /** The space cases and the fallback of the formatter, described without the procedure. */
  lemma FormatMemberNameCases(name: string)
    ensures ' ' in name ==> FormatMemberName(name) == Join(Split(name, ' '), BREAK)
    ensures ' ' !in name && WIDE_SPACE in name ==> FormatMemberName(name) == Join(Split(name, WIDE_SPACE), BREAK)
    ensures ' ' !in name && WIDE_SPACE !in name && (forall p | 0 <= p <= |name| :: !MatchesAt(name, p)) ==>
      FormatMemberName(name) == if |name| > 4 then name[..|name| / 2] + BREAK + name[|name| / 2..] else name
  {
    ReplaceIsSplitJoin(name, ' ', BREAK);
    ReplaceIsSplitJoin(name, WIDE_SPACE, BREAK);
  }

  /**
    The kanji-kana case: the result is the leftmost match's longest kanji run,
    a break, and the longest kana run after it; the rest of the name is dropped.
   */
  lemma FormatMemberNameKanjiKana(name: string) returns (start: int, mid: int, end: int)
    requires ' ' !in name && WIDE_SPACE !in name
    requires exists p | 0 <= p <= |name| :: MatchesAt(name, p)
    ensures 0 <= start < mid < end <= |name|
    ensures MatchesAt(name, start) && forall q | 0 <= q < start :: !MatchesAt(name, q)
    ensures AllKanji(name, start, mid) && (mid == |name| || !IsKanji(name[mid]))
    ensures AllKana(name, mid, end) && (end == |name| || !IsKana(name[end]))
    ensures FormatMemberName(name) == name[start..mid] + BREAK + name[mid..end]
  {
    var r := Search(name, 0);
    start, mid, end := r.value.0, r.value.1, r.value.2;
  }

  /** A long name with no space and no kanji-kana boundary is split at its middle, losing nothing. */
  lemma FormatMemberNameMiddle(name: string)
    requires ' ' !in name && WIDE_SPACE !in name && |name| > 4
    requires forall p | 0 <= p <= |name| :: !MatchesAt(name, p)
    ensures var r := FormatMemberName(name);
      |r| == |name| + 4 && r[..|name| / 2] + r[|name| / 2 + 4..] == name
  {
    var r := FormatMemberName(name);
    var h := |name| / 2;
    assert r == name[..h] + BREAK + name[h..];
    assert r[..h] == name[..h] && r[h + 4..] == name[h..];
  }

  // ---------------------------------------------------------------------------
  // Parsing the roster lines

  /** One roster entry. A URL is absent (`None`) when its field was blank. */
  datatype MemberInfo = MemberInfo(normalUrl: Option<string>, finalUrl: Option<string>, name: string)

  /** An accepted line: the member and the league it names. */
  datatype Entry = Entry(member: MemberInfo, league: string)

  /** A league list; the groups keep the order of the initial dictionary. */
  datatype Group = Group(groupName: string, members: seq<MemberInfo>)

  /** "すべて": the list of every accepted member. */
  const ALL: string := "\U{3059}\U{3079}\U{3066}"

  /** The keys of the group dictionary, in insertion order. */
  const GROUP_ORDER: seq<string> := [ALL, "Z1", "Z2", "Z3", "Z4", "Z5", "U17"]

  /** `parts[i] if parts[i].strip() else None`. */
  function NoneIfBlank(field: string): (r: Option<string>)
    ensures r.None? <==> forall i | 0 <= i < |field| :: IsSpace(field[i])
    ensures r.Some? ==> r.value == field
  {
    if Strip(field) == [] then None else Some(field)
  }

  /**
    The per-line step of parse_member_groups. A blank line, or a line with
    fewer than four comma-separated fields, is skipped. A line mentioning
    "U17" anywhere is read as `normal,_,name,_` in league U17; any other
    line as `final,normal,name,league`.
   */
  function ParseLine(line: string): Option<Entry> {
    var t := Strip(line);
    if t == [] then None
    else
      var parts := Split(t, ',');
      if |parts| < 4 then None
      else if Contains(line, "U17") then
        Some(Entry(MemberInfo(Some(parts[0]), None, parts[2]), "U17"))
      else
        Some(Entry(MemberInfo(NoneIfBlank(parts[1]), NoneIfBlank(parts[0]), parts[2]), parts[3]))
  }

  /**
    An accepted line has at least four fields and names the member by the
    third; a line mentioning "U17" gives league U17, no final URL and the
    first field, even a blank one, as the normal URL; any other line takes
    the league from the fourth field and its URLs from the first two, a blank
    field giving no URL.
   */
  lemma ParseLineShape(line: string)
    ensures ParseLine(line).Some? ==> var parts := Split(Strip(line), ',');
      var e := ParseLine(line).value;
      && |parts| >= 4 && e.member.name == parts[2]
      && (Contains(line, "U17") ==> e == Entry(MemberInfo(Some(parts[0]), None, parts[2]), "U17"))
      && (!Contains(line, "U17") ==>
            && e.league == parts[3]
            && (e.member.finalUrl.None? <==> forall i | 0 <= i < |parts[0]| :: IsSpace(parts[0][i]))
            && (e.member.normalUrl.None? <==> forall i | 0 <= i < |parts[1]| :: IsSpace(parts[1][i]))
            && (e.member.finalUrl.Some? ==> e.member.finalUrl.value == parts[0])
            && (e.member.normalUrl.Some? ==> e.member.normalUrl.value == parts[1]))
  {
  }

  /** A line is skipped exactly when it is blank or has fewer than four fields. */
  lemma ParseLineSkips(line: string)
    ensures ParseLine(line).None? <==>
      (forall i | 0 <= i < |line| :: IsSpace(line[i])) || |Split(Strip(line), ',')| < 4
  {
    var t := Strip(line);
    assert ParseLine(line).None? <==> t == [] || |Split(t, ',')| < 4;
  }

  /** The entries of the accepted lines, in file order. */
  function Entries(lines: seq<string>): seq<Entry> {
    if |lines| == 0 then []
    else
      var last := ParseLine(lines[|lines| - 1]);
      Entries(lines[..|lines| - 1]) + (if last.Some? then [last.value] else [])
  }

  /**
    What one accepted entry appends to the list `groupName`: a known league gets
    the member appended to its own list and then to "すべて".
   */
  function Appended(e: Entry, groupName: string): seq<MemberInfo> {
    if e.league in GROUP_ORDER then
      (if e.league == groupName then [e.member] else []) + (if groupName == ALL then [e.member] else [])
    else []
  }

  /** The list named `groupName` after the given entries. */
  function GroupList(entries: seq<Entry>, groupName: string): seq<MemberInfo> {
    if |entries| == 0 then []
    else GroupList(entries[..|entries| - 1], groupName) + Appended(entries[|entries| - 1], groupName)
  }

  /** `lines[1:]`: the lines after the header. */
  function AfterHeader(lines: seq<string>): seq<string> {
    if |lines| == 0 then [] else lines[1..]
  }

  /**
    parse_member_groups over the file's lines: the header line is skipped and
    every group is the list its name collects.
   */
  method ParseMemberGroups(lines: seq<string>) returns (groups: seq<Group>)
    ensures groups == GroupsOf(Entries(AfterHeader(lines)))
  {
    var lists := CollectLists(Entries(AfterHeader(lines)));
    groups := seq(|GROUP_ORDER|, g requires 0 <= g < |GROUP_ORDER| => Group(GROUP_ORDER[g], lists[g]));
  }

  /** The lists the entries produce, in the order of GROUP_ORDER. */
  function ListsOf(entries: seq<Entry>): (lists: seq<seq<MemberInfo>>)
    ensures |lists| == |GROUP_ORDER|
    ensures forall g | 0 <= g < |GROUP_ORDER| :: lists[g] == GroupList(entries, GROUP_ORDER[g])
  {
    seq(|GROUP_ORDER|, g requires 0 <= g < |GROUP_ORDER| => GroupList(entries, GROUP_ORDER[g]))
  }

  /**
    The dispatch loop of parse_member_groups over the accepted lines' entries;
    `lists[g]` is the list named `GROUP_ORDER[g]`.
   */
  method CollectLists(entries: seq<Entry>) returns (lists: seq<seq<MemberInfo>>)
    ensures lists == ListsOf(entries)
  {
    lists := [[], [], [], [], [], [], []];
    var i := 0;
    while i < |entries|
      invariant 0 <= i <= |entries|
      invariant lists == ListsOf(entries[..i])
    {
      AddEntryStep(entries[..i], entries[i]);
      assert entries[..i + 1] == entries[..i] + [entries[i]];
      lists := AddEntry(lists, entries[i]);
      i := i + 1;
    }
    assert entries[..i] == entries;
  }

  /** Adding one entry to the lists of `seen` gives the lists of `seen` and that entry. */
  lemma AddEntryStep(seen: seq<Entry>, e: Entry)
    ensures AddEntry(ListsOf(seen), e) == ListsOf(seen + [e])
  {
    GroupListStep(seen, e);
  }

  /** The group dictionary the entries produce: one list per key, in key order. */
  function GroupsOf(entries: seq<Entry>): (groups: seq<Group>)
    ensures |groups| == |GROUP_ORDER|
    ensures forall g | 0 <= g < |groups| :: groups[g] == Group(GROUP_ORDER[g], GroupList(entries, GROUP_ORDER[g]))
  {
    seq(|GROUP_ORDER|, g requires 0 <= g < |GROUP_ORDER| => Group(GROUP_ORDER[g], GroupList(entries, GROUP_ORDER[g])))
  }

  /** The position of `x` in `xs`, or `|xs|` when it is absent. */
  function IndexOf(xs: seq<string>, x: string): (k: int)
    ensures 0 <= k <= |xs|
    ensures k < |xs| ==> xs[k] == x
    ensures k == |xs| <==> x !in xs
  {
    if |xs| == 0 then 0
    else if xs[0] == x then 0
    else 1 + IndexOf(xs[1..], x)
  }

  /** The group names are pairwise different. */
  lemma GroupOrderDistinct()
    ensures forall i, j | 0 <= i < j < |GROUP_ORDER| :: GROUP_ORDER[i] != GROUP_ORDER[j]
  {
    assert |ALL| == 3 && ALL[0] != 'Z' && ALL[0] != 'U';
    assert forall i | 1 <= i < 6 :: GROUP_ORDER[i][1] == ('0' as int + i) as char;
  }

  /**
    `member_groups[league].append(m)` then `member_groups["すべて"].append(m)`,
    done only when the league is one of the dictionary's keys.
   */
  function AddEntry(lists: seq<seq<MemberInfo>>, e: Entry): (r: seq<seq<MemberInfo>>)
    requires |lists| == |GROUP_ORDER|
    ensures |r| == |GROUP_ORDER|
    ensures forall g | 0 <= g < |GROUP_ORDER| :: r[g] == lists[g] + Appended(e, GROUP_ORDER[g])
  {
    var k := IndexOf(GROUP_ORDER, e.league);
    GroupOrderDistinct();
    if k < |GROUP_ORDER| then
      var added := lists[k := lists[k] + [e.member]];
      added[0 := added[0] + [e.member]]
    else
      lists
  }

  /** One more entry extends each list by what the entry appends to it. */
  lemma GroupListStep(entries: seq<Entry>, e: Entry)
    ensures forall l :: GroupList(entries + [e], l) == GroupList(entries, l) + Appended(e, l)
  {
    assert (entries + [e])[..|entries|] == entries;
  }

  /** Every league list is a subsequence of the "すべて" list. */
  lemma {:induction false} LeagueListInAll(entries: seq<Entry>, groupName: string)
    ensures IsSubsequence(GroupList(entries, groupName), GroupList(entries, ALL))
  {
    var idx := LeagueListEmbedding(entries, groupName);
  }

  lemma {:induction false} LeagueListEmbedding(entries: seq<Entry>, groupName: string) returns (idx: seq<int>)
    ensures Embeds(idx, GroupList(entries, groupName), GroupList(entries, ALL))
  {
    if |entries| == 0 {
      return [];
    }
    var init := entries[..|entries| - 1];
    var e := entries[|entries| - 1];
    var prev := LeagueListEmbedding(init, groupName);
    var a, b := GroupList(init, groupName), GroupList(init, ALL);
    if e.league in GROUP_ORDER && e.league == groupName && groupName != ALL {
      EmbedsExtendBoth(prev, a, b, e.member, []);
      assert b + [e.member] + [] == b + Appended(e, ALL);
      idx := prev + [|b|];
    } else if groupName == ALL {
      idx := seq(|GroupList(entries, ALL)|, i => i);
    } else {
      EmbedsExtendRight(prev, a, b, Appended(e, ALL));
      idx := prev;
    }
  }

  /** A league list holds only members of lines that named that league. */
  lemma {:induction false} LeagueListMembers(entries: seq<Entry>, groupName: string, m: MemberInfo)
    requires groupName != ALL && m in GroupList(entries, groupName)
    ensures exists i | 0 <= i < |entries| :: entries[i] == Entry(m, groupName)
  {
    var init := entries[..|entries| - 1];
    var e := entries[|entries| - 1];
    if m in GroupList(init, groupName) {
      LeagueListMembers(init, groupName, m);
      var i :| 0 <= i < |init| && init[i] == Entry(m, groupName);
      assert entries[i] == init[i];
    } else {
      assert entries[|entries| - 1] == Entry(m, groupName);
    }
  }

  // ---------------------------------------------------------------------------
  // Lookup maps

  /** The members of one group, each paired with the group's name. */
  function Tag(groupName: string, members: seq<MemberInfo>): (r: seq<(string, MemberInfo)>)
    ensures |r| == |members|
    ensures forall j | 0 <= j < |r| :: r[j] == (groupName, members[j])
  {
    seq(|members|, j requires 0 <= j < |members| => (groupName, members[j]))
  }

  /** Every (group name, member) pair of the groups, group by group, in list order. */
  function Flatten(groups: seq<Group>): (r: seq<(string, MemberInfo)>)
    ensures forall pair :: pair in r <==> exists g | 0 <= g < |groups| :: InGroup(groups[g], pair)
  {
    if |groups| == 0 then []
    else
      var last := groups[|groups| - 1];
      var init := Flatten(groups[..|groups| - 1]);
      var tail := Tag(last.groupName, last.members);
      FlattenStep(groups, groups[..|groups| - 1], init, tail);
      init + tail
  }

  predicate InGroup(group: Group, pair: (string, MemberInfo)) {
    pair.0 == group.groupName && pair.1 in group.members
  }

  lemma FlattenStep(groups: seq<Group>, prefix: seq<Group>, init: seq<(string, MemberInfo)>, tail: seq<(string, MemberInfo)>)
    requires |groups| > 0 && prefix == groups[..|groups| - 1]
    requires forall pair :: pair in init <==> exists g | 0 <= g < |prefix| :: InGroup(prefix[g], pair)
    requires tail == Tag(groups[|groups| - 1].groupName, groups[|groups| - 1].members)
    ensures forall pair :: pair in init + tail <==> exists g | 0 <= g < |groups| :: InGroup(groups[g], pair)
  {
    var n := |groups|;
    forall pair
      ensures pair in init + tail <==> exists g | 0 <= g < n :: InGroup(groups[g], pair)
    {
      if pair in tail {
        var j :| 0 <= j < |tail| && tail[j] == pair;
        assert InGroup(groups[n - 1], pair);
      }
      if pair in init {
        var g :| 0 <= g < n - 1 && InGroup(prefix[g], pair);
        assert InGroup(groups[g], pair);
      }
      if exists g | 0 <= g < n :: InGroup(groups[g], pair) {
        var g :| 0 <= g < n && InGroup(groups[g], pair);
        if g < n - 1 {
          assert InGroup(prefix[g], pair);
        } else {
          var j :| 0 <= j < |groups[g].members| && groups[g].members[j] == pair.1;
          assert tail[j] == pair;
        }
      }
    }
  }

  /** The URLs stored for a name: `{"normal": ..., "final": ...}`. */
  datatype Urls = Urls(normal: Option<string>, final: Option<string>)

  /** The names listed anywhere in the groups. */
  function ListedNames(groups: seq<Group>): set<string> {
    set pair | pair in Flatten(groups) :: pair.1.name
  }

  /** The assignments create_member_url_map performs. */
  function UrlEntries(flat: seq<(string, MemberInfo)>): (entries: seq<Option<(string, Urls)>>)
    ensures |entries| == |flat|
    ensures forall i | 0 <= i < |flat| :: entries[i] == Some((flat[i].1.name, Urls(flat[i].1.normalUrl, flat[i].1.finalUrl)))
  {
    seq(|flat|, i requires 0 <= i < |flat| => Some((flat[i].1.name, Urls(flat[i].1.normalUrl, flat[i].1.finalUrl))))
  }

  lemma UrlEntriesKeys(flat: seq<(string, MemberInfo)>)
    ensures KeysOf(UrlEntries(flat)) == set pair | pair in flat :: pair.1.name
  {
    var entries := UrlEntries(flat);
    forall k | k in set pair | pair in flat :: pair.1.name
      ensures k in KeysOf(entries)
    {
      var pair :| pair in flat && pair.1.name == k;
      var i :| 0 <= i < |flat| && flat[i] == pair;
      assert entries[i].Some? && entries[i].value.0 == k;
    }
  }

  /**
    create_member_url_map: every listed name maps to its URLs, and a name
    listed more than once keeps the URLs of its last listing.
   */
  function CreateMemberUrlMap(groups: seq<Group>): (r: map<string, Urls>)
    ensures r.Keys == ListedNames(groups)
    ensures var flat := Flatten(groups);
      forall i | 0 <= i < |flat| && (forall j | i < j < |flat| :: flat[j].1.name != flat[i].1.name) ::
        r[flat[i].1.name] == Urls(flat[i].1.normalUrl, flat[i].1.finalUrl)
  {
    var flat := Flatten(groups);
    UrlEntriesKeys(flat);
    UrlLastWins(flat);
    Collect(UrlEntries(flat))
  }

  lemma UrlLastWins(flat: seq<(string, MemberInfo)>)
    ensures var r := Collect(UrlEntries(flat));
      forall i | 0 <= i < |flat| && (forall j | i < j < |flat| :: flat[j].1.name != flat[i].1.name) ::
        flat[i].1.name in r && r[flat[i].1.name] == Urls(flat[i].1.normalUrl, flat[i].1.finalUrl)
  {
    var entries := UrlEntries(flat);
    forall i | 0 <= i < |flat| && (forall j | i < j < |flat| :: flat[j].1.name != flat[i].1.name)
      ensures flat[i].1.name in KeysOf(entries) && LastFor(entries, i)
    {
      assert entries[i].Some? && entries[i].value.0 == flat[i].1.name;
    }
  }

  /** The names listed in the real leagues, that is in every group except "すべて". */
  function LeagueNames(groups: seq<Group>): set<string> {
    set pair | pair in Flatten(groups) && pair.0 != ALL :: pair.1.name
  }

  /** The assignments create_member_group_map performs; "すべて" entries perform none. */
  function LeagueEntries(flat: seq<(string, MemberInfo)>): (entries: seq<Option<(string, string)>>)
    ensures |entries| == |flat|
    ensures forall i | 0 <= i < |flat| :: entries[i] == if flat[i].0 != ALL then Some((flat[i].1.name, flat[i].0)) else None
  {
    seq(|flat|, i requires 0 <= i < |flat| => if flat[i].0 != ALL then Some((flat[i].1.name, flat[i].0)) else None)
  }

  lemma LeagueEntriesKeys(flat: seq<(string, MemberInfo)>)
    ensures KeysOf(LeagueEntries(flat)) == set pair | pair in flat && pair.0 != ALL :: pair.1.name
  {
    var entries := LeagueEntries(flat);
    forall k | k in set pair | pair in flat && pair.0 != ALL :: pair.1.name
      ensures k in KeysOf(entries)
    {
      var pair :| pair in flat && pair.0 != ALL && pair.1.name == k;
      var i :| 0 <= i < |flat| && flat[i] == pair;
      assert entries[i].Some? && entries[i].value.0 == k;
    }
  }

  lemma LeagueLastWins(flat: seq<(string, MemberInfo)>)
    ensures var r := Collect(LeagueEntries(flat));
      forall i | 0 <= i < |flat| && flat[i].0 != ALL &&
                 (forall j | i < j < |flat| && flat[j].0 != ALL :: flat[j].1.name != flat[i].1.name) ::
        flat[i].1.name in r && r[flat[i].1.name] == flat[i].0
  {
    var entries := LeagueEntries(flat);
    forall i | 0 <= i < |flat| && flat[i].0 != ALL &&
               (forall j | i < j < |flat| && flat[j].0 != ALL :: flat[j].1.name != flat[i].1.name)
      ensures flat[i].1.name in KeysOf(entries) && LastFor(entries, i)
    {
      assert entries[i].Some? && entries[i].value.0 == flat[i].1.name;
    }
  }

  /** Every value of the league map is the name of a group of `flat` other than "すべて". */
  lemma LeagueValues(flat: seq<(string, MemberInfo)>)
    ensures var r := Collect(LeagueEntries(flat));
      forall name | name in r :: r[name] != ALL && exists i | 0 <= i < |flat| :: flat[i].0 == r[name]
  {
    var entries := LeagueEntries(flat);
    var r := Collect(entries);
    forall name | name in r
      ensures r[name] != ALL && exists i | 0 <= i < |flat| :: flat[i].0 == r[name]
    {
      var i :| 0 <= i < |entries| && entries[i].Some? && entries[i].value.0 == name;
      LastAssignmentExists(entries, i);
      var j :| i <= j < |entries| && entries[j].Some? && entries[j].value.0 == name && LastFor(entries, j);
      assert r[name] == flat[j].0;
    }
  }

  /**
    create_member_group_map: the "すべて" group is skipped, so every name
    maps to a real league, and a name in several groups keeps the last.
   */
  function CreateMemberGroupMap(groups: seq<Group>): (r: map<string, string>)
    ensures r.Keys == LeagueNames(groups)
    ensures forall name | name in r :: r[name] != ALL
    ensures forall name | name in r :: exists g | 0 <= g < |groups| :: groups[g].groupName == r[name]
    ensures var flat := Flatten(groups);
      forall i | 0 <= i < |flat| && flat[i].0 != ALL &&
                 (forall j | i < j < |flat| && flat[j].0 != ALL :: flat[j].1.name != flat[i].1.name) ::
        r[flat[i].1.name] == flat[i].0
  {
    var flat := Flatten(groups);
    LeagueEntriesKeys(flat);
    LeagueLastWins(flat);
    LeagueValues(flat);
    FlatNamesAreGroupNames(groups, flat);
    Collect(LeagueEntries(flat))
  }

  /** Every group name in the flattened pairs is the name of one of the groups. */
  lemma FlatNamesAreGroupNames(groups: seq<Group>, flat: seq<(string, MemberInfo)>)
    requires flat == Flatten(groups)
    ensures forall i | 0 <= i < |flat| :: exists g | 0 <= g < |groups| :: groups[g].groupName == flat[i].0
  {
    forall i | 0 <= i < |flat|
      ensures exists g | 0 <= g < |groups| :: groups[g].groupName == flat[i].0
    {
      assert flat[i] in flat;
      var g :| 0 <= g < |groups| && InGroup(groups[g], flat[i]);
    }
  }
}
