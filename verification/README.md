# Talk-event ticket matrix: a Dafny model

The system tracks tickets for a talk event. Each member (a performer grouped
into a league Z1–Z5 or U17) sells talk slots labelled by time ("15:00-15:15").
For every member it fetches a page that shows each slot's stock. It reduces
the page to a status mark:
- "×": sold out;
- "⚪︎": one left;
- "◎": in stock.

It then builds a member × slot matrix from these marks, with two kinds of
count:
- for each slot, the number of members sold out in it, and a "crowded" flag
  once fifteen or more are;
- for each member, how many of their slots have sold.

The early band (15:00–18:00) is released to a non-U17 member only after all
of that member's evening slots (18:00–22:00) are gone. Until then an early "×"
is a locked slot and counts for nothing.

Small scripts build the roster the matrix reads:
- merging scraped rows that share a member name;
- splitting one-hour ("鍵〆") and 15-minute URLs per member, with a fallback;
- deduplicating scraped rows by URL.

The Dafny modules follow the program's files:

| module | file | contents |
|---|---|---|
| `TimeUtils` | time_utils.dfy | early/regular bands, the "all regular slots sold out" test, slot ordering, the deadline |
| `Inventory` | inventory.dfy | stock text → mark, a page → slot map, chunked fetching and merge by name, sold-out and sales counts |
| `UiUtils` | ui_utils.dfy | short slot label, crowd flag, status cell, the table as cell records |
| `DataLoader` | data_loader.dfy | the name formatter, roster lines → league lists, name → URLs and name → league maps |
| `CreateMemberList` | create_member_list.dfy | the `【Z1-A】name トークイベント` title search and the duplicate-name merge |
| `FixMemberList` | fix_member_list.dfy | the anchored title match and the one-hour / 15-minute grouping with fallback |
| `ScrapeZeropro` | scrape_zeropro.dfy | order-preserving URL deduplication |
| `Text`, `Maps`, `Seqs`, `Sorting`, `Wrappers`, `Marks` | text.dfy, maps.dfy, seqs.dfy, sorting.dfy, wrappers.dfy, marks.dfy | Python's `str` operations, dictionaries built by assignments, subsequences, a stable sort, optional values, the status marks |

The model represents the program's values as follows:
- Strings are `seq<char>`, one char per code point, as Python counts them.
- Dictionaries are Dafny maps. Where the program depends on a dictionary's
  insertion order, that order is kept as a separate sequence.
- A regular-expression match is a set of positions. For each pattern, one
  predicate says what a match is, and a lemma proves the matcher returns the
  match Python's backtracking engine would find (leftmost, lazy or greedy as
  written).

## Model

| member | source | states |
|---|---|---|
| TimeUtils.EarlySlotsAreQuarterHours | utils/time_utils.py:18-22 | the early list is exactly the twelve quarter-hour labels starting 15:00, 15:15, …, 17:45 |
| TimeUtils.EarlyIffQuarterHour | utils/time_utils.py:18-23 | a label is early if and only if it is one of those twelve quarter-hour labels |
| TimeUtils.EarlyLabelShape | utils/time_utils.py:18-22 | the k-th early label is "HH:MM-HH:MM" for the quarter hour starting 15 minutes × k after 15:00 |
| TimeUtils.RegularIffEveningStart | utils/time_utils.py:37 | for a label that starts with a well-formed "HH:MM", the hour-prefix test holds exactly when the start lies in 18:00–21:59 |
| TimeUtils.EarlyIsNotRegular | utils/time_utils.py:18-37 | no label is both early and regular |
| TimeUtils.IsAllRegularSlotsSoldOut | utils/time_utils.py:40-61 | the early-exit scan returns true exactly when the list names a regular slot and every regular slot it names is "×" in the member's map (a missing slot is not sold out) |
| TimeUtils.NoRegularSlotsMeansNotSoldOut | utils/time_utils.py:51-61 | with no regular label in the list the answer is false whatever the member's map holds |
| TimeUtils.SortKey | utils/time_utils.py:74-81 | a label without '-' has key 0 |
| TimeUtils.SortKeyOfFields | utils/time_utils.py:74-81 | a label "H:M-rest" is keyed by its two start fields as `int()` reads them, whatever spelling `int()` accepts |
| TimeUtils.UnderscoreHourKey | utils/time_utils.py:74-81 | example: "1_8:00-19:00" has the key of 18:00, since `int()` reads "1_8" as 18 |
| TimeUtils.SortKeyOfClockLabel | utils/time_utils.py:74-81 | the key of "HH:MM-…" is its start minute hours·60+minutes: parsing inverts formatting |
| TimeUtils.StartKeyOfClockText | utils/time_utils.py:78-80 | the start part "HH:MM" alone parses back to its minute of the day |
| TimeUtils.ClockTextSplit | utils/time_utils.py:79 | "HH:MM" splits at ':' into exactly its two zero-padded fields |
| TimeUtils.ParseTwoDigits | utils/time_utils.py:79 | `int()` of a two-digit zero-padded field is its number |
| TimeUtils.SortTimeSlots | utils/time_utils.py:64-83 | the sort fails exactly when some label's key raises; otherwise it returns a permutation of the input in non-decreasing key order |
| TimeUtils.SortTimeSlotsIdempotent | utils/time_utils.py:83 | sorting the sorted list returns the same list |
| TimeUtils.IsAfterFinalSlotDeadline | utils/time_utils.py:86-101 | corrected test: true exactly when `now` is after 2025-03-25 23:59:59 JST (Unix 1742914799) |
| TimeUtils.DeadlineIsEndOfMarch25 | utils/time_utils.py:98-101 | the corrected test is false at every second of 2025-03-25 JST and true at 2025-03-26 00:00:00 JST |
| TimeUtils.IsAfterFinalSlotDeadlineAsWritten | utils/time_utils.py:94-101 | the test as written, with the deadline carrying pytz's local-mean-time offset: true exactly when `now` is after Unix 1742913659 |
| TimeUtils.DeadlineAsWrittenFiresEarly | utils/time_utils.py:98 | at 2025-03-25 23:50:00 JST the test as written already reports the deadline passed, the corrected one does not |
| Inventory.StockStatus | utils/inventory.py:38-43 | every stock text maps to one of the three page marks |
| Inventory.StockStatusCases | utils/inventory.py:38-43 | "×" if and only if the text contains "在庫なし"; "⚪︎" if and only if it contains "残り1点" but not "在庫なし"; "◎" if and only if it contains neither |
| Inventory.OutOfStockTakesPrecedence | utils/inventory.py:38-41 | a text containing both phrases is sold out |
| Inventory.ParsePage | utils/inventory.py:30-45 | the slot map's keys are exactly the stripped names of items that have both nodes; a name repeated on the page holds the mark of its last such item; every value is a page mark |
| Inventory.GetInventoryStatus | utils/inventory.py:9-51 | a failed request or a status other than 200 gives the empty map; a 200 response gives exactly the page's slot map, so each slot holds the mark of its last item on the page |
| Inventory.MergeByName | utils/inventory.py:94-97 | keys are the names at indices both lists have; each such name holds the result at its last index, so results past the name list are dropped |
| Inventory.FetchAll | utils/inventory.py:82-83 | one result per URL of a chunk, in URL order |
| Inventory.GetInventoryWithProgress | utils/inventory.py:54-102 | chunks of 55 cover the URLs in order, so results line up index for index with the URLs; the completed count after chunk k is min(total, 55·(k+1)), strictly increasing and ending at total; the inventory is the merge by name |
| Inventory.CountWhere | utils/inventory.py:127-139 | the loop's count is the number of members satisfying the condition |
| Inventory.CalculateSoldOutCounts | utils/inventory.py:105-148 | one count per listed slot and no other keys; each count is the number of members that count as sold out for that slot |
| Inventory.RegularCountIsRaw | utils/inventory.py:140-144 | for a non-early slot every member with "×" there counts |
| Inventory.EarlySlotGating | utils/inventory.py:125-139 | for an early slot a U17 member counts on "×" alone, any other member only when its regular slots are all sold out as well |
| Inventory.SoldOutCountBounds | utils/inventory.py:125-146 | a slot's count is at most its raw "×" count, which is at most the number of members |
| Inventory.CalculateMemberSalesCount | utils/inventory.py:151-189 | one count per listed member and no other keys; each is the member's reference sales count |
| Inventory.AbsentMemberSoldNothing | utils/inventory.py:169-187 | a member absent from the inventory gets 0 |
| Inventory.SalesCountCases | utils/inventory.py:175-185 | a U17 member, or one whose regular slots are all sold out, counts every "×" slot; any other member counts its "×" slots minus its early "×" slots |
| UiUtils.FormatTimeSlotDisplay | utils/ui_utils.py:5-17 | a label without '-' is returned unchanged; otherwise the result is a shorter piece of the label without '-' |
| UiUtils.DisplayIsSortStart | utils/ui_utils.py:15-16 | the shortened label is exactly the start part the sort key is read from |
| UiUtils.DisplayOfClockLabel | utils/ui_utils.py:15-16 | "HH:MM-…" is shortened to "HH:MM" |
| UiUtils.DetermineCrowdedTimeSlots | utils/ui_utils.py:122-138 | one flag per listed slot and no other keys; a slot is crowded if and only if its count is at least 15 |
| UiUtils.CrowdBoundary | utils/ui_utils.py:136 | example: of two listed slots, the one with 14 sold out is flagged not crowded and the one with 15 crowded |
| UiUtils.StatusCellCases | utils/ui_utils.py:101-112 | class "last-one" exactly for "◎", "⚪︎" and "○", which display as "○"; "sold-out" exactly for "×"; "locked" exactly for "🔒"; no class for anything else; other statuses display unchanged |
| UiUtils.PageStatusCell | utils/ui_utils.py:101-106 | for a mark read from a page the cell is sold out exactly when the stock text contained "在庫なし", and shows "○" otherwise |
| UiUtils.MissingSlotIsBlank | utils/ui_utils.py:95-112 | a slot missing from a member's data shows as an empty cell with no class, never as sold out |
| UiUtils.HeaderCells | utils/ui_utils.py:53-70 | one header per slot in slot order, each holding the short label, the slot's count and its crowd flag; the classes are "time-header" and "sold-out-count", each followed by " crowded" exactly for a crowded slot |
| UiUtils.RowCells | utils/ui_utils.py:97-114 | one status cell per slot, in slot order, each the mapped status of that slot |
| UiUtils.GenerateTable | utils/ui_utils.py:19-120 | one header per slot in order, with the classes stated for HeaderCells; one row per filtered member in filter order, with its link, formatted name, sales count and one status cell per slot |
| DataLoader.MatchAtIffRunThenKana | utils/data_loader.py:27 | the kanji-then-kana pattern matches at a position exactly when the longest kanji run there is non-empty and followed by kana |
| DataLoader.Search | utils/data_loader.py:27 | no result exactly when the pattern matches nowhere; otherwise the leftmost match with both groups greedy |
| DataLoader.FormatMemberNameCases | utils/data_loader.py:7-36 | with an ASCII space every space becomes "<br>"; failing that every full-width space does; with no space and no kanji-kana match a name longer than 4 is broken at its middle and a shorter one is unchanged |
| DataLoader.FormatMemberNameKanjiKana | utils/data_loader.py:27-29 | in the kanji-kana case the result is the leftmost match's kanji run, "<br>", then its kana run, and the rest of the name is dropped |
| DataLoader.FormatMemberNameMiddle | utils/data_loader.py:32-34 | the middle break loses nothing: the result is four characters longer and removing the "<br>" at the middle gives the name back |
| DataLoader.NoneIfBlank | utils/data_loader.py:86-87 | a field is absent exactly when it is all whitespace, and otherwise kept as it is |
| DataLoader.ParseLineSkips | utils/data_loader.py:66-92 | a line is skipped exactly when it is blank or has fewer than four comma-separated fields |
| DataLoader.ParseLineShape | utils/data_loader.py:70-99 | a line mentioning "U17" gives league U17, no final URL and field 0 as the normal URL; any other line gives final = field 0 and normal = field 1 (blank → absent) and league = field 3; the name is field 2 |
| DataLoader.ParseMemberGroups | utils/data_loader.py:39-106 | after skipping the header, each group is the list its name collects from the accepted lines, in the dictionary's key order |
| DataLoader.CollectLists | utils/data_loader.py:65-104 | the dispatch loop produces, for every group, the list the reference definition gives |
| DataLoader.AddEntry | utils/data_loader.py:102-104 | an entry extends each list by exactly what it appends there |
| DataLoader.LeagueListInAll | utils/data_loader.py:102-104 | every league list is a subsequence of the "すべて" list |
| DataLoader.LeagueListMembers | utils/data_loader.py:102-103 | a league list holds only members of lines that named that league |
| DataLoader.Flatten | utils/data_loader.py:125-126 | a (group, member) pair is visited exactly when the member is in that group's list |
| DataLoader.CreateMemberUrlMap | utils/data_loader.py:114-132 | keys are exactly the listed names; a name listed more than once keeps the URLs of its last listing |
| DataLoader.CreateMemberGroupMap | utils/data_loader.py:135-151 | keys are exactly the names in real leagues; no name maps to "すべて"; every value is a group's name; the last listing wins |
| DataLoader.LeagueValues | utils/data_loader.py:146-149 | every value of the league map is a group other than "すべて" |
| CreateMemberList.MatchAtIsLazyMatch | create_member_list.py:28 | at a start position, a result is a match with the digit and suffix runs forced and the shortest name; no result means no match there |
| CreateMemberList.SearchFromIsLeftmost | create_member_list.py:28 | `re.search` finds the first start with a match, and finds nothing only when no start matches |
| CreateMemberList.ExtractCodeAndNameMeaning | create_member_list.py:28-31 | the code is a league letter and digits with the suffix excluded; the name lies between '】' and the first " トークイベント"; no result means the pattern occurs nowhere |
| CreateMemberList.FoundIsLeftmost | create_member_list.py:28-31 | the found match is a match, no match starts earlier, and none at the same start has a shorter name |
| CreateMemberList.ExtractExample | create_member_list.py:27-31 | "【Z1-A】白咲 ひとみ トークイベント" gives code "Z1" and name "白咲 ひとみ" |
| CreateMemberList.ExtractMembers | create_member_list.py:11-40 | at most one row per anchor, each with three fields |
| CreateMemberList.ExtractMembersEmbedding | create_member_list.py:22-37 | the rows are exactly those of the anchors whose title element matches, in anchor order: row k comes from anchor idx[k], the positions increase, and every matching anchor has its row among them |
| CreateMemberList.MatchingAnchorListed | create_member_list.py:25-32 | an anchor with a title element whose text yields (code, name) contributes the row [href, name, code] |
| CreateMemberList.ListedRowFromAnchor | create_member_list.py:25-32 | every row is [href, name, code] of some anchor with a title element whose text yields that code and name |
| CreateMemberList.ExtractMembersIsFilterMap | create_member_list.py:22-40 | the loop appends, anchor by anchor, the row each matching anchor contributes and nothing for the others |
| CreateMemberList.ExtractedCodesAreLeagueCodes | create_member_list.py:28-32 | every extracted code is a league letter ('Z' or 'U') followed by one or more digits, with no suffix |
| CreateMemberList.MergeRows | create_member_list.py:70-89 | the dictionary is the reference record map and the insertion order is the distinct names of the usable rows, in order of first appearance |
| CreateMemberList.MergeDuplicates | create_member_list.py:53-111 | an input without even a header fails; otherwise the output is the header "15min,1hour,name,league" and one row [first, second, name, code] per distinct name, in first-appearance order |
| CreateMemberList.RecordKeys | create_member_list.py:71-86 | the dictionary holds exactly the names of rows with at least three fields |
| CreateMemberList.FirstRowFixes | create_member_list.py:82-86 | the first usable row of a name fixes its first URL and code for good |
| CreateMemberList.SingleRowNoSecond | create_member_list.py:84 | a name with one usable row keeps an empty second URL |
| CreateMemberList.LastRepeatIsSecond | create_member_list.py:77-78 | with two or more rows of a name, the last row's URL is the second URL |
| CreateMemberList.NoRowNoRecord | create_member_list.py:71-89 | a name with no usable row gets no record |
| FixMemberList.MatchTitleIsLazyMatch | fix_member_list.py:8 | a result is an anchored match whose group 1 ends at the first possible '】' and whose group 2 is the shortest; no result means no match |
| FixMemberList.NoMatchPastFirstClose | fix_member_list.py:8 | any match can be moved to the first '】', so backtracking in group 1 never finds one the first '】' misses |
| FixMemberList.ExtractMemberInfoMeaning | fix_member_list.py:5-13 | the result is the two stripped groups of that match, and nothing when no match exists |
| FixMemberList.ExtractIsAnchored | fix_member_list.py:8 | a title that does not start with '【' never matches |
| FixMemberList.ExtractExample | fix_member_list.py:8-12 | "【Z1】 山田 トークイベント 鍵〆" gives group "Z1" and name "山田" |
| FixMemberList.ParseRow | fix_member_list.py:29-38 | a row is kept exactly when both stripped groups are non-empty; its "鍵〆" flag is substring containment |
| FixMemberList.GroupRows | fix_member_list.py:17-45 | the member order is the distinct kept names in first-appearance order; the records have exactly those names as keys, each equal to the per-member reference record |
| FixMemberList.GroupIsLastRows | fix_member_list.py:38-45 | the last kept row of a member sets its group |
| FixMemberList.UrlIsLastRows | fix_member_list.py:38-45 | the last "鍵〆" row of a member sets its one-hour URL and the last other row its 15-minute URL |
| FixMemberList.UrlUnsetWithoutRows | fix_member_list.py:17-45 | with no "鍵〆" row (resp. no other row) the one-hour (resp. 15-minute) URL stays empty |
| FixMemberList.NotListedHasNoUrls | fix_member_list.py:17-31 | a name with no kept row has the empty record |
| FixMemberList.MemberOrderIsFirstAppearance | fix_member_list.py:34-35 | the order lists each kept name exactly once and is a subsequence of the kept names |
| FixMemberList.Fallback | fix_member_list.py:48-50 | an empty one-hour URL takes the 15-minute URL; a set one-hour URL, the group and the 15-minute URL never change |
| FixMemberList.RosterRows | fix_member_list.py:47-65 | the header, then one row per member in order, with the one-hour URL after the fallback, the 15-minute URL, the name and the group |
| FixMemberList.FixMembers | fix_member_list.py:15-65 | over the item rows: the header, then one row per distinct kept name in first-appearance order, holding that member's last-row URLs after the fallback, the name and the last-row group |
| ScrapeZeropro.DedupKeepOrder | scrape_zeropro.py:109-117 | the loop's output is the reference result: each row that is the first carrying its non-empty url, in input order |
| ScrapeZeropro.DedupIsSubsequence | scrape_zeropro.py:109-117 | the output is a subsequence of the input |
| ScrapeZeropro.DedupUrls | scrape_zeropro.py:114-116 | every output row has a non-empty url and no two share one |
| ScrapeZeropro.DedupDropsMissingUrls | scrape_zeropro.py:113-114 | a row with a missing or empty url is never output |
| ScrapeZeropro.DedupKeepsFirst | scrape_zeropro.py:114-115 | for every non-empty url of the input, the first row carrying it is output |
| ScrapeZeropro.DedupIdempotent | scrape_zeropro.py:109-117 | deduplicating twice gives the same as once |
| Text.Strip | utils/inventory.py:35-36 | `str.strip()`: the input with whitespace removed before and after the result, and none left at either end of it; empty exactly when the input is all whitespace; an unpadded input is unchanged |
| Text.StripIsUnique | utils/inventory.py:35-36 | any text obtained by removing whitespace at both ends and leaving none at either end is the stripped text, so the contract determines the result |
| Text.StripCharacterized | utils/inventory.py:35-36 | both directions: `Strip(s) == r` exactly when `r` is `s` with only whitespace removed at the two ends and no whitespace left at either end of `r` |
| Text.StripKeepsInnerSpace | utils/inventory.py:35-36 | example: " a b " strips to "a b"; inner whitespace stays |
| Text.Split | utils/time_utils.py:77 | `str.split(c)`: one more field than separators, no field contains the separator, and joining back gives the input |
| Text.BeforeFirst | utils/ui_utils.py:16 | `split(c)[0]`: the prefix before the first separator, or the whole text when there is none |
| Text.ReplaceIsSplitJoin | utils/data_loader.py:20 | replacing every occurrence is splitting and joining with the replacement |
| Text.Contains | utils/inventory.py:38 | `sub in s` holds exactly when `sub` starts at some position |
| Text.ParseIntDigits | utils/time_utils.py:79 | `int()` of a run of ASCII digits is their decimal value |
| Text.ParseIntUnderscores | utils/time_utils.py:79 | `int()` reads "1_8" as 18 and rejects a doubled, leading or trailing '_' |
| Text.GroupedValueIsDropped | utils/time_utils.py:79 | digits grouped by '_' have the value of the digits left once every '_' is removed |
| Seqs.FilterMapEmbedding | create_member_list.py:22-32 | keeping the values a function yields along a sequence keeps exactly those values, in order, one per position where it yields one |
| Maps.Collect | utils/data_loader.py:125-130 | a dictionary built by assignments has exactly the assigned keys, each holding its last assignment's value |
| Sorting.InsertionSort | utils/time_utils.py:83 | a permutation of the input in non-decreasing key order |
| Sorting.SortKeepsSorted | utils/time_utils.py:83 | a sequence already in key order sorts to itself |
| Seqs.DistinctIsSubsequence | create_member_list.py:102 | the first-appearance order of the names is a subsequence of them, each at its first occurrence |
| Seqs.DistinctOfDistinct | create_member_list.py:102 | a sequence without repeats is its own first-appearance order |

## Left out

- HTTP, HTML and BeautifulSoup (utils/inventory.py:20-32, create_member_list.py:16-24, scrape_zeropro.py's fetch and parse): these are foreign libraries and I/O. A page is its list of variation items, and a listing is its anchors, both already reduced to text. A request is a `fetch` function parameter.
- `asyncio.gather`, `asyncio.sleep` and the Streamlit progress bar and status text (utils/inventory.py:79, 88-91, 100): the model keeps the chunk sequence and the completed counts.
- streamlit_app.py: UI and session wiring. It calls `determine_crowded_time_slots` with three arguments and imports a function ui_utils.py does not define, so every callee is modelled from its own definition.
- styles/styles.py: a CSS constant with no behaviour.
- script.py, bk/create_member.py and parse_req.py: file scraping and writing. Their one pure piece, the title pattern, is the one in create_member_list.py.
- File and CSV reading and writing, logging, and `print` in every script. Files are sequences of lines or rows. create_member_list.py's `save_to_csv` and `main` are only file plumbing.
- The exception fallbacks:
  - parse_member_groups returning empty groups (utils/data_loader.py:108-111);
  - merge_duplicates exiting on a write error (create_member_list.py:109-111).
  The only read failure modelled is a missing header line, which gives no result.
- Reading the wall clock and the time zone (utils/time_utils.py:94-95): `now` is a Unix-seconds parameter.
- The HTML text of the table: it is a list of header and row records. The `<span class="crowded-label">` wrapper is the header's crowd flag.
- `generate_table_html`'s `member_groups_map` parameter: it is never used.
- `\d` and `int()` accept only ASCII digits here. Python also accepts other Unicode decimal digits. The single '_' that `int()` allows between digits is modelled.
- The order of `list(time_slots)` for a set input: the model sorts a sequence.
- The callable parameters of `calculate_sold_out_counts` (`is_all_regular_slots_sold_out`, utils/inventory.py:105) and `calculate_member_sales_count` (`is_all_regular_slots_sold_out` and `is_early_time_slot`, utils/inventory.py:151): the model fixes them to the functions of utils/time_utils.py that the application passes, TimeUtils.RegularSlotsSoldOut (computed by TimeUtils.IsAllRegularSlotsSoldOut) and TimeUtils.IsEarlyTimeSlot.
- Sorting.InsertionSort: stability, which Python's `sorted` guarantees, is not stated. Only the permutation and the key order are proved.
- Text.ParseInt: has no contract of its own. Its behaviour is stated through ParseIntDigits, ParseIntUnderscores, GroupedValueIsDropped and ParseTwoDigits.
- DataLoader.Appended: a line whose league field is "すべて" is added to that list twice, once as its own league and once as "すべて", as the code does. The model reproduces this rather than correcting it.
- UiUtils.FormatTimeSlotDisplay: states that the result is a shorter piece of the label without '-'. The exact value is given by DisplayIsSortStart and DisplayOfClockLabel.
- CSV fields that DictReader would give as `None` (short rows in fix_member_list.py): fields are modelled as strings.
- Python's `KeyError`: `crowded_time_slots[time_slot]`, `sold_out_counts[time_slot]` and `member_sales_count[member_name]` raise on a missing key. These are preconditions of the members that read them.

## Findings

| source | as written | input that shows it | evidently intended | confidence | as-written member | corrected member |
|---|---|---|---|---|---|---|
| utils/time_utils.py:98 | `datetime(2025, 3, 25, 23, 59, 59, tzinfo=jst)` with a pytz zone gives the zone's first offset, local mean time UTC+9:19. The deadline becomes 2025-03-25 23:40:59 JST (Unix 1742913659). | `now` = 2025-03-25 23:50:00 JST: reported as past the deadline | past the deadline only after 2025-03-25 23:59:59 JST (Unix 1742914799), as the comment at line 97 says | not executed; relies on pytz's documented behaviour for `tzinfo=` | TimeUtils.IsAfterFinalSlotDeadlineAsWritten, TimeUtils.DeadlineAsWrittenFiresEarly | TimeUtils.IsAfterFinalSlotDeadline, TimeUtils.DeadlineIsEndOfMarch25 |
