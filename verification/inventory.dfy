/**
  Inventory normalisation and aggregates (utils/inventory.py).

  A member's inventory is a map from slot label to status mark. Pages are
  fetched per member; the part of a page that matters is its list of
  variation items, each with an optional name node and an optional stock
  node, already reduced to their text.
 */
module Inventory {
  import opened Wrappers
  import opened Text
  import opened Marks
  import opened Maps
  import opened TimeUtils

  /** Slot label to status mark, for one member. */
  type Slots = map<string, string>

  // ---------------------------------------------------------------------------
  // One page

  /** "在庫なし" (out of stock). */
  const NO_STOCK_TEXT: string := "\U{5728}\U{5EAB}\U{306A}\U{3057}"
  /** "残り1点" (one left). */
  const ONE_LEFT_TEXT: string := "\U{6B8B}\U{308A}1\U{70B9}"

  /** The three marks a page can produce. */
  predicate IsPageStatus(status: string) {
    status == SOLD_OUT || status == LAST_ONE || status == PLENTY
  }

  /** The stock text of one variation, reduced to a mark; the out-of-stock test comes first. */
  function StockStatus(stockText: string): (status: string)
    ensures IsPageStatus(status)
  {
    if Contains(stockText, NO_STOCK_TEXT) then SOLD_OUT
    else if Contains(stockText, ONE_LEFT_TEXT) then LAST_ONE
    else PLENTY
  }

  /** Each mark is produced by exactly one condition on the text. */
  lemma StockStatusCases(stockText: string)
    ensures StockStatus(stockText) == SOLD_OUT <==> Contains(stockText, NO_STOCK_TEXT)
    ensures StockStatus(stockText) == LAST_ONE <==>
      !Contains(stockText, NO_STOCK_TEXT) && Contains(stockText, ONE_LEFT_TEXT)
    ensures StockStatus(stockText) == PLENTY <==>
      !Contains(stockText, NO_STOCK_TEXT) && !Contains(stockText, ONE_LEFT_TEXT)
  {
    assert SOLD_OUT != LAST_ONE && SOLD_OUT != PLENTY && LAST_ONE != PLENTY by {
      assert SOLD_OUT[0] != LAST_ONE[0] && SOLD_OUT[0] != PLENTY[0] && LAST_ONE[0] != PLENTY[0];
    }
  }

  /** A text mentioning both "在庫なし" and "残り1点" is sold out. */
  lemma OutOfStockTakesPrecedence(stockText: string)
    requires Contains(stockText, NO_STOCK_TEXT) && Contains(stockText, ONE_LEFT_TEXT)
    ensures StockStatus(stockText) == SOLD_OUT
  {
  }

  /** A variation item: its name node's text and its stock node's text, when the node exists. */
  datatype VariationItem = VariationItem(name: Option<string>, stock: Option<string>)

  /** The outcome of one request: an exception, or a status code with the page's variation items. */
  datatype Response = Failed | Response(status: int, items: seq<VariationItem>)

  predicate Complete(item: VariationItem) {
    item.name.Some? && item.stock.Some?
  }

  /** The assignment one item performs, if it has both nodes. */
  function ItemEntry(item: VariationItem): Option<(string, string)> {
    if Complete(item) then Some((Strip(item.name.value), StockStatus(Strip(item.stock.value)))) else None
  }

  /** No later complete item has the same stripped name as item `i`. */
  predicate LastItemFor(items: seq<VariationItem>, i: int)
    requires 0 <= i < |items| && Complete(items[i])
  {
    forall j | i < j < |items| && Complete(items[j]) :: Strip(items[j].name.value) != Strip(items[i].name.value)
  }

  /**
    The slot map of one page: the keys are exactly the stripped names of the
    complete items, and a name repeated on the page takes the status of its
    last item.
   */
  function ParsePage(items: seq<VariationItem>): (r: Slots)
    ensures r.Keys == set i | 0 <= i < |items| && Complete(items[i]) :: Strip(items[i].name.value)
    ensures forall i | 0 <= i < |items| && Complete(items[i]) && LastItemFor(items, i) ::
      r[Strip(items[i].name.value)] == StockStatus(Strip(items[i].stock.value))
    ensures forall k | k in r :: IsPageStatus(r[k])
  {
    var entries := PageEntries(items);
    var r := Collect(entries);
    PageKeys(items);
    PageLastWins(items, r);
    PageStatuses(entries, r);
    r
  }

  /** The assignments the loop over a page's items performs. */
  function PageEntries(items: seq<VariationItem>): (entries: seq<Option<(string, string)>>)
    ensures |entries| == |items|
    ensures forall i | 0 <= i < |items| :: entries[i] == ItemEntry(items[i])
  {
    seq(|items|, i requires 0 <= i < |items| => ItemEntry(items[i]))
  }

  lemma PageKeys(items: seq<VariationItem>)
    ensures KeysOf(PageEntries(items)) == set i | 0 <= i < |items| && Complete(items[i]) :: Strip(items[i].name.value)
  {
    var entries := PageEntries(items);
    forall k | k in KeysOf(entries)
      ensures k in set i | 0 <= i < |items| && Complete(items[i]) :: Strip(items[i].name.value)
    {
      var i :| 0 <= i < |entries| && entries[i].Some? && entries[i].value.0 == k;
      assert Complete(items[i]);
    }
  }

  lemma PageLastWins(items: seq<VariationItem>, r: Slots)
    requires r == Collect(PageEntries(items))
    ensures forall i | 0 <= i < |items| && Complete(items[i]) && LastItemFor(items, i) ::
      Strip(items[i].name.value) in r && r[Strip(items[i].name.value)] == StockStatus(Strip(items[i].stock.value))
  {
    var entries := PageEntries(items);
    forall i | 0 <= i < |items| && Complete(items[i]) && LastItemFor(items, i)
      ensures Strip(items[i].name.value) in r && r[Strip(items[i].name.value)] == StockStatus(Strip(items[i].stock.value))
    {
      assert entries[i].Some? && entries[i].value.0 in KeysOf(entries);
      assert LastFor(entries, i);
    }
  }

  /** Every value of a collected map is a value some assignment wrote. */
  lemma PageStatuses(entries: seq<Option<(string, string)>>, r: Slots)
    requires r == Collect(entries)
    requires forall i | 0 <= i < |entries| && entries[i].Some? :: IsPageStatus(entries[i].value.1)
    ensures forall k | k in r :: IsPageStatus(r[k])
  {
    forall k | k in r
      ensures IsPageStatus(r[k])
    {
      var i :| 0 <= i < |entries| && entries[i].Some? && entries[i].value.0 == k;
      LastAssignmentExists(entries, i);
      var j :| i <= j < |entries| && entries[j].Some? && entries[j].value.0 == k && LastFor(entries, j);
    }
  }

  /** get_inventory_status: a failed request or a status other than 200 gives the empty map. */
  function GetInventoryStatus(response: Response): (r: Slots)
    ensures response.Failed? || response.status != 200 ==> r == map[]
    ensures response.Response? && response.status == 200 ==>
      r.Keys == set i | 0 <= i < |response.items| && Complete(response.items[i]) :: Strip(response.items[i].name.value)
    ensures forall k | k in r :: IsPageStatus(r[k])
    ensures response.Response? && response.status == 200 ==> r == ParsePage(response.items)
  {
    if response.Response? && response.status == 200 then ParsePage(response.items) else map[]
  }

  // ---------------------------------------------------------------------------
  // Fetching in chunks

  /** How many requests run together. */
  const CHUNK_SIZE: nat := 55

  function Min(a: int, b: int): int {
    if a <= b then a else b
  }

  /** Entry `i` of the result list was stored under `names[i]` and no later stored entry has that name. */
  predicate LastNameFor(names: seq<string>, count: nat, i: int)
    requires 0 <= i < count <= |names|
  {
    forall j | i < j < count :: names[j] != names[i]
  }

  /**
    The merge step of get_inventory_with_progress: result `i` is stored under
    `names[i]` for every index both lists have, so results past the end of the
    name list are dropped and a repeated name keeps its last result.
   */
  function MergeByName(names: seq<string>, results: seq<Slots>): (r: map<string, Slots>)
    ensures r.Keys == set i | 0 <= i < Min(|names|, |results|) :: names[i]
    ensures forall i | 0 <= i < Min(|names|, |results|) && LastNameFor(names, Min(|names|, |results|), i) ::
      r[names[i]] == results[i]
  {
    var n := Min(|names|, |results|);
    var entries := seq(n, i requires 0 <= i < n => Some((names[i], results[i])));
    var r := Collect(entries);
    assert KeysOf(entries) == set i | 0 <= i < n :: names[i] by {
      forall k | k in KeysOf(entries) ensures k in set i | 0 <= i < n :: names[i] {
        var i :| 0 <= i < n && entries[i].Some? && entries[i].value.0 == k;
      }
      forall k | k in set i | 0 <= i < n :: names[i] ensures k in KeysOf(entries) {
        var i :| 0 <= i < n && names[i] == k;
        assert entries[i].Some? && entries[i].value.0 == k;
      }
    }
    forall i | 0 <= i < n && LastNameFor(names, n, i)
      ensures r[names[i]] == results[i]
    {
      assert LastFor(entries, i);
    }
    r
  }

  /** One request per URL, in order (the `asyncio.gather` of one chunk). */
  function FetchAll(urls: seq<string>, fetch: string -> Response): (r: seq<Slots>)
    ensures |r| == |urls|
    ensures forall j | 0 <= j < |urls| :: r[j] == GetInventoryStatus(fetch(urls[j]))
  {
    seq(|urls|, j requires 0 <= j < |urls| => GetInventoryStatus(fetch(urls[j])))
  }

  /** `results.extend(chunk_results)` keeps results aligned with the URLs taken so far. */
  lemma AppendFetched(urls: seq<string>, fetch: string -> Response, results: seq<Slots>, start: nat,
                      chunkResults: seq<Slots>)
    requires |results| == start <= |urls| && start + |chunkResults| <= |urls|
    requires forall i | 0 <= i < start :: results[i] == GetInventoryStatus(fetch(urls[i]))
    requires forall j | 0 <= j < |chunkResults| :: chunkResults[j] == GetInventoryStatus(fetch(urls[start + j]))
    ensures forall i | 0 <= i < start + |chunkResults| ::
      (results + chunkResults)[i] == GetInventoryStatus(fetch(urls[i]))
  {
    forall i | 0 <= i < start + |chunkResults|
      ensures (results + chunkResults)[i] == GetInventoryStatus(fetch(urls[i]))
    {
      if i >= start {
        assert (results + chunkResults)[i] == chunkResults[i - start];
      }
    }
  }

  /**
    get_inventory_with_progress with `fetch` standing for one request. The
    URLs are taken in consecutive chunks of CHUNK_SIZE; `progress` records the
    completed count after each chunk. The results line up index for index with
    `urls`, and the inventory is their merge under the member names.
   */
  method GetInventoryWithProgress(urls: seq<string>, memberNames: seq<string>, fetch: string -> Response)
    returns (inventory: map<string, Slots>, results: seq<Slots>, progress: seq<nat>)
    ensures |results| == |urls|
    ensures forall i | 0 <= i < |urls| :: results[i] == GetInventoryStatus(fetch(urls[i]))
    ensures forall k | 0 <= k < |progress| :: progress[k] == Min(|urls|, CHUNK_SIZE * (k + 1))
    ensures forall k | 0 < k < |progress| :: progress[k - 1] < progress[k]
    ensures |urls| == 0 <==> |progress| == 0
    ensures |urls| > 0 ==> progress[|progress| - 1] == |urls| && CHUNK_SIZE * (|progress| - 1) < |urls|
    ensures inventory.Keys == set i | 0 <= i < Min(|memberNames|, |urls|) :: memberNames[i]
    ensures forall i | 0 <= i < Min(|memberNames|, |urls|) && LastNameFor(memberNames, Min(|memberNames|, |urls|), i) ::
      inventory[memberNames[i]] == GetInventoryStatus(fetch(urls[i]))
  {
    var total := |urls|;
    var completed := 0;
    results := [];
    progress := [];
    var start := 0;
    while start < total
      invariant start == CHUNK_SIZE * |progress|
      invariant completed == Min(total, start)
      invariant |results| == completed
      invariant forall i | 0 <= i < completed :: results[i] == GetInventoryStatus(fetch(urls[i]))
      invariant forall k | 0 <= k < |progress| :: progress[k] == Min(total, CHUNK_SIZE * (k + 1))
      invariant forall k | 0 < k < |progress| :: progress[k - 1] < progress[k]
      invariant |progress| > 0 ==> start - CHUNK_SIZE < total && progress[|progress| - 1] == completed
    {
      var chunkUrls := urls[start..Min(start + CHUNK_SIZE, total)];
      var chunkResults := FetchAll(chunkUrls, fetch);
      AppendFetched(urls, fetch, results, start, chunkResults);
      results := results + chunkResults;
      completed := completed + |chunkUrls|;
      progress := progress + [completed];
      start := start + CHUNK_SIZE;
    }
    inventory := MergeByName(memberNames, results);
  }

  // ---------------------------------------------------------------------------
  // Sold-out counts per slot

  /** `member_groups_map.get(name) == "U17"`. */
  predicate IsU17(groups: map<string, string>, name: string) {
    name in groups && groups[name] == "U17"
  }

  /** The member's map holds SOLD_OUT for `slot`. */
  predicate SoldOutIn(data: Slots, slot: string) {
    slot in data && data[slot] == SOLD_OUT
  }

  /**
    Whether a member counts towards `slot`'s sold-out total: a SOLD_OUT mark,
    and for an early slot also either the U17 league or a member whose regular
    slots are all sold out.
   */
  predicate CountsAsSoldOut(inventory: map<string, Slots>, sortedTimeSlots: seq<string>,
                            groups: map<string, string>, slot: string, name: string)
    requires name in inventory
  {
    && SoldOutIn(inventory[name], slot)
    && (!IsEarlyTimeSlot(slot) || IsU17(groups, name) || RegularSlotsSoldOut(inventory[name], sortedTimeSlots))
  }

  /** The members counted for `slot`. */
  function SoldOutMembers(inventory: map<string, Slots>, sortedTimeSlots: seq<string>,
                          groups: map<string, string>, slot: string): set<string>
  {
    set name | name in inventory && CountsAsSoldOut(inventory, sortedTimeSlots, groups, slot, name)
  }

  /** The members whose map holds SOLD_OUT for `slot`, with no gating. */
  function RawSoldOutMembers(inventory: map<string, Slots>, slot: string): set<string> {
    set name | name in inventory && SoldOutIn(inventory[name], slot)
  }

  /** The elements of `s` that satisfy `p`. */
  function Filter<T>(s: set<T>, p: T -> bool): set<T> {
    set x | x in s && p(x)
  }

  /** The number of elements of `s` that satisfy `p`, counted one element at a time. */
  method CountWhere<T>(s: set<T>, p: T -> bool) returns (n: nat)
    ensures n == |Filter(s, p)|
  {
    n := 0;
    var remaining := s;
    ghost var seen: set<T> := {};
    while remaining != {}
      invariant remaining + seen == s && remaining !! seen
      invariant n == |Filter(seen, p)|
      decreases |remaining|
    {
      var x :| x in remaining;
      FilterAdd(seen, x, p);
      if p(x) {
        n := n + 1;
      }
      remaining := remaining - {x};
      seen := seen + {x};
    }
  }

  /** Adding one new element adds one to the count exactly when it satisfies `p`. */
  lemma FilterAdd<T>(seen: set<T>, x: T, p: T -> bool)
    requires x !in seen
    ensures |Filter(seen + {x}, p)| == |Filter(seen, p)| + (if p(x) then 1 else 0)
  {
    if p(x) {
      assert Filter(seen + {x}, p) == Filter(seen, p) + {x};
    } else {
      assert Filter(seen + {x}, p) == Filter(seen, p);
    }
  }

  /**
    calculate_sold_out_counts: one count per listed slot, the number of
    members that count as sold out for it.
   */
  method CalculateSoldOutCounts(inventory: map<string, Slots>, sortedTimeSlots: seq<string>,
                                groups: map<string, string>)
    returns (counts: map<string, nat>)
    ensures counts.Keys == set i | 0 <= i < |sortedTimeSlots| :: sortedTimeSlots[i]
    ensures forall slot | slot in counts :: counts[slot] == |SoldOutMembers(inventory, sortedTimeSlots, groups, slot)|
  {
    counts := map[];
    var i := 0;
    while i < |sortedTimeSlots|
      invariant 0 <= i <= |sortedTimeSlots|
      invariant counts.Keys == set j | 0 <= j < i :: sortedTimeSlots[j]
      invariant forall slot | slot in counts :: counts[slot] == |SoldOutMembers(inventory, sortedTimeSlots, groups, slot)|
    {
      var slot := sortedTimeSlots[i];
      var n := CountWhere(inventory.Keys,
        name => name in inventory && CountsAsSoldOut(inventory, sortedTimeSlots, groups, slot, name));
      assert Filter(inventory.Keys,
        name => name in inventory && CountsAsSoldOut(inventory, sortedTimeSlots, groups, slot, name))
        == SoldOutMembers(inventory, sortedTimeSlots, groups, slot);
      counts := counts[slot := n];
      i := i + 1;
    }
  }

  /** `a` has no more elements than its superset `b`. */
  lemma SubsetCardinality<T>(a: set<T>, b: set<T>)
    requires a <= b
    ensures |a| <= |b|
  {
    assert b == a + (b - a);
  }

  /** A regular (non-early) slot counts every SOLD_OUT mark. */
  lemma RegularCountIsRaw(inventory: map<string, Slots>, sortedTimeSlots: seq<string>,
                          groups: map<string, string>, slot: string)
    requires !IsEarlyTimeSlot(slot)
    ensures SoldOutMembers(inventory, sortedTimeSlots, groups, slot) == RawSoldOutMembers(inventory, slot)
  {
  }

  /** Gating can only lower a count: counted ≤ raw SOLD_OUT marks ≤ members. */
  lemma SoldOutCountBounds(inventory: map<string, Slots>, sortedTimeSlots: seq<string>,
                           groups: map<string, string>, slot: string)
    ensures |SoldOutMembers(inventory, sortedTimeSlots, groups, slot)| <= |RawSoldOutMembers(inventory, slot)|
    ensures |RawSoldOutMembers(inventory, slot)| <= |inventory|
  {
    SubsetCardinality(SoldOutMembers(inventory, sortedTimeSlots, groups, slot), RawSoldOutMembers(inventory, slot));
    SubsetCardinality(RawSoldOutMembers(inventory, slot), inventory.Keys);
  }

  /**
    For an early slot a U17 member counts on a SOLD_OUT mark alone, and any
    other member counts only when its regular slots are all sold out too.
   */
  lemma EarlySlotGating(inventory: map<string, Slots>, sortedTimeSlots: seq<string>,
                        groups: map<string, string>, slot: string, name: string)
    requires IsEarlyTimeSlot(slot) && name in inventory
    ensures IsU17(groups, name) ==>
      (name in SoldOutMembers(inventory, sortedTimeSlots, groups, slot) <==> SoldOutIn(inventory[name], slot))
    ensures !IsU17(groups, name) ==>
      (name in SoldOutMembers(inventory, sortedTimeSlots, groups, slot) <==>
        SoldOutIn(inventory[name], slot) && RegularSlotsSoldOut(inventory[name], sortedTimeSlots))
  {
  }

  // ---------------------------------------------------------------------------
  // Sales per member

  /** `inventory_data.get(name, {})`. */
  function MemberData(inventory: map<string, Slots>, name: string): Slots {
    if name in inventory then inventory[name] else map[]
  }

  /** The member's SOLD_OUT slots. */
  function SoldSlots(data: Slots): set<string> {
    set slot | slot in data && data[slot] == SOLD_OUT
  }

  /** The member's SOLD_OUT slots in the early band. */
  function EarlySoldSlots(data: Slots): set<string> {
    set slot | slot in data && data[slot] == SOLD_OUT && IsEarlyTimeSlot(slot)
  }

  /**
    The slots that count as sales for a member: every SOLD_OUT slot, except
    that a non-U17 member's early SOLD_OUT slots are skipped as locked while
    its regular slots are not all sold out.
   */
  function SalesSlots(data: Slots, isU17: bool, sortedTimeSlots: seq<string>): set<string> {
    set slot | slot in data && data[slot] == SOLD_OUT &&
      !(!isU17 && IsEarlyTimeSlot(slot) && !RegularSlotsSoldOut(data, sortedTimeSlots))
  }

  /** The count calculate_member_sales_count stores for `name`. */
  function SalesCount(inventory: map<string, Slots>, sortedTimeSlots: seq<string>,
                      groups: map<string, string>, name: string): nat
  {
    var member := MemberData(inventory, name);
    |SalesSlots(member, IsU17(groups, name), sortedTimeSlots)|
  }

  /** calculate_member_sales_count: one count per listed member. */
  method CalculateMemberSalesCount(memberNames: seq<string>, inventory: map<string, Slots>,
                                   sortedTimeSlots: seq<string>, groups: map<string, string>)
    returns (sales: map<string, nat>)
    ensures sales.Keys == set i | 0 <= i < |memberNames| :: memberNames[i]
    ensures forall name | name in sales :: sales[name] == SalesCount(inventory, sortedTimeSlots, groups, name)
  {
    sales := map[];
    var i := 0;
    while i < |memberNames|
      invariant 0 <= i <= |memberNames|
      invariant sales.Keys == set j | 0 <= j < i :: memberNames[j]
      invariant forall name | name in sales :: sales[name] == SalesCount(inventory, sortedTimeSlots, groups, name)
    {
      var name := memberNames[i];
      var member := MemberData(inventory, name);
      var isU17 := name in groups && groups[name] == "U17";
      var allRegularSold := IsAllRegularSlotsSoldOut(member, sortedTimeSlots);
      var n := CountWhere(member.Keys,
        slot => slot in member && member[slot] == SOLD_OUT && !(!isU17 && IsEarlyTimeSlot(slot) && !allRegularSold));
      assert Filter(member.Keys,
        slot => slot in member && member[slot] == SOLD_OUT && !(!isU17 && IsEarlyTimeSlot(slot) && !allRegularSold))
        == SalesSlots(member, isU17, sortedTimeSlots);
      sales := sales[name := n];
      i := i + 1;
    }
  }

  /** A member with no inventory has sold nothing. */
  lemma AbsentMemberSoldNothing(inventory: map<string, Slots>, sortedTimeSlots: seq<string>,
                                groups: map<string, string>, name: string)
    requires name !in inventory
    ensures SalesCount(inventory, sortedTimeSlots, groups, name) == 0
  {
    assert SalesSlots(map[], IsU17(groups, name), sortedTimeSlots) == {};
  }

  /**
    A U17 member, or one whose regular slots are all sold out, has every
    SOLD_OUT slot counted; any other member has its early SOLD_OUT slots
    subtracted.
   */
  lemma SalesCountCases(inventory: map<string, Slots>, sortedTimeSlots: seq<string>,
                        groups: map<string, string>, name: string)
    ensures var member := MemberData(inventory, name);
      IsU17(groups, name) || RegularSlotsSoldOut(member, sortedTimeSlots) ==>
        SalesCount(inventory, sortedTimeSlots, groups, name) == |SoldSlots(member)|
    ensures var member := MemberData(inventory, name);
      !IsU17(groups, name) && !RegularSlotsSoldOut(member, sortedTimeSlots) ==>
        SalesCount(inventory, sortedTimeSlots, groups, name) == |SoldSlots(member)| - |EarlySoldSlots(member)|
  {
    var member := MemberData(inventory, name);
    var counted := SalesSlots(member, IsU17(groups, name), sortedTimeSlots);
    if IsU17(groups, name) || RegularSlotsSoldOut(member, sortedTimeSlots) {
      assert counted == SoldSlots(member);
    } else {
      var sold, early := SoldSlots(member), EarlySoldSlots(member);
      assert counted == sold - early;
      assert early <= sold;
      assert sold == counted + early;
    }
  }
}
