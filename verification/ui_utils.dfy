/**
  Display derivations (utils/ui_utils.py): the short slot label, the crowd
  flag, the status cell, and the matrix table as records of cells rather
  than markup.
 */
module UiUtils {
  import opened Wrappers
  import opened Text
  import opened Marks
  import opened TimeUtils
  import opened Inventory
  import opened DataLoader

  // ---------------------------------------------------------------------------
  // Slot labels

  /** format_time_slot_display: the start part of a label, stripped; a label without '-' as it is. */
  function FormatTimeSlotDisplay(slot: string): (r: string)
    ensures '-' !in slot ==> r == slot
    ensures '-' in slot ==> '-' !in r && |r| < |slot| && exists lo :: InfixAt(slot, r, lo)
  {
    if '-' in slot then
      var head := BeforeFirst(slot, '-');
      var r := Strip(head);
      var lo :| InfixAt(head, r, lo);
      InfixOfPrefix(slot, head, r, lo);
      r
    else slot
  }

  /** The shortened label is exactly the part the sort key is read from. */
  lemma DisplayIsSortStart(slot: string)
    requires '-' in slot
    ensures SortKey(slot) == StartKey(FormatTimeSlotDisplay(slot))
  {
  }

  /** A well-formed label "HH:MM-..." is shortened to its start time "HH:MM". */
  lemma DisplayOfClockLabel(minute: nat, rest: string)
    requires minute < 24 * 60
    ensures FormatTimeSlotDisplay(ClockText(minute) + "-" + rest) == ClockText(minute)
  {
    var start := ClockText(minute);
    var slot := start + "-" + rest;
    assert '-' !in start by {
      assert start == TwoDigits(minute / 60) + ":" + TwoDigits(minute % 60);
    }
    BeforeFirstConcat(start, '-', rest);
    assert slot[|start|] == '-';
    assert !IsSpace(start[0]) && !IsSpace(start[|start| - 1]);
  }

  // ---------------------------------------------------------------------------
  // Crowd flag

  /** A slot is crowded once this many members are sold out in it. */
  const CROWD_THRESHOLD: int := 15

  /**
    determine_crowded_time_slots: one flag per listed slot. Every listed slot
    must have a count (the source raises otherwise).
   */
  method DetermineCrowdedTimeSlots(sortedTimeSlots: seq<string>, soldOutCounts: map<string, int>)
    returns (crowded: map<string, bool>)
    requires forall i | 0 <= i < |sortedTimeSlots| :: sortedTimeSlots[i] in soldOutCounts
    ensures crowded.Keys == set i | 0 <= i < |sortedTimeSlots| :: sortedTimeSlots[i]
    ensures forall slot | slot in crowded :: crowded[slot] <==> soldOutCounts[slot] >= CROWD_THRESHOLD
  {
    crowded := map[];
    var i := 0;
    while i < |sortedTimeSlots|
      invariant 0 <= i <= |sortedTimeSlots|
      invariant crowded.Keys == set j | 0 <= j < i :: sortedTimeSlots[j]
      invariant forall slot | slot in crowded :: slot in soldOutCounts && (crowded[slot] <==> soldOutCounts[slot] >= CROWD_THRESHOLD)
    {
      var slot := sortedTimeSlots[i];
      crowded := crowded[slot := soldOutCounts[slot] >= CROWD_THRESHOLD];
      i := i + 1;
    }
  }

  /** Fourteen sold-out members leave a slot uncrowded; fifteen make it crowded. */
  method CrowdBoundary() returns (fourteen: bool, fifteen: bool)
    ensures !fourteen && fifteen
  {
    var crowded := DetermineCrowdedTimeSlots(["19:00-19:15", "19:15-19:30"], map["19:00-19:15" := 14, "19:15-19:30" := 15]);
    assert "19:00-19:15" in crowded && "19:15-19:30" in crowded by {
      assert [ "19:00-19:15", "19:15-19:30"][0] == "19:00-19:15";
      assert [ "19:00-19:15", "19:15-19:30"][1] == "19:15-19:30";
    }
    fourteen, fifteen := crowded["19:00-19:15"], crowded["19:15-19:30"];
  }

  // ---------------------------------------------------------------------------
  // Status cells

  /** A table cell: the text shown and its CSS class ("" for none). */
  datatype Cell = Cell(text: string, cssClass: string)

  /** The status → (display symbol, class) mapping of a member's slot cell. */
  function StatusCell(status: string): (c: Cell)
  {
    if status == PLENTY || status == LAST_ONE || status == AVAILABLE then Cell(AVAILABLE, "last-one")
    else if status == SOLD_OUT then Cell(status, "sold-out")
    else if status == LOCKED then Cell(status, "locked")
    else Cell(status, "")
  }

  /** Each class is produced by exactly one set of statuses, and only the available marks change their text. */
  lemma StatusCellCases(status: string)
    ensures StatusCell(status).cssClass == "last-one" <==> status == PLENTY || status == LAST_ONE || status == AVAILABLE
    ensures StatusCell(status).cssClass == "sold-out" <==> status == SOLD_OUT
    ensures StatusCell(status).cssClass == "locked" <==> status == LOCKED
    ensures StatusCell(status).cssClass == "" <==>
      status != PLENTY && status != LAST_ONE && status != AVAILABLE && status != SOLD_OUT && status != LOCKED
    ensures StatusCell(status).cssClass == "last-one" ==> StatusCell(status).text == AVAILABLE
    ensures StatusCell(status).cssClass != "last-one" ==> StatusCell(status).text == status
  {
  }

  /**
    For the marks a page produces, the cell is sold out exactly when the stock
    text said "在庫なし", and shows the available mark otherwise.
   */
  lemma PageStatusCell(stockText: string)
    ensures var c := StatusCell(StockStatus(stockText));
      && (c.cssClass == "sold-out" <==> Contains(stockText, NO_STOCK_TEXT))
      && (c.cssClass != "sold-out" ==> c == Cell(AVAILABLE, "last-one"))
  {
    StockStatusCases(stockText);
  }

  /** `inventory_data.get(name, {}).get(slot, "")`. */
  function SlotStatus(inventory: map<string, Slots>, name: string, slot: string): string {
    if name in inventory && slot in inventory[name] then inventory[name][slot] else ""
  }

  /** A slot missing from a member's data shows as an empty, unclassed cell, never as sold out. */
  lemma MissingSlotIsBlank(inventory: map<string, Slots>, name: string, slot: string)
    requires name !in inventory || slot !in inventory[name]
    ensures StatusCell(SlotStatus(inventory, name, slot)) == Cell("", "")
    ensures StatusCell(SlotStatus(inventory, name, slot)).cssClass != "sold-out"
  {
  }

  // ---------------------------------------------------------------------------
  // The table

  /**
    A slot's header: the shortened label, whether it is crowded, its class,
    the slot's sold-out count and the class of that count.
   */
  datatype HeaderCell = HeaderCell(text: string, crowded: bool, headerClass: string, count: int, countClass: string)

  /** A member's row: the link target, the formatted name, the sales count and one cell per slot. */
  datatype MemberRow = MemberRow(link: string, displayName: string, sales: int, cells: seq<Cell>)

  datatype Table = Table(header: seq<HeaderCell>, rows: seq<MemberRow>)

  /** `member_urls.get(name, {}).get("normal", "#")`, a missing URL being written as "None". */
  function NormalLink(memberUrls: map<string, Urls>, name: string): string {
    if name !in memberUrls then "#"
    else match memberUrls[name].normal
      case Some(url) => url
      case None => "None"
  }

  /**
    `h` is the header of `slot`: the shortened label, the slot's sold-out
    count, and the crowd flag carried into both classes.
   */
  predicate IsHeaderOf(h: HeaderCell, slot: string, soldOutCounts: map<string, int>, crowdedTimeSlots: map<string, bool>)
  {
    && slot in crowdedTimeSlots && slot in soldOutCounts
    && h.text == FormatTimeSlotDisplay(slot)
    && h.count == soldOutCounts[slot]
    && (h.crowded <==> crowdedTimeSlots[slot])
    && h.headerClass == (if crowdedTimeSlots[slot] then "time-header crowded" else "time-header")
    && h.countClass == (if crowdedTimeSlots[slot] then "sold-out-count crowded" else "sold-out-count")
  }

  /**
    `row` is the row of member `name`: its link, formatted name, sales count,
    and one status cell per slot, in slot order.
   */
  predicate IsRowOf(row: MemberRow, name: string, sortedTimeSlots: seq<string>, inventory: map<string, Slots>,
                    memberUrls: map<string, Urls>, memberSalesCount: map<string, int>)
  {
    && name in memberSalesCount
    && row.link == NormalLink(memberUrls, name)
    && row.displayName == FormatMemberName(name)
    && row.sales == memberSalesCount[name]
    && |row.cells| == |sortedTimeSlots|
    && forall i | 0 <= i < |sortedTimeSlots| :: row.cells[i] == StatusCell(SlotStatus(inventory, name, sortedTimeSlots[i]))
  }

  /**
    generate_table_html as records. Every listed slot must have a crowd flag
    and a count, and every listed member a sales count (the source raises
    otherwise).
   */
  method GenerateTable(filteredMembers: seq<MemberInfo>, sortedTimeSlots: seq<string>,
                       inventory: map<string, Slots>, memberUrls: map<string, Urls>,
                       soldOutCounts: map<string, int>, crowdedTimeSlots: map<string, bool>,
                       memberSalesCount: map<string, int>)
    returns (table: Table)
    requires forall i | 0 <= i < |sortedTimeSlots| ::
      sortedTimeSlots[i] in crowdedTimeSlots && sortedTimeSlots[i] in soldOutCounts
    requires forall m | 0 <= m < |filteredMembers| :: filteredMembers[m].name in memberSalesCount
    ensures |table.header| == |sortedTimeSlots|
    ensures forall i | 0 <= i < |sortedTimeSlots| ::
      IsHeaderOf(table.header[i], sortedTimeSlots[i], soldOutCounts, crowdedTimeSlots)
    ensures |table.rows| == |filteredMembers|
    ensures forall m | 0 <= m < |filteredMembers| ::
      IsRowOf(table.rows[m], filteredMembers[m].name, sortedTimeSlots, inventory, memberUrls, memberSalesCount)
  {
    var header := HeaderCells(sortedTimeSlots, soldOutCounts, crowdedTimeSlots);
    var rows := MemberRows(filteredMembers, sortedTimeSlots, inventory, memberUrls, memberSalesCount);
    table := Table(header, rows);
  }

  /** The member rows, one per member in the given order. */
  method MemberRows(filteredMembers: seq<MemberInfo>, sortedTimeSlots: seq<string>,
                    inventory: map<string, Slots>, memberUrls: map<string, Urls>, memberSalesCount: map<string, int>)
    returns (rows: seq<MemberRow>)
    requires forall m | 0 <= m < |filteredMembers| :: filteredMembers[m].name in memberSalesCount
    ensures |rows| == |filteredMembers|
    ensures forall m | 0 <= m < |filteredMembers| ::
      IsRowOf(rows[m], filteredMembers[m].name, sortedTimeSlots, inventory, memberUrls, memberSalesCount)
  {
    rows := [];
    var m := 0;
    while m < |filteredMembers|
      invariant 0 <= m <= |filteredMembers| && |rows| == m
      invariant RowsOf(rows, filteredMembers, sortedTimeSlots, inventory, memberUrls, memberSalesCount)
    {
      var row := RowOf(filteredMembers[m].name, sortedTimeSlots, inventory, memberUrls, memberSalesCount);
      RowsOfSnoc(rows, row, filteredMembers, sortedTimeSlots, inventory, memberUrls, memberSalesCount);
      rows := rows + [row];
      m := m + 1;
    }
  }

  /** Each of `rows` is the row of the member at the same position. */
  predicate RowsOf(rows: seq<MemberRow>, members: seq<MemberInfo>, sortedTimeSlots: seq<string>,
                   inventory: map<string, Slots>, memberUrls: map<string, Urls>, memberSalesCount: map<string, int>)
  {
    && |rows| <= |members|
    && forall k | 0 <= k < |rows| ::
      IsRowOf(rows[k], members[k].name, sortedTimeSlots, inventory, memberUrls, memberSalesCount)
  }

  lemma RowsOfSnoc(rows: seq<MemberRow>, row: MemberRow, members: seq<MemberInfo>, sortedTimeSlots: seq<string>,
                   inventory: map<string, Slots>, memberUrls: map<string, Urls>, memberSalesCount: map<string, int>)
    requires |rows| < |members| && RowsOf(rows, members, sortedTimeSlots, inventory, memberUrls, memberSalesCount)
    requires IsRowOf(row, members[|rows|].name, sortedTimeSlots, inventory, memberUrls, memberSalesCount)
    ensures RowsOf(rows + [row], members, sortedTimeSlots, inventory, memberUrls, memberSalesCount)
  {
    var rows' := rows + [row];
    forall k | 0 <= k < |rows'|
      ensures IsRowOf(rows'[k], members[k].name, sortedTimeSlots, inventory, memberUrls, memberSalesCount)
    {
      if k < |rows| { assert rows'[k] == rows[k]; }
    }
  }

  /** The row of one member: link, formatted name, sales count and status cells. */
  method RowOf(name: string, sortedTimeSlots: seq<string>, inventory: map<string, Slots>,
               memberUrls: map<string, Urls>, memberSalesCount: map<string, int>)
    returns (row: MemberRow)
    requires name in memberSalesCount
    ensures IsRowOf(row, name, sortedTimeSlots, inventory, memberUrls, memberSalesCount)
  {
    var cells := RowCells(inventory, name, sortedTimeSlots);
    row := MemberRow(NormalLink(memberUrls, name), FormatMemberName(name), memberSalesCount[name], cells);
  }

  /** The header cells, one per slot in slot order. */
  method HeaderCells(sortedTimeSlots: seq<string>, soldOutCounts: map<string, int>, crowdedTimeSlots: map<string, bool>)
    returns (header: seq<HeaderCell>)
    requires forall i | 0 <= i < |sortedTimeSlots| ::
      sortedTimeSlots[i] in crowdedTimeSlots && sortedTimeSlots[i] in soldOutCounts
    ensures |header| == |sortedTimeSlots|
    ensures forall i | 0 <= i < |sortedTimeSlots| ::
      IsHeaderOf(header[i], sortedTimeSlots[i], soldOutCounts, crowdedTimeSlots)
  {
    header := [];
    var i := 0;
    while i < |sortedTimeSlots|
      invariant 0 <= i <= |sortedTimeSlots| && |header| == i
      invariant forall j | 0 <= j < i :: IsHeaderOf(header[j], sortedTimeSlots[j], soldOutCounts, crowdedTimeSlots)
    {
      var slot := sortedTimeSlots[i];
      var crowded := crowdedTimeSlots[slot];
      var headerClass := if crowded then "time-header crowded" else "time-header";
      var countClass := if crowded then "sold-out-count crowded" else "sold-out-count";
      header := header + [HeaderCell(FormatTimeSlotDisplay(slot), crowded, headerClass, soldOutCounts[slot], countClass)];
      i := i + 1;
    }
  }

  /** The status cells of one member's row, one per slot in slot order. */
  method RowCells(inventory: map<string, Slots>, name: string, sortedTimeSlots: seq<string>)
    returns (cells: seq<Cell>)
    ensures |cells| == |sortedTimeSlots|
    ensures forall j | 0 <= j < |sortedTimeSlots| :: cells[j] == StatusCell(SlotStatus(inventory, name, sortedTimeSlots[j]))
  {
    var memberData := if name in inventory then inventory[name] else map[];
    cells := [];
    var j := 0;
    while j < |sortedTimeSlots|
      invariant 0 <= j <= |sortedTimeSlots| && |cells| == j
      invariant forall k | 0 <= k < j :: cells[k] == StatusCell(SlotStatus(inventory, name, sortedTimeSlots[k]))
    {
      var slot := sortedTimeSlots[j];
      var status := if slot in memberData then memberData[slot] else "";
      cells := cells + [StatusCell(status)];
      j := j + 1;
    }
  }
}
