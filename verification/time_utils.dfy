/**
  Time-slot classification and ordering (utils/time_utils.py).

  A slot label reads "HH:MM-HH:MM". The twelve quarter hours from 15:00 to
  18:00 form the early band, which is released only once a member's evening
  slots are gone; labels whose hour is 18 to 21 form the regular band.
 */
module TimeUtils {
  import opened Wrappers
  import opened Text
  import opened Marks
  import opened Sorting

  // ---------------------------------------------------------------------------
  // Classification

  /** The early band, in order. */
  const EARLY_SLOTS: seq<string> := [
    "15:00-15:15", "15:15-15:30", "15:30-15:45", "15:45-16:00",
    "16:00-16:15", "16:15-16:30", "16:30-16:45", "16:45-17:00",
    "17:00-17:15", "17:15-17:30", "17:30-17:45", "17:45-18:00"
  ]

  predicate IsEarlyTimeSlot(slot: string) {
    slot in EARLY_SLOTS
  }

  /** A regular slot is recognised by its hour prefix only. */
  predicate IsRegularTimeSlot(slot: string) {
    StartsWith(slot, "18:") || StartsWith(slot, "19:") || StartsWith(slot, "20:") || StartsWith(slot, "21:")
  }

  // An independent description of labels: minutes since midnight, formatted.

  function DigitChar(d: nat): char
    requires d < 10
  {
    (48 + d) as char  // '0' is code point 48
  }

  /** Zero-padded two-digit decimal. */
  function TwoDigits(n: nat): string
    requires n < 100
  {
    [DigitChar(n / 10), DigitChar(n % 10)]
  }

  /** "HH:MM" for a minute of the day. */
  function ClockText(minute: nat): string
    requires minute < 24 * 60
  {
    TwoDigits(minute / 60) + ":" + TwoDigits(minute % 60)
  }

  /** The label of the quarter hour starting at `start`. */
  function QuarterLabel(start: nat): string
    requires start + 15 < 24 * 60
  {
    ClockText(start) + "-" + ClockText(start + 15)
  }

  lemma TwoDigitsInjective(a: nat, b: nat)
    requires a < 100 && b < 100
    ensures TwoDigits(a) == TwoDigits(b) ==> a == b
  {
    if TwoDigits(a) == TwoDigits(b) {
      assert TwoDigits(a)[0] == TwoDigits(b)[0] && TwoDigits(a)[1] == TwoDigits(b)[1];
    }
  }

  /** The early band is the twelve quarter hours starting at 15:00, 15:15, ..., 17:45. */
  lemma EarlySlotsAreQuarterHours()
    ensures |EARLY_SLOTS| == 12
    ensures forall k | 0 <= k < 12 :: EARLY_SLOTS[k] == QuarterLabel(15 * 60 + 15 * k)
  {
    EarlyHour15();
    EarlyHour16();
    EarlyHour17();
  }

  // The early labels hour by hour (split to keep each proof small).

  lemma EarlyHour15()
    ensures forall k | 0 <= k < 4 :: EARLY_SLOTS[k] == QuarterLabel(15 * 60 + 15 * k)
  {
    assert EARLY_SLOTS[0] == QuarterLabel(900);
    assert EARLY_SLOTS[1] == QuarterLabel(915);
    assert EARLY_SLOTS[2] == QuarterLabel(930);
    assert EARLY_SLOTS[3] == QuarterLabel(945);
  }

  lemma EarlyHour16()
    ensures forall k | 4 <= k < 8 :: EARLY_SLOTS[k] == QuarterLabel(15 * 60 + 15 * k)
  {
    assert EARLY_SLOTS[4] == QuarterLabel(960);
    assert EARLY_SLOTS[5] == QuarterLabel(975);
    assert EARLY_SLOTS[6] == QuarterLabel(990);
    assert EARLY_SLOTS[7] == QuarterLabel(1005);
  }

  lemma EarlyHour17()
    ensures forall k | 8 <= k < 12 :: EARLY_SLOTS[k] == QuarterLabel(15 * 60 + 15 * k)
  {
    assert EARLY_SLOTS[8] == QuarterLabel(1020);
    assert EARLY_SLOTS[9] == QuarterLabel(1035);
    assert EARLY_SLOTS[10] == QuarterLabel(1050);
    assert EARLY_SLOTS[11] == QuarterLabel(1065);
  }

  /** A label is early exactly when it is one of the quarter hours from 15:00 to 17:45. */
  lemma EarlyIffQuarterHour(slot: string)
    ensures IsEarlyTimeSlot(slot) <==> exists k | 0 <= k < 12 :: slot == QuarterLabel(15 * 60 + 15 * k)
  {
    EarlySlotsAreQuarterHours();
    if IsEarlyTimeSlot(slot) {
      var k :| 0 <= k < |EARLY_SLOTS| && EARLY_SLOTS[k] == slot;
      assert slot == QuarterLabel(15 * 60 + 15 * k);
    }
    if exists k | 0 <= k < 12 :: slot == QuarterLabel(15 * 60 + 15 * k) {
      var k :| 0 <= k < 12 && slot == QuarterLabel(15 * 60 + 15 * k);
      assert EARLY_SLOTS[k] == slot;
    }
  }

  /**
    For a label that starts with a well-formed "HH:MM", the hour-prefix test
    is the same as "the slot starts between 18:00 and 21:59".
   */
  lemma RegularIffEveningStart(minute: nat, rest: string)
    requires minute < 24 * 60
    ensures IsRegularTimeSlot(ClockText(minute) + rest) <==> 18 * 60 <= minute < 22 * 60
  {
    var s := ClockText(minute) + rest;
    var h := minute / 60;
    assert s[..3] == TwoDigits(h) + ":";
    forall p: nat | 18 <= p <= 21
      ensures StartsWith(s, TwoDigits(p) + ":") <==> h == p
    {
      TwoDigitsInjective(h, p);
      if StartsWith(s, TwoDigits(p) + ":") {
        assert TwoDigits(h) == s[..2] == TwoDigits(p);
      }
    }
    assert TwoDigits(18) + ":" == "18:" && TwoDigits(19) + ":" == "19:";
    assert TwoDigits(20) + ":" == "20:" && TwoDigits(21) + ":" == "21:";
  }

  /** The two bands are disjoint. */
  lemma EarlyIsNotRegular(slot: string)
    ensures !(IsEarlyTimeSlot(slot) && IsRegularTimeSlot(slot))
  {
    if IsEarlyTimeSlot(slot) {
      var k :| 0 <= k < |EARLY_SLOTS| && EARLY_SLOTS[k] == slot;
      EarlyLabelShape(k);
      var start := 15 * 60 + 15 * k;
      RegularIffEveningStart(start, "-" + ClockText(start + 15));
    }
  }

  lemma EarlyLabelShape(k: nat)
    requires k < 12
    ensures EARLY_SLOTS[k] == ClockText(15 * 60 + 15 * k) + ("-" + ClockText(15 * 60 + 15 * k + 15))
  {
    EarlySlotsAreQuarterHours();
  }

  // ---------------------------------------------------------------------------
  // "All regular slots sold out"

  /**
    The list names at least one regular slot, and the member's map holds
    SOLD_OUT for every regular slot the list names (a missing slot is not
    sold out). Slots outside the list are not looked at.
   */
  predicate RegularSlotsSoldOut(memberData: map<string, string>, sortedTimeSlots: seq<string>) {
    && (exists i | 0 <= i < |sortedTimeSlots| :: IsRegularTimeSlot(sortedTimeSlots[i]))
    && (forall i | 0 <= i < |sortedTimeSlots| && IsRegularTimeSlot(sortedTimeSlots[i]) ::
          sortedTimeSlots[i] in memberData && memberData[sortedTimeSlots[i]] == SOLD_OUT)
  }

  /** The scan of is_all_regular_slots_sold_out: stop at the first regular slot that is not sold out. */
  method IsAllRegularSlotsSoldOut(memberData: map<string, string>, sortedTimeSlots: seq<string>)
    returns (r: bool)
    ensures r <==> RegularSlotsSoldOut(memberData, sortedTimeSlots)
  {
    var allRegularSlotsSold := true;
    var hasRegularSlots := false;
    var i := 0;
    while i < |sortedTimeSlots|
      invariant 0 <= i <= |sortedTimeSlots|
      invariant hasRegularSlots <==> exists j | 0 <= j < i :: IsRegularTimeSlot(sortedTimeSlots[j])
      invariant allRegularSlotsSold
      invariant forall j | 0 <= j < i && IsRegularTimeSlot(sortedTimeSlots[j]) ::
        sortedTimeSlots[j] in memberData && memberData[sortedTimeSlots[j]] == SOLD_OUT
    {
      var timeSlot := sortedTimeSlots[i];
      if IsRegularTimeSlot(timeSlot) {
        hasRegularSlots := true;
        if timeSlot !in memberData || memberData[timeSlot] != SOLD_OUT {
          allRegularSlotsSold := false;
          break;
        }
      }
      i := i + 1;
    }
    r := hasRegularSlots && allRegularSlotsSold;
  }

  /** With no regular label in the list the answer is false, whatever the member's map holds. */
  lemma NoRegularSlotsMeansNotSoldOut(memberData: map<string, string>, sortedTimeSlots: seq<string>)
    requires forall i | 0 <= i < |sortedTimeSlots| :: !IsRegularTimeSlot(sortedTimeSlots[i])
    ensures !RegularSlotsSoldOut(memberData, sortedTimeSlots)
  {
  }

  // ---------------------------------------------------------------------------
  // Ordering

  /**
    parse_time_range on the start part "HH:MM": `hours, minutes = map(int, start.split(':'))`.
    A start without ':' has key 0; a split into other than two fields, or a
    field `int()` rejects, raises (None).
   */
  function StartKey(start: string): Option<int> {
    if ':' !in start then Some(0) else FieldsKey(Split(start, ':'))
  }

  /** `hours, minutes = map(int, parts)`: exactly two fields, both integers. */
  function FieldsKey(parts: seq<string>): Option<int> {
    if |parts| != 2 then None else ClockKey(ParseInt(parts[0]), ParseInt(parts[1]))
  }

  /** Minutes since midnight of the parsed fields, if both parsed. */
  function ClockKey(hours: Option<int>, minutes: Option<int>): Option<int> {
    if hours.Some? && minutes.Some? then Some(hours.value * 60 + minutes.value) else None
  }

  /** parse_time_range: the sort key of a label, 0 for a label without '-'. */
  function SortKey(slot: string): (k: Option<int>)
    ensures '-' !in slot ==> k == Some(0)
  {
    if '-' in slot then StartKey(Strip(BeforeFirst(slot, '-'))) else Some(0)
  }

  lemma BeforeFirstConcat(a: string, c: char, b: string)
    requires c !in a
    ensures BeforeFirst(a + [c] + b, c) == a
  {
    var s := a + [c] + b;
    assert s[|a|] == c;
    assert forall i | 0 <= i < |a| :: s[i] == a[i];
  }

  lemma ParseTwoDigits(n: nat)
    requires n < 100
    ensures ParseInt(TwoDigits(n)) == Some(n)
  {
    DigitsValueOfPair(n / 10, n % 10);
    ParseIntDigits(TwoDigits(n));
  }

  lemma DigitsValueOfPair(hi: nat, lo: nat)
    requires hi < 10 && lo < 10
    ensures IsDigits([DigitChar(hi), DigitChar(lo)])
    ensures DigitsValue([DigitChar(hi), DigitChar(lo)]) == hi * 10 + lo
  {
    var t := [DigitChar(hi), DigitChar(lo)];
    assert DigitChar(hi) as int - '0' as int == hi;
    assert DigitChar(lo) as int - '0' as int == lo;
    assert t[..1] == [DigitChar(hi)] && t[..1][..0] == [];
    assert DigitsValue(t[..1]) == hi;
  }

  /** The key of a well-formed label is its start minute: formatting then parsing is the identity. */
  lemma SortKeyOfClockLabel(minute: nat, rest: string)
    requires minute < 24 * 60
    ensures SortKey(ClockText(minute) + "-" + rest) == Some(minute)
  {
    var start := ClockText(minute);
    assert '-' !in start;
    BeforeFirstConcat(start, '-', rest);
    assert !IsSpace(start[0]) && !IsSpace(start[|start| - 1]);
    StartKeyOfClockText(minute);
  }

  lemma StartKeyOfClockText(minute: nat)
    requires minute < 24 * 60
    ensures StartKey(ClockText(minute)) == Some(minute)
  {
    var parts := [TwoDigits(minute / 60), TwoDigits(minute % 60)];
    ClockTextSplit(minute);
    ParseTwoDigits(minute / 60);
    ParseTwoDigits(minute % 60);
    FieldsKeyOfParsed(parts[0], parts[1], minute / 60, minute % 60, minute);
    StartKeyViaFields(ClockText(minute), parts);
  }

  lemma StartKeyViaFields(start: string, parts: seq<string>)
    requires ':' in start && Split(start, ':') == parts
    ensures StartKey(start) == FieldsKey(parts)
  {
  }

  lemma FieldsKeyOfParsed(a: string, b: string, hours: int, minutes: int, total: int)
    requires ParseInt(a) == Some(hours) && ParseInt(b) == Some(minutes)
    requires hours * 60 + minutes == total
    ensures FieldsKey([a, b]) == Some(total)
  {
    FieldsKeyPair(a, b);
    ClockKeyOfSome(ParseInt(a), ParseInt(b), hours, minutes);
  }

  lemma ClockKeyOfSome(h: Option<int>, m: Option<int>, hours: int, minutes: int)
    requires h == Some(hours) && m == Some(minutes)
    ensures ClockKey(h, m) == Some(hours * 60 + minutes)
  {
  }

  lemma FieldsKeyPair(a: string, b: string)
    ensures FieldsKey([a, b]) == ClockKey(ParseInt(a), ParseInt(b))
  {
    assert [a, b][0] == a && [a, b][1] == b;
  }

  lemma ClockTextSplit(minute: nat)
    requires minute < 24 * 60
    ensures ':' in ClockText(minute)
    ensures Split(ClockText(minute), ':') == [TwoDigits(minute / 60), TwoDigits(minute % 60)]
  {
    var h, m := TwoDigits(minute / 60), TwoDigits(minute % 60);
    var start := ClockText(minute);
    assert start == h + [':'] + m;
    assert start[2] == ':';
    BeforeFirstConcat(h, ':', m);
    assert start[|h| + 1..] == m;
    assert Split(m, ':') == [m];
    SplitUnfold(start, ':');
  }

  /**
    A label "H:M-rest" is keyed by its two start fields as `int()` reads them,
    whatever spelling `int()` accepts for them.
   */
  lemma SortKeyOfFields(h: string, m: string, rest: string)
    requires ':' !in h && ':' !in m && '-' !in h && '-' !in m
    requires h != [] && m != [] && !IsSpace(h[0]) && !IsSpace(m[|m| - 1])
    ensures SortKey(h + [':'] + m + ['-'] + rest) == FieldsKey([h, m])
  {
    var start := h + [':'] + m;
    BeforeFirstConcat(start, '-', rest);
    assert !IsSpace(start[0]) && !IsSpace(start[|start| - 1]);
    StartKeyOfFields(h, m);
  }

  lemma StartKeyOfFields(h: string, m: string)
    requires ':' !in h && ':' !in m
    ensures StartKey(h + [':'] + m) == FieldsKey([h, m])
  {
    FieldsSplit(h, m);
  }

  lemma FieldsSplit(h: string, m: string)
    requires ':' !in h && ':' !in m
    ensures ':' in h + [':'] + m
    ensures Split(h + [':'] + m, ':') == [h, m]
  {
    var start := h + [':'] + m;
    assert start[|h|] == ':';
    BeforeFirstConcat(h, ':', m);
    assert start[|h| + 1..] == m;
    assert Split(m, ':') == [m];
    SplitUnfold(start, ':');
  }

  /** `int()` accepts digit grouping, so "1_8:00-19:00" has the key of 18:00. */
  lemma UnderscoreHourKey()
    ensures SortKey("1_8:00-19:00") == Some(18 * 60)
  {
    var h, m := "1_8", TwoDigits(0);
    assert m == "00" by {
      assert DigitChar(0) == '0';
    }
    assert h + [':'] + m + ['-'] + "19:00" == "1_8:00-19:00";
    SortKeyOfFields(h, m, "19:00");
    ParseIntUnderscores();
    ParseTwoDigits(0);
    FieldsKeyOfParsed(h, m, 18, 0, 18 * 60);
  }

  /** The key used for ordering; only meaningful where `SortKey` succeeds. */
  function Key(slot: string): int {
    SortKey(slot).GetOr(0)
  }

  predicate AllKeyed(slots: seq<string>) {
    forall i | 0 <= i < |slots| :: SortKey(slots[i]).Some?
  }

  /**
    sort_time_slots: `sorted(list(time_slots), key=parse_time_range)`. It
    raises (None) as soon as one label's key raises; otherwise the result is a
    permutation of the input that is non-decreasing by key.
   */
  function SortTimeSlots(slots: seq<string>): (r: Option<seq<string>>)
    ensures r.Some? <==> AllKeyed(slots)
    ensures r.Some? ==> multiset(r.value) == multiset(slots) && SortedBy(r.value, Key)
  {
    if AllKeyed(slots) then Some(InsertionSort(slots, Key)) else None
  }

  /** Sorting twice gives the same list as sorting once. */
  lemma SortTimeSlotsIdempotent(slots: seq<string>)
    requires AllKeyed(slots)
    ensures SortTimeSlots(SortTimeSlots(slots).value) == SortTimeSlots(slots)
  {
    var sorted := SortTimeSlots(slots).value;
    forall i | 0 <= i < |sorted|
      ensures SortKey(sorted[i]).Some?
    {
      assert sorted[i] in multiset(slots);
      var j :| 0 <= j < |slots| && slots[j] == sorted[i];
    }
    SortKeepsSorted(sorted, Key);
  }

  // ---------------------------------------------------------------------------
  // Final-slot deadline

  /** Days since 1970-01-01 of a proleptic Gregorian date. */
  function DaysFromCivil(year: int, month: int, day: int): int
    requires 1 <= month <= 12
  {
    var y := if month <= 2 then year - 1 else year;
    var era := y / 400;
    var yoe := y - era * 400;
    var mp := if month > 2 then month - 3 else month + 9;
    var doy := (153 * mp + 2) / 5 + day - 1;
    var doe := yoe * 365 + yoe / 4 - yoe / 100 + doy;
    era * 146097 + doe - 719468
  }

  /** Unix seconds of a wall-clock time read at UTC offset `offset` (in seconds). */
  function EpochSeconds(year: int, month: int, day: int, hour: int, minute: int, second: int, offset: int): int
    requires 1 <= month <= 12
  {
    DaysFromCivil(year, month, day) * 86400 + hour * 3600 + minute * 60 + second - offset
  }

  /** Japan Standard Time, UTC+9. */
  const JST_OFFSET: int := 9 * 3600

  /**
    The offset pytz attaches when `pytz.timezone('Asia/Tokyo')` is passed as
    `tzinfo=` to the datetime constructor: the zone's first entry, local mean
    time, rounded by pytz to UTC+9:19.
   */
  const TOKYO_LMT_OFFSET: int := 9 * 3600 + 19 * 60

  /**
    is_after_final_slot_deadline as evidently intended: `now` (Unix seconds)
    is strictly after 2025-03-25 23:59:59 JST, which is 1742914799.
   */
  function IsAfterFinalSlotDeadline(now: int): (r: bool)
    ensures r <==> now > 1742914799
  {
    now > EpochSeconds(2025, 3, 25, 23, 59, 59, JST_OFFSET)
  }

  /**
    is_after_final_slot_deadline as written: the deadline is built with the
    local-mean-time offset, so it falls at 2025-03-25 23:40:59 JST (1742913659).
   */
  function IsAfterFinalSlotDeadlineAsWritten(now: int): (r: bool)
    ensures r <==> now > 1742913659
  {
    now > EpochSeconds(2025, 3, 25, 23, 59, 59, TOKYO_LMT_OFFSET)
  }

  /** At 23:50 JST on the deadline day the code as written already reports "past the deadline". */
  lemma DeadlineAsWrittenFiresEarly()
    ensures IsAfterFinalSlotDeadlineAsWritten(EpochSeconds(2025, 3, 25, 23, 50, 0, JST_OFFSET))
    ensures !IsAfterFinalSlotDeadline(EpochSeconds(2025, 3, 25, 23, 50, 0, JST_OFFSET))
  {
  }

  /** The corrected test is false all through 2025-03-25 JST and true from 2025-03-26 00:00:00 JST. */
  lemma DeadlineIsEndOfMarch25(hour: int, minute: int, second: int)
    requires 0 <= hour < 24 && 0 <= minute < 60 && 0 <= second < 60
    ensures !IsAfterFinalSlotDeadline(EpochSeconds(2025, 3, 25, hour, minute, second, JST_OFFSET))
    ensures IsAfterFinalSlotDeadline(EpochSeconds(2025, 3, 26, 0, 0, 0, JST_OFFSET))
  {
  }
}
