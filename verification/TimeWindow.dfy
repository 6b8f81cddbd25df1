/** Time UUIDs and the rows of the change log that a time window touches. */
module TimeWindow {
  import opened Common

  /** 100 ns intervals between 1582-10-15 and 1970-01-01, section 4.1.4 of RFC 4122. */
  const EPOCH_OFFSET := 0x01b21dd213814000
  const TICKS_PER_MILLI := 10_000

  /** In days: the rest of 1582, then 387 years with 94 leap days. */
  lemma EpochOffsetInDays()
    ensures EPOCH_OFFSET == ((17 + 30 + 31) + (387 * 365 + 94)) * 24 * 60 * 60 * 10_000_000
  {
  }

  /** The fields of a version 1 UUID that its text is printed from. */
  datatype TimeUuid = TimeUuid(timeLow: int, timeMid: int, timeHiVersion: int, clockSeqHi: int, clockSeqLow: int, node: int)

  /** intervals & mask and >> on Go's two's complement are the floor operations below. */
  function FieldsOf(intervals: int, node: int, clockSeq: nat): TimeUuid {
    TimeUuid(
      intervals % 0x1_0000_0000,
      intervals / 0x1_0000_0000 % 0x1_0000,
      intervals / 0x1_0000_0000_0000 % 0x1000 + 0x1000,
      0x80 + clockSeq / 0x100 % 0x40,
      clockSeq % 0x100,
      node)
  }

  function Intervals(millis: int): int {
    millis * 1000 * 10 + EPOCH_OFFSET
  }

  function UuidFromTime(millis: int, node: int, clockSeq: nat): TimeUuid {
    FieldsOf(Intervals(millis), node, clockSeq)
  }

  /** The timestamp a reader of the UUID recovers, version bits removed. */
  function Timestamp(u: TimeUuid): int {
    (u.timeHiVersion % 0x1000) * 0x1_0000_0000_0000 + u.timeMid * 0x1_0000_0000 + u.timeLow
  }

  lemma TimestampOfFields(i: int, node: int, clockSeq: nat)
    ensures Timestamp(FieldsOf(i, node, clockSeq)) == i % 0x1000_0000_0000_0000
    ensures FieldsOf(i, node, clockSeq).timeHiVersion / 0x1000 == 1
  {
    var low, mid, hi := i % 0x1_0000_0000, i / 0x1_0000_0000 % 0x1_0000, i / 0x1_0000_0000_0000;
    var q := i / 0x1_0000_0000;
    assert q == hi * 0x1_0000 + mid;
    assert i == q * 0x1_0000_0000 + low;
    assert hi == hi / 0x1000 * 0x1000 + hi % 0x1000;
  }

  /** The variant is RFC 4122's, and the clock sequence's low 14 bits and the node are kept. */
  lemma ClockSeqOfFields(i: int, node: int, clockSeq: nat)
    ensures var u := FieldsOf(i, node, clockSeq);
      u.clockSeqHi / 0x40 == 2 && u.clockSeqHi % 0x40 * 0x100 + u.clockSeqLow == clockSeq % 0x4000 && u.node == node
  {
    assert clockSeq % 0x4000 == clockSeq / 0x100 % 0x40 * 0x100 + clockSeq % 0x100;
  }

  /** The UUID of a time decodes to that time exactly while the 60-bit field has room for it. */
  lemma UuidDecodes(millis: int, node: int, clockSeq: nat)
    ensures Timestamp(UuidFromTime(millis, node, clockSeq)) == millis * TICKS_PER_MILLI + EPOCH_OFFSET
      <==> 0 <= millis * TICKS_PER_MILLI + EPOCH_OFFSET < 0x1000_0000_0000_0000
  {
    TimestampOfFields(Intervals(millis), node, clockSeq);
  }

  /** In that range later times have later UUIDs. */
  lemma UuidIncreases(t1: int, t2: int, node: int, clockSeq: nat)
    requires t1 < t2
    requires 0 <= Intervals(t1) && Intervals(t2) < 0x1000_0000_0000_0000
    ensures Timestamp(UuidFromTime(t1, node, clockSeq)) < Timestamp(UuidFromTime(t2, node, clockSeq))
  {
    UuidDecodes(t1, node, clockSeq);
    UuidDecodes(t2, node, clockSeq);
  }

  // ---- Rows ----

  /** Times below are in ticks of 100 ns since 1970, the resolution of a time UUID. */
  function Milli(t: nat): nat { t / TICKS_PER_MILLI }

  /** The row a record stamped at t is written to. */
  function RowKey(millis: nat, window: nat): nat
    requires window > 0
  {
    millis - millis % window
  }

  /** Row keys are the multiples of the window. */
  predicate IsRow(k: nat, window: nat)
    requires window > 0
  {
    k % window == 0
  }

  lemma DivMod(a: nat, w: nat)
    requires w > 0
    ensures a == a / w * w + a % w
  {
  }

  lemma {:induction false} MulOrder(p: int, q: int, w: nat)
    ensures p < q ==> p * w + w <= q * w
    decreases q - p
  {
    if p < q {
      assert q * w == (q - 1) * w + w;
      MulOrder(p, q - 1, w);
    }
  }

  lemma NextRow(k: nat, w: nat)
    requires w > 0 && IsRow(k, w)
    ensures IsRow(k + w, w)
  {
    DivMod(k, w);
    DivMod(k + w, w);
    var p, q := k / w + 1, (k + w) / w;
    assert p * w == k + w;
    MulOrder(p, q, w);
    MulOrder(q, p, w);
  }

  lemma RowGap(j: nat, k: nat, w: nat)
    requires w > 0 && IsRow(j, w) && IsRow(k, w) && j < k
    ensures j + w <= k
  {
    DivMod(j, w);
    DivMod(k, w);
    MulOrder(j / w, k / w, w);
    MulOrder(k / w, j / w, w);
  }

  lemma RowKeyIsRow(millis: nat, w: nat)
    requires w > 0
    ensures IsRow(RowKey(millis, w), w) && RowKey(millis, w) <= millis < RowKey(millis, w) + w
  {
    var k := RowKey(millis, w);
    DivMod(millis, w);
    DivMod(k, w);
    MulOrder(millis / w, k / w, w);
    MulOrder(k / w, millis / w, w);
  }

  lemma RowKeyMonotone(a: nat, b: nat, w: nat)
    requires w > 0 && a <= b
    ensures RowKey(a, w) <= RowKey(b, w)
  {
    RowKeyIsRow(a, w);
    RowKeyIsRow(b, w);
    if RowKey(b, w) < RowKey(a, w) { RowGap(RowKey(b, w), RowKey(a, w), w); }
  }

  /** The first window's row and every later row up to the last window's. */
  predicate ReadsRow(startTime: nat, endTime: nat, window: nat, k: nat)
    requires window > 0
  {
    var first, last := RowKey(Milli(startTime), window), RowKey(Milli(endTime), window);
    k == first || (IsRow(k, window) && first < k <= last)
  }

  /** The lower bound on column names that a row is read with, None for the whole row. */
  type Ranges = map<nat, Option<TimeUuid>>

  ghost predicate FilledBelow(ranges: Ranges, first: nat, window: nat, upTo: nat, bound: TimeUuid)
    requires window > 0
  {
    (forall k: nat :: k in ranges <==> k == first || (IsRow(k, window) && first < k < upTo)) &&
    (forall k | k in ranges :: ranges[k] == if k == first then Some(bound) else None)
  }

  lemma FillNext(ranges: Ranges, first: nat, window: nat, k: nat, bound: TimeUuid)
    requires window > 0 && IsRow(first, window) && IsRow(k, window) && first < k
    requires FilledBelow(ranges, first, window, k, bound)
    ensures FilledBelow(ranges[k := None], first, window, k + window, bound) && IsRow(k + window, window)
  {
    NextRow(k, window);
    forall j: nat | IsRow(j, window) && k < j < k + window ensures false { RowGap(k, j, window); }
  }

  /** SyncChanges' choice of rows. */
  method RowsToRead(startTime: nat, endTime: nat, window: nat) returns (ranges: Ranges)
    requires window > 0
    ensures forall k: nat :: k in ranges <==> ReadsRow(startTime, endTime, window, k)
    ensures forall k | k in ranges ::
      ranges[k] == if k == RowKey(Milli(startTime), window) then Some(UuidFromTime(Milli(startTime), 0, 0)) else None
    ensures var s, e := startTime / 10_000, endTime / 10_000;
      forall k: nat :: k in ranges <==> k == s - s % window || (k % window == 0 && s - s % window < k <= e - e % window)
  {
    var startTS := Milli(startTime);
    var currentRowKey := RowKey(startTS, window);
    var endRowKey := RowKey(Milli(endTime), window);
    ghost var first, bound := currentRowKey, UuidFromTime(startTS, 0, 0);
    RowKeyIsRow(startTS, window);
    NextRow(first, window);
    ranges := map[currentRowKey := Some(UuidFromTime(startTS, 0, 0))];
    currentRowKey := currentRowKey + window;
    assert FilledBelow(ranges, first, window, currentRowKey, bound) by {
      forall j: nat | IsRow(j, window) && first < j < currentRowKey ensures false { RowGap(first, j, window); }
    }
    while currentRowKey <= endRowKey
      invariant first < currentRowKey && IsRow(currentRowKey, window)
      invariant currentRowKey <= endRowKey + window || currentRowKey == first + window
      invariant FilledBelow(ranges, first, window, currentRowKey, bound)
    {
      FillNext(ranges, first, window, currentRowKey, bound);
      ranges := ranges[currentRowKey := None];
      currentRowKey := currentRowKey + window;
    }
    RowKeyIsRow(Milli(endTime), window);
    forall k: nat ensures k in ranges <==> ReadsRow(startTime, endTime, window, k) {
      if IsRow(k, window) && endRowKey < k && first < k < currentRowKey {
        RowGap(k, currentRowKey, window);
      }
    }
  }

  /** A record's own column name carries its stamp. */
  function StampUuid(stamp: nat, node: int, clockSeq: nat): TimeUuid {
    FieldsOf(stamp + EPOCH_OFFSET, node, clockSeq)
  }

  /** How names with one stamp are ordered: by their clock sequences and nodes, in whatever way. */
  type TailOrder = (TimeUuid, TimeUuid) -> bool

  /** What the query for a row with that bound returns. */
  predicate Passes(after: TailOrder, bound: Option<TimeUuid>, name: TimeUuid) {
    bound.None? || Timestamp(name) > Timestamp(bound.value) ||
    (Timestamp(name) == Timestamp(bound.value) && after(name, bound.value))
  }

  /** A sync of the window (startTime, endTime] is sure to be shown a record when its row is read and its stamp
      is past the row's bound. */
  predicate Shown(startTime: nat, endTime: nat, window: nat, stamp: nat)
    requires window > 0
  {
    var row := RowKey(Milli(stamp), window);
    ReadsRow(startTime, endTime, window, row) &&
    (row == RowKey(Milli(startTime), window) ==>
      Timestamp(StampUuid(stamp, 0, 0)) > Timestamp(UuidFromTime(Milli(startTime), 0, 0)))
  }

  /** The record's stamp is the bound's own: its clock sequence and node decide. */
  predicate AtBound(startTime: nat, window: nat, stamp: nat)
    requires window > 0
  {
    RowKey(Milli(stamp), window) == RowKey(Milli(startTime), window) &&
    Timestamp(StampUuid(stamp, 0, 0)) == Timestamp(UuidFromTime(Milli(startTime), 0, 0))
  }

  const LAST_STAMP := 0x1000_0000_0000_0000 - EPOCH_OFFSET

  lemma TimestampExact(i: nat, node: int, clockSeq: nat)
    requires i < 0x1000_0000_0000_0000
    ensures Timestamp(FieldsOf(i, node, clockSeq)) == i
  {
    TimestampOfFields(i, node, clockSeq);
    SmallMod(i);
  }

  lemma SmallMod(i: nat)
    requires i < 0x1000_0000_0000_0000
    ensures i % 0x1000_0000_0000_0000 == i
  {
  }

  lemma StampAfterBound(stamp: nat, millis: nat)
    requires stamp < LAST_STAMP && millis * TICKS_PER_MILLI < LAST_STAMP
    ensures Timestamp(StampUuid(stamp, 0, 0)) > Timestamp(UuidFromTime(millis, 0, 0)) <==> millis * TICKS_PER_MILLI < stamp
  {
    var i, j := stamp + EPOCH_OFFSET, Intervals(millis);
    TimestampExact(i, 0, 0);
    TimestampExact(j, 0, 0);
  }

  lemma MilliBounds(t: nat)
    ensures Milli(t) * TICKS_PER_MILLI <= t < Milli(t) * TICKS_PER_MILLI + TICKS_PER_MILLI
  {
  }

  lemma RowInWindow(start: nat, m: nat, end: nat, w: nat)
    requires w > 0 && start <= m <= end
    ensures RowKey(m, w) == RowKey(start, w) || (IsRow(RowKey(m, w), w) && RowKey(start, w) < RowKey(m, w) <= RowKey(end, w))
  {
    RowKeyIsRow(m, w);
    RowKeyMonotone(start, m, w);
    RowKeyMonotone(m, end, w);
  }

  /** No record of the window is missed, and nothing stamped up to the start's millisecond is shown
      again, for all stamps that fit a time UUID. */
  lemma WindowCoverage(startTime: nat, endTime: nat, window: nat, stamp: nat)
    requires window > 0 && stamp < LAST_STAMP && startTime < LAST_STAMP
    ensures Milli(startTime) * TICKS_PER_MILLI < stamp <= endTime ==> Shown(startTime, endTime, window, stamp)
    ensures Shown(startTime, endTime, window, stamp) ==> Milli(startTime) * TICKS_PER_MILLI < stamp
  {
    MilliBounds(startTime);
    MilliBounds(stamp);
    MilliBounds(endTime);
    StampAfterBound(stamp, Milli(startTime));
    if Milli(startTime) <= Milli(stamp) <= Milli(endTime) {
      RowInWindow(Milli(startTime), Milli(stamp), Milli(endTime), window);
    }
    if stamp <= Milli(startTime) * TICKS_PER_MILLI {
      RowKeyMonotone(Milli(stamp), Milli(startTime), window);
    }
  }

  /** Unless the stamps are equal, a record's position relative to a bound is its stamp's, whatever its node and clock
      sequence. */
  lemma NodeIsIrrelevant(after: TailOrder, stamp: nat, node: int, clockSeq: nat, bound: TimeUuid)
    requires Timestamp(StampUuid(stamp, 0, 0)) != Timestamp(bound)
    ensures Passes(after, Some(bound), StampUuid(stamp, node, clockSeq)) <==>
      Timestamp(StampUuid(stamp, 0, 0)) > Timestamp(bound)
  {
    TimestampOfFields(stamp + EPOCH_OFFSET, node, clockSeq);
    TimestampOfFields(stamp + EPOCH_OFFSET, 0, 0);
  }

  /** Reading the chosen rows with their bounds returns exactly the records that are sure to be shown, and those at the
      bound whose name sorts after it. */
  lemma RowsToReadShow(after: TailOrder, startTime: nat, endTime: nat, window: nat, ranges: Ranges, stamp: nat,
    node: int, clockSeq: nat)
    requires window > 0
    requires forall k: nat :: k in ranges <==> ReadsRow(startTime, endTime, window, k)
    requires forall k | k in ranges ::
      ranges[k] == if k == RowKey(Milli(startTime), window) then Some(UuidFromTime(Milli(startTime), 0, 0)) else None
    ensures var row, name := RowKey(Milli(stamp), window), StampUuid(stamp, node, clockSeq);
      row in ranges && Passes(after, ranges[row], name) <==>
        Shown(startTime, endTime, window, stamp) ||
        (AtBound(startTime, window, stamp) && after(name, UuidFromTime(Milli(startTime), 0, 0)))
  {
    var bound := UuidFromTime(Milli(startTime), 0, 0);
    TimestampOfFields(stamp + EPOCH_OFFSET, node, clockSeq);
    TimestampOfFields(stamp + EPOCH_OFFSET, 0, 0);
    if !AtBound(startTime, window, stamp) && Timestamp(StampUuid(stamp, 0, 0)) != Timestamp(bound) {
      NodeIsIrrelevant(after, stamp, node, clockSeq, bound);
    }
  }
}
