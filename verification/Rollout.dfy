/** Percentage rollouts: the ranges given to a list of entries, and the entry a device's hash falls into. */
module Rollout {
  import opened Common

  const VRANGE: int := 0xFFFF_FFFF_FFFF_FFFF

  /** The hash of a text, moved into 0 to 2^64 - 1. */
  type Hash = h: int | 0 <= h <= VRANGE witness 0

  /** What is compared with a percentage: the hash of an account or MAC, or nothing when there is no text to hash. */
  type Source = Option<Hash>

  datatype Entry = Entry(configId: string, percentage: real, start: real, end: real,
    isCanaryDisabled: bool, isPaused: bool)

  predicate FitsPercent(source: Source, percent: real) {
    source.Some? && source.value as real <= percent / 100.0 * VRANGE as real
  }

  // ---- Rounding to thousandths ----

  /** math.Round: to the nearest integer, halves away from zero. */
  function Round(x: real): int {
    if x >= 0.0 then (x + 0.5).Floor else -(0.5 - x).Floor
  }

  function Round3(x: real): real {
    Round(x * 1000.0) as real / 1000.0
  }

  predicate OnGrid(x: real) {
    (x * 1000.0).Floor as real == x * 1000.0
  }

  /** To the nearest, halves away from zero. */
  lemma RoundIsNearest(x: real)
    ensures x >= 0.0 ==> x - 0.5 < Round(x) as real <= x + 0.5
    ensures x <= 0.0 ==> x - 0.5 <= Round(x) as real < x + 0.5
  {
  }

  lemma Round3IsNearest(x: real)
    ensures x - 0.0005 <= Round3(x) <= x + 0.0005
  {
    RoundIsNearest(x * 1000.0);
  }

  lemma RoundKeepsInts(n: int)
    ensures Round(n as real) == n
  {
  }

  lemma Round3Grid(x: real)
    ensures OnGrid(Round3(x))
    ensures OnGrid(x) ==> Round3(x) == x
    ensures x >= 0.0 ==> Round3(x) >= 0.0
  {
    var n := Round(x * 1000.0);
    assert Round3(x) * 1000.0 == n as real;
    if OnGrid(x) { RoundKeepsInts((x * 1000.0).Floor); }
  }

  lemma WholeThousandths(x: real, n: int)
    requires x * 1000.0 == n as real
    ensures OnGrid(x)
  {
  }

  lemma GridSums(x: real, y: real)
    requires OnGrid(x) && OnGrid(y)
    ensures OnGrid(x + y) && OnGrid(x - y)
  {
    var m, n := (x * 1000.0).Floor, (y * 1000.0).Floor;
    WholeThousandths(x + y, m + n);
    WholeThousandths(x - y, m - n);
  }

  lemma Round3Monotone(x: real, y: real)
    requires x <= y
    ensures Round3(x) <= Round3(y)
  {
    assert Round(x * 1000.0) <= Round(y * 1000.0);
  }

  // ---- ConvertIntoPercentRange ----

  /** The ranges are not set: an end is zero, as it is when the fields are left out. */
  predicate Unset(e: Entry) { e.start == 0.0 || e.end == 0.0 }

  type Rounding = real -> real

  function Ranged(round: Rounding, e: Entry, prevPercentEnd: real): Entry {
    if Unset(e) then e.(start := round(prevPercentEnd), end := round(prevPercentEnd + e.percentage)) else e
  }

  /** The entries with ranges; the code rounds to thousandths. */
  function Converted(round: Rounding, entries: seq<Entry>, prevPercentEnd: real): seq<Entry> {
    if entries == [] then [] else
      var inst := Ranged(round, entries[0], prevPercentEnd);
      [inst] + Converted(round, entries[1..], prevPercentEnd + round(inst.end - inst.start))
  }

  /** Sets the ends of an entry without a range. */
  method SetRange(e: Entry, prevPercentEnd: real) returns (inst: Entry)
    ensures inst == Ranged(Round3, e, prevPercentEnd)
    ensures inst == if e.start == 0.0 || e.end == 0.0
                    then e.(start := Round3(prevPercentEnd), end := Round3(prevPercentEnd + e.percentage)) else e
  {
    inst := e;
    if inst.start == 0.0 || inst.end == 0.0 {
      inst := inst.(start := Round3(prevPercentEnd));
      inst := inst.(end := Round3(prevPercentEnd + inst.percentage));
    }
  }

  /** With the first i entries converted into the result, the others complete the conversion. */
  ghost predicate SoFar(round: Rounding, entries: seq<Entry>, i: nat, prev: real, result: seq<Entry>)
    requires i <= |entries|
  {
    result + Converted(round, entries[i..], prev) == Converted(round, entries, 0.0)
  }

  lemma {:induction false} SoFarStep(round: Rounding, entries: seq<Entry>, i: nat, prev: real, result: seq<Entry>)
    requires i < |entries| && SoFar(round, entries, i, prev, result)
    ensures var inst := Ranged(round, entries[i], prev);
      SoFar(round, entries, i + 1, prev + round(inst.end - inst.start), result + [inst])
  {
    var inst := Ranged(round, entries[i], prev);
    var rest := Converted(round, entries[i + 1..], prev + round(inst.end - inst.start));
    assert entries[i..][1..] == entries[i + 1..];
    assert result + ([inst] + rest) == (result + [inst]) + rest;
  }

  lemma {:induction false} SoFarEnds(round: Rounding, entries: seq<Entry>, prev: real, result: seq<Entry>)
    requires SoFar(round, entries, |entries|, prev, result)
    ensures result == Converted(round, entries, 0.0)
  {
    assert entries[|entries|..] == [];
    assert result + [] == result;
  }

  method ConvertIntoPercentRange(configEntries: seq<Entry>) returns (result: seq<Entry>)
    ensures result == Converted(Round3, configEntries, 0.0)
  {
    result := [];
    var prevPercentEnd := 0.0;
    assert configEntries[0..] == configEntries;
    for i := 0 to |configEntries|
      invariant SoFar(Round3, configEntries, i, prevPercentEnd, result)
    {
      var inst := SetRange(configEntries[i], prevPercentEnd);
      SoFarStep(Round3, configEntries, i, prevPercentEnd, result);
      prevPercentEnd := prevPercentEnd + Round3(inst.end - inst.start);
      result := result + [inst];
    }
    SoFarEnds(Round3, configEntries, prevPercentEnd, result);
  }

  function Ranges(entries: seq<Entry>): seq<Entry> { Converted(Round3, entries, 0.0) }

  /** An entry with both ends set is kept, and any other runs from the end reached so far over its own percentage, both
      ends rounded; the next end is that much further as the entry is wide. */
  predicate RunsFrom(round: Rounding, e: Entry, reached: real, inst: Entry, next: real) {
    inst == (if e.start == 0.0 || e.end == 0.0 then e.(start := round(reached), end := round(reached + e.percentage)) else e) &&
    next == reached + round(inst.end - inst.start)
  }

  ghost predicate Reaches(round: Rounding, entries: seq<Entry>, result: seq<Entry>, reached: seq<real>) {
    |result| == |entries| && |reached| == |entries| + 1 &&
    forall i | 0 <= i < |entries| :: RunsFrom(round, entries[i], reached[i], result[i], reached[i + 1])
  }

  lemma ReachesCons(round: Rounding, e: Entry, inst: Entry, prev: real, entries: seq<Entry>, result: seq<Entry>, reached: seq<real>)
    requires Reaches(round, entries, result, reached) && RunsFrom(round, e, prev, inst, reached[0])
    ensures Reaches(round, [e] + entries, [inst] + result, [prev] + reached)
  {
    var es, rs, xs := [e] + entries, [inst] + result, [prev] + reached;
    forall i | 0 <= i < |es| ensures RunsFrom(round, es[i], xs[i], rs[i], xs[i + 1]) {
      if i > 0 { assert RunsFrom(round, entries[i - 1], reached[i - 1], result[i - 1], reached[i - 1 + 1]); }
    }
  }

  /** Said entry by entry. */
  lemma {:induction false} ConvertedEach(round: Rounding, entries: seq<Entry>, prev: real) returns (reached: seq<real>)
    ensures Reaches(round, entries, Converted(round, entries, prev), reached) && reached[0] == prev
  {
    if entries == [] {
      reached := [prev];
    } else {
      var inst := Ranged(round, entries[0], prev);
      var next := prev + round(inst.end - inst.start);
      reached := ConvertedEach(round, entries[1..], next);
      ReachesCons(round, entries[0], inst, prev, entries[1..], Converted(round, entries[1..], next), reached);
      assert [entries[0]] + entries[1..] == entries;
      reached := [prev] + reached;
    }
  }

  /** Only ranges are filled in. */
  lemma {:induction false} ConvertedKeepsTheRest(round: Rounding, entries: seq<Entry>, prev: real)
    ensures |Converted(round, entries, prev)| == |entries|
    ensures forall i | 0 <= i < |entries| ::
      Converted(round, entries, prev)[i].(start := entries[i].start, end := entries[i].end) == entries[i]
  {
    if entries != [] {
      var inst := Ranged(round, entries[0], prev);
      ConvertedKeepsTheRest(round, entries[1..], prev + round(inst.end - inst.start));
    }
  }

  lemma RangedTwice(round: Rounding, e: Entry, prev: real)
    ensures Ranged(round, Ranged(round, e, prev), prev) == Ranged(round, e, prev)
  {
  }

  lemma ConvertedCons(round: Rounding, e: Entry, rest: seq<Entry>, prev: real)
    ensures var inst := Ranged(round, e, prev);
      Converted(round, [e] + rest, prev) == [inst] + Converted(round, rest, prev + round(inst.end - inst.start))
  {
    assert ([e] + rest)[1..] == rest;
  }

  lemma ConsIsIdempotent(convert: (seq<Entry>, real) -> seq<Entry>, e: Entry, inst: Entry, rest: seq<Entry>, prev: real, next: real)
    requires convert([e] + rest, prev) == [inst] + convert(rest, next)
    requires convert([inst] + convert(rest, next), prev) == [inst] + convert(convert(rest, next), next)
    requires convert(convert(rest, next), next) == convert(rest, next)
    ensures convert(convert([e] + rest, prev), prev) == convert([e] + rest, prev)
  {
  }

  /** A conversion that goes entry by entry, and whose single step can be repeated, can be repeated as a whole. */
  lemma {:induction false} StepwiseIsIdempotent(convert: (seq<Entry>, real) -> seq<Entry>, set1: (Entry, real) -> Entry,
    advance: (Entry, real) -> real, entries: seq<Entry>, prev: real)
    requires forall p :: convert([], p) == []
    requires forall e, rest, p :: convert([e] + rest, p) == [set1(e, p)] + convert(rest, advance(set1(e, p), p))
    requires forall e, p :: set1(set1(e, p), p) == set1(e, p)
    ensures convert(convert(entries, prev), prev) == convert(entries, prev)
    decreases |entries|
  {
    if entries != [] {
      var e, rest := entries[0], entries[1..];
      var inst := set1(e, prev);
      var next := advance(inst, prev);
      assert entries == [e] + rest;
      StepwiseIsIdempotent(convert, set1, advance, rest, next);
      assert set1(inst, prev) == inst;
      ConsIsIdempotent(convert, e, inst, rest, prev, next);
    }
  }

  /** Converting a second time changes nothing, whatever the entries and however the ends are rounded. */
  lemma {:induction false} ConvertIsIdempotent(round: Rounding, entries: seq<Entry>, prev: real)
    ensures Converted(round, Converted(round, entries, prev), prev) == Converted(round, entries, prev)
  {
    var set1, advance := (e, p) => Ranged(round, e, p), (e: Entry, p: real) => p + round(e.end - e.start);
    forall e, rest, p ensures Converted(round, [e] + rest, p) == [set1(e, p)] + Converted(round, rest, advance(set1(e, p), p)) {
      ConvertedCons(round, e, rest, p);
    }
    forall e, p ensures set1(set1(e, p), p) == set1(e, p) { RangedTwice(round, e, p); }
    StepwiseIsIdempotent((s, p) => Converted(round, s, p), set1, advance, entries, prev);
  }

  /** The first n percentages together. */
  function Sum(entries: seq<Entry>, n: nat): real
    requires n <= |entries|
  {
    if n == 0 then 0.0 else Sum(entries, n - 1) + entries[n - 1].percentage
  }

  /** Each range starts where the one before it ends; the first at the given bound. */
  predicate Adjacent(entries: seq<Entry>, from: real) {
    (entries != [] ==> entries[0].start == from) &&
    forall i | 0 <= i < |entries| - 1 :: entries[i].end == entries[i + 1].start
  }

  /** From a whole thousandth on, an unset range starts there and the next one starts where it ends. */
  lemma RangedStep(e: Entry, prev: real)
    requires Unset(e) && OnGrid(prev)
    ensures var inst := Ranged(Round3, e, prev);
      inst.start == prev && OnGrid(inst.end) && prev + Round3(inst.end - inst.start) == inst.end &&
      (e.percentage >= 0.0 ==> prev <= inst.end) &&
      (OnGrid(e.percentage) ==> inst.end == prev + e.percentage)
  {
    Round3Grid(prev);
    Round3Grid(prev + e.percentage);
    GridSums(Round3(prev + e.percentage), prev);
    Round3Grid(Round3(prev + e.percentage) - prev);
    if e.percentage >= 0.0 { Round3Monotone(prev, prev + e.percentage); }
    if OnGrid(e.percentage) { GridSums(prev, e.percentage); }
  }

  lemma {:induction false} ConvertedIsAdjacent(entries: seq<Entry>, prev: real)
    requires OnGrid(prev) && forall e | e in entries :: Unset(e)
    ensures Adjacent(Converted(Round3, entries, prev), prev)
  {
    if entries != [] {
      var inst := Ranged(Round3, entries[0], prev);
      RangedStep(entries[0], prev);
      ConvertedIsAdjacent(entries[1..], inst.end);
    }
  }

  lemma {:induction false} ConvertedAscends(entries: seq<Entry>, prev: real)
    requires OnGrid(prev) && forall e | e in entries :: Unset(e) && e.percentage >= 0.0
    ensures forall e | e in Converted(Round3, entries, prev) :: prev <= e.start <= e.end
  {
    if entries != [] {
      var inst := Ranged(Round3, entries[0], prev);
      RangedStep(entries[0], prev);
      ConvertedAscends(entries[1..], inst.end);
    }
  }

  lemma {:induction false} SumFromFront(entries: seq<Entry>, n: nat)
    requires 0 < n <= |entries|
    ensures Sum(entries, n) == entries[0].percentage + Sum(entries[1..], n - 1)
  {
    if n > 1 { SumFromFront(entries, n - 1); }
  }

  lemma ConvertedTail(entries: seq<Entry>, prev: real)
    requires entries != [] && Unset(entries[0]) && OnGrid(entries[0].percentage) && OnGrid(prev)
    ensures var next := prev + entries[0].percentage;
      OnGrid(next) &&
      Converted(Round3, entries, prev) == [entries[0].(start := prev, end := next)] + Converted(Round3, entries[1..], next)
  {
    RangedStep(entries[0], prev);
  }

  /** The percentages laid end to end, nothing rounded. */
  function Laid(entries: seq<Entry>, prev: real): (laid: seq<Entry>)
    ensures |laid| == |entries|
  {
    if entries == [] then [] else
      var next := prev + entries[0].percentage;
      [entries[0].(start := prev, end := next)] + Laid(entries[1..], next)
  }

  lemma {:induction false} LaidSums(entries: seq<Entry>, prev: real, i: nat)
    requires i < |entries|
    ensures Laid(entries, prev)[i].start == prev + Sum(entries, i)
    ensures Laid(entries, prev)[i].end == prev + Sum(entries, i + 1)
  {
    SumFromFront(entries, i + 1);
    if i > 0 {
      LaidSums(entries[1..], prev + entries[0].percentage, i - 1);
      SumFromFront(entries, i);
    }
  }

  lemma {:induction false} ConvertedIsLaid(entries: seq<Entry>, prev: real)
    requires OnGrid(prev) && forall e | e in entries :: Unset(e) && OnGrid(e.percentage)
    ensures Converted(Round3, entries, prev) == Laid(entries, prev)
  {
    if entries != [] {
      ConvertedTail(entries, prev);
      ConvertedIsLaid(entries[1..], prev + entries[0].percentage);
    }
  }

  /** Percentages in whole thousandths are not rounded: range i runs from the sum before it to the sum with it. */
  lemma {:induction false} ConvertedSums(entries: seq<Entry>, prev: real, i: nat)
    requires forall e | e in entries :: Unset(e) && OnGrid(e.percentage)
    requires OnGrid(prev) && i < |entries|
    ensures |Converted(Round3, entries, prev)| == |entries|
    ensures Converted(Round3, entries, prev)[i].start == prev + Sum(entries, i)
    ensures Converted(Round3, entries, prev)[i].end == prev + Sum(entries, i + 1)
  {
    ConvertedIsLaid(entries, prev);
    LaidSums(entries, prev, i);
  }

  // ---- Which slot of a partition a hash falls into ----

  /** Above the lower percentage and within the upper one. */
  predicate InSlot(source: Source, low: real, high: real) {
    !FitsPercent(source, low) && FitsPercent(source, high)
  }

  predicate Takes(e: Entry, source: Source) { InSlot(source, e.start, e.end) }

  predicate Ascending(bounds: seq<real>) {
    forall i, j | 0 <= i <= j < |bounds| :: bounds[i] <= bounds[j]
  }

  /** A source is in at most one slot between ascending bounds. */
  lemma OneSlotAtMost(bounds: seq<real>, source: Source, i: nat, j: nat)
    requires Ascending(bounds) && i + 1 < |bounds| && j + 1 < |bounds|
    requires InSlot(source, bounds[i], bounds[i + 1]) && InSlot(source, bounds[j], bounds[j + 1])
    ensures i == j
  {
  }

  /** It is in one exactly when it fits the last bound but not the first. */
  lemma {:induction false} SomeSlot(bounds: seq<real>, source: Source)
    requires Ascending(bounds) && bounds != []
    ensures InSlot(source, bounds[0], bounds[|bounds| - 1]) <==>
      exists i :: 0 <= i < |bounds| - 1 && InSlot(source, bounds[i], bounds[i + 1])
  {
    var n := |bounds| - 1;
    if n > 0 {
      var shorter := bounds[..n];
      SomeSlot(shorter, source);
      if InSlot(source, bounds[0], bounds[n]) {
        if FitsPercent(source, bounds[n - 1]) {
          var i :| 0 <= i < n - 1 && InSlot(source, shorter[i], shorter[i + 1]);
          assert InSlot(source, bounds[i], bounds[i + 1]);
        } else {
          assert InSlot(source, bounds[n - 1], bounds[n - 1 + 1]);
        }
      }
    }
  }

  /** Between 0 and 100 per cent that is every hash but 0. */
  lemma WholeRange(source: Source)
    ensures InSlot(source, 0.0, 100.0) <==> source.Some? && source.value > 0
  {
  }

  // ---- How many hashes a slot has ----

  /** The last hash that fits a percentage. */
  function LastFitting(percent: real): int { (percent / 100.0 * 0xFFFF_FFFF_FFFF_FFFF as real).Floor }

  lemma FitsExactly(h: Hash, percent: real)
    ensures FitsPercent(Some(h), percent) <==> h <= LastFitting(percent)
  {
  }

  ghost function SlotHashes(low: real, high: real): set<int> {
    set h: int | 0 <= h <= 0xFFFF_FFFF_FFFF_FFFF && InSlot(Some(h), low, high)
  }

  predicate Between(a: int, h: int, b: int) { a < h <= b }

  ghost function Interval(a: int, b: int): set<int> {
    set h: int | a < h <= b && Between(a, h, b)
  }

  lemma {:induction false} IntervalSize(a: int, b: int)
    requires a <= b
    ensures |Interval(a, b)| == b - a
    decreases b - a
  {
    if a < b {
      IntervalSize(a, b - 1);
      assert Interval(a, b) == Interval(a, b - 1) + {b};
    }
  }

  lemma LastFittingBounds(low: real, high: real)
    requires 0.0 <= low <= high <= 100.0
    ensures 0 <= LastFitting(low) <= LastFitting(high) <= 0xFFFF_FFFF_FFFF_FFFF
  {
  }

  /** Between two percentages lie as many hashes as their difference covers. */
  lemma {:induction false} SlotSize(low: real, high: real)
    requires 0.0 <= low <= high <= 100.0
    ensures |SlotHashes(low, high)| == LastFitting(high) - LastFitting(low)
  {
    LastFittingBounds(low, high);
    forall h: int | 0 <= h <= 0xFFFF_FFFF_FFFF_FFFF
      ensures InSlot(Some(h), low, high) <==> LastFitting(low) < h <= LastFitting(high)
    {
      FitsExactly(h, low);
      FitsExactly(h, high);
    }
    assert SlotHashes(low, high) == Interval(LastFitting(low), LastFitting(high));
    IntervalSize(LastFitting(low), LastFitting(high));
  }

  // ---- Choosing an entry ----

  predicate HasRange(e: Entry) { e.start >= 0.0 && e.end >= 0.0 }

  /** The first entry from i on that takes the source; percentages without a range count up from current. */
  function Choose(entries: seq<Entry>, i: nat, source: Source, current: real): (r: Option<nat>)
    requires i <= |entries|
    ensures r.Some? ==> i <= r.value < |entries|
    decreases |entries| - i
  {
    if i == |entries| then None
    else if HasRange(entries[i]) then
      if Takes(entries[i], source) then Some(i) else Choose(entries, i + 1, source, current)
    else if entries[i].percentage > 0.0 then
      var upTo := current + entries[i].percentage;
      if FitsPercent(source, upTo) then Some(i) else Choose(entries, i + 1, source, upTo)
    else Choose(entries, i + 1, source, current)
  }

  /** The entry the extraction loop returns, if any. */
  function Chosen(entries: seq<Entry>, source: Source): Option<Entry> {
    var i := Choose(entries, 0, source, 0.0);
    if i.Some? then Some(entries[i.value]) else None
  }

  lemma {:induction false} ChooseFirst(entries: seq<Entry>, i: nat, source: Source, current: real)
    requires i <= |entries|
    requires forall e | e in entries :: HasRange(e)
    ensures match Choose(entries, i, source, current)
      case Some(k) => i <= k < |entries| && Takes(entries[k], source)
      case None => forall k | i <= k < |entries| :: !Takes(entries[k], source)
    decreases |entries| - i
  {
    if i < |entries| { ChooseFirst(entries, i + 1, source, current); }
  }

  /** The percentages of the first n entries that have no range. */
  function RunningSum(entries: seq<Entry>, n: nat): real
    requires n <= |entries|
  {
    if n == 0 then 0.0 else
      var e := entries[n - 1];
      RunningSum(entries, n - 1) + if !(e.start >= 0.0 && e.end >= 0.0) && e.percentage > 0.0 then e.percentage else 0.0
  }

  /** Entry k would have the source: by its range, or without one by the running sum it completes. */
  predicate Offered(entries: seq<Entry>, k: nat, source: Source)
    requires k < |entries|
  {
    var e := entries[k];
    if e.start >= 0.0 && e.end >= 0.0 then !FitsPercent(source, e.start) && FitsPercent(source, e.end)
    else e.percentage > 0.0 && FitsPercent(source, RunningSum(entries, k + 1))
  }

  ghost predicate IsFirstOffered(entries: seq<Entry>, source: Source, i: nat, choice: Option<nat>)
    requires i <= |entries|
  {
    match choice
    case Some(k) => i <= k < |entries| && Offered(entries, k, source) && forall j | i <= j < k :: !Offered(entries, j, source)
    case None => forall j | i <= j < |entries| :: !Offered(entries, j, source)
  }

  ghost predicate IsFirstOffer(entries: seq<Entry>, source: Source, r: Option<Entry>) {
    exists choice: Option<nat> {:trigger IsFirstOffered(entries, source, 0, choice)} ::
      IsFirstOffered(entries, source, 0, choice) && r == if choice.Some? then Some(entries[choice.value]) else None
  }

  lemma {:induction false} ChooseIsFirstOffered(entries: seq<Entry>, i: nat, source: Source)
    requires i <= |entries|
    ensures IsFirstOffered(entries, source, i, Choose(entries, i, source, RunningSum(entries, i)))
    decreases |entries| - i
  {
    if i < |entries| {
      ChooseIsFirstOffered(entries, i + 1, source);
      assert RunningSum(entries, i + 1) == RunningSum(entries, i) +
        if !HasRange(entries[i]) && entries[i].percentage > 0.0 then entries[i].percentage else 0.0;
    }
  }

  /** The bounds of adjacent ranges. */
  ghost function Bounds(entries: seq<Entry>): seq<real>
    requires entries != []
  {
    seq(|entries| + 1, i requires 0 <= i <= |entries| => if i < |entries| then entries[i].start else entries[i - 1].end)
  }

  lemma {:induction false} BoundsAscend(entries: seq<Entry>, from: real, i: nat, j: nat)
    requires entries != [] && Adjacent(entries, from) && i <= j <= |entries|
    requires forall e | e in entries :: e.start <= e.end
    ensures Bounds(entries)[i] <= Bounds(entries)[j]
  {
    if i < j {
      BoundsAscend(entries, from, i, j - 1);
      assert entries[j - 1] in entries;
    }
  }

  lemma AdjacentRangesPartition(ranges: seq<Entry>, from: real, source: Source)
    requires ranges != [] && Adjacent(ranges, from) && forall e | e in ranges :: e.start <= e.end
    ensures forall i, j | 0 <= i < |ranges| && 0 <= j < |ranges| && Takes(ranges[i], source) && Takes(ranges[j], source) :: i == j
    ensures (exists e :: e in ranges && Takes(e, source)) <==> InSlot(source, from, ranges[|ranges| - 1].end)
  {
    var bounds := Bounds(ranges);
    forall i, j | 0 <= i <= j < |bounds| ensures bounds[i] <= bounds[j] { BoundsAscend(ranges, from, i, j); }
    forall i | 0 <= i < |ranges| ensures bounds[i] == ranges[i].start && bounds[i + 1] == ranges[i].end {}
    forall i, j | 0 <= i < |ranges| && 0 <= j < |ranges| && Takes(ranges[i], source) && Takes(ranges[j], source)
      ensures i == j
    {
      OneSlotAtMost(bounds, source, i, j);
    }
    SomeSlot(bounds, source);
    if i :| 0 <= i < |bounds| - 1 && InSlot(source, bounds[i], bounds[i + 1]) {
      assert ranges[i] in ranges && Takes(ranges[i], source);
    }
    if e :| e in ranges && Takes(e, source) {
      var i :| 0 <= i < |ranges| && ranges[i] == e;
      assert InSlot(source, bounds[i], bounds[i + 1]);
    }
  }

  lemma {:induction false} RangesAscend(entries: seq<Entry>)
    requires forall e | e in entries :: Unset(e) && e.percentage >= 0.0
    ensures |Ranges(entries)| == |entries| && Adjacent(Ranges(entries), 0.0)
    ensures forall e | e in Ranges(entries) :: 0.0 <= e.start <= e.end
  {
    ConvertedKeepsTheRest(Round3, entries, 0.0);
    ConvertedIsAdjacent(entries, 0.0);
    ConvertedAscends(entries, 0.0);
  }

  /** Converted entries with unset ranges: each source is taken by at most one of them, and by one exactly when its hash is positive and fits the last bound. */
  lemma {:induction false} RolloutIsUnique(entries: seq<Entry>, source: Source)
    requires entries != [] && forall e | e in entries :: Unset(e) && e.percentage >= 0.0
    ensures var ranges := Ranges(entries);
      |ranges| == |entries| && Adjacent(ranges, 0.0) &&
      (forall i, j | 0 <= i < |ranges| && 0 <= j < |ranges| && Takes(ranges[i], source) && Takes(ranges[j], source) :: i == j) &&
      ((exists e :: e in ranges && Takes(e, source)) <==> InSlot(source, 0.0, ranges[|ranges| - 1].end))
  {
    RangesAscend(entries);
    AdjacentRangesPartition(Ranges(entries), 0.0, source);
  }

  /** When thousandths add up to 100, every source with a positive hash gets an entry, and no other. */
  lemma FullRolloutTakesAll(entries: seq<Entry>, source: Source)
    requires entries != [] && forall e | e in entries :: Unset(e) && e.percentage >= 0.0 && OnGrid(e.percentage)
    requires Sum(entries, |entries|) == 100.0
    ensures Choose(Ranges(entries), 0, source, 0.0).Some? <==> source.Some? && source.value > 0
  {
    var ranges := Ranges(entries);
    RolloutIsUnique(entries, source);
    ConvertedSums(entries, 0.0, |entries| - 1);
    ConvertedAscends(entries, 0.0);
    ChooseFirst(ranges, 0, source, 0.0);
    WholeRange(source);
  }

  /** The hashes for which the converted list gives entry i. */
  ghost function HashesOf(entries: seq<Entry>, i: nat): set<int> {
    set h: int | 0 <= h <= 0xFFFF_FFFF_FFFF_FFFF && Choose(Ranges(entries), 0, Some(h), 0.0) == Some(i)
  }

  lemma ChosenIsTaken(entries: seq<Entry>, source: Source, i: nat)
    requires forall e | e in entries :: Unset(e) && e.percentage >= 0.0
    requires i < |entries|
    ensures |Ranges(entries)| == |entries|
    ensures Choose(Ranges(entries), 0, source, 0.0) == Some(i) <==> Takes(Ranges(entries)[i], source)
  {
    RolloutIsUnique(entries, source);
    ConvertedAscends(entries, 0.0);
    ChooseFirst(Ranges(entries), 0, source, 0.0);
  }

  /** Each entry gets its percentage of all hashes, to within one hash. */
  lemma {:induction false} EntryGetsItsShare(entries: seq<Entry>, i: nat)
    requires forall e | e in entries :: Unset(e) && e.percentage >= 0.0 && OnGrid(e.percentage)
    requires i < |entries| && Sum(entries, i + 1) <= 100.0
    ensures |HashesOf(entries, i)| == LastFitting(Sum(entries, i + 1)) - LastFitting(Sum(entries, i))
    ensures var share := entries[i].percentage / 100.0 * 0xFFFF_FFFF_FFFF_FFFF as real;
      share - 1.0 < |HashesOf(entries, i)| as real < share + 1.0
  {
    var low, high := Sum(entries, i), Sum(entries, i + 1);
    SumIsPositive(entries, i);
    ConvertedSums(entries, 0.0, i);
    forall h: int | 0 <= h <= 0xFFFF_FFFF_FFFF_FFFF
      ensures Choose(Ranges(entries), 0, Some(h), 0.0) == Some(i) <==> InSlot(Some(h), low, high)
    {
      ChosenIsTaken(entries, Some(h), i);
    }
    assert HashesOf(entries, i) == SlotHashes(low, high);
    SlotSize(low, high);
    ShareOfSlot(low, entries[i].percentage);
  }

  lemma ShareOfSlot(low: real, percentage: real)
    ensures var share := percentage / 100.0 * 0xFFFF_FFFF_FFFF_FFFF as real;
      share - 1.0 < (LastFitting(low + percentage) - LastFitting(low)) as real < share + 1.0
  {
  }

  lemma {:induction false} SumIsPositive(entries: seq<Entry>, n: nat)
    requires n <= |entries| && forall e | e in entries :: e.percentage >= 0.0
    ensures Sum(entries, n) >= 0.0
  {
    if n > 0 {
      SumIsPositive(entries, n - 1);
      assert entries[n - 1] in entries;
    }
  }

  /** Reordering the converted entries does not change the choice. */
  lemma OrderDoesNotMatter(entries: seq<Entry>, shuffled: seq<Entry>, source: Source)
    requires entries != [] && forall e | e in entries :: Unset(e) && e.percentage >= 0.0
    requires multiset(shuffled) == multiset(Ranges(entries))
    ensures Chosen(shuffled, source) == Chosen(Ranges(entries), source)
  {
    var ranges := Ranges(entries);
    RolloutIsUnique(entries, source);
    ConvertedAscends(entries, 0.0);
    assert |multiset(shuffled)| == |multiset(ranges)|;
    forall e ensures e in shuffled <==> e in ranges { assert e in multiset(shuffled) <==> e in multiset(ranges); }
    ChooseFirst(ranges, 0, source, 0.0);
    ChooseFirst(shuffled, 0, source, 0.0);
    var a, b := Choose(ranges, 0, source, 0.0), Choose(shuffled, 0, source, 0.0);
    if a.Some? { assert ranges[a.value] in shuffled; }
    if b.Some? {
      assert shuffled[b.value] in ranges;
      var k :| 0 <= k < |ranges| && ranges[k] == shuffled[b.value];
    }
  }

  // ---- The two forms of one rollout ----

  lemma SlotOrSum(source: Source, low: real, percentage: real)
    requires !FitsPercent(source, low) && percentage >= 0.0
    ensures InSlot(source, low, low + percentage) <==> percentage > 0.0 && FitsPercent(source, low + percentage)
    ensures percentage == 0.0 ==> !FitsPercent(source, low + percentage)
  {
  }

  /** Each range is the slot of the running sum. */
  ghost predicate SameSlots(ranges: seq<Entry>, cumulative: seq<Entry>) {
    |ranges| == |cumulative| &&
    (forall k | 0 <= k < |ranges| :: HasRange(ranges[k]) && !HasRange(cumulative[k]) && cumulative[k].percentage >= 0.0) &&
    forall k {:trigger ranges[k]} | 0 <= k < |ranges| ::
      ranges[k].start == Sum(cumulative, k) && ranges[k].end == Sum(cumulative, k + 1)
  }

  lemma {:induction false} FormsAgreeFrom(ranges: seq<Entry>, cumulative: seq<Entry>, i: nat, source: Source, c: real)
    requires SameSlots(ranges, cumulative) && i <= |ranges| && !FitsPercent(source, Sum(cumulative, i))
    ensures Choose(ranges, i, source, c) == Choose(cumulative, i, source, Sum(cumulative, i))
    decreases |ranges| - i
  {
    if i < |ranges| {
      SlotOrSum(source, Sum(cumulative, i), cumulative[i].percentage);
      if !FitsPercent(source, Sum(cumulative, i + 1)) { FormsAgreeFrom(ranges, cumulative, i + 1, source, c); }
    }
  }

  lemma {:induction false} SameSums(entries: seq<Entry>, cumulative: seq<Entry>, n: nat)
    requires SameRollout(entries, cumulative) && n <= |entries|
    ensures Sum(entries, n) == Sum(cumulative, n)
  {
    if n > 0 { SameSums(entries, cumulative, n - 1); }
  }

  /** cumulative has the percentages of entries but no ranges; both are in whole thousandths. */
  predicate SameRollout(entries: seq<Entry>, cumulative: seq<Entry>) {
    |cumulative| == |entries| &&
    (forall e | e in entries :: Unset(e) && e.percentage >= 0.0 && OnGrid(e.percentage)) &&
    forall i | 0 <= i < |entries| :: cumulative[i].percentage == entries[i].percentage && !HasRange(cumulative[i])
  }

  lemma {:induction false} ZeroHash(entries: seq<Entry>, cumulative: seq<Entry>, i: nat)
    requires SameRollout(entries, cumulative) && i <= |entries|
    ensures Choose(cumulative, i, Some(0), 0.0).Some? <==> exists k :: i <= k < |entries| && entries[k].percentage > 0.0
    decreases |entries| - i
  {
    if i < |entries| { ZeroHash(entries, cumulative, i + 1); }
  }

  lemma RangesAreSums(entries: seq<Entry>, cumulative: seq<Entry>, k: nat)
    requires SameRollout(entries, cumulative) && k < |entries|
    ensures |Ranges(entries)| == |entries| && HasRange(Ranges(entries)[k])
    ensures Ranges(entries)[k].start == Sum(cumulative, k)
    ensures Ranges(entries)[k].end == Sum(cumulative, k + 1)
  {
    ConvertedAscends(entries, 0.0);
    ConvertedSums(entries, 0.0, k);
    SameSums(entries, cumulative, k);
    SameSums(entries, cumulative, k + 1);
    assert Ranges(entries)[k] in Ranges(entries);
  }

  lemma {:induction false} RangesAreSlots(entries: seq<Entry>, cumulative: seq<Entry>)
    requires SameRollout(entries, cumulative)
    ensures SameSlots(Ranges(entries), cumulative)
  {
    var ranges := Ranges(entries);
    ConvertedKeepsTheRest(Round3, entries, 0.0);
    forall k {:trigger ranges[k]} | 0 <= k < |ranges|
      ensures HasRange(ranges[k]) && ranges[k].start == Sum(cumulative, k) && ranges[k].end == Sum(cumulative, k + 1)
    {
      RangesAreSums(entries, cumulative, k);
    }
    forall k | 0 <= k < |ranges| ensures !HasRange(cumulative[k]) && cumulative[k].percentage >= 0.0 {
      assert entries[k] in entries;
    }
  }

  lemma {:induction false} FormsAgreeUnlessZero(entries: seq<Entry>, cumulative: seq<Entry>, source: Source)
    requires SameRollout(entries, cumulative) && source != Some(0)
    ensures Choose(Ranges(entries), 0, source, 0.0) == Choose(cumulative, 0, source, 0.0)
  {
    RangesAreSlots(entries, cumulative);
    FormsAgreeFrom(Ranges(entries), cumulative, 0, source, 0.0);
  }

  /** The range form and the running-sum form choose the same entry for every source, but for hash 0, which only the running sum places. */
  lemma FormsAgree(entries: seq<Entry>, cumulative: seq<Entry>, source: Source)
    requires SameRollout(entries, cumulative)
    ensures Choose(Ranges(entries), 0, source, 0.0) == Choose(cumulative, 0, source, 0.0) <==>
      source != Some(0) || forall e | e in entries :: e.percentage == 0.0
  {
    if source != Some(0) {
      FormsAgreeUnlessZero(entries, cumulative, source);
    } else {
      ConvertedKeepsTheRest(Round3, entries, 0.0);
      ConvertedAscends(entries, 0.0);
      ChooseFirst(Ranges(entries), 0, source, 0.0);
      ZeroHash(entries, cumulative, 0);
    }
  }

  // ---- RANGE conditions ----

  /** strings.Split by one character. */
  function Split(s: string, sep: char): (parts: seq<string>)
    ensures parts != []
  {
    if s == [] then [""]
    else if s[0] == sep then [""] + Split(s[1..], sep)
    else var rest := Split(s[1..], sep); [[s[0]] + rest[0]] + rest[1..]
  }

  lemma {:induction false} SplitNone(s: string, sep: char)
    requires sep !in s
    ensures Split(s, sep) == [s]
  {
    if s != [] {
      SplitNone(s[1..], sep);
      assert s == [s[0]] + s[1..];
    }
  }

  lemma {:induction false} SplitTwo(a: string, b: string, sep: char)
    requires sep !in a && sep !in b
    ensures Split(a + [sep] + b, sep) == [a, b]
  {
    var s := a + [sep] + b;
    if a == [] {
      assert s[1..] == b;
      SplitNone(b, sep);
    } else {
      assert s[1..] == a[1..] + [sep] + b;
      SplitTwo(a[1..], b, sep);
      assert a == [a[0]] + a[1..];
    }
  }

  /** strconv.ParseFloat, for which any partial function of the text can stand. */
  type Parser = string -> Option<real>

  predicate EvalRange(parse: Parser, source: Source, fixedArg: string) {
    var elements := Split(fixedArg, '-');
    |elements| == 2 &&
    match (parse(elements[0]), parse(elements[1]))
    case (Some(low), Some(high)) => low >= 0.0 && high > 0.0 && InSlot(source, low, high)
    case _ => false
  }

  function RangeArg(texts: seq<string>, i: nat): string
    requires i + 1 < |texts|
  {
    texts[i] + "-" + texts[i + 1]
  }

  predicate AreBounds(parse: Parser, texts: seq<string>, bounds: seq<real>) {
    |texts| == |bounds| && Ascending(bounds) &&
    forall i | 0 <= i < |texts| :: '-' !in texts[i] && parse(texts[i]) == Some(bounds[i]) && bounds[i] >= 0.0
  }

  lemma RangeArgIsSlot(parse: Parser, texts: seq<string>, bounds: seq<real>, i: nat, source: Source)
    requires AreBounds(parse, texts, bounds) && i + 1 < |texts|
    ensures EvalRange(parse, source, RangeArg(texts, i)) <==> InSlot(source, bounds[i], bounds[i + 1])
  {
    SplitTwo(texts[i], texts[i + 1], '-');
  }

  lemma {:induction false} SplitParts(s: string, sep: char)
    ensures forall p | p in Split(s, sep) :: sep !in p
    ensures |Split(s, sep)| == 1 ==> s == Split(s, sep)[0]
    ensures |Split(s, sep)| == 2 ==> s == Split(s, sep)[0] + [sep] + Split(s, sep)[1]
  {
    if s != [] {
      SplitParts(s[1..], sep);
      assert s == [s[0]] + s[1..];
    }
  }

  /** A RANGE text holds exactly when it is two numbers around its only hyphen, the first not negative, the second
      positive, and the source fits the second and not the first; any other text never does. */
  lemma RangeIsExactly(parse: Parser, source: Source, text: string)
    ensures EvalRange(parse, source, text) <==> exists low, high | IsRangeText(parse, text, low, high) ::
      low >= 0.0 && high > 0.0 && !FitsPercent(source, low) && FitsPercent(source, high)
  {
    SplitParts(text, '-');
    var elements := Split(text, '-');
    if EvalRange(parse, source, text) {
      assert text == elements[0] + "-" + elements[1];
      assert IsRangeText(parse, text, parse(elements[0]).value, parse(elements[1]).value);
    }
    if exists low, high | IsRangeText(parse, text, low, high) :: low >= 0.0 && high > 0.0 && InSlot(source, low, high) {
      var low, high :| IsRangeText(parse, text, low, high) && low >= 0.0 && high > 0.0 && InSlot(source, low, high);
      var a, b :| text == a + "-" + b && '-' !in a && '-' !in b && parse(a) == Some(low) && parse(b) == Some(high);
      SplitTwo(a, b, '-');
    }
  }

  ghost predicate IsRangeText(parse: Parser, text: string, low: real, high: real) {
    exists a, b :: text == a + "-" + b && '-' !in a && '-' !in b && parse(a) == Some(low) && parse(b) == Some(high)
  }

  /** RANGE conditions over successive bounds split the sources: none fits two, and one fits exactly those above the first bound and within the last. */
  lemma AdjacentRangeRulesPartition(parse: Parser, texts: seq<string>, bounds: seq<real>, source: Source)
    requires AreBounds(parse, texts, bounds) && texts != []
    ensures forall i, j | 0 <= i < |texts| - 1 && 0 <= j < |texts| - 1 &&
      EvalRange(parse, source, RangeArg(texts, i)) && EvalRange(parse, source, RangeArg(texts, j)) :: i == j
    ensures (exists i :: 0 <= i < |texts| - 1 && EvalRange(parse, source, RangeArg(texts, i))) <==>
      InSlot(source, bounds[0], bounds[|bounds| - 1])
  {
    var n := |texts| - 1;
    forall i | 0 <= i < n
      ensures EvalRange(parse, source, RangeArg(texts, i)) <==> InSlot(source, bounds[i], bounds[i + 1])
    {
      RangeArgIsSlot(parse, texts, bounds, i, source);
    }
    SomeSlot(bounds, source);
    if InSlot(source, bounds[0], bounds[n]) {
      var i :| 0 <= i < n && InSlot(source, bounds[i], bounds[i + 1]);
      assert EvalRange(parse, source, RangeArg(texts, i));
    }
  }

  // ---- ExtractConfigFromAction ----

  const REBOOT_IMMEDIATELY_FILTER := "REBOOT_IMMEDIATELY_FILTER"
  const TIME_FILTER := "TIME_FILTER"
  const FIRMWARE_SOURCE := "firmwareVersionSource"

  datatype Action = Action(configId: string, configEntries: seq<Entry>, firmwareVersions: seq<string>,
    firmwareCheckRequired: bool, rebootImmediately: bool, intermediateVersion: string, useAccountPercentage: bool)

  class ConvertedContext {
    const firmwareVersion: string
    const accountId: string
    const estbMac: string
    var forceFilters: set<string>
    var bypassFilters: set<string>
    var appliedVersionInfo: map<string, string>

    constructor (firmwareVersion: string, accountId: string, estbMac: string)
      ensures this.firmwareVersion == firmwareVersion && this.accountId == accountId && this.estbMac == estbMac
      ensures forceFilters == {} && bypassFilters == {} && appliedVersionInfo == map[]
    {
      this.firmwareVersion, this.accountId, this.estbMac := firmwareVersion, accountId, estbMac;
      forceFilters, bypassFilters, appliedVersionInfo := {}, {}, map[];
    }
  }

  /** The first entry not paused, or the action's own configuration when all are. */
  ghost predicate IsAnyPresentConfig(action: Action, configId: string) {
    (configId == action.configId && forall e | e in action.configEntries :: e.isPaused) ||
    (exists k :: 0 <= k < |action.configEntries| && !action.configEntries[k].isPaused &&
      configId == action.configEntries[k].configId && (forall j | 0 <= j < k :: action.configEntries[j].isPaused))
  }

  method ExtractAnyPresentConfig(action: Action) returns (configId: string)
    ensures IsAnyPresentConfig(action, configId)
    ensures (forall e | e in action.configEntries :: e.isPaused) ==> configId == action.configId
    ensures forall k | 0 <= k < |action.configEntries| && !action.configEntries[k].isPaused &&
      (forall j | 0 <= j < k :: action.configEntries[j].isPaused) :: configId == action.configEntries[k].configId
  {
    for i := 0 to |action.configEntries|
      invariant forall j | 0 <= j < i :: action.configEntries[j].isPaused
    {
      if !action.configEntries[i].isPaused { return action.configEntries[i].configId; }
    }
    return action.configId;
  }

  /** The loop over the entries. */
  method ChooseEntry(configEntries: seq<Entry>, source: Source) returns (r: Option<Entry>)
    ensures r == Chosen(configEntries, source)
    ensures IsFirstOffer(configEntries, source, r)
  {
    ChooseIsFirstOffered(configEntries, 0, source);
    var currentPercent := 0.0;
    for i := 0 to |configEntries|
      invariant Choose(configEntries, i, source, currentPercent) == Choose(configEntries, 0, source, 0.0)
    {
      var entry := configEntries[i];
      if entry.start >= 0.0 && entry.end >= 0.0 {
        if !FitsPercent(source, entry.start) && FitsPercent(source, entry.end) { return Some(entry); }
      } else if entry.percentage > 0.0 {
        currentPercent := currentPercent + entry.percentage;
        if FitsPercent(source, currentPercent) { return Some(entry); }
      }
    }
    r := None;
  }

  class EstbFirmwareRuleBase {
    /** The firmware configurations, by ID; the empty ID has none. */
    const versions: map<string, string>
    const hash: string -> Hash
    const equalFold: (string, string) -> bool

    constructor (versions: map<string, string>, hash: string -> Hash, equalFold: (string, string) -> bool)
      ensures this.versions == versions && this.hash == hash && this.equalFold == equalFold
    {
      this.versions, this.hash, this.equalFold := versions, hash, equalFold;
    }

    function GetSource(accountId: string, estbMac: string, action: Action): Source {
      if action.useAccountPercentage then Some(hash(accountId))
      else if estbMac != "" then Some(hash(estbMac))
      else None
    }

    predicate Known(id: string) { id != "" && id in versions }

    /** What the entries decide, once the minimum version is met or not asked for. */
    function Distributed(accountId: string, action: Action, source: Source): Option<Entry> {
      if action.useAccountPercentage && accountId == "" then None else Chosen(action.configEntries, source)
    }

    method ExtractConfigFromAction(context: ConvertedContext, action: Action) returns (configId: string)
      modifies context
      ensures var failed := action.firmwareCheckRequired && (context.firmwareVersion == "" || context.firmwareVersion !in action.firmwareVersions);
        context.bypassFilters == old(context.bypassFilters) + (if failed then {TIME_FILTER} else {}) &&
        context.forceFilters == old(context.forceFilters) +
          (if failed && action.rebootImmediately then {REBOOT_IMMEDIATELY_FILTER} else {})
      ensures action.firmwareCheckRequired && (context.firmwareVersion == "" || context.firmwareVersion !in action.firmwareVersions) ==>
        if action.intermediateVersion != "" && action.intermediateVersion in versions &&
           !equalFold(context.firmwareVersion, versions[action.intermediateVersion])
        then configId == action.intermediateVersion &&
          context.appliedVersionInfo == old(context.appliedVersionInfo)[FIRMWARE_SOURCE := "IV,doesntMeetMinCheck"]
        else if action.configId != "" && action.configId in versions
        then configId == action.configId &&
          context.appliedVersionInfo == old(context.appliedVersionInfo)[FIRMWARE_SOURCE := "LKG,doesntMeetMinCheck"]
        else IsAnyPresentConfig(action, configId) && context.appliedVersionInfo == old(context.appliedVersionInfo)
      ensures !(action.firmwareCheckRequired && (context.firmwareVersion == "" || context.firmwareVersion !in action.firmwareVersions)) ==>
        match Distributed(context.accountId, action, if action.useAccountPercentage then Some(hash(context.accountId))
          else if context.estbMac != "" then Some(hash(context.estbMac)) else None)
        case Some(entry) =>
          configId == (if entry.isPaused then "" else entry.configId) &&
          context.appliedVersionInfo == old(context.appliedVersionInfo)[FIRMWARE_SOURCE :=
            if entry.isPaused then "MultipleVersionDistribution,isPaused" else "MultipleVersionDistribution"]
        case None =>
          configId == action.configId &&
          context.appliedVersionInfo ==
            if action.configId != "" && action.configId in versions then old(context.appliedVersionInfo)[FIRMWARE_SOURCE := "LKG,meetMinCheck"]
            else old(context.appliedVersionInfo)
    {
      var firmwareVersionIsAbsentInFilter := false;
      if |action.firmwareVersions| == 0 || |context.firmwareVersion| == 0 {
        firmwareVersionIsAbsentInFilter := true;
      } else if context.firmwareVersion !in action.firmwareVersions {
        firmwareVersionIsAbsentInFilter := true;
      }
      if action.firmwareCheckRequired && firmwareVersionIsAbsentInFilter {
        if action.rebootImmediately { context.forceFilters := context.forceFilters + {REBOOT_IMMEDIATELY_FILTER}; }
        context.bypassFilters := context.bypassFilters + {TIME_FILTER};
        if Known(action.intermediateVersion) &&
           !equalFold(context.firmwareVersion, versions[action.intermediateVersion]) {
          context.appliedVersionInfo := context.appliedVersionInfo[FIRMWARE_SOURCE := "IV,doesntMeetMinCheck"];
          return action.intermediateVersion;
        } else if Known(action.configId) {
          context.appliedVersionInfo := context.appliedVersionInfo[FIRMWARE_SOURCE := "LKG,doesntMeetMinCheck"];
          return action.configId;
        }
        configId := ExtractAnyPresentConfig(action);
        return;
      }
      if Known(action.configId) {
        context.appliedVersionInfo := context.appliedVersionInfo[FIRMWARE_SOURCE := "LKG,meetMinCheck"];
      }
      if action.useAccountPercentage && |context.accountId| == 0 { return action.configId; }
      var source := GetSource(context.accountId, context.estbMac, action);
      var entry := ChooseEntry(action.configEntries, source);
      if entry.None? { return action.configId; }
      if entry.value.isPaused {
        context.appliedVersionInfo := context.appliedVersionInfo[FIRMWARE_SOURCE := "MultipleVersionDistribution,isPaused"];
        return "";
      }
      context.appliedVersionInfo := context.appliedVersionInfo[FIRMWARE_SOURCE := "MultipleVersionDistribution"];
      return entry.value.configId;
    }
  }
}
