/** The change logs of one device: five numbered columns reused as a ring, beside the last configuration's column. */
module LogRing {
  import opened Common
  import opened Decimal
  import opened Sorting

  const BOUNDS := 5
  const LAST_CONFIG_LOG_ID := "0"
  const MAX_INT := 0x7FFF_FFFF_FFFF_FFFF

  /** A stored log: the column name it was written under, its time in milliseconds, and all the rest. */
  datatype Log = Log(id: string, updated: int, body: string)

  function Format(n: int): string {
    if n < 0 then "-" + Itoa(-n) else Itoa(n)
  }

  function NumberToColumnName(prefix: string, number: int): string {
    prefix + "_" + Format(number)
  }

  function Digits(s: string): Option<nat> {
    if s == [] then Some(0)
    else if !('0' <= s[|s| - 1] <= '9') then None
    else match Digits(s[..|s| - 1])
      case None => None
      case Some(n) => Some(10 * n + (s[|s| - 1] as int - '0' as int))
  }

  /** strconv.Atoi: an optional sign and at least one digit, within 64 bits. */
  function Atoi(s: string): Option<int> {
    var signed := s != [] && s[0] in "+-";
    var digits := if signed then s[1..] else s;
    if digits == [] then None
    else match Digits(digits)
      case None => None
      case Some(n) =>
        var v: int := (if signed && s[0] == '-' then -1 else 1) * n;
        if -MAX_INT - 1 <= v <= MAX_INT then Some(v) else None
  }

  lemma {:induction false} DigitsRead(n: nat)
    ensures Digits(Itoa(n)) == Some(n)
  {
    if n >= 10 {
      DigitsRead(n / 10);
      assert Itoa(n)[..|Itoa(n)| - 1] == Itoa(n / 10);
    } else {
      assert Itoa(n)[..0] == [];
    }
  }

  lemma {:induction false} DigitsOnly(n: nat)
    ensures forall i | 0 <= i < |Itoa(n)| :: '0' <= Itoa(n)[i] <= '9'
  {
    if n >= 10 { DigitsOnly(n / 10); }
  }

  /** A number of 64 bits is read back as it was written. */
  lemma AtoiReads(n: int)
    requires -MAX_INT - 1 <= n <= MAX_INT
    ensures Atoi(Format(n)) == Some(n)
  {
    var m := if n < 0 then -n else n;
    ItoaNonEmpty(m);
    DigitsOnly(m);
    DigitsRead(m);
    assert ("-" + Itoa(m))[1..] == Itoa(m);
  }

  /** Nothing else is but a leading plus sign and leading zeros: what is read is a number of 64 bits, all digits but for a sign. */
  lemma AtoiRefuses(s: string)
    ensures s == "" ==> Atoi(s) == None
    ensures forall i | 0 <= i < |s| && !('0' <= s[i] <= '9') && (i > 0 || s[i] !in "+-") :: Atoi(s) == None
    ensures Atoi(s).Some? ==> -MAX_INT - 1 <= Atoi(s).value <= MAX_INT
  {
    forall i | 0 <= i < |s| && !('0' <= s[i] <= '9') && (i > 0 || s[i] !in "+-") ensures Atoi(s) == None {
      if s[0] in "+-" { DigitsNeedDigits(s[1..], i - 1); } else { DigitsNeedDigits(s, i); }
    }
  }

  // ---- Which columns the range read sees ----

  predicate InRange(prefix: string, column: string) {
    TextLess(NumberToColumnName(prefix, 0), column) && TextLess(column, NumberToColumnName(prefix, BOUNDS + 1))
  }

  lemma {:induction false} BetweenHasPrefix(p: string, low: string, x: string, high: string)
    requires TextLeq(p + low, x) && TextLeq(x, p + high)
    ensures p <= x
  {
    if p != [] {
      assert (p + low)[1..] == p[1..] + low && (p + high)[1..] == p[1..] + high;
      BetweenHasPrefix(p[1..], low, x[1..], high);
      assert x == [x[0]] + x[1..];
    }
  }

  /** The range holds the columns that continue the prefix and a `_` with a text between 0 and 6. */
  lemma RangeIsSuffix(prefix: string, column: string)
    ensures InRange(prefix, column) <==>
      prefix + "_" <= column && TextLess("0", column[|prefix| + 1..]) && TextLess(column[|prefix| + 1..], "6")
  {
    var p := prefix + "_";
    assert Itoa(0) == "0" && Itoa(6) == "6";
    assert NumberToColumnName(prefix, 0) == p + "0" && NumberToColumnName(prefix, 6) == p + "6";
    if InRange(prefix, column) { BetweenHasPrefix(p, "0", column, "6"); }
    if p <= column {
      var rest := column[|p|..];
      assert column == p + rest;
      TextCommonPrefix(p, "0", rest);
      TextCommonPrefix(p, rest, "6");
      assert (p + "0")[|p|..] == "0" && (p + "6")[|p|..] == "6";
    }
  }

  /** The last configuration's column is never in the range. */
  lemma RangeSkipsLast(prefix: string)
    ensures !InRange(prefix, LAST_CONFIG_LOG_ID)
  {
    RangeIsSuffix(prefix, LAST_CONFIG_LOG_ID);
    if prefix + "_" <= LAST_CONFIG_LOG_ID { assert LAST_CONFIG_LOG_ID[|prefix|] == '_'; }
  }

  lemma NameContinues(prefix: string, other: string, number: string)
    requires prefix + "_" <= other + "_" + number
    requires forall i | 0 <= i < |number| :: number[i] != '_'
    ensures other == prefix || prefix + "_" <= other
  {
    var p, column := prefix + "_", other + "_" + number;
    assert column[..|p|] == p;
    assert column[|prefix|] == '_';
    assert forall i | 0 <= i < |number| :: column[|other| + 1 + i] == number[i];
    assert |prefix| <= |other|;
    if |prefix| == |other| {
      assert column[..|prefix|] == other && p[..|prefix|] == prefix;
    } else {
      assert column[..|p|] == other[..|p|];
    }
  }

  /** Another host's column is in the range only if that host's name continues this one's. */
  lemma RangeSkipsOthers(prefix: string, other: string, number: nat)
    requires InRange(prefix, NumberToColumnName(other, number))
    ensures other == prefix || prefix + "_" <= other
  {
    RangeIsSuffix(prefix, NumberToColumnName(other, number));
    DigitsOnly(number);
    NameContinues(prefix, other, Itoa(number));
  }

  lemma {:induction false} DigitsNeedDigits(s: string, i: nat)
    requires i < |s| && !('0' <= s[i] <= '9')
    ensures Digits(s) == None
  {
    if i < |s| - 1 { DigitsNeedDigits(s[..|s| - 1], i); }
  }

  lemma UnderscoreIsNoNumber(s: string, i: nat)
    requires i < |s| && s[i] == '_'
    ensures Atoi(s) == None
  {
    if s[0] in "+-" { DigitsNeedDigits(s[1..], i - 1); } else { DigitsNeedDigits(s, i); }
  }

  lemma FirstCharDecides(suffix: string)
    requires |suffix| >= 2
    ensures TextLess("0", suffix) && TextLess(suffix, "6") <==> '0' <= suffix[0] <= '5'
  {
    assert suffix[1..] != "" && "6"[1..] == "" && "0"[1..] == "";
    assert TextLeq("0"[1..], suffix[1..]) && !TextLeq(suffix[1..], "6"[1..]);
  }

  lemma ContinuedSuffix(prefix: string, other: string, number: nat)
    requires prefix + "_" <= other
    ensures var column := NumberToColumnName(other, number);
      prefix + "_" <= column && column[|prefix| + 1..] == other[|prefix| + 1..] + "_" + Itoa(number)
  {
    var column := NumberToColumnName(other, number);
    assert column[..|prefix| + 1] == other[..|prefix| + 1];
  }

  /** Every host whose name does continue this one's interferes: its numbers cannot be read back, so while one of its logs
      is the newest in the range this host's log is refused. It is in the range when the continuation begins with 0 to 5. */
  lemma ContinuedNameInterferes(prefix: string, other: string, number: nat)
    requires prefix + "_" <= other
    ensures var column, rest := NumberToColumnName(other, number), other[|prefix| + 1..];
      prefix + "_" <= column && Following(prefix, column) == None &&
      (InRange(prefix, column) <==> rest != "" && '0' <= rest[0] <= '5')
  {
    var column, rest := NumberToColumnName(other, number), other[|prefix| + 1..];
    ContinuedSuffix(prefix, other, number);
    ItoaNonEmpty(number);
    var suffix := rest + "_" + Itoa(number);
    UnderscoreIsNoNumber(suffix, |rest|);
    RangeIsSuffix(prefix, column);
    FirstCharDecides(suffix);
  }

  // ---- Choosing the next column ----

  /** The column after the newest one: numbers go down to 1 and start again from 5. */
  function Following(prefix: string, newest: string): Option<string>
    requires prefix + "_" <= newest
  {
    match Atoi(newest[|prefix| + 1..])
    case None => None
    case Some(count) => Some(NumberToColumnName(prefix, if count == 1 then BOUNDS else count - 1))
  }

  /** Every log is stored under its ID. */
  ghost predicate WellNamed(columns: map<string, Log>) {
    forall c | c in columns :: columns[c].id == c
  }

  ghost predicate IsNewest(prefix: string, columns: map<string, Log>, column: string) {
    column in columns && InRange(prefix, column) &&
    forall d | d in columns && InRange(prefix, d) :: columns[d].updated <= columns[column].updated
  }

  /** The last slot when the range is empty, and otherwise the one after a newest log's. */
  ghost predicate IsCurrentId(prefix: string, columns: map<string, Log>, id: Option<string>) {
    if exists c :: c in columns && InRange(prefix, c)
    then exists d :: IsNewest(prefix, columns, d) && prefix + "_" <= d && id == Following(prefix, d)
    else id == Some(NumberToColumnName(prefix, BOUNDS))
  }

  /** No column of the range is later than d. After number 1 comes 5, after any other the one below; without a number, none. */
  ghost predicate FollowsNewest(prefix: string, columns: map<string, Log>, d: string, id: Option<string>) {
    d in columns && InRange(prefix, d) && prefix + "_" <= d &&
    (forall c | c in columns && InRange(prefix, c) :: columns[c].updated <= columns[d].updated) &&
    match Atoi(d[|prefix| + 1..])
    case None => id == None
    case Some(n) => id == Some(prefix + "_" + if n == 1 then "5" else Format(n - 1))
  }

  lemma FollowingNumber(prefix: string, newest: string)
    requires prefix + "_" <= newest
    ensures match Atoi(newest[|prefix| + 1..])
      case None => Following(prefix, newest) == None
      case Some(n) => Following(prefix, newest) == Some(prefix + "_" + if n == 1 then "5" else Format(n - 1))
  {
    assert Itoa(5) == "5";
  }

  predicate NewerFirst(a: Log, b: Log) { a.updated >= b.updated }

  ghost function LogsOf(columns: map<string, Log>, names: set<string>): set<Log>
    requires names <= columns.Keys
  {
    set c | c in names :: columns[c]
  }

  method Collect(columns: map<string, Log>, names: set<string>) returns (logs: seq<Log>)
    requires WellNamed(columns) && names <= columns.Keys
    ensures multiset(logs) == multiset(LogsOf(columns, names))
  {
    logs := [];
    var todo := names;
    while todo != {}
      invariant todo <= names
      invariant multiset(logs) == multiset(LogsOf(columns, names - todo))
      decreases |todo|
    {
      var c :| c in todo;
      assert names - (todo - {c}) == (names - todo) + {c};
      assert LogsOf(columns, (names - todo) + {c}) == LogsOf(columns, names - todo) + {columns[c]};
      logs := logs + [columns[c]];
      todo := todo - {c};
    }
    assert names - todo == names;
  }

  method GetCurrentId(prefix: string, columns: map<string, Log>) returns (id: Option<string>)
    requires WellNamed(columns)
    ensures IsCurrentId(prefix, columns, id)
    ensures (forall c | c in columns :: !InRange(prefix, c)) ==> id == Some(prefix + "_" + "5")
    ensures (exists c :: c in columns && InRange(prefix, c)) ==> exists d :: FollowsNewest(prefix, columns, d, id)
  {
    var names := set c | c in columns && InRange(prefix, c);
    var configLogs := Collect(columns, names);
    forall c | c in names ensures columns[c] in configLogs {
      assert columns[c] in LogsOf(columns, names);
      assert columns[c] in multiset(configLogs);
    }
    var count := 1;
    if |configLogs| > 0 {
      var sorted := SortSeq(NewerFirst, configLogs);
      assert sorted[0] in multiset(configLogs);
      assert multiset(sorted) == multiset(LogsOf(columns, names));
      assert |sorted| > 0;
      var newest := sorted[0];
      assert newest in LogsOf(columns, names);
      RangeIsSuffix(prefix, newest.id);
      forall d | d in columns && InRange(prefix, d) ensures columns[d].updated <= newest.updated {
        assert columns[d] in LogsOf(columns, names);
        assert columns[d] in multiset(sorted);
      }
      assert IsNewest(prefix, columns, newest.id);
      match Atoi(newest.id[|prefix| + 1..]) {
        case None =>
          assert FollowsNewest(prefix, columns, newest.id, None);
          return None;
        case Some(n) => count := n;
      }
      id := Some(NumberToColumnName(prefix, if count == 1 then BOUNDS else count - 1));
      assert id == Following(prefix, newest.id);
      FollowingNumber(prefix, newest.id);
      assert FollowsNewest(prefix, columns, newest.id, id);
    } else {
      id := Some(NumberToColumnName(prefix, BOUNDS));
      assert Itoa(5) == "5";
    }
  }

  // ---- The ring ----

  /** The column of the i-th log ever written: 5, 4, 3, 2, 1, and 5 again. */
  function SlotName(prefix: string, i: nat): string {
    NumberToColumnName(prefix, BOUNDS - i % BOUNDS)
  }

  function Oldest(n: nat): nat {
    if n < BOUNDS then 0 else n - BOUNDS
  }

  function Recent(history: seq<Log>): seq<Log> {
    history[Oldest(|history|)..]
  }

  /** The i-th log is filed under the i-th slot. */
  ghost predicate Filed(prefix: string, history: seq<Log>) {
    forall i | 0 <= i < |history| :: history[i].id == SlotName(prefix, i)
  }

  ghost predicate Stored(columns: map<string, Log>, recent: seq<Log>) {
    forall l | l in recent :: l.id in columns && columns[l.id] == l
  }

  ghost predicate OnlyRecent(prefix: string, columns: map<string, Log>, recent: seq<Log>) {
    forall c | c in columns && InRange(prefix, c) :: columns[c] in recent
  }

  /** This host's columns hold exactly the last five logs of its history. */
  ghost predicate Ring(prefix: string, columns: map<string, Log>, history: seq<Log>) {
    Filed(prefix, history) && WellNamed(columns) &&
    Stored(columns, Recent(history)) && OnlyRecent(prefix, columns, Recent(history))
  }

  /** The last log is later than the other stored ones. */
  predicate LastIsNewest(history: seq<Log>) {
    forall i | Oldest(|history|) <= i < |history| - 1 :: history[i].updated < history[|history| - 1].updated
  }

  lemma Slots(prefix: string, k: int)
    requires 1 <= k <= BOUNDS
    ensures InRange(prefix, NumberToColumnName(prefix, k))
    ensures prefix + "_" <= NumberToColumnName(prefix, k)
    ensures Atoi(NumberToColumnName(prefix, k)[|prefix| + 1..]) == Some(k)
    ensures NumberToColumnName(prefix, k) != LAST_CONFIG_LOG_ID
  {
    var column := NumberToColumnName(prefix, k);
    assert Itoa(k) == [Digit(k)];
    assert column[|prefix| + 1..] == Itoa(k);
    RangeIsSuffix(prefix, column);
    assert Digits([Digit(k)][..0]) == Some(0);
    assert Digits([Digit(k)]) == Some(k);
    assert column[|prefix|] == '_';
  }

  lemma NextRemainder(i: nat)
    ensures (i + 1) % BOUNDS == if i % BOUNDS == BOUNDS - 1 then 0 else i % BOUNDS + 1
  {
  }

  /** After slot 5 - i mod 5 comes the next log's. */
  lemma FollowingSlot(prefix: string, i: nat)
    ensures prefix + "_" <= SlotName(prefix, i) && Following(prefix, SlotName(prefix, i)) == Some(SlotName(prefix, i + 1))
  {
    var k := BOUNDS - i % BOUNDS;
    NextRemainder(i);
    Slots(prefix, k);
    assert SlotName(prefix, i + 1) == NumberToColumnName(prefix, if k == 1 then BOUNDS else k - 1);
  }

  lemma FiledLog(prefix: string, history: seq<Log>, i: nat)
    requires Filed(prefix, history) && i < |history|
    ensures InRange(prefix, history[i].id) && prefix + "_" <= history[i].id && history[i].id != LAST_CONFIG_LOG_ID
    ensures Following(prefix, history[i].id) == Some(SlotName(prefix, i + 1))
  {
    Slots(prefix, BOUNDS - i % BOUNDS);
    FollowingSlot(prefix, i);
  }

  lemma ColumnsDiffer(prefix: string, k: int, m: int)
    requires 1 <= k <= BOUNDS && 1 <= m <= BOUNDS && NumberToColumnName(prefix, k) == NumberToColumnName(prefix, m)
    ensures k == m
  {
    Slots(prefix, k);
    Slots(prefix, m);
  }

  lemma Remainders(i: nat, j: nat)
    requires i < j <= i + BOUNDS
    ensures i % BOUNDS == j % BOUNDS <==> j == i + BOUNDS
  {
  }

  /** Among five successive logs no two share a slot; the next one shares that of the oldest. */
  lemma SlotsDiffer(prefix: string, i: nat, j: nat)
    requires i < j <= i + BOUNDS
    ensures SlotName(prefix, i) == SlotName(prefix, j) <==> j == i + BOUNDS
  {
    Remainders(i, j);
    if SlotName(prefix, i) == SlotName(prefix, j) { ColumnsDiffer(prefix, BOUNDS - i % BOUNDS, BOUNDS - j % BOUNDS); }
  }

  lemma RecentIndex(history: seq<Log>, log: Log) returns (i: nat)
    requires log in Recent(history)
    ensures Oldest(|history|) <= i < |history| && history[i] == log
  {
    var k :| 0 <= k < |Recent(history)| && Recent(history)[k] == log;
    i := Oldest(|history|) + k;
  }

  lemma RecentHas(history: seq<Log>, i: nat)
    requires Oldest(|history|) <= i < |history|
    ensures history[i] in Recent(history)
  {
    assert Recent(history)[i - Oldest(|history|)] == history[i];
  }

  /** The range read finds a log exactly when one was written. */
  lemma RingInRange(prefix: string, columns: map<string, Log>, history: seq<Log>)
    requires Ring(prefix, columns, history)
    ensures if history == [] then forall c | c in columns :: !InRange(prefix, c)
      else history[|history| - 1].id in columns && InRange(prefix, history[|history| - 1].id)
  {
    if history != [] {
      FiledLog(prefix, history, |history| - 1);
      RecentHas(history, |history| - 1);
    }
  }

  /** A newest column holds a recent log that none of the recent ones is later than, and the other way round. */
  lemma NewestIsRecent(prefix: string, columns: map<string, Log>, history: seq<Log>, c: string) returns (i: nat)
    requires Ring(prefix, columns, history) && IsNewest(prefix, columns, c)
    ensures Oldest(|history|) <= i < |history| && columns[c] == history[i] && c == history[i].id
    ensures forall j | Oldest(|history|) <= j < |history| :: history[j].updated <= history[i].updated
  {
    i := RecentIndex(history, columns[c]);
    forall j | Oldest(|history|) <= j < |history| ensures history[j].updated <= history[i].updated {
      FiledLog(prefix, history, j);
      RecentHas(history, j);
      assert columns[history[j].id].updated <= columns[c].updated;
    }
  }

  lemma RecentIsNewest(prefix: string, columns: map<string, Log>, history: seq<Log>, i: nat)
    requires Ring(prefix, columns, history) && Oldest(|history|) <= i < |history|
    requires forall j | Oldest(|history|) <= j < |history| :: history[j].updated <= history[i].updated
    ensures IsNewest(prefix, columns, history[i].id)
  {
    FiledLog(prefix, history, i);
    RecentHas(history, i);
    forall d | d in columns && InRange(prefix, d) ensures columns[d].updated <= history[i].updated {
      var j := RecentIndex(history, columns[d]);
    }
  }

  lemma CurrentIdComesFrom(prefix: string, columns: map<string, Log>, id: Option<string>, c: string) returns (d: string)
    requires IsCurrentId(prefix, columns, id) && c in columns && InRange(prefix, c)
    ensures IsNewest(prefix, columns, d) && prefix + "_" <= d && id == Following(prefix, d)
  {
    d :| IsNewest(prefix, columns, d) && prefix + "_" <= d && id == Following(prefix, d);
  }

  lemma OnlyLastIsLatest(history: seq<Log>, i: nat)
    requires LastIsNewest(history) && Oldest(|history|) <= i < |history|
    requires forall j | Oldest(|history|) <= j < |history| :: history[j].updated <= history[i].updated
    ensures i == |history| - 1
  {
    var n := |history| - 1;
    assert history[n].updated <= history[i].updated;
  }

  lemma NewestIsLast(prefix: string, columns: map<string, Log>, history: seq<Log>, d: string)
    requires Ring(prefix, columns, history) && history != [] && LastIsNewest(history) && IsNewest(prefix, columns, d)
    ensures d == history[|history| - 1].id
  {
    var i := NewestIsRecent(prefix, columns, history, d);
    OnlyLastIsLatest(history, i);
  }

  lemma FirstColumn(prefix: string, columns: map<string, Log>, id: Option<string>)
    requires IsCurrentId(prefix, columns, id) && forall c | c in columns :: !InRange(prefix, c)
    ensures id == Some(SlotName(prefix, 0))
  {
  }

  /** Whatever newest log the range read finds, the next column is that of the next log. */
  lemma CurrentIdIsNext(prefix: string, columns: map<string, Log>, history: seq<Log>, id: Option<string>)
    requires Ring(prefix, columns, history) && LastIsNewest(history) && IsCurrentId(prefix, columns, id)
    ensures id == Some(SlotName(prefix, |history|))
  {
    RingInRange(prefix, columns, history);
    if history == [] {
      FirstColumn(prefix, columns, id);
    } else {
      var n := |history| - 1;
      var d := CurrentIdComesFrom(prefix, columns, id, history[n].id);
      NewestIsLast(prefix, columns, history, d);
      FiledLog(prefix, history, n);
    }
  }

  /** The index of a latest log among some. */
  lemma {:induction false} LatestOf(history: seq<Log>, from: nat, to: nat) returns (i: nat)
    requires from < to <= |history|
    ensures from <= i < to && forall j | from <= j < to :: history[j].updated <= history[i].updated
  {
    i := to - 1;
    if from < to - 1 {
      var k := LatestOf(history, from, to - 1);
      if history[k].updated > history[i].updated { i := k; }
    }
  }

  lemma NewestGivesId(prefix: string, columns: map<string, Log>, c: string)
    requires IsNewest(prefix, columns, c) && prefix + "_" <= c
    ensures IsCurrentId(prefix, columns, Following(prefix, c))
  {
  }

  lemma EarlierIsLatest(history: seq<Log>) returns (i: nat)
    requires !LastIsNewest(history)
    ensures Oldest(|history|) <= i < |history| - 1
    ensures forall j | Oldest(|history|) <= j < |history| :: history[j].updated <= history[i].updated
  {
    var n := |history|;
    var k :| Oldest(n) <= k < n - 1 && history[k].updated >= history[n - 1].updated;
    i := LatestOf(history, Oldest(n), n - 1);
    assert history[k].updated <= history[i].updated;
  }

  lemma {:induction false} EarlierIsNewest(prefix: string, columns: map<string, Log>, history: seq<Log>) returns (i: nat)
    requires Ring(prefix, columns, history) && !LastIsNewest(history)
    ensures Oldest(|history|) <= i < |history| - 1 && IsNewest(prefix, columns, history[i].id)
  {
    i := EarlierIsLatest(history);
    RecentIsNewest(prefix, columns, history, i);
  }

  /** After a newest log other than the last, its own successor's column is next, which is not the last one's. */
  lemma {:induction false} IdAfter(prefix: string, columns: map<string, Log>, i: nat, n: nat, c: string) returns (id: Option<string>)
    requires c == SlotName(prefix, i) && IsNewest(prefix, columns, c) && Oldest(n) <= i < n - 1
    ensures IsCurrentId(prefix, columns, id) && id != Some(SlotName(prefix, n))
  {
    FollowingSlot(prefix, i);
    NewestGivesId(prefix, columns, c);
    id := Following(prefix, c);
    SlotsDiffer(prefix, i + 1, n);
  }

  /** If the last log is not later than all the others stored, some newest log leads to another column. */
  lemma {:induction false} OtherColumnAllowed(prefix: string, columns: map<string, Log>, history: seq<Log>) returns (id: Option<string>)
    requires Ring(prefix, columns, history) && !LastIsNewest(history)
    ensures IsCurrentId(prefix, columns, id) && id != Some(SlotName(prefix, |history|))
  {
    var i := EarlierIsNewest(prefix, columns, history);
    assert Filed(prefix, history);
    id := IdAfter(prefix, columns, i, |history|, history[i].id);
  }

  /** The next column is right, whatever newest log the read finds, exactly when the last log written is later than the
      other stored ones: something a caller can see before writing. */
  lemma NextColumnIsRightExactly(prefix: string, columns: map<string, Log>, history: seq<Log>)
    requires Ring(prefix, columns, history)
    ensures (forall id | IsCurrentId(prefix, columns, id) :: id == Some(SlotName(prefix, |history|))) <==> LastIsNewest(history)
  {
    if LastIsNewest(history) {
      forall id | IsCurrentId(prefix, columns, id) ensures id == Some(SlotName(prefix, |history|)) {
        CurrentIdIsNext(prefix, columns, history, id);
      }
    } else {
      var id := OtherColumnAllowed(prefix, columns, history);
    }
  }

  /** The column of the next log is free, or holds the oldest of the last five. */
  lemma NextColumn(prefix: string, history: seq<Log>, l: Log)
    requires Filed(prefix, history) && l in Recent(history)
    ensures l.id == SlotName(prefix, |history|) <==> |history| >= BOUNDS && l == history[|history| - BOUNDS]
  {
    var i := RecentIndex(history, l);
    SlotsDiffer(prefix, i, |history|);
    if |history| >= BOUNDS && l == history[|history| - BOUNDS] { SlotsDiffer(prefix, |history| - BOUNDS, |history|); }
  }

  lemma NextColumnIsFreeOrOldest(prefix: string, columns: map<string, Log>, history: seq<Log>)
    requires Ring(prefix, columns, history)
    ensures var c, n := SlotName(prefix, |history|), |history|;
      if n < BOUNDS then c !in columns else c in columns && columns[c] == history[n - BOUNDS]
  {
    var c, n := SlotName(prefix, |history|), |history|;
    Slots(prefix, BOUNDS - n % BOUNDS);
    if c in columns { NextColumn(prefix, history, columns[c]); }
    if n >= BOUNDS {
      RecentHas(history, n - BOUNDS);
      NextColumn(prefix, history, history[n - BOUNDS]);
    }
  }

  lemma RecentSnoc(prefix: string, history: seq<Log>, log: Log, l: Log)
    requires Filed(prefix, history)
    ensures l in Recent(history + [log]) <==>
      l == log || (l in Recent(history) && (|history| >= BOUNDS ==> l != history[|history| - BOUNDS]))
  {
    var n := |history|;
    var after := history + [log];
    if n >= BOUNDS {
      assert Recent(history) == [history[n - BOUNDS]] + history[n - BOUNDS + 1..];
      assert Recent(after) == history[n - BOUNDS + 1..] + [log];
      if l in history[n - BOUNDS + 1..] {
        var k :| 0 <= k < BOUNDS - 1 && history[n - BOUNDS + 1..][k] == l;
        SlotsDiffer(prefix, n - BOUNDS, n - BOUNDS + 1 + k);
      }
    } else {
      assert Recent(after) == Recent(history) + [log];
    }
  }

  lemma StoredAfter(prefix: string, columns: map<string, Log>, history: seq<Log>, log: Log)
    requires Filed(prefix, history) && Stored(columns, Recent(history)) && log.id == SlotName(prefix, |history|)
    ensures Stored(columns[log.id := log], Recent(history + [log]))
  {
    var after := columns[log.id := log];
    forall l | l in Recent(history + [log]) ensures l.id in after && after[l.id] == l {
      RecentSnoc(prefix, history, log, l);
      if l in Recent(history) { NextColumn(prefix, history, l); }
    }
  }

  lemma OnlyRecentAfter(prefix: string, columns: map<string, Log>, history: seq<Log>, log: Log)
    requires Ring(prefix, columns, history) && log.id == SlotName(prefix, |history|)
    ensures OnlyRecent(prefix, columns[log.id := log], Recent(history + [log]))
  {
    var after := columns[log.id := log];
    forall c | c in after && InRange(prefix, c) ensures after[c] in Recent(history + [log]) {
      RecentSnoc(prefix, history, log, after[c]);
      if c != log.id { NextColumn(prefix, history, columns[c]); }
    }
  }

  lemma FiledSnoc(prefix: string, history: seq<Log>, log: Log)
    requires Filed(prefix, history) && log.id == SlotName(prefix, |history|)
    ensures Filed(prefix, history + [log])
  {
  }

  /** Writing the next log in that column keeps the ring, whatever its time. */
  lemma RingWrite(prefix: string, columns: map<string, Log>, history: seq<Log>, log: Log)
    requires Ring(prefix, columns, history) && log.id == SlotName(prefix, |history|)
    ensures Ring(prefix, columns[log.id := log], history + [log])
  {
    FiledSnoc(prefix, history, log);
    StoredAfter(prefix, columns, history, log);
    OnlyRecentAfter(prefix, columns, history, log);
  }

  /** A column outside the range can be written without touching the ring. */
  lemma OtherColumnsDoNotMatter(prefix: string, columns: map<string, Log>, history: seq<Log>, log: Log)
    requires Ring(prefix, columns, history) && !InRange(prefix, log.id)
    ensures Ring(prefix, columns[log.id := log], history)
  {
    var after := columns[log.id := log];
    forall l | l in Recent(history) ensures l.id in after && after[l.id] == l {
      var i := RecentIndex(history, l);
      FiledLog(prefix, history, i);
    }
  }

  // ---- Several hosts ----

  /** No host's name continues another's with a `_`. */
  ghost predicate Apart(hosts: set<string>) {
    forall h1, h2 | h1 in hosts && h2 in hosts && h1 != h2 :: !(h1 + "_" <= h2)
  }

  /** Every host has its ring, and beside them there is only the last configuration. */
  ghost predicate Rings(columns: map<string, Log>, histories: map<string, seq<Log>>) {
    WellNamed(columns) && Apart(histories.Keys) &&
    (forall h | h in histories :: Ring(h, columns, histories[h])) &&
    (forall c | c in columns && c != LAST_CONFIG_LOG_ID :: exists h :: h in histories && columns[c] in Recent(histories[h]))
  }

  lemma RingsWriteRing(columns: map<string, Log>, histories: map<string, seq<Log>>, prefix: string, log: Log, h: string)
    requires Rings(columns, histories) && prefix in histories && log.id == SlotName(prefix, |histories[prefix]|)
    requires h in histories
    ensures Ring(h, columns[log.id := log], if h == prefix then histories[h] + [log] else histories[h])
  {
    if h == prefix {
      RingWrite(prefix, columns, histories[prefix], log);
    } else {
      if InRange(h, log.id) { RangeSkipsOthers(h, prefix, BOUNDS - |histories[prefix]| % BOUNDS); }
      OtherColumnsDoNotMatter(h, columns, histories[h], log);
    }
  }

  lemma RingsWriteOnly(columns: map<string, Log>, histories: map<string, seq<Log>>, prefix: string, log: Log, c: string)
    returns (h: string)
    requires Rings(columns, histories) && prefix in histories && log.id == SlotName(prefix, |histories[prefix]|)
    requires c in columns[log.id := log] && c != LAST_CONFIG_LOG_ID
    ensures h in histories
    ensures columns[log.id := log][c] in Recent(if h == prefix then histories[h] + [log] else histories[h])
  {
    if c == log.id {
      h := prefix;
      RecentSnoc(prefix, histories[prefix], log, log);
    } else {
      h :| h in histories && columns[c] in Recent(histories[h]);
      if h == prefix {
        NextColumn(prefix, histories[prefix], columns[c]);
        RecentSnoc(prefix, histories[prefix], log, columns[c]);
      }
    }
  }

  lemma RingsWrite(columns: map<string, Log>, histories: map<string, seq<Log>>, prefix: string, log: Log)
    requires Rings(columns, histories) && prefix in histories && log.id == SlotName(prefix, |histories[prefix]|)
    ensures Rings(columns[log.id := log], histories[prefix := histories[prefix] + [log]])
  {
    var after, hs := columns[log.id := log], histories[prefix := histories[prefix] + [log]];
    assert hs.Keys == histories.Keys;
    forall h | h in hs ensures Ring(h, after, hs[h]) { RingsWriteRing(columns, histories, prefix, log, h); }
    forall c | c in after && c != LAST_CONFIG_LOG_ID ensures exists h :: h in hs && after[c] in Recent(hs[h]) {
      var h := RingsWriteOnly(columns, histories, prefix, log, c);
      assert after[c] in Recent(hs[h]);
    }
  }

  /** What a call that stores a log does to the rings. */
  lemma RingsStore(columns: map<string, Log>, histories: map<string, seq<Log>>, prefix: string, log: Log, ok: bool, columns': map<string, Log>)
    requires Rings(columns, histories) && prefix in histories && LastIsNewest(histories[prefix])
    requires StoredAsAllowed(prefix, columns, log, ok, columns')
    ensures var stored := log.(id := SlotName(prefix, |histories[prefix]|));
      ok && stored.id != LAST_CONFIG_LOG_ID && columns' == columns[stored.id := stored] &&
      Rings(columns', histories[prefix := histories[prefix] + [stored]])
  {
    var id :| IsCurrentId(prefix, columns, id) && ok == id.Some? &&
      columns' == if ok then columns[id.value := log.(id := id.value)] else columns;
    CurrentIdIsNext(prefix, columns, histories[prefix], id);
    Slots(prefix, BOUNDS - |histories[prefix]| % BOUNDS);
    RingsWrite(columns, histories, prefix, log.(id := id.value));
  }

  lemma RingsLast(columns: map<string, Log>, histories: map<string, seq<Log>>, log: Log)
    requires Rings(columns, histories) && log.id == LAST_CONFIG_LOG_ID
    ensures Rings(columns[log.id := log], histories)
  {
    forall h | h in histories ensures Ring(h, columns[log.id := log], histories[h]) {
      RangeSkipsLast(h);
      OtherColumnsDoNotMatter(h, columns, histories[h], log);
    }
  }

  // ---- Listing ----

  /** The last five logs, newest first. */
  function NewestFirst(history: seq<Log>): seq<Log> {
    seq(|history| - Oldest(|history|), i requires 0 <= i < |history| - Oldest(|history|) => history[|history| - 1 - i])
  }

  ghost function ChangeLogs(columns: map<string, Log>): set<Log> {
    LogsOf(columns, set c | c in columns && columns[c].id != LAST_CONFIG_LOG_ID)
  }

  /** The logs listed are those of all the rings. */
  lemma ChangeLogsAreRecent(columns: map<string, Log>, histories: map<string, seq<Log>>, x: Log)
    requires Rings(columns, histories)
    ensures x in ChangeLogs(columns) <==> exists h :: h in histories && x in Recent(histories[h])
  {
    if h :| h in histories && x in Recent(histories[h]) {
      var i := RecentIndex(histories[h], x);
      FiledLog(h, histories[h], i);
      assert columns[x.id] == x;
    }
  }

  lemma NewestFirstIsRecent(history: seq<Log>, x: Log)
    ensures x in NewestFirst(history) <==> x in Recent(history)
  {
    var logs := NewestFirst(history);
    if x in Recent(history) {
      var i := RecentIndex(history, x);
      assert logs[|history| - 1 - i] == x;
    }
    if x in logs {
      var k :| 0 <= k < |logs| && logs[k] == x;
      assert Recent(history)[|logs| - 1 - k] == x;
    }
  }

  /** The stored logs have later and later times. */
  predicate Increasing(history: seq<Log>) {
    forall i, j | Oldest(|history|) <= i < j < |history| :: history[i].updated < history[j].updated
  }

  lemma NewestFirstDistinct(prefix: string, history: seq<Log>, i: nat, j: nat)
    requires Filed(prefix, history) && i < j < |NewestFirst(history)|
    ensures NewestFirst(history)[i] != NewestFirst(history)[j]
  {
    SlotsDiffer(prefix, |history| - 1 - j, |history| - 1 - i);
  }

  /** A listing: the stored logs in some order by time, the latest first. */
  ghost predicate IsListing(history: seq<Log>, r: seq<Log>) {
    multiset(r) == multiset(NewestFirst(history)) && SortedBy(NewerFirst, r)
  }

  lemma IncreasingListing(history: seq<Log>, r: seq<Log>)
    requires Increasing(history) && IsListing(history, r)
    ensures r == NewestFirst(history)
  {
    SortedUnique(NewerFirst, NewestFirst(history), r);
  }

  lemma Swap(s: seq<Log>, k: nat) returns (r: seq<Log>)
    requires k + 1 < |s| && SortedBy(NewerFirst, s) && s[k].updated == s[k + 1].updated && s[k] != s[k + 1]
    ensures multiset(r) == multiset(s) && SortedBy(NewerFirst, r) && r != s
  {
    r := s[k := s[k + 1]][k + 1 := s[k]];
    assert r[k] != s[k];
  }

  lemma SwappedListing(history: seq<Log>, k: nat) returns (r: seq<Log>)
    requires SortedBy(NewerFirst, NewestFirst(history)) && Oldest(|history|) <= k < |history| - 1
    requires history[k].updated == history[k + 1].updated && history[k] != history[k + 1]
    ensures IsListing(history, r) && r != NewestFirst(history)
  {
    var i := |history| - 2 - k;
    NewestFirstAt(history, i);
    NewestFirstAt(history, i + 1);
    r := Swap(NewestFirst(history), i);
  }

  lemma NewestFirstAt(history: seq<Log>, i: nat)
    requires i < |history| - Oldest(|history|)
    ensures |NewestFirst(history)| == |history| - Oldest(|history|) && NewestFirst(history)[i] == history[|history| - 1 - i]
  {
  }

  lemma OtherListing(prefix: string, history: seq<Log>) returns (r: seq<Log>)
    requires Filed(prefix, history) && !Increasing(history)
    ensures IsListing(history, r) && r != NewestFirst(history)
  {
    if SortedBy(NewerFirst, NewestFirst(history)) {
      var k := Tie(history);
      SlotsDiffer(prefix, k, k + 1);
      r := SwappedListing(history, k);
    } else {
      StableSortSorts(NewerFirst, NewestFirst(history));
      r := StableSort(NewerFirst, NewestFirst(history));
    }
  }

  lemma {:induction false} DipBetween(history: seq<Log>, i: nat, j: nat) returns (k: nat)
    requires i < j < |history| && history[i].updated >= history[j].updated
    ensures i <= k < j && history[k].updated >= history[k + 1].updated
    decreases j - i
  {
    k := i;
    if history[i].updated < history[i + 1].updated { k := DipBetween(history, i + 1, j); }
  }

  /** Sorted but not increasing, two neighbours have the same time. */
  lemma Tie(history: seq<Log>) returns (k: nat)
    requires SortedBy(NewerFirst, NewestFirst(history)) && !Increasing(history)
    ensures Oldest(|history|) <= k < |history| - 1 && history[k].updated == history[k + 1].updated
  {
    var n, logs := |history|, NewestFirst(history);
    var i, j :| Oldest(n) <= i < j < n && history[i].updated >= history[j].updated;
    k := DipBetween(history, i, j);
    assert NewerFirst(logs[n - 2 - k], logs[n - 1 - k]);
  }

  /** Every listing gives the newest first in the order written exactly when the times stored increase. */
  lemma ListingIsNewestFirstExactly(prefix: string, history: seq<Log>)
    requires Filed(prefix, history)
    ensures (forall r | IsListing(history, r) :: r == NewestFirst(history)) <==> Increasing(history)
  {
    if Increasing(history) {
      forall r | IsListing(history, r) ensures r == NewestFirst(history) { IncreasingListing(history, r); }
    } else {
      var r := OtherListing(prefix, history);
    }
  }

  lemma ListedOnce(r: seq<Log>, all: set<Log>)
    requires multiset(r) == multiset(all)
    ensures forall l :: l in r <==> l in all
    ensures forall i, j | 0 <= i < j < |r| :: r[i] != r[j]
  {
    forall l ensures l in r <==> l in all { assert l in r <==> l in multiset(r); }
    forall i, j | 0 <= i < j < |r| ensures r[i] != r[j] {
      if r[i] == r[j] { TwoCopies(r, i, j); }
    }
  }

  lemma SingleHostListing(columns: map<string, Log>, histories: map<string, seq<Log>>, prefix: string, r: seq<Log>)
    requires Rings(columns, histories) && histories.Keys == {prefix}
    requires multiset(r) == multiset(ChangeLogs(columns)) && SortedBy(NewerFirst, r)
    ensures IsListing(histories[prefix], r)
  {
    var history := histories[prefix];
    var logs := NewestFirst(history);
    forall x ensures x in logs <==> x in ChangeLogs(columns) {
      ChangeLogsAreRecent(columns, histories, x);
      NewestFirstIsRecent(history, x);
      if x in Recent(history) { assert prefix in histories; }
    }
    forall i, j | 0 <= i < j < |logs| ensures logs[i] != logs[j] { NewestFirstDistinct(prefix, history, i, j); }
    DistinctIsSet(logs, ChangeLogs(columns));
  }

  // ---- One device's row ----

  /** The row after one call: unchanged when refused, and otherwise with the log under an allowed column. */
  ghost predicate StoredAsAllowed(prefix: string, columns: map<string, Log>, log: Log, ok: bool, columns': map<string, Log>) {
    exists id :: IsCurrentId(prefix, columns, id) && ok == id.Some? &&
      columns' == if ok then columns[id.value := log.(id := id.value)] else columns
  }

  method Store(prefix: string, columns: map<string, Log>, log: Log) returns (ok: bool, r: map<string, Log>)
    requires WellNamed(columns)
    ensures WellNamed(r) && StoredAsAllowed(prefix, columns, log, ok, r)
  {
    var id := GetCurrentId(prefix, columns);
    ok, r := id.Some?, columns;
    if ok { r := columns[id.value := log.(id := id.value)]; }
  }

  class DeviceLogs {
    var columns: map<string, Log>
    /** What each host has written, and the last configuration. */
    ghost var histories: map<string, seq<Log>>
    ghost var last: Option<Log>

    ghost predicate Valid()
      reads this
    {
      Rings(columns, histories) &&
      last == if LAST_CONFIG_LOG_ID in columns then Some(columns[LAST_CONFIG_LOG_ID]) else None
    }

    constructor (ghost hosts: set<string>)
      requires Apart(hosts)
      ensures Valid() && histories == (map h | h in hosts :: []) && last == None
    {
      columns, last := map[], None;
      histories := map h | h in hosts :: [];
    }

    /** On any row the log goes to the column after a newest log's, or is refused when that has no number. On rings, when
        the host's last log is later than its other stored ones, it always gets a column: a free one while there are
        any, then the oldest log's. */
    method SetConfigChangeLog(prefix: string, log: Log) returns (ok: bool)
      requires WellNamed(columns)
      modifies this
      ensures WellNamed(columns) && StoredAsAllowed(prefix, old(columns), log, ok, columns)
      ensures old(Valid()) && prefix in old(histories) && LastIsNewest(old(histories)[prefix]) ==>
        ok && Valid() && last == old(last) &&
        histories == old(histories)[prefix := old(histories)[prefix] + [log.(id := SlotName(prefix, |old(histories)[prefix]|))]]
    {
      ghost var before := columns;
      ok, columns := Store(prefix, columns, log);
      if prefix in histories && Rings(before, histories) && LastIsNewest(histories[prefix]) {
        RingsStore(before, histories, prefix, log, ok, columns);
        histories := histories[prefix := histories[prefix] + [log.(id := SlotName(prefix, |histories[prefix]|))]];
      }
    }

    method SetLastConfigLog(log: Log)
      requires WellNamed(columns) && log.id == LAST_CONFIG_LOG_ID
      modifies this
      ensures columns == old(columns)[LAST_CONFIG_LOG_ID := log] && last == Some(log) && histories == old(histories)
      ensures old(Valid()) ==> Valid()
    {
      if Rings(columns, histories) { RingsLast(columns, histories, log); }
      columns := columns[LAST_CONFIG_LOG_ID := log];
      last := Some(log);
    }

    method GetLastConfigLog() returns (r: Option<Log>)
      requires Valid()
      ensures r == last
    {
      r := if LAST_CONFIG_LOG_ID in columns then Some(columns[LAST_CONFIG_LOG_ID]) else None;
    }

    /** All the stored change logs by time, the latest first: on rings, the last five of every host; and for one host
        with increasing times, its last five in the order written, newest first. */
    method GetConfigChangeLogsOnly() returns (r: seq<Log>)
      requires WellNamed(columns)
      ensures multiset(r) == multiset(ChangeLogs(columns)) && SortedBy(NewerFirst, r)
      ensures forall l :: l in r <==> exists c :: c in columns && columns[c] == l && l.id != "0"
      ensures forall i, j | 0 <= i < j < |r| :: r[i].updated >= r[j].updated && r[i] != r[j]
      ensures Valid() ==> forall l :: l in r <==> exists h :: h in histories && l in Recent(histories[h])
      ensures forall p | Valid() && histories.Keys == {p} && Increasing(histories[p]) :: r == NewestFirst(histories[p])
    {
      var names := set c | c in columns && columns[c].id != LAST_CONFIG_LOG_ID;
      var configLogs := Collect(columns, names);
      r := SortSeq(NewerFirst, configLogs);
      ListedOnce(r, ChangeLogs(columns));
      forall l | Valid() ensures l in r <==> exists h :: h in histories && l in Recent(histories[h]) {
        assert l in r <==> l in multiset(ChangeLogs(columns));
        ChangeLogsAreRecent(columns, histories, l);
      }
      forall p | Valid() && histories.Keys == {p} && Increasing(histories[p]) ensures r == NewestFirst(histories[p]) {
        SingleHostListing(columns, histories, p, r);
        IncreasingListing(histories[p], r);
      }
    }
  }
}
