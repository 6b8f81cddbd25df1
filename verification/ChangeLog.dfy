/** Change-log records and what applying them does to one server's cache. */
module ChangeLog {
  import opened Common
  import AppCache

  datatype Op = Create | Update | Delete | Truncate

  /** A log record. The serial is the number of the database write it announces; the code never
      looks at it. */
  datatype Record = Record(stamp: nat, origin: string, table: string, changedKey: string, op: Op,
                           daoId: int, validCacheSize: int, serial: nat)

  /** A database cell remembers the number and the origin of its last write; None is a deleted row. */
  datatype Cell = Cell(serial: nat, origin: string, value: Option<string>)
  datatype Entry = Entry(serial: nat, value: string)
  type Database = map<Slot, Cell>
  type Cache = map<Slot, Entry>

  /** keepsOld says what the cache library does when a reload finds no row or cannot read: keep the
      entry it had, or drop it. */
  datatype Config = Config(self: string, tables: set<string>, keepsOld: bool)

  /** Some writers put the key in double quotes. */
  function Unquote(key: string): string {
    if |key| > 1 && key[0] == '"' && key[|key| - 1] == '"' then key[1..|key| - 1] else key
  }

  /** One pair of double quotes around a key is taken off, and nothing else. */
  lemma UnquoteExactly(key: string)
    ensures forall inner | key == "\"" + inner + "\"" :: Unquote(key) == inner
    ensures Unquote(key) == key || key == "\"" + Unquote(key) + "\""
  {
  }

  function Target(r: Record): Slot { Slot(r.table, Unquote(r.changedKey)) }

  predicate WellFormed(r: Record) {
    r.table != "" && Unquote(r.changedKey) != "" && r.daoId != 0 && r.validCacheSize != 0
  }

  predicate FromSelf(cfg: Config, r: Record) { r.origin != "" && r.origin == cfg.self }

  predicate Relevant(cfg: Config, r: Record) { WellFormed(r) && !FromSelf(cfg, r) }

  function TableSize(cache: Cache, table: string): nat {
    |set s | s in cache && s.table == table|
  }

  lemma TableSizeIsRows(cache: Cache, table: string)
    ensures TableSize(cache, table) == |TableRows(cache, table)|
  {
    assert TableRows(cache, table).Keys == set s | s in cache && s.table == table;
  }

  // ---- The cache's own operations ----

  predicate InDb(db: Database, s: Slot) { s in db && db[s].value.Some? }

  function Current(db: Database, s: Slot): Entry
    requires InDb(db, s)
  {
    Entry(db[s].serial, db[s].value.value)
  }

  /** Refresh a key, then Get it: whether Get finds a value. */
  function Reload(cfg: Config, db: Database, cache: Cache, s: Slot, readOk: bool): (Cache, bool) {
    if readOk && InDb(db, s) then (cache[s := Current(db, s)], true)
    else if cfg.keepsOld && s in cache then (cache, true)
    else (cache - {s}, false)
  }

  /** RefreshAll of a table: emptied first, then filled unless the read fails. */
  function RefreshedTables(db: Database, cache: Cache, tables: set<string>, readOk: string -> bool): Cache {
    (map s | s in cache && s.table !in tables :: cache[s]) +
    (map s | s in db && s.table in tables && readOk(s.table) && InDb(db, s) :: Current(db, s))
  }

  /** One table of it. */
  function RefreshedTable(db: Database, cache: Cache, table: string, readOk: bool): Cache {
    (map s | s in cache && s.table != table :: cache[s]) +
    if readOk then (map s | s in db && s.table == table && InDb(db, s) :: Current(db, s)) else map[]
  }

  lemma {:induction false} OneMoreAt(db: Database, cache: Cache, done: set<string>, t: string, readOk: string -> bool, s: Slot)
    ensures var a, b := RefreshedTables(db, cache, done + {t}, readOk),
        RefreshedTable(db, RefreshedTables(db, cache, done, readOk), t, readOk(t));
      (s in a <==> s in b) && (s in a ==> a[s] == b[s])
  {
  }

  lemma {:induction false} OneMoreTable(db: Database, cache: Cache, done: set<string>, t: string, readOk: string -> bool)
    ensures RefreshedTables(db, cache, done + {t}, readOk) ==
      RefreshedTable(db, RefreshedTables(db, cache, done, readOk), t, readOk(t))
  {
    forall s: Slot { OneMoreAt(db, cache, done, t, readOk, s); }
  }

  // ---- One record ----

  datatype Outcome = Continue | Stop(ok: bool)
  datatype Applied = Applied(cache: Cache, small: set<string>, outcome: Outcome)

  function ApplyRecord(cfg: Config, db: Database, cache: Cache, small: set<string>, r: Record, readOk: bool): Applied {
    if !Relevant(cfg, r) then Applied(cache, small, Continue)
    else if r.table !in cfg.tables then Applied(cache, small, Stop(false))
    else match r.op
      case Create => Loaded(cfg, db, cache, small, r, readOk)
      case Update => Loaded(cfg, db, cache, small, r, readOk)
      case Delete => SizeChecked(cache - {Target(r)}, small, r)
      case Truncate => Applied(map s | s in cache && s.table != r.table :: cache[s], small, Stop(true))
  }

  function Loaded(cfg: Config, db: Database, cache: Cache, small: set<string>, r: Record, readOk: bool): Applied {
    var (cache', found) := Reload(cfg, db, cache, Target(r), readOk);
    if found then SizeChecked(cache', small, r) else Applied(cache', small, Stop(false))
  }

  function SizeChecked(cache: Cache, small: set<string>, r: Record): Applied {
    Applied(cache, if TableSize(cache, r.table) < r.validCacheSize then small + {r.table} else small, Continue)
  }

  /** A list of records; the k-th read of the database succeeds when readable(k). */
  function ApplyAll(cfg: Config, db: Database, cache: Cache, small: set<string>, list: seq<Record>, readable: nat -> bool, k: nat): Applied
    decreases |list|
  {
    if list == [] then Applied(cache, small, Stop(true))
    else
      var a := ApplyRecord(cfg, db, cache, small, list[0], readable(k));
      if a.outcome.Stop? then a else ApplyAll(cfg, db, a.cache, a.small, list[1..], readable, k + 1)
  }

  // ---- Values derived from a table's rows ----

  /** A value in the application cache, known by the rows of its table that it was computed from. */
  datatype Derived = Derived(table: string, rows: Cache)
  type DerivedValues = map<string, Derived>

  function TableRows(cache: Cache, table: string): Cache {
    map s | s in cache && s.table == table :: cache[s]
  }

  /** Each derived value is filed under its table's name and is that of the rows now cached. */
  ghost predicate Coherent(cache: Cache, derived: DerivedValues) {
    forall k | k in derived :: AppCache.HasPrefix(k, derived[k].table) && derived[k].rows == TableRows(cache, derived[k].table)
  }

  /** Prefix invalidation of some tables. */
  function Dropped(derived: DerivedValues, tables: set<string>): DerivedValues {
    map k | k in derived && forall t | t in tables :: !AppCache.HasPrefix(k, t) :: derived[k]
  }

  lemma DroppedTwice(derived: DerivedValues, first: set<string>, second: set<string>)
    ensures Dropped(Dropped(derived, first), second) == Dropped(derived, first + second)
  {
  }

  function Readable(tables: set<string>, readOk: string -> bool): set<string> {
    set t | t in tables && readOk(t)
  }

  lemma OneMoreDropped(derived: DerivedValues, done: set<string>, t: string, readOk: string -> bool)
    ensures Dropped(derived, Readable(done + {t}, readOk)) ==
      Dropped(Dropped(derived, Readable(done, readOk)), if readOk(t) then {t} else {})
  {
    DroppedTwice(derived, Readable(done, readOk), if readOk(t) then {t} else {});
    assert Readable(done + {t}, readOk) == Readable(done, readOk) + if readOk(t) then {t} else {};
  }

  /** The loop over the records comes to their end. */
  function Ended(cfg: Config, db: Database, cache: Cache, small: set<string>, list: seq<Record>, readable: nat -> bool, k: nat): bool
    decreases |list|
  {
    list == [] ||
    var a := ApplyRecord(cfg, db, cache, small, list[0], readable(k));
    a.outcome.Continue? && Ended(cfg, db, a.cache, a.small, list[1..], readable, k + 1)
  }

  /** The tables of the records taken before the loop ended or stopped. */
  function Changed(cfg: Config, db: Database, cache: Cache, small: set<string>, list: seq<Record>, readable: nat -> bool, k: nat): set<string>
    decreases |list|
  {
    if list == [] then {}
    else
      var a := ApplyRecord(cfg, db, cache, small, list[0], readable(k));
      if a.outcome.Stop? then {}
      else (if Relevant(cfg, list[0]) then {list[0].table} else {}) + Changed(cfg, db, a.cache, a.small, list[1..], readable, k + 1)
  }

  /** The tables done are refreshed, and the derived values of those that could be read are gone. */
  ghost predicate RefreshedSoFar(db: Database, before: Cache, was: DerivedValues, done: set<string>, readOk: string -> bool,
    cache: Cache, derived: DerivedValues)
  {
    cache == RefreshedTables(db, before, done, readOk) && derived == Dropped(was, Readable(done, readOk))
  }

  lemma {:induction false} NothingRefreshed(db: Database, before: Cache, was: DerivedValues, readOk: string -> bool)
    ensures RefreshedSoFar(db, before, was, {}, readOk, before, was)
  {
    assert RefreshedTables(db, before, {}, readOk) == before;
    assert Readable({}, readOk) == {};
  }

  lemma {:induction false} OneMoreRefreshed(db: Database, before: Cache, was: DerivedValues, done: set<string>, t: string,
    readOk: string -> bool, cache: Cache, derived: DerivedValues)
    requires RefreshedSoFar(db, before, was, done, readOk, cache, derived)
    ensures RefreshedSoFar(db, before, was, done + {t}, readOk, RefreshedTable(db, cache, t, readOk(t)),
      Dropped(derived, if readOk(t) then {t} else {}))
  {
    OneMoreTable(db, before, done, t, readOk);
    OneMoreDropped(was, done, t, readOk);
  }

  function Failing(tables: set<string>, readOk: string -> bool): (failing: set<string>)
    ensures forall t :: t in failing <==> t in tables && !readOk(t)
  {
    set t | t in tables && !readOk(t)
  }

  lemma OneMoreFailing(done: set<string>, t: string, readOk: string -> bool)
    ensures Failing(done + {t}, readOk) == if readOk(t) then Failing(done, readOk) else Failing(done, readOk) + {t}
  {
  }

  /** The rows of the tables are the database's where it can be read, and gone where not; all others are as before. */
  ghost predicate Reloaded(db: Database, before: Cache, tables: set<string>, readOk: string -> bool, after: Cache) {
    (forall s: Slot :: s in after <==>
      if s.table in tables then readOk(s.table) && s in db && db[s].value.Some? else s in before) &&
    (forall s: Slot | s in after :: after[s] == if s.table in tables then Entry(db[s].serial, db[s].value.value) else before[s])
  }

  lemma {:induction false} ReloadedTables(db: Database, before: Cache, tables: set<string>, readOk: string -> bool)
    ensures Reloaded(db, before, tables, readOk, RefreshedTables(db, before, tables, readOk))
  {
    var after := RefreshedTables(db, before, tables, readOk);
    forall s: Slot ensures s in after <==> if s.table in tables then readOk(s.table) && s in db && db[s].value.Some? else s in before {
      ReloadedTablesMirror(db, before, tables, readOk, s);
    }
    forall s: Slot | s in after ensures after[s] == if s.table in tables then Entry(db[s].serial, db[s].value.value) else before[s] {
      ReloadedTablesMirror(db, before, tables, readOk, s);
    }
  }

  // ---- The server ----

  class CacheManager {
    const cfg: Config
    var cache: Cache
    var derived: DerivedValues

    constructor (cfg: Config, cache: Cache)
      ensures this.cfg == cfg && this.cache == cache && derived == map[]
    {
      this.cfg, this.cache, derived := cfg, cache, map[];
    }

    /** RefreshAll of one table: everything is dropped first, then put back row by row, and then the derived values go. */
    method RefreshTable(db: Database, table: string, readOk: bool)
      modifies this
      ensures cache == RefreshedTable(db, old(cache), table, readOk)
      ensures derived == Dropped(old(derived), if readOk then {table} else {})
      ensures forall s: Slot | s.table == table :: s in cache <==> readOk && s in db && db[s].value.Some?
      ensures forall s: Slot | s.table == table && s in cache :: cache[s] == Entry(db[s].serial, db[s].value.value)
      ensures forall s: Slot | s.table != table :: (s in cache <==> s in old(cache)) && (s in cache ==> cache[s] == old(cache)[s])
      ensures forall k :: k in derived <==> k in old(derived) && !(readOk && table <= k)
    {
      cache := map s | s in cache && s.table != table :: cache[s];
      if readOk {
        PutAll(map s | s in db && s.table == table && InDb(db, s) :: Current(db, s));
        derived := Dropped(derived, {table});
      } else {
        assert cache + map[] == cache;
      }
    }

    method PutAll(entries: Cache)
      modifies this`cache
      ensures cache == old(cache) + entries
    {
      var todo := entries.Keys;
      ghost var base := cache;
      while todo != {}
        invariant todo <= entries.Keys
        invariant cache.Keys == base.Keys + (entries.Keys - todo)
        invariant forall s | s in cache :: cache[s] == if s in entries && s !in todo then entries[s] else base[s]
        decreases |todo|
      {
        var k :| k in todo;
        cache := cache[k := entries[k]];
        todo := todo - {k};
      }
      assert cache == base + entries;
    }

    /** The tables in any order. */
    method RefreshTables(db: Database, tables: set<string>, readOk: string -> bool)
      modifies this
      ensures cache == RefreshedTables(db, old(cache), tables, readOk)
      ensures derived == Dropped(old(derived), Readable(tables, readOk))
      ensures Reloaded(db, old(cache), tables, readOk, cache)
    {
      var todo := tables;
      ghost var before, was := cache, derived;
      ReloadedTables(db, before, tables, readOk);
      NothingRefreshed(db, before, was, readOk);
      assert tables - todo == {};
      while todo != {}
        invariant todo <= tables
        invariant RefreshedSoFar(db, before, was, tables - todo, readOk, cache, derived)
        decreases |todo|
      {
        var t :| t in todo;
        OneMoreRefreshed(db, before, was, tables - todo, t, readOk, cache, derived);
        assert tables - (todo - {t}) == tables - todo + {t};
        RefreshTable(db, t, readOk(t));
        todo := todo - {t};
      }
      assert tables - todo == tables;
    }

    /** Refreshes every cached table, whatever becomes of the others; the tables that failed. */
    method RefreshAll(db: Database, readOk: string -> bool) returns (failedToRefreshTables: set<string>)
      modifies this
      ensures cache == RefreshedTables(db, old(cache), cfg.tables, readOk)
      ensures derived == Dropped(old(derived), Readable(cfg.tables, readOk))
      ensures failedToRefreshTables == Failing(cfg.tables, readOk)
    {
      failedToRefreshTables := {};
      var tables := cfg.tables;
      var todo := tables;
      ghost var before, was := cache, derived;
      NothingRefreshed(db, before, was, readOk);
      assert tables - todo == {};
      while todo != {}
        invariant todo <= tables && failedToRefreshTables == Failing(tables - todo, readOk)
        invariant RefreshedSoFar(db, before, was, tables - todo, readOk, cache, derived)
        decreases |todo|
      {
        var t :| t in todo;
        ghost var done := tables - todo;
        OneMoreRefreshed(db, before, was, done, t, readOk, cache, derived);
        OneMoreFailing(done, t, readOk);
        RefreshTable(db, t, readOk(t));
        if !readOk(t) { failedToRefreshTables := failedToRefreshTables + {t}; }
        todo := todo - {t};
        assert tables - todo == done + {t};
      }
      assert tables - todo == tables;
    }

    /** What the code does with a list of records, with the derived values of the changed tables when the list is
        finished, and with the tables found too small on every exit. */
    method ApplyChanges(db: Database, list: seq<Record>, readable: nat -> bool, refreshOk: string -> bool) returns (ok: bool, small: set<string>)
      modifies this
      ensures var a := ApplyAll(cfg, db, old(cache), {}, list, readable, 0);
        a.outcome == Stop(ok) && small == a.small && cache == RefreshedTables(db, a.cache, a.small, refreshOk)
      ensures cache == Final(cfg, db, old(cache), list, readable, refreshOk)
      ensures derived == DerivedAfter(cfg, db, old(cache), list, readable, refreshOk, old(derived))
      ensures forall k :: k in derived <==> k in old(derived) && !Outdated(cfg, list, ok, small, refreshOk, k)
    {
      ghost var cache0, derived0 := cache, derived;
      var changed, ended;
      ok, small, changed, ended := ApplyRecords(db, list, readable);
      if ended { derived := Dropped(derived, changed); } else { DropNothing(derived); }
      RefreshTables(db, small, refreshOk);
      forall k ensures k in derived <==> k in derived0 && !Outdated(cfg, list, ok, small, refreshOk, k) {
        InvalidatedExactly(cfg, db, cache0, list, readable, refreshOk, derived0, k);
      }
    }

    /** The loop over the records. */
    method ApplyRecords(db: Database, list: seq<Record>, readable: nat -> bool)
      returns (ok: bool, small: set<string>, changed: set<string>, ended: bool)
      modifies this`cache
      ensures Applied(cache, small, Stop(ok)) == ApplyAll(cfg, db, old(cache), {}, list, readable, 0)
      ensures ended == Ended(cfg, db, old(cache), {}, list, readable, 0)
      ensures changed == Changed(cfg, db, old(cache), {}, list, readable, 0)
    {
      small, changed, ok, ended := {}, {}, true, true;
      ghost var whole := LoopedFrom(cfg, db, cache, {}, {}, list, readable, 0);
      LoopedIs(cfg, db, cache, {}, {}, list, readable, 0);
      assert list[0..] == list;
      LoopedAtEnd(cfg, db, cache, {}, {}, list, readable);
      var i := 0;
      while i < |list|
        invariant 0 <= i <= |list| && ok && ended
        invariant LoopedFrom(cfg, db, cache, small, changed, list, readable, i) == whole
      {
        var data := list[i];
        LoopedStep(cfg, db, cache, small, changed, list, readable, i);
        var outcome;
        outcome, small := ApplyOne(db, data, readable(i), small);
        if outcome.Stop? {
          ok, ended := outcome.ok, false;
          break;
        }
        if Relevant(cfg, data) { changed := changed + {data.table}; }
        i := i + 1;
        if i == |list| { LoopedAtEnd(cfg, db, cache, small, changed, list, readable); }
      }
      assert Loop(Applied(cache, small, Stop(ok)), ended, changed) == whole;
    }

    /** The body of the loop. */
    method ApplyOne(db: Database, data: Record, readOk: bool, small: set<string>) returns (outcome: Outcome, small': set<string>)
      modifies this`cache
      ensures Applied(cache, small', outcome) == ApplyRecord(cfg, db, old(cache), small, data, readOk)
      ensures Done(cfg, db, old(cache), small, data, readOk, cache, small', outcome)
    {
      outcome, small' := Continue, small;
      if !WellFormed(data) || FromSelf(cfg, data) { return; }
      if data.table !in cfg.tables { return Stop(false), small; }
      var slot := Target(data);
      match data.op {
        case Create =>
          var (c, found) := Reload(cfg, db, cache, slot, readOk);
          cache := c;
          if !found { return Stop(false), small; }
        case Update =>
          var (c, found) := Reload(cfg, db, cache, slot, readOk);
          cache := c;
          if !found { return Stop(false), small; }
        case Delete =>
          cache := cache - {slot};
        case Truncate =>
          cache := map s | s in cache && s.table != data.table :: cache[s];
          return Stop(true), small;
      }
      TableSizeIsRows(cache, data.table);
      if TableSize(cache, data.table) < data.validCacheSize { small' := small + {data.table}; }
    }
  }

  /** The loop passes over a record without a table, key, dao id or size, and over the server's own. */
  predicate Passed(cfg: Config, r: Record) {
    r.table == "" || Unquote(r.changedKey) == "" || r.daoId == 0 || r.validCacheSize == 0 ||
    (r.origin != "" && r.origin == cfg.self)
  }

  /** What one record of a cached table does. A row that is to be loaded must be found; what is not dropped because of a
      truncation is counted, and a table with fewer rows than the record says is noted. */
  ghost predicate Taken(cfg: Config, db: Database, before: Cache, small: set<string>, r: Record, readOk: bool,
    after: Cache, small': set<string>, outcome: Outcome)
  {
    var s := Slot(r.table, Unquote(r.changedKey));
    match r.op
    case Truncate => after == (map x | x in before && x.table != r.table :: before[x]) && small' == small && outcome == Stop(true)
    case Delete => after == before - {s} && Counted(r, after, small, small') && outcome == Continue
    case _ =>
      if readOk && s in db && db[s].value.Some? then
        after == before[s := Entry(db[s].serial, db[s].value.value)] && Counted(r, after, small, small') && outcome == Continue
      else if cfg.keepsOld && s in before then after == before && Counted(r, after, small, small') && outcome == Continue
      else after == before - {s} && small' == small && outcome == Stop(false)
  }

  /** What one record does: nothing when it is passed over, and a stop when its table is not cached here. */
  ghost predicate Done(cfg: Config, db: Database, before: Cache, small: set<string>, r: Record, readOk: bool,
    after: Cache, small': set<string>, outcome: Outcome)
  {
    if Passed(cfg, r) then outcome == Continue && after == before && small' == small
    else if r.table !in cfg.tables then outcome == Stop(false) && after == before && small' == small
    else Taken(cfg, db, before, small, r, readOk, after, small', outcome)
  }

  ghost predicate Counted(r: Record, after: Cache, small: set<string>, small': set<string>) {
    small' == if |TableRows(after, r.table)| < r.validCacheSize then small + {r.table} else small
  }

  /** All that the loop computes. */
  datatype Loop = Loop(applied: Applied, ended: bool, changed: set<string>)

  function Looped(cfg: Config, db: Database, cache: Cache, small: set<string>, changed: set<string>, list: seq<Record>,
    readable: nat -> bool, k: nat): Loop
    decreases |list|
  {
    if list == [] then Loop(Applied(cache, small, Stop(true)), true, changed)
    else
      var a := ApplyRecord(cfg, db, cache, small, list[0], readable(k));
      if a.outcome.Stop? then Loop(a, false, changed)
      else Looped(cfg, db, a.cache, a.small, if Relevant(cfg, list[0]) then changed + {list[0].table} else changed,
                  list[1..], readable, k + 1)
  }

  /** The loop from record i on. */
  function LoopedFrom(cfg: Config, db: Database, cache: Cache, small: set<string>, changed: set<string>, list: seq<Record>,
    readable: nat -> bool, i: nat): Loop
    requires i <= |list|
  {
    Looped(cfg, db, cache, small, changed, list[i..], readable, i)
  }

  lemma {:induction false} LoopedStep(cfg: Config, db: Database, cache: Cache, small: set<string>, changed: set<string>, list: seq<Record>,
    readable: nat -> bool, i: nat)
    requires i < |list|
    ensures var a := ApplyRecord(cfg, db, cache, small, list[i], readable(i));
      LoopedFrom(cfg, db, cache, small, changed, list, readable, i) ==
      if a.outcome.Stop? then Loop(a, false, changed)
      else LoopedFrom(cfg, db, a.cache, a.small, if Relevant(cfg, list[i]) then changed + {list[i].table} else changed, list, readable, i + 1)
  {
    assert list[i..][0] == list[i] && list[i..][1..] == list[i + 1..];
  }

  lemma {:induction false} LoopedAtEnd(cfg: Config, db: Database, cache: Cache, small: set<string>, changed: set<string>, list: seq<Record>,
    readable: nat -> bool)
    ensures LoopedFrom(cfg, db, cache, small, changed, list, readable, |list|) ==
      Loop(Applied(cache, small, Stop(true)), true, changed)
  {
  }

  lemma {:induction false} LoopedIs(cfg: Config, db: Database, cache: Cache, small: set<string>, changed: set<string>,
    list: seq<Record>, readable: nat -> bool, k: nat)
    ensures Looped(cfg, db, cache, small, changed, list, readable, k) ==
      Loop(ApplyAll(cfg, db, cache, small, list, readable, k), Ended(cfg, db, cache, small, list, readable, k),
           changed + Changed(cfg, db, cache, small, list, readable, k))
    decreases |list|
  {
    if list != [] {
      var a := ApplyRecord(cfg, db, cache, small, list[0], readable(k));
      if a.outcome.Continue? {
        LoopedIs(cfg, db, a.cache, a.small, if Relevant(cfg, list[0]) then changed + {list[0].table} else changed,
          list[1..], readable, k + 1);
      }
    }
  }

  /** The tables whose derived values the loop itself invalidates: none unless it comes to the end of the list. */
  function FinallyChanged(cfg: Config, db: Database, cache: Cache, list: seq<Record>, readable: nat -> bool): set<string> {
    if Ended(cfg, db, cache, {}, list, readable, 0) then Changed(cfg, db, cache, {}, list, readable, 0) else {}
  }

  lemma DropNothing(derived: DerivedValues)
    ensures Dropped(derived, {}) == derived
  {
  }

  /** The loop comes to the end of the list exactly when it succeeds without meeting a truncation. */
  lemma {:induction false} EndedExactly(cfg: Config, db: Database, cache: Cache, small: set<string>, list: seq<Record>, readable: nat -> bool, k: nat)
    ensures Ended(cfg, db, cache, small, list, readable, k) <==>
      ApplyAll(cfg, db, cache, small, list, readable, k).outcome == Stop(true) &&
      forall r | r in list && r.op == Truncate :: Passed(cfg, r)
    decreases |list|
  {
    if list != [] {
      var a := ApplyRecord(cfg, db, cache, small, list[0], readable(k));
      assert list == [list[0]] + list[1..];
      if a.outcome.Continue? { EndedExactly(cfg, db, a.cache, a.small, list[1..], readable, k + 1); }
    }
  }

  /** And then the changed tables are those of the records not passed over. */
  lemma {:induction false} ChangedExactly(cfg: Config, db: Database, cache: Cache, small: set<string>, list: seq<Record>, readable: nat -> bool, k: nat)
    requires Ended(cfg, db, cache, small, list, readable, k)
    ensures Changed(cfg, db, cache, small, list, readable, k) == set r | r in list && !Passed(cfg, r) :: r.table
    decreases |list|
  {
    if list != [] {
      var a := ApplyRecord(cfg, db, cache, small, list[0], readable(k));
      assert list == [list[0]] + list[1..];
      ChangedExactly(cfg, db, a.cache, a.small, list[1..], readable, k + 1);
    }
  }

  // ---- What a successful application guarantees, whatever the order ----

  /** The reload that the record asks for leaves no old entry behind: it finds the row, or the library drops what it had,
      or it had nothing. */
  predicate LeavesNothingOld(cfg: Config, db: Database, cache: Cache, r: Record, readOk: bool) {
    cfg.keepsOld && Relevant(cfg, r) && r.table in cfg.tables && (r.op == Create || r.op == Update) && Target(r) in cache ==>
      readOk && InDb(db, Target(r))
  }

  /** The same of every record that is taken. Always so for a library that drops entries. */
  predicate NothingOldLeft(cfg: Config, db: Database, cache: Cache, small: set<string>, list: seq<Record>, readable: nat -> bool, k: nat)
    decreases |list|
  {
    list != [] ==>
      var a := ApplyRecord(cfg, db, cache, small, list[0], readable(k));
      LeavesNothingOld(cfg, db, cache, list[0], readable(k)) &&
      (a.outcome.Continue? ==> NothingOldLeft(cfg, db, a.cache, a.small, list[1..], readable, k + 1))
  }

  lemma {:induction false} DroppingLeavesNothingOld(cfg: Config, db: Database, cache: Cache, small: set<string>, list: seq<Record>,
    readable: nat -> bool, k: nat)
    requires !cfg.keepsOld
    ensures NothingOldLeft(cfg, db, cache, small, list, readable, k)
    decreases |list|
  {
    if list != [] {
      var a := ApplyRecord(cfg, db, cache, small, list[0], readable(k));
      DroppingLeavesNothingOld(cfg, db, a.cache, a.small, list[1..], readable, k + 1);
    }
  }

  /** The slot is not cached, or cached as the database has it: never stale. */
  ghost predicate AbsentOrCurrent(db: Database, cache: Cache, s: Slot) {
    s !in cache || (InDb(db, s) && cache[s] == Current(db, s))
  }

  predicate NoTruncate(list: seq<Record>) { forall r | r in list :: r.op != Truncate }

  /** Applying a record keeps each slot as it was, brings it up to date, or drops it. */
  ghost predicate OnlyRenews(db: Database, cache: Cache, cache': Cache) {
    forall s | s in cache' :: (s in cache && cache'[s] == cache[s]) || (InDb(db, s) && cache'[s] == Current(db, s))
  }

  lemma {:induction false} RecordOnlyRenews(cfg: Config, db: Database, cache: Cache, small: set<string>, r: Record, readOk: bool)
    ensures var a := ApplyRecord(cfg, db, cache, small, r, readOk);
      OnlyRenews(db, cache, a.cache) && small <= a.small
    ensures var a := ApplyRecord(cfg, db, cache, small, r, readOk);
      a.small <= small + cfg.tables && forall s | s in a.cache && s !in cache :: s.table in cfg.tables
  {
  }

  lemma {:induction false} AllOnlyRenews(cfg: Config, db: Database, cache: Cache, small: set<string>, list: seq<Record>, readable: nat -> bool, k: nat)
    ensures var a := ApplyAll(cfg, db, cache, small, list, readable, k);
      OnlyRenews(db, cache, a.cache) && small <= a.small
    decreases |list|
  {
    if list != [] {
      var a := ApplyRecord(cfg, db, cache, small, list[0], readable(k));
      RecordOnlyRenews(cfg, db, cache, small, list[0], readable(k));
      if a.outcome.Continue? { AllOnlyRenews(cfg, db, a.cache, a.small, list[1..], readable, k + 1); }
    }
  }

  /** After a success no slot named by a record is stale, in whatever order the records came. */
  lemma {:induction false} TouchedAreNeverStale(cfg: Config, db: Database, cache: Cache, small: set<string>, list: seq<Record>, readable: nat -> bool, k: nat, r: Record)
    requires NothingOldLeft(cfg, db, cache, small, list, readable, k) && NoTruncate(list) && r in list && Relevant(cfg, r)
    requires ApplyAll(cfg, db, cache, small, list, readable, k).outcome == Stop(true)
    ensures AbsentOrCurrent(db, ApplyAll(cfg, db, cache, small, list, readable, k).cache, Target(r))
    decreases |list|
  {
    var a := ApplyRecord(cfg, db, cache, small, list[0], readable(k));
    assert list[0] in list;
    if r == list[0] {
      AllOnlyRenews(cfg, db, a.cache, a.small, list[1..], readable, k + 1);
    } else {
      TouchedAreNeverStale(cfg, db, a.cache, a.small, list[1..], readable, k + 1, r);
    }
  }

  /** So two orders of the same records can disagree about a slot only in having it or not. */
  lemma OrdersAgree(cfg: Config, db: Database, cache: Cache, list1: seq<Record>, list2: seq<Record>, readable1: nat -> bool, readable2: nat -> bool, r: Record)
    requires NothingOldLeft(cfg, db, cache, {}, list1, readable1, 0) && NothingOldLeft(cfg, db, cache, {}, list2, readable2, 0)
    requires NoTruncate(list1) && multiset(list1) == multiset(list2) && r in list1 && Relevant(cfg, r)
    requires ApplyAll(cfg, db, cache, {}, list1, readable1, 0).outcome == Stop(true)
    requires ApplyAll(cfg, db, cache, {}, list2, readable2, 0).outcome == Stop(true)
    ensures var c1, c2 := ApplyAll(cfg, db, cache, {}, list1, readable1, 0).cache, ApplyAll(cfg, db, cache, {}, list2, readable2, 0).cache;
      Target(r) in c1 && Target(r) in c2 ==> c1[Target(r)] == c2[Target(r)]
  {
    forall x | x in list2 ensures x in list1 { assert x in multiset(list2); }
    assert r in multiset(list2);
    TouchedAreNeverStale(cfg, db, cache, {}, list1, readable1, 0, r);
    TouchedAreNeverStale(cfg, db, cache, {}, list2, readable2, 0, r);
  }

  /** A slot follows its last record: the cache ends with the row if that is a create or an update,
      and without it if it is a delete. */
  lemma {:induction false} LastRecordDecides(cfg: Config, db: Database, cache: Cache, small: set<string>, xs: seq<Record>, r: Record, ys: seq<Record>, readable: nat -> bool, k: nat)
    requires NothingOldLeft(cfg, db, cache, small, xs + [r] + ys, readable, k)
    requires NoTruncate(xs) && NoTruncate(ys) && r.op != Truncate && Relevant(cfg, r)
    requires forall y | y in ys && Relevant(cfg, y) :: Target(y) != Target(r)
    requires ApplyAll(cfg, db, cache, small, xs + [r] + ys, readable, k).outcome == Stop(true)
    ensures var c := ApplyAll(cfg, db, cache, small, xs + [r] + ys, readable, k).cache;
      if r.op == Delete then Target(r) !in c
      else InDb(db, Target(r)) && Target(r) in c && c[Target(r)] == Current(db, Target(r))
    decreases |xs|
  {
    var list := xs + [r] + ys;
    if xs == [] {
      assert list[0] == r && list[1..] == ys;
      var a := ApplyRecord(cfg, db, cache, small, r, readable(k));
      Untouched(cfg, db, a.cache, a.small, ys, readable, k + 1, Target(r));
    } else {
      assert xs[0] in xs;
      assert list[0] == xs[0] && list[1..] == xs[1..] + [r] + ys;
      var a := ApplyRecord(cfg, db, cache, small, xs[0], readable(k));
      LastRecordDecides(cfg, db, a.cache, a.small, xs[1..], r, ys, readable, k + 1);
    }
  }

  /** Slots that no record names are left alone. */
  lemma {:induction false} Untouched(cfg: Config, db: Database, cache: Cache, small: set<string>, list: seq<Record>, readable: nat -> bool, k: nat, s: Slot)
    requires NoTruncate(list) && forall r | r in list && Relevant(cfg, r) :: Target(r) != s
    ensures var c := ApplyAll(cfg, db, cache, small, list, readable, k).cache;
      (s in c <==> s in cache) && (s in c ==> c[s] == cache[s])
    decreases |list|
  {
    if list != [] {
      assert list[0] in list;
      var a := ApplyRecord(cfg, db, cache, small, list[0], readable(k));
      if a.outcome.Continue? { Untouched(cfg, db, a.cache, a.small, list[1..], readable, k + 1, s); }
    }
  }

  /** When a slot's last record agrees with the database, the slot ends exactly as the database is. */
  lemma LastWriteLastGivesDatabase(cfg: Config, db: Database, cache: Cache, xs: seq<Record>, r: Record, ys: seq<Record>, readable: nat -> bool)
    requires NothingOldLeft(cfg, db, cache, {}, xs + [r] + ys, readable, 0)
    requires NoTruncate(xs) && NoTruncate(ys) && r.op != Truncate && Relevant(cfg, r)
    requires forall y | y in ys && Relevant(cfg, y) :: Target(y) != Target(r)
    requires r.op == Delete <==> !InDb(db, Target(r))
    requires ApplyAll(cfg, db, cache, {}, xs + [r] + ys, readable, 0).outcome == Stop(true)
    ensures var c, s := ApplyAll(cfg, db, cache, {}, xs + [r] + ys, readable, 0).cache, Target(r);
      (s in c <==> InDb(db, s)) && (s in c ==> c[s] == Current(db, s))
  {
    LastRecordDecides(cfg, db, cache, {}, xs, r, ys, readable, 0);
  }

  /** Wherever the loop ends, a table that any processed record found too small is among those that
      are reloaded. */
  lemma {:induction false} SmallTablesAreReloaded(cfg: Config, db: Database, cache: Cache, small: set<string>, xs: seq<Record>, r: Record, ys: seq<Record>, readable: nat -> bool, k: nat)
    requires NoTruncate(xs) && ApplyAll(cfg, db, cache, small, xs, readable, k).outcome == Stop(true) && Relevant(cfg, r)
    requires var a := ApplyAll(cfg, db, cache, small, xs, readable, k);
      var b := ApplyRecord(cfg, db, a.cache, a.small, r, readable(k + |xs|));
      b.outcome == Continue && TableSize(b.cache, r.table) < r.validCacheSize
    ensures r.table in ApplyAll(cfg, db, cache, small, xs + [r] + ys, readable, k).small
    decreases |xs|
  {
    var list := xs + [r] + ys;
    if xs == [] {
      assert list[0] == r;
      var b := ApplyRecord(cfg, db, cache, small, r, readable(k));
      AllOnlyRenews(cfg, db, b.cache, b.small, list[1..], readable, k + 1);
    } else {
      assert xs[0] in xs;
      assert list[0] == xs[0] && list[1..] == xs[1..] + [r] + ys;
      var a := ApplyRecord(cfg, db, cache, small, xs[0], readable(k));
      SmallTablesAreReloaded(cfg, db, a.cache, a.small, xs[1..], r, ys, readable, k + 1);
    }
  }

  /** A reloaded table mirrors the database, or is empty when the reload failed. */
  lemma ReloadedTablesMirror(db: Database, cache: Cache, tables: set<string>, readOk: string -> bool, s: Slot)
    ensures var c := RefreshedTables(db, cache, tables, readOk);
      s.table in tables ==>
        (s in c <==> readOk(s.table) && InDb(db, s)) && (s in c ==> c[s] == Current(db, s))
    ensures var c := RefreshedTables(db, cache, tables, readOk);
      s.table !in tables ==> (s in c <==> s in cache) && (s in c ==> c[s] == cache[s])
  {
  }

  // ---- Derived values across a sync ----

  lemma SizeWithRow(cache: Cache, x: Slot)
    requires x in cache
    ensures TableSize(cache, x.table) >= 1
  {
    var rows := set s | s in cache && s.table == x.table;
    assert x in rows;
    assert rows != {} && |rows| == TableSize(cache, x.table);
  }

  lemma RecordKeepsElsewhere(cfg: Config, db: Database, cache: Cache, small: set<string>, r: Record, readOk: bool, s: Slot)
    requires !Relevant(cfg, r) || r.table != s.table
    ensures var c := ApplyRecord(cfg, db, cache, small, r, readOk).cache;
      (s in c <==> s in cache) && (s in c ==> c[s] == cache[s])
  {
  }

  lemma SameRows(cache: Cache, cache': Cache, t: string)
    requires forall s: Slot | s.table == t :: (s in cache' <==> s in cache) && (s in cache' ==> cache'[s] == cache[s])
    ensures TableRows(cache', t) == TableRows(cache, t)
  {
  }

  lemma RecordTouchesOneTable(cfg: Config, db: Database, cache: Cache, small: set<string>, r: Record, readOk: bool, t: string)
    requires !Relevant(cfg, r) || r.table != t
    ensures var a := ApplyRecord(cfg, db, cache, small, r, readOk);
      TableRows(a.cache, t) == TableRows(cache, t) && (t in a.small ==> t in small)
  {
    var c := ApplyRecord(cfg, db, cache, small, r, readOk).cache;
    forall s: Slot | s.table == t ensures (s in c <==> s in cache) && (s in c ==> c[s] == cache[s]) {
      RecordKeepsElsewhere(cfg, db, cache, small, r, readOk, s);
    }
    SameRows(cache, c, t);
  }

  lemma {:induction false} ChangedCovers(cfg: Config, db: Database, cache: Cache, small: set<string>, list: seq<Record>, readable: nat -> bool, k: nat, t: string)
    requires Ended(cfg, db, cache, small, list, readable, k)
    requires t !in Changed(cfg, db, cache, small, list, readable, k)
    ensures var a := ApplyAll(cfg, db, cache, small, list, readable, k);
      TableRows(a.cache, t) == TableRows(cache, t) && (t in a.small ==> t in small)
    decreases |list|
  {
    if list != [] {
      var a := ApplyRecord(cfg, db, cache, small, list[0], readable(k));
      RecordTouchesOneTable(cfg, db, cache, small, list[0], readable(k), t);
      ChangedCovers(cfg, db, a.cache, a.small, list[1..], readable, k + 1, t);
    }
  }

  /** Every table that no invalidated name reaches has the rows it had. */
  ghost predicate RowsKept(before: Cache, after: Cache, dropped: set<string>) {
    forall t {:trigger TableRows(after, t)} | forall u | u in dropped :: !AppCache.HasPrefix(t, u) ::
      TableRows(after, t) == TableRows(before, t)
  }

  /** Whatever coherent values there were, those that are not invalidated are still coherent. */
  ghost predicate KeepsDerived(before: Cache, after: Cache, dropped: set<string>) {
    forall derived | Coherent(before, derived) :: Coherent(after, Dropped(derived, dropped))
  }

  lemma PrefixOfPrefix(u: string, t: string, k: string)
    requires AppCache.HasPrefix(k, t)
    ensures AppCache.HasPrefix(t, u) ==> AppCache.HasPrefix(k, u)
  {
    if u <= t { assert u == t[..|u|] == k[..|u|]; }
  }

  /** A value that survives belongs to a table that no invalidated name reaches. */
  lemma SurvivorsTable(before: Cache, derived: DerivedValues, dropped: set<string>, k: string, u: string)
    requires Coherent(before, derived) && k in Dropped(derived, dropped) && u in dropped
    ensures !AppCache.HasPrefix(derived[k].table, u)
  {
    PrefixOfPrefix(u, derived[k].table, k);
  }

  /** A table's own rows, filed under its name: the value that a change of the table makes outdated. */
  lemma OwnValue(before: Cache, after: Cache, dropped: set<string>, t: string)
    requires KeepsDerived(before, after, dropped) && forall u | u in dropped :: !AppCache.HasPrefix(t, u)
    ensures TableRows(after, t) == TableRows(before, t)
  {
    var derived: DerivedValues := map[t := Derived(t, TableRows(before, t))];
    assert Coherent(before, derived);
    assert t in Dropped(derived, dropped);
  }

  lemma DerivedKeptExactly(before: Cache, after: Cache, dropped: set<string>)
    ensures KeepsDerived(before, after, dropped) <==> RowsKept(before, after, dropped)
  {
    if RowsKept(before, after, dropped) {
      forall derived: DerivedValues, k | Coherent(before, derived) && k in Dropped(derived, dropped)
        ensures derived[k].rows == TableRows(after, derived[k].table)
      {
        forall u | u in dropped ensures !AppCache.HasPrefix(derived[k].table, u) { SurvivorsTable(before, derived, dropped, k, u); }
      }
    }
    if KeepsDerived(before, after, dropped) {
      forall t | forall u | u in dropped :: !AppCache.HasPrefix(t, u) ensures TableRows(after, t) == TableRows(before, t) {
        OwnValue(before, after, dropped, t);
      }
    }
  }

  /** The cache after the records and the reloads. */
  function Final(cfg: Config, db: Database, cache: Cache, list: seq<Record>, readable: nat -> bool, refreshOk: string -> bool): Cache {
    var a := ApplyAll(cfg, db, cache, {}, list, readable, 0);
    RefreshedTables(db, a.cache, a.small, refreshOk)
  }

  /** The names whose derived values are invalidated. */
  function Invalidated(cfg: Config, db: Database, cache: Cache, list: seq<Record>, readable: nat -> bool, refreshOk: string -> bool): set<string> {
    FinallyChanged(cfg, db, cache, list, readable) + Readable(ApplyAll(cfg, db, cache, {}, list, readable, 0).small, refreshOk)
  }

  /** The derived values that a sync leaves. */
  function DerivedAfter(cfg: Config, db: Database, cache: Cache, list: seq<Record>, readable: nat -> bool, refreshOk: string -> bool,
    derived: DerivedValues): DerivedValues
  {
    Dropped(Dropped(derived, FinallyChanged(cfg, db, cache, list, readable)),
      Readable(ApplyAll(cfg, db, cache, {}, list, readable, 0).small, refreshOk))
  }

  /** The key begins with the name of a table that was reloaded, or, when the list was finished, of one that a record not
      passed over belongs to. */
  ghost predicate Outdated(cfg: Config, list: seq<Record>, ok: bool, small: set<string>, refreshOk: string -> bool, k: string) {
    (exists t :: t in small && refreshOk(t) && t <= k) ||
    (ok && (forall r | r in list && r.op == Truncate :: Passed(cfg, r)) && exists r :: r in list && !Passed(cfg, r) && r.table <= k)
  }

  lemma ReloadedReach(small: set<string>, refreshOk: string -> bool, k: string)
    ensures (exists u :: u in Readable(small, refreshOk) && AppCache.HasPrefix(k, u)) <==> exists t :: t in small && refreshOk(t) && t <= k
  {
    if t :| t in small && refreshOk(t) && t <= k { assert t in Readable(small, refreshOk) && AppCache.HasPrefix(k, t); }
  }

  lemma ChangedReach(cfg: Config, list: seq<Record>, changed: set<string>, k: string)
    requires changed == set r | r in list && !Passed(cfg, r) :: r.table
    ensures (exists u :: u in changed && AppCache.HasPrefix(k, u)) <==> exists r :: r in list && !Passed(cfg, r) && r.table <= k
  {
    if r :| r in list && !Passed(cfg, r) && r.table <= k { assert r.table in changed && AppCache.HasPrefix(k, r.table); }
  }

  lemma DroppedReach(derived: DerivedValues, first: set<string>, second: set<string>, k: string)
    ensures k in Dropped(Dropped(derived, first), second) <==>
      k in derived && !(exists u :: u in first && AppCache.HasPrefix(k, u)) &&
      !(exists u :: u in second && AppCache.HasPrefix(k, u))
  {
  }

  lemma {:induction false} InvalidatedExactly(cfg: Config, db: Database, cache: Cache, list: seq<Record>, readable: nat -> bool,
    refreshOk: string -> bool, derived: DerivedValues, k: string)
    ensures var a := ApplyAll(cfg, db, cache, {}, list, readable, 0);
      k in DerivedAfter(cfg, db, cache, list, readable, refreshOk, derived) <==>
      k in derived && !Outdated(cfg, list, a.outcome == Stop(true), a.small, refreshOk, k)
  {
    var small, changed := ApplyAll(cfg, db, cache, {}, list, readable, 0).small, FinallyChanged(cfg, db, cache, list, readable);
    DroppedReach(derived, changed, Readable(small, refreshOk), k);
    ReloadedReach(small, refreshOk, k);
    EndedExactly(cfg, db, cache, {}, list, readable, 0);
    if Ended(cfg, db, cache, {}, list, readable, 0) {
      ChangedExactly(cfg, db, cache, {}, list, readable, 0);
      ChangedReach(cfg, list, changed, k);
    }
  }

  /** A sync leaves all derived values right, whatever was derived before, exactly when it changes the rows of no table
      but those whose names begin with an invalidated one. */
  lemma {:induction false} SyncKeepsDerivedExactly(cfg: Config, db: Database, cache: Cache, list: seq<Record>, readable: nat -> bool,
    refreshOk: string -> bool)
    ensures (forall derived | Coherent(cache, derived) ::
        Coherent(Final(cfg, db, cache, list, readable, refreshOk), DerivedAfter(cfg, db, cache, list, readable, refreshOk, derived))) <==>
      RowsKept(cache, Final(cfg, db, cache, list, readable, refreshOk), Invalidated(cfg, db, cache, list, readable, refreshOk))
  {
    var final, dropped := Final(cfg, db, cache, list, readable, refreshOk), Invalidated(cfg, db, cache, list, readable, refreshOk);
    DerivedKeptExactly(cache, final, dropped);
    forall derived ensures DerivedAfter(cfg, db, cache, list, readable, refreshOk, derived) == Dropped(derived, dropped) {
      DroppedTwice(derived, FinallyChanged(cfg, db, cache, list, readable),
        Readable(ApplyAll(cfg, db, cache, {}, list, readable, 0).small, refreshOk));
    }
  }

  lemma {:induction false} EndedKeepsRows(cfg: Config, db: Database, cache: Cache, list: seq<Record>, readable: nat -> bool, refreshOk: string -> bool)
    requires Ended(cfg, db, cache, {}, list, readable, 0)
    ensures RowsKept(cache, Final(cfg, db, cache, list, readable, refreshOk), Invalidated(cfg, db, cache, list, readable, refreshOk))
  {
    var a, dropped := ApplyAll(cfg, db, cache, {}, list, readable, 0), Invalidated(cfg, db, cache, list, readable, refreshOk);
    var final := Final(cfg, db, cache, list, readable, refreshOk);
    forall t | forall u | u in dropped :: !AppCache.HasPrefix(t, u) ensures TableRows(final, t) == TableRows(cache, t) {
      assert AppCache.HasPrefix(t, t) && t !in dropped;
      ChangedCovers(cfg, db, cache, {}, list, readable, 0, t);
      assert TableRows(final, t) == TableRows(a.cache, t);
    }
  }

  /** So a sync that comes to the end of its records leaves no derived value of an outdated table, whichever reloads fail. */
  lemma {:induction false} EndedSyncKeepsDerived(cfg: Config, db: Database, cache: Cache, derived: DerivedValues, list: seq<Record>, readable: nat -> bool, refreshOk: string -> bool)
    requires Coherent(cache, derived) && Ended(cfg, db, cache, {}, list, readable, 0)
    ensures Coherent(Final(cfg, db, cache, list, readable, refreshOk), DerivedAfter(cfg, db, cache, list, readable, refreshOk, derived))
  {
    EndedKeepsRows(cfg, db, cache, list, readable, refreshOk);
    SyncKeepsDerivedExactly(cfg, db, cache, list, readable, refreshOk);
  }

  /** An update is taken, and the next record names a table this server does not cache. */
  ghost predicate StopsAfterUpdate(cfg: Config, db: Database, cache: Cache, r1: Record, r2: Record, readable: nat -> bool) {
    Relevant(cfg, r1) && r1.op == Update && r1.table in cfg.tables && r1.validCacheSize <= 1 && readable(0) &&
    InDb(db, Target(r1)) && Target(r1) in cache && cache[Target(r1)] != Current(db, Target(r1)) &&
    Relevant(cfg, r2) && r2.table !in cfg.tables
  }

  lemma {:induction false} FirstIsTaken(cfg: Config, db: Database, cache: Cache, r1: Record, r2: Record, readable: nat -> bool)
    requires StopsAfterUpdate(cfg, db, cache, r1, r2, readable)
    ensures ApplyRecord(cfg, db, cache, {}, r1, readable(0)) == Applied(cache[Target(r1) := Current(db, Target(r1))], {}, Continue)
  {
    SizeWithRow(cache[Target(r1) := Current(db, Target(r1))], Target(r1));
  }

  lemma {:induction false} SecondStops(cfg: Config, db: Database, cache: Cache, r1: Record, r2: Record, readable: nat -> bool)
    requires StopsAfterUpdate(cfg, db, cache, r1, r2, readable)
    ensures !Ended(cfg, db, cache, {}, [r1, r2], readable, 0)
    ensures ApplyAll(cfg, db, cache, {}, [r1, r2], readable, 0) ==
      Applied(cache[Target(r1) := Current(db, Target(r1))], {}, Stop(false))
  {
    FirstIsTaken(cfg, db, cache, r1, r2, readable);
    assert [r1, r2][1..] == [r2];
  }

  /** One that stops early need not: in that case the values derived from the updated table stay although its row moved on. */
  lemma {:induction false} StoppedSyncLeavesDerivedStale(cfg: Config, db: Database, cache: Cache, derived: DerivedValues, r1: Record, r2: Record,
    readable: nat -> bool, refreshOk: string -> bool, k: string)
    requires StopsAfterUpdate(cfg, db, cache, r1, r2, readable)
    requires Coherent(cache, derived) && k in derived && derived[k].table == r1.table
    ensures var d := DerivedAfter(cfg, db, cache, [r1, r2], readable, refreshOk, derived);
      k in d && !Coherent(Final(cfg, db, cache, [r1, r2], readable, refreshOk), d)
  {
    var x := Target(r1);
    var after := cache[x := Current(db, x)];
    SecondStops(cfg, db, cache, r1, r2, readable);
    assert RefreshedTables(db, after, {}, refreshOk) == after;
    DropNothing(derived);
    assert Readable({}, refreshOk) == {};
    assert TableRows(after, r1.table)[x] != TableRows(cache, r1.table)[x];
  }

  // ---- The records that are lost ----

  /** A foreign record on a cached table leaves its slot absent or current exactly when it is well
      formed, or the slot was absent or current before. */
  lemma RecordTakesEffectExactly(cfg: Config, db: Database, cache: Cache, small: set<string>, r: Record, readOk: bool)
    requires LeavesNothingOld(cfg, db, cache, r, readOk) && !FromSelf(cfg, r) && r.table in cfg.tables && r.op != Truncate
    requires ApplyRecord(cfg, db, cache, small, r, readOk).outcome == Continue
    ensures AbsentOrCurrent(db, ApplyRecord(cfg, db, cache, small, r, readOk).cache, Target(r)) <==>
      WellFormed(r) || AbsentOrCurrent(db, cache, Target(r))
  {
  }

  /** A TRUNCATE record hides every record after it, and reports success. */
  lemma TruncateHidesTheRest(cfg: Config, db: Database, cache: Cache, small: set<string>, t: Record, rest: seq<Record>, readable: nat -> bool, k: nat)
    requires Relevant(cfg, t) && t.op == Truncate && t.table in cfg.tables
    ensures ApplyAll(cfg, db, cache, small, [t] + rest, readable, k) == ApplyAll(cfg, db, cache, small, [t], readable, k)
    ensures ApplyAll(cfg, db, cache, small, [t] + rest, readable, k).outcome == Stop(true)
  {
  }

  /** If the library kept the old entry on a failed reload, an update whose read fails would count
      as applied and leave the slot stale. */
  lemma KeptEntriesStayStale(cfg: Config, db: Database, cache: Cache, small: set<string>, r: Record)
    requires cfg.keepsOld && Relevant(cfg, r) && r.table in cfg.tables && r.op == Update && Target(r) in cache
    ensures var a := ApplyRecord(cfg, db, cache, small, r, false);
      a.outcome == Continue && a.cache == cache
  {
  }
}
