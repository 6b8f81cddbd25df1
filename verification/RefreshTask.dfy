/** The background task's tick as the code runs it, undisturbed, and that it is a run of the protocol. */
module RefreshTask {
  import opened Common
  import opened TimeWindow
  import opened ChangeLog
  import opened SyncProtocol

  /** The three things a tick writes. */
  datatype Outputs = Outputs(cache: Cache, last: nat, attempts: int)

  function AllOk(tables: set<string>, readOk: string -> bool): bool {
    forall t | t in tables :: readOk(t)
  }

  /** A full refresh: the stamp moves first, and one attempt is given back when no table failed. */
  function FullRefresh(c: Settings, db: Database, o: Outputs, now: nat, readOk: string -> bool): Outputs {
    Outputs(RefreshedTables(db, o.cache, c.base.tables, readOk), now,
      if AllOk(c.base.tables, readOk) then o.attempts + 1 else o.attempts)
  }

  /** An incremental sync of the records its rows delivered, None when a row could not be decoded. */
  function Sync(c: Settings, db: Database, o: Outputs, now: nat, rows: Option<seq<Record>>, readable: nat -> bool, readOk: string -> bool): Outputs {
    if rows.None? then o.(attempts := o.attempts - 1)
    else
      var a := ApplyAll(c.base, db, o.cache, {}, rows.value, readable, 0);
      var cache := RefreshedTables(db, a.cache, a.small, readOk);
      if a.outcome == Stop(true) then Outputs(cache, now, c.retries)
      else Outputs(cache, o.last, o.attempts - 1)
  }

  class CacheRefreshTask {
    const settings: Settings
    const manager: CacheManager
    var lastRefreshedTimestamp: nat
    var refreshAttemptsLeft: int

    constructor (settings: Settings, manager: CacheManager, now: nat)
      requires manager.cfg == settings.base
      ensures this.settings == settings && this.manager == manager
      ensures lastRefreshedTimestamp == now && refreshAttemptsLeft == settings.retries
    {
      this.settings, this.manager, lastRefreshedTimestamp, refreshAttemptsLeft := settings, manager, now, settings.retries;
    }

    function View(): Outputs
      reads this, manager
    {
      Outputs(manager.cache, lastRefreshedTimestamp, refreshAttemptsLeft)
    }

    method DoSyncChanges(db: Database, now: nat, rows: Option<seq<Record>>, readable: nat -> bool, readOk: string -> bool)
      requires manager.cfg == settings.base
      modifies this, manager
      ensures View() == if old(refreshAttemptsLeft) == 0 then FullRefresh(settings, db, old(View()), now, readOk)
                        else Sync(settings, db, old(View()), now, rows, readable, readOk)
      ensures old(refreshAttemptsLeft) == 0 ==>
        lastRefreshedTimestamp == now &&
        refreshAttemptsLeft == (if forall t | t in settings.base.tables :: readOk(t) then 1 else 0) &&
        manager.cache == RefreshedTables(db, old(manager.cache), settings.base.tables, readOk)
      ensures old(refreshAttemptsLeft) != 0 && rows.None? ==>
        lastRefreshedTimestamp == old(lastRefreshedTimestamp) && refreshAttemptsLeft == old(refreshAttemptsLeft) - 1 &&
        manager.cache == old(manager.cache) && manager.derived == old(manager.derived)
      ensures old(refreshAttemptsLeft) != 0 && rows.Some? ==>
        var a := ApplyAll(settings.base, db, old(manager.cache), {}, rows.value, readable, 0);
        manager.cache == RefreshedTables(db, a.cache, a.small, readOk) &&
        lastRefreshedTimestamp == (if a.outcome == Stop(true) then now else old(lastRefreshedTimestamp)) &&
        refreshAttemptsLeft == if a.outcome == Stop(true) then settings.retries else old(refreshAttemptsLeft) - 1
    {
      if refreshAttemptsLeft == 0 {
        lastRefreshedTimestamp := now;
        var failedTables := manager.RefreshAll(db, readOk);
        assert failedTables == {} <==> AllOk(settings.base.tables, readOk) by {
          if !AllOk(settings.base.tables, readOk) {
            var t :| t in settings.base.tables && !readOk(t);
            assert t in failedTables;
          }
        }
        if |failedTables| == 0 {
          refreshAttemptsLeft := refreshAttemptsLeft + 1;
        }
      } else {
        var ok := false;
        if rows.Some? {
          var small;
          ok, small := manager.ApplyChanges(db, rows.value, readable, readOk);
        }
        if ok {
          lastRefreshedTimestamp := now;
          refreshAttemptsLeft := settings.retries;
        } else {
          refreshAttemptsLeft := refreshAttemptsLeft - 1;
        }
      }
    }
  }

  // ---- An undisturbed tick is a run ----

  lemma {:induction false} RunConcat(c: Settings, s: State, es: seq<Event>, fs: seq<Event>)
    requires c.window > 0
    ensures Run(c, s, es + fs) == Run(c, Run(c, s, es), fs)
    decreases |es|
  {
    if es == [] {
      assert es + fs == fs;
    } else {
      assert (es + fs)[1..] == es[1..] + fs;
      RunConcat(c, Apply(c, s, es[0]), es[1..], fs);
    }
  }

  lemma RunCons(c: Settings, s: State, e: Event, es: seq<Event>)
    requires c.window > 0
    ensures Run(c, s, [e] + es) == Run(c, Apply(c, s, e), es)
  {
    assert ([e] + es)[1..] == es;
  }

  lemma RunThree(c: Settings, s: State, e1: Event, e2: Event, e3: Event, rest: seq<Event>)
    requires c.window > 0
    ensures Run(c, s, [e1] + ([e2] + ([e3] + rest))) == Run(c, Apply(c, Apply(c, Apply(c, s, e1), e2), e3), rest)
  {
    RunCons(c, s, e1, [e2] + ([e3] + rest));
    RunCons(c, Apply(c, s, e1), e2, [e3] + rest);
    RunCons(c, Apply(c, Apply(c, s, e1), e2), e3, rest);
  }

  function ApplyEvents(readable: nat -> bool, k: nat, n: nat): seq<Event>
    decreases n
  {
    if n == 0 then [] else [ApplyNext(readable(k))] + ApplyEvents(readable, k + 1, n - 1)
  }

  lemma {:induction false} ApplyEventsIdle(c: Settings, s: State, readable: nat -> bool, k: nat, n: nat)
    requires c.window > 0 && !s.phase.Applying?
    ensures Run(c, s, ApplyEvents(readable, k, n)) == s
    decreases n
  {
    if n > 0 {
      RunCons(c, s, ApplyNext(readable(k)), ApplyEvents(readable, k + 1, n - 1));
      ApplyEventsIdle(c, s, readable, k + 1, n - 1);
    }
  }

  /** Event by event, the list is applied as the loop applies it. */
  lemma {:induction false} ApplyEventsApplyAll(c: Settings, s: State, readable: nat -> bool, k: nat)
    requires c.window > 0 && s.phase.Applying?
    ensures var a := ApplyAll(c.base, s.db, s.cache, s.phase.small, s.phase.todo, readable, k);
      a.outcome.Stop? &&
      Run(c, s, ApplyEvents(readable, k, |s.phase.todo| + 1)) ==
        s.(cache := a.cache, phase := Repairing(s.phase.until, a.small, a.outcome.ok))
    decreases |s.phase.todo|
  {
    var n := |s.phase.todo|;
    var t := Apply(c, s, ApplyNext(readable(k)));
    RunCons(c, s, ApplyNext(readable(k)), ApplyEvents(readable, k + 1, n));
    if t.phase.Applying? {
      ApplyEventsApplyAll(c, t, readable, k + 1);
    } else {
      ApplyEventsIdle(c, t, readable, k + 1, n);
    }
  }

  lemma FirstTable(db: Database, cache: Cache, t: string, rest: set<string>, readOk: string -> bool)
    requires t !in rest
    ensures RefreshedTables(db, RefreshedTable(db, cache, t, readOk(t)), rest, readOk) ==
      RefreshedTables(db, cache, {t} + rest, readOk)
  {
    var a := RefreshedTables(db, RefreshedTable(db, cache, t, readOk(t)), rest, readOk);
    var b := RefreshedTables(db, cache, {t} + rest, readOk);
    forall s ensures s in a <==> s in b {}
    forall s | s in a ensures a[s] == b[s] {}
    assert a == b;
  }

  function Names(order: seq<string>): set<string> { set t | t in order }

  ghost predicate Distinct(order: seq<string>) {
    forall i, j | 0 <= i < j < |order| :: order[i] != order[j]
  }

  lemma NamesCons(order: seq<string>)
    requires order != [] && Distinct(order)
    ensures Names(order) == {order[0]} + Names(order[1..]) && order[0] !in Names(order[1..]) && Distinct(order[1..])
  {
    assert order == [order[0]] + order[1..];
  }

  function RepairEvents(order: seq<string>, readOk: string -> bool): seq<Event> {
    if order == [] then [] else [Repair(order[0], readOk(order[0]))] + RepairEvents(order[1..], readOk)
  }

  lemma {:induction false} RepairEventsRefresh(c: Settings, s: State, order: seq<string>, readOk: string -> bool)
    requires c.window > 0 && s.phase.Repairing? && Distinct(order) && s.phase.small == Names(order)
    ensures Run(c, s, RepairEvents(order, readOk)) ==
      s.(cache := RefreshedTables(s.db, s.cache, Names(order), readOk), phase := s.phase.(small := {}))
    decreases |order|
  {
    if order == [] {
      assert RefreshedTables(s.db, s.cache, {}, readOk) == s.cache;
    } else {
      NamesCons(order);
      RunCons(c, s, Repair(order[0], readOk(order[0])), RepairEvents(order[1..], readOk));
      var t := Apply(c, s, Repair(order[0], readOk(order[0])));
      assert t.phase.small == Names(order[1..]);
      RepairEventsRefresh(c, t, order[1..], readOk);
      FirstTable(s.db, s.cache, order[0], Names(order[1..]), readOk);
    }
  }

  function RefreshEvents(order: seq<string>, readOk: string -> bool): seq<Event> {
    if order == [] then [] else [RefreshNext(order[0], readOk(order[0]))] + RefreshEvents(order[1..], readOk)
  }

  lemma {:induction false} RefreshEventsRefresh(c: Settings, s: State, order: seq<string>, readOk: string -> bool)
    requires c.window > 0 && s.phase.Refreshing? && s.last < s.clock && Distinct(order) && s.phase.tables == Names(order)
    ensures Run(c, s, RefreshEvents(order, readOk)) ==
      s.(cache := RefreshedTables(s.db, s.cache, Names(order), readOk),
         phase := Refreshing({}, s.phase.failed || !AllOk(Names(order), readOk)))
    decreases |order|
  {
    if order == [] {
      assert RefreshedTables(s.db, s.cache, {}, readOk) == s.cache;
    } else {
      NamesCons(order);
      RunCons(c, s, RefreshNext(order[0], readOk(order[0])), RefreshEvents(order[1..], readOk));
      var t := Apply(c, s, RefreshNext(order[0], readOk(order[0])));
      assert t.phase.tables == Names(order[1..]);
      RefreshEventsRefresh(c, t, order[1..], readOk);
      FirstTable(s.db, s.cache, order[0], Names(order[1..]), readOk);
      assert AllOk(Names(order), readOk) <==> readOk(order[0]) && AllOk(Names(order[1..]), readOk);
    }
  }

  function SyncEvents(list: seq<Record>, readable: nat -> bool, order: seq<string>, readOk: string -> bool): seq<Event> {
    [Tick] + ([Pass(1)] + ([Load(list)] + (ApplyEvents(readable, 0, |list| + 1) + (RepairEvents(order, readOk) + [Finish]))))
  }

  lemma SyncStarts(c: Settings, s: State, list: seq<Record>)
    requires c.window > 0 && s.phase.Idle? && s.attempts != 0 && s.clock + 1 < LAST_STAMP
    requires forall r | r in list :: r in s.log && Shown(s.last, s.clock, c.window, r.stamp)
    ensures Apply(c, Apply(c, Apply(c, s, Tick), Pass(1)), Load(list)) ==
      s.(clock := s.clock + 1, phase := Applying(s.clock, list, {}))
  {
    var s2 := Apply(c, Apply(c, s, Tick), Pass(1));
    assert s2 == s.(clock := s.clock + 1, phase := Loading(s.clock));
    assert forall r | r in list :: InWindow(c, s2, r);
  }

  lemma SyncEnds(c: Settings, s: State, readable: nat -> bool, order: seq<string>, readOk: string -> bool)
    requires c.window > 0 && s.phase.Applying?
    requires var a := ApplyAll(c.base, s.db, s.cache, s.phase.small, s.phase.todo, readable, 0);
      Distinct(order) && Names(order) == a.small
    ensures var a := ApplyAll(c.base, s.db, s.cache, s.phase.small, s.phase.todo, readable, 0);
      var t := Run(c, s, ApplyEvents(readable, 0, |s.phase.todo| + 1) + (RepairEvents(order, readOk) + [Finish]));
      var cache := RefreshedTables(s.db, a.cache, a.small, readOk);
      t == if a.outcome == Stop(true) then s.(cache := cache, last := s.phase.until, attempts := c.retries, phase := Idle)
           else s.(cache := cache, attempts := s.attempts - 1, phase := Idle)
  {
    var es := ApplyEvents(readable, 0, |s.phase.todo| + 1);
    ApplyEventsApplyAll(c, s, readable, 0);
    RunConcat(c, s, es, RepairEvents(order, readOk) + [Finish]);
    var s4 := Run(c, s, es);
    RepairEventsRefresh(c, s4, order, readOk);
    RunConcat(c, s4, RepairEvents(order, readOk), [Finish]);
    RunCons(c, Run(c, s4, RepairEvents(order, readOk)), Finish, []);
    assert [Finish] + [] == [Finish];
  }

  /** The tick's code ends where the protocol's run of its steps ends. */
  lemma SyncIsARun(c: Settings, s: State, list: seq<Record>, readable: nat -> bool, order: seq<string>, readOk: string -> bool)
    requires c.window > 0 && s.phase.Idle? && s.attempts != 0 && s.clock + 1 < LAST_STAMP
    requires forall r | r in list :: r in s.log && Shown(s.last, s.clock, c.window, r.stamp)
    requires Distinct(order) && Names(order) == ApplyAll(c.base, s.db, s.cache, {}, list, readable, 0).small
    ensures var t := Run(c, s, SyncEvents(list, readable, order, readOk));
      var o := Sync(c, s.db, Outputs(s.cache, s.last, s.attempts), s.clock, Some(list), readable, readOk);
      t == s.(clock := s.clock + 1, cache := o.cache, last := o.last, attempts := o.attempts)
  {
    SyncStarts(c, s, list);
    RunThree(c, s, Tick, Pass(1), Load(list), ApplyEvents(readable, 0, |list| + 1) + (RepairEvents(order, readOk) + [Finish]));
    SyncEnds(c, s.(clock := s.clock + 1, phase := Applying(s.clock, list, {})), readable, order, readOk);
  }

  /** A tick whose rows cannot be loaded is the protocol's failing load: an attempt is gone, and nothing else. */
  lemma FailedLoadIsARun(c: Settings, s: State, readable: nat -> bool, readOk: string -> bool)
    requires c.window > 0 && s.phase.Idle? && s.attempts != 0
    ensures var o := Sync(c, s.db, Outputs(s.cache, s.last, s.attempts), s.clock, None, readable, readOk);
      Run(c, s, [Tick, LoadFails]) == s.(cache := o.cache, last := o.last, attempts := o.attempts) &&
      o == Outputs(s.cache, s.last, s.attempts - 1)
  {
    assert [Tick, LoadFails] == [Tick] + ([LoadFails] + []);
    RunCons(c, s, Tick, [LoadFails] + []);
    RunCons(c, Apply(c, s, Tick), LoadFails, []);
  }

  function FullRefreshEvents(order: seq<string>, readOk: string -> bool): seq<Event> {
    [Tick] + ([Pass(1)] + (RefreshEvents(order, readOk) + [Finish]))
  }

  lemma FullRefreshIsARun(c: Settings, s: State, order: seq<string>, readOk: string -> bool)
    requires c.window > 0 && s.phase.Idle? && s.attempts == 0 && s.clock + 1 < LAST_STAMP
    requires Distinct(order) && Names(order) == c.base.tables
    ensures var t := Run(c, s, FullRefreshEvents(order, readOk));
      var o := FullRefresh(c, s.db, Outputs(s.cache, s.last, s.attempts), s.clock, readOk);
      t == s.(clock := s.clock + 1, cache := o.cache, last := o.last, attempts := o.attempts)
  {
    var es := RefreshEvents(order, readOk) + [Finish];
    var s1 := Apply(c, s, Tick);
    var s2 := Apply(c, s1, Pass(1));
    RunCons(c, s, Tick, [Pass(1)] + es);
    RunCons(c, s1, Pass(1), es);
    RefreshEventsRefresh(c, s2, order, readOk);
    RunConcat(c, s2, RefreshEvents(order, readOk), [Finish]);
    var s3 := Run(c, s2, RefreshEvents(order, readOk));
    RunCons(c, s3, Finish, []);
    assert [Finish] + [] == [Finish];
  }

  // ---- Why the assumptions are needed ----

  function NeverDown(k: nat): bool { true }

  function NeverFails(table: string): bool { true }

  function LossEvents(origin: string, x: Slot, op: Op, value: Option<string>, serial: nat, size: int, delivered: seq<Record>): seq<Event> {
    [RemoteWrite(origin, x, op, value)] + ([Append(Write(origin, x, op, serial), x.key, 1, size)] + ([Pass(1)] +
      SyncEvents(delivered, NeverDown, [], NeverFails)))
  }

  /** A remote write that was logged one tick ago. */
  function AfterLoggedWrite(s: State, r: Record, x: Slot, value: Option<string>): State {
    s.(clock := s.clock + 1, serial := s.serial + 1, db := s.db[x := Cell(s.serial + 1, r.origin, value)],
       log := s.log + {r}, unlogged := s.unlogged + {Write(r.origin, x, r.op, s.serial + 1)} - {Write(r.origin, x, r.op, s.serial + 1)})
  }

  lemma WriteIsLogged(c: Settings, s: State, origin: string, x: Slot, op: Op, value: Option<string>, size: int)
    requires c.window > 0 && s.clock + 1 < LAST_STAMP
    requires origin != c.base.self && (op == Delete) == value.None? && op != Truncate && Unquote(x.key) == x.key
    ensures Apply(c, Apply(c, Apply(c, s, RemoteWrite(origin, x, op, value)),
          Append(Write(origin, x, op, s.serial + 1), x.key, 1, size)), Pass(1)) ==
      AfterLoggedWrite(s, Record(s.clock, origin, x.table, x.key, op, 1, size, s.serial + 1), x, value)
  {
    var w := Write(origin, x, op, s.serial + 1);
    var s1 := Apply(c, s, RemoteWrite(origin, x, op, value));
    assert s1 == WriteDb(s, origin, x, op, value) && w in s1.unlogged;
  }

  /** Where the steps of such a run end, when applying the delivered records changes nothing. */
  lemma LossRun(c: Settings, s: State, origin: string, x: Slot, op: Op, value: Option<string>, size: int, delivered: seq<Record>)
    requires c.window > 0 && Initial(c, s) && c.retries > 0 && s.clock + 2 < LAST_STAMP
    requires origin != c.base.self && (op == Delete) == value.None? && op != Truncate && Unquote(x.key) == x.key
    requires var r := Record(s.clock, origin, x.table, x.key, op, 1, size, s.serial + 1);
      delivered == [] || (delivered == [r] && size == 0)
    ensures var r := Record(s.clock, origin, x.table, x.key, op, 1, size, s.serial + 1);
      Run(c, s, LossEvents(origin, x, op, value, s.serial + 1, size, delivered)) ==
      AfterLoggedWrite(s, r, x, value).(clock := s.clock + 2, attempts := c.retries, last := s.clock + 1)
  {
    var r := Record(s.clock, origin, x.table, x.key, op, 1, size, s.serial + 1);
    var s3 := AfterLoggedWrite(s, r, x, value);
    WriteIsLogged(c, s, origin, x, op, value, size);
    RunThree(c, s, RemoteWrite(origin, x, op, value), Append(Write(origin, x, op, s.serial + 1), x.key, 1, size), Pass(1),
      SyncEvents(delivered, NeverDown, [], NeverFails));
    LossSync(c, s3, r, delivered);
  }

  lemma LossSync(c: Settings, s: State, r: Record, delivered: seq<Record>)
    requires c.window > 0 && s.phase.Idle? && s.attempts > 0 && s.clock + 1 < LAST_STAMP && s.last < r.stamp <= s.clock
    requires r in s.log && (delivered == [] || (delivered == [r] && r.validCacheSize == 0))
    ensures Run(c, s, SyncEvents(delivered, NeverDown, [], NeverFails)) ==
      s.(clock := s.clock + 1, attempts := c.retries, last := s.clock)
  {
    WindowCoverage(s.last, s.clock, c.window, r.stamp);
    MilliBounds(s.last);
    NothingApplied(c, s.db, s.cache, delivered);
    assert Names([]) == {};
    SyncIsARun(c, s, delivered, NeverDown, [], NeverFails);
    assert RefreshedTables(s.db, s.cache, {}, NeverFails) == s.cache;
  }

  lemma NothingApplied(c: Settings, db: Database, cache: Cache, delivered: seq<Record>)
    requires delivered == [] || (|delivered| == 1 && delivered[0].validCacheSize == 0)
    ensures ApplyAll(c.base, db, cache, {}, delivered, NeverDown, 0) == Applied(cache, {}, Stop(true))
  {
    if delivered != [] { assert delivered[1..] == []; }
  }

  /** A row read that fails silently loses an update: the sync succeeds, and the cached row stays as
      it was although the database and the log moved on. */
  lemma SilentReadFailureLosesUpdate(c: Settings, s: State, origin: string, x: Slot, value: string)
    requires c.window > 0 && Initial(c, s) && c.retries > 0 && s.clock + 2 < LAST_STAMP
    requires origin != c.base.self && Unquote(x.key) == x.key && x.table != "" && x.key != ""
    requires x in s.cache && s.cache[x].serial <= s.serial
    ensures var r := Record(s.clock, origin, x.table, x.key, Update, 1, 1, s.serial + 1);
      var t := Run(c, s, LossEvents(origin, x, Update, Some(value), s.serial + 1, 1, []));
      t.phase.Idle? && t.attempts == c.retries && x in t.cache && t.cache[x] == s.cache[x] &&
      r in t.log && WellFormed(r) && r.stamp <= t.last && !Reflects(t, r)
  {
    LossRun(c, s, origin, x, Update, Some(value), 1, []);
  }

  /** Deleting a table's only row elsewhere is logged with size 0 and never reaches this cache, even
      though its record is read. */
  lemma LastRowDeleteIsLost(c: Settings, s: State, origin: string, x: Slot)
    requires c.window > 0 && Initial(c, s) && c.retries > 0 && s.clock + 2 < LAST_STAMP
    requires origin != c.base.self && Unquote(x.key) == x.key && x in s.cache
    ensures var r := Record(s.clock, origin, x.table, x.key, Delete, 1, 0, s.serial + 1);
      var t := Run(c, s, LossEvents(origin, x, Delete, None, s.serial + 1, 0, [r]));
      t.phase.Idle? && t.attempts == c.retries && r in t.log && r.stamp <= t.last &&
      x in t.cache && x in t.db && t.db[x].value == None
  {
    var r := Record(s.clock, origin, x.table, x.key, Delete, 1, 0, s.serial + 1);
    LossRun(c, s, origin, x, Delete, None, 0, [r]);
  }

  // ---- How a covered row gets lost ----

  /** When the reload of a table that was found too small fails, the sync still succeeds: the stamp advances, the
      attempts are restored, and no row of the table is cached. */
  lemma {:induction false} FailedReloadEmptiesTable(c: Settings, s: State, list: seq<Record>, readable: nat -> bool, order: seq<string>,
    readOk: string -> bool, t: string)
    requires c.window > 0 && c.retries > 0 && s.phase.Idle? && s.attempts != 0 && s.clock + 1 < LAST_STAMP
    requires forall r | r in list :: r in s.log && Shown(s.last, s.clock, c.window, r.stamp)
    requires var a := ApplyAll(c.base, s.db, s.cache, {}, list, readable, 0);
      a.outcome == Stop(true) && Distinct(order) && Names(order) == a.small && t in a.small
    requires !readOk(t)
    ensures var u := Run(c, s, SyncEvents(list, readable, order, readOk));
      AtRest(u) && u.attempts == c.retries && u.last == s.clock && u.db == s.db && u.log == s.log && u.unlogged == s.unlogged &&
      forall x | x in u.cache :: x.table != t
  {
    SyncIsARun(c, s, list, readable, order, readOk);
    var a := ApplyAll(c.base, s.db, s.cache, {}, list, readable, 0);
    forall x | x in RefreshedTables(s.db, a.cache, a.small, readOk) ensures x.table != t {
      ReloadedTablesMirror(s.db, a.cache, a.small, readOk, x);
    }
  }

  /** A foreign delete that is applied after the row was written again here takes the new row out of the cache, and the
      server's own later record does not bring it back. */
  lemma {:induction false} LateDeleteDropsOwnRow(c: Settings, s: State, d: Record, own: Record, readable: nat -> bool)
    requires c.window > 0 && c.retries > 0 && s.phase.Idle? && s.attempts != 0 && s.clock + 1 < LAST_STAMP
    requires forall r | r in {d, own} :: r in s.log && Shown(s.last, s.clock, c.window, r.stamp)
    requires Relevant(c.base, d) && d.op == Delete && d.table in c.base.tables
    requires TableSize(s.cache - {Target(d)}, d.table) >= d.validCacheSize && FromSelf(c.base, own)
    ensures var u := Run(c, s, SyncEvents([d, own], readable, [], NeverFails));
      AtRest(u) && u.attempts == c.retries && u.last == s.clock && u.db == s.db && Target(d) !in u.cache
  {
    var after := s.cache - {Target(d)};
    assert [d, own][1..] == [own] && [own][1..] == [];
    assert ApplyAll(c.base, s.db, after, {}, [own], readable, 1) == Applied(after, {}, Stop(true));
    assert ApplyAll(c.base, s.db, s.cache, {}, [d, own], readable, 0) == Applied(after, {}, Stop(true));
    assert Names([]) == {};
    SyncIsARun(c, s, [d, own], readable, [], NeverFails);
    assert RefreshedTables(s.db, after, {}, NeverFails) == after;
  }

  function NeverReads(table: string): bool { false }

  /** The first kind of loss happens: from any start, a create is logged with a size this cache does not have, its table
      cannot be read, and in the end the row and all its table are missing although everything is covered. */
  lemma {:induction false} CoveredTableCanBeMissing(c: Settings, s: State, origin: string, x: Slot, value: string, size: int)
    requires c.window > 0 && Initial(c, s) && c.retries > 0 && s.clock + 2 < LAST_STAMP
    requires origin != c.base.self && Unquote(x.key) == x.key && x.key != "" && x.table != "" && x.table in c.base.tables
    requires size > TableSize(s.cache[x := Entry(s.serial + 1, value)], x.table)
    ensures var r := Record(s.clock, origin, x.table, x.key, Create, 1, size, s.serial + 1);
      var es := [RemoteWrite(origin, x, Create, Some(value)), Append(Write(origin, x, Create, s.serial + 1), x.key, 1, size), Pass(1)] +
        SyncEvents([r], NeverDown, [x.table], NeverReads);
      var u := Run(c, s, es);
      AtRest(u) && InDb(u.db, x) && x !in u.cache && u.db[x].serial == r.serial && r in u.log && WellFormed(r) && r.stamp <= u.last
  {
    var r := Record(s.clock, origin, x.table, x.key, Create, 1, size, s.serial + 1);
    var e1, e2 := RemoteWrite(origin, x, Create, Some(value)), Append(Write(origin, x, Create, s.serial + 1), x.key, 1, size);
    var rest := SyncEvents([r], NeverDown, [x.table], NeverReads);
    assert [e1, e2, Pass(1)] + rest == [e1] + ([e2] + ([Pass(1)] + rest));
    WriteIsLogged(c, s, origin, x, Create, Some(value), size);
    RunThree(c, s, e1, e2, Pass(1), rest);
    var s3 := AfterLoggedWrite(s, r, x, Some(value));
    WindowCoverage(s3.last, s3.clock, c.window, r.stamp);
    MilliBounds(s3.last);
    TooSmall(c, s3, r, x, value);
    FailedReloadEmptiesTable(c, s3, [r], NeverDown, [x.table], NeverReads, x.table);
  }

  lemma {:induction false} TooSmall(c: Settings, s: State, r: Record, x: Slot, value: string)
    requires Relevant(c.base, r) && r.op == Create && r.table in c.base.tables && Target(r) == x
    requires InDb(s.db, x) && Current(s.db, x) == Entry(r.serial, value)
    requires r.validCacheSize > TableSize(s.cache[x := Entry(r.serial, value)], x.table)
    ensures ApplyAll(c.base, s.db, s.cache, {}, [r], NeverDown, 0) ==
      Applied(s.cache[x := Entry(r.serial, value)], {x.table}, Stop(true))
    ensures Names([x.table]) == {x.table}
  {
    assert [r][1..] == [];
  }

  function ForeignEvents(serial: nat, origin: string, x: Slot): seq<Event> {
    [RemoteWrite(origin, x, Delete, None)] + [Append(Write(origin, x, Delete, serial + 1), x.key, 1, 1)]
  }

  function OwnEvents(serial: nat, self: string, x: Slot, value: string): seq<Event> {
    [LocalWrite(x, Some(value))] + ([Append(Write(self, x, Create, serial + 1), x.key, 1, 1)] + [Pass(1)])
  }

  function LateDeleteEvents(s: State, origin: string, self: string, x: Slot, value: string): seq<Event> {
    ForeignEvents(s.serial, origin, x) + OwnEvents(s.serial + 1, self, x, value)
  }

  /** A write elsewhere and its record, at once. */
  function AfterForeign(s: State, x: Slot, d: Record): State {
    var w := Write(d.origin, x, Delete, s.serial + 1);
    s.(serial := s.serial + 1, db := s.db[x := Cell(s.serial + 1, d.origin, None)],
       log := s.log + {d}, unlogged := s.unlogged + {w} - {w})
  }

  /** A write here and its record, and time passes. */
  function AfterOwn(s: State, x: Slot, value: string, own: Record): State {
    var w := Write(own.origin, x, Create, s.serial + 1);
    s.(clock := s.clock + 1, serial := s.serial + 1, db := s.db[x := Cell(s.serial + 1, own.origin, Some(value))],
       cache := s.cache[x := Entry(s.serial + 1, value)], log := s.log + {own}, unlogged := s.unlogged + {w} - {w})
  }

  lemma {:induction false} ForeignRun(c: Settings, s: State, origin: string, x: Slot)
    requires c.window > 0 && Unquote(x.key) == x.key && origin != c.base.self
    ensures Run(c, s, ForeignEvents(s.serial, origin, x)) ==
      AfterForeign(s, x, Record(s.clock, origin, x.table, x.key, Delete, 1, 1, s.serial + 1))
  {
    var e1, e2 := RemoteWrite(origin, x, Delete, None), Append(Write(origin, x, Delete, s.serial + 1), x.key, 1, 1);
    RunCons(c, s, e1, [e2]);
    RunCons(c, Apply(c, s, e1), e2, []);
    assert [e2] + [] == [e2];
    assert e2.write in Apply(c, s, e1).unlogged;
  }

  lemma {:induction false} OwnRun(c: Settings, s: State, x: Slot, value: string)
    requires c.window > 0 && s.clock + 1 < LAST_STAMP && Unquote(x.key) == x.key && x.table in c.base.tables
    ensures Run(c, s, OwnEvents(s.serial, c.base.self, x, value)) ==
      AfterOwn(s, x, value, Record(s.clock, c.base.self, x.table, x.key, Create, 1, 1, s.serial + 1))
  {
    var e1, e2 := LocalWrite(x, Some(value)), Append(Write(c.base.self, x, Create, s.serial + 1), x.key, 1, 1);
    var s1 := Apply(c, s, e1);
    RunCons(c, s, e1, [e2] + [Pass(1)]);
    RunCons(c, s1, e2, [Pass(1)]);
    RunCons(c, Apply(c, s1, e2), Pass(1), []);
    assert [Pass(1)] + [] == [Pass(1)];
    assert e2.write in s1.unlogged;
  }

  lemma {:induction false} LateDeleteRun(c: Settings, s: State, origin: string, x: Slot, value: string)
    requires c.window > 0 && s.clock + 1 < LAST_STAMP && Unquote(x.key) == x.key
    requires origin != c.base.self && x.table in c.base.tables
    ensures var d := Record(s.clock, origin, x.table, x.key, Delete, 1, 1, s.serial + 1);
      var own := Record(s.clock, c.base.self, x.table, x.key, Create, 1, 1, s.serial + 2);
      Run(c, s, LateDeleteEvents(s, origin, c.base.self, x, value)) == AfterOwn(AfterForeign(s, x, d), x, value, own)
  {
    ForeignRun(c, s, origin, x);
    var s2 := Run(c, s, ForeignEvents(s.serial, origin, x));
    OwnRun(c, s2, x, value);
    RunConcat(c, s, ForeignEvents(s.serial, origin, x), OwnEvents(s.serial + 1, c.base.self, x, value));
  }

  /** The second kind of loss happens: from any start, a row is deleted elsewhere, then written here, both are logged, and
      after the next sync the server's own row is missing although everything is covered. */
  lemma {:induction false} OwnRowCanBeMissing(c: Settings, s: State, origin: string, x: Slot, value: string, y: Slot)
    requires c.window > 0 && Initial(c, s) && c.retries > 0 && s.clock + 2 < LAST_STAMP
    requires origin != c.base.self && c.base.self != "" && Unquote(x.key) == x.key && x.key != "" && x.table != ""
    requires x.table in c.base.tables && y in s.cache && y.table == x.table && y != x
    ensures var d := Record(s.clock, origin, x.table, x.key, Delete, 1, 1, s.serial + 1);
      var own := Record(s.clock, c.base.self, x.table, x.key, Create, 1, 1, s.serial + 2);
      var u := Run(c, s, LateDeleteEvents(s, origin, c.base.self, x, value) + SyncEvents([d, own], NeverDown, [], NeverFails));
      AtRest(u) && InDb(u.db, x) && u.db[x].origin == c.base.self && x !in u.cache && u.last > own.stamp
  {
    var d := Record(s.clock, origin, x.table, x.key, Delete, 1, 1, s.serial + 1);
    var own := Record(s.clock, c.base.self, x.table, x.key, Create, 1, 1, s.serial + 2);
    var es := LateDeleteEvents(s, origin, c.base.self, x, value);
    RunConcat(c, s, es, SyncEvents([d, own], NeverDown, [], NeverFails));
    LateDeleteRun(c, s, origin, x, value);
    var t := AfterOwn(AfterForeign(s, x, d), x, value, own);
    WindowCoverage(t.last, t.clock, c.window, s.clock);
    MilliBounds(t.last);
    SizeWithRow(t.cache - {x}, y);
    LateDeleteDropsOwnRow(c, t, d, own, NeverDown);
  }
}
