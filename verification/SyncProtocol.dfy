/** One server's refresh task among local writes, remote writes and failures, in any interleaving. */
module SyncProtocol {
  import opened Common
  import opened TimeWindow
  import opened ChangeLog

  datatype Settings = Settings(base: Config, window: nat, retries: nat)

  /** A database write whose log record has not been appended yet. */
  datatype Write = Write(origin: string, slot: Slot, op: Op, serial: nat)

  datatype Phase =
    | Idle
    | Loading(until: nat)
    | Applying(until: nat, todo: seq<Record>, small: set<string>)
    | Repairing(until: nat, small: set<string>, ok: bool)
    | Refreshing(tables: set<string>, failed: bool)

  datatype State = State(clock: nat, serial: nat, db: Database, unlogged: set<Write>, log: set<Record>,
                         cache: Cache, attempts: int, last: nat, phase: Phase)

  datatype Event =
    | Pass(ticks: nat)
    | LocalWrite(slot: Slot, value: Option<string>)
    | RemoteWrite(origin: string, slot: Slot, op: Op, value: Option<string>)
    | Append(write: Write, changedKey: string, daoId: int, validCacheSize: int)
    | CachedGet(slot: Slot, readOk: bool)
    | Tick
    | Load(records: seq<Record>)
    | LoadFails
    | ApplyNext(readOk: bool)
    | Repair(table: string, readOk: bool)
    | RefreshNext(table: string, readOk: bool)
    | Finish

  function WriteDb(s: State, origin: string, slot: Slot, op: Op, value: Option<string>): State {
    s.(serial := s.serial + 1, db := s.db[slot := Cell(s.serial + 1, origin, value)],
       unlogged := s.unlogged + {Write(origin, slot, op, s.serial + 1)})
  }

  /** The records that the rows of this window are sure to return. */
  predicate InWindow(c: Settings, s: State, r: Record)
    requires c.window > 0 && s.phase.Loading?
  {
    r in s.log && Shown(s.last, s.phase.until, c.window, r.stamp)
  }

  /** Those they may return: a stamp equal to the bound is decided by clock sequences and nodes. */
  predicate MayBeRead(c: Settings, s: State, r: Record)
    requires c.window > 0 && s.phase.Loading?
  {
    InWindow(c, s, r) || (r in s.log && AtBound(s.last, c.window, r.stamp))
  }

  function RecordOf(s: State, e: Event): Record
    requires e.Append?
  {
    Record(s.clock, e.write.origin, e.write.slot.table, e.changedKey, e.write.op, e.daoId, e.validCacheSize, e.write.serial)
  }

  /** An event that is not enabled changes nothing. */
  ghost function Apply(c: Settings, s: State, e: Event): State
    requires c.window > 0
  {
    match e
    case Pass(d) =>
      if s.clock + d < LAST_STAMP then s.(clock := s.clock + d) else s
    case LocalWrite(slot, value) =>
      if slot.table !in c.base.tables then s
      else
        var t := WriteDb(s, c.base.self, slot, if value.Some? then Create else Delete, value);
        t.(cache := if value.Some? then s.cache[slot := Entry(t.serial, value.value)] else s.cache - {slot})
    case RemoteWrite(origin, slot, op, value) =>
      if origin == c.base.self || op == Truncate || (op == Delete) != value.None? then s
      else WriteDb(s, origin, slot, op, value)
    case Append(w, changedKey, daoId, size) =>
      if w in s.unlogged && Unquote(changedKey) == w.slot.key then
        s.(log := s.log + {RecordOf(s, e)}, unlogged := s.unlogged - {w})
      else s
    case CachedGet(slot, readOk) =>
      if slot in s.cache || slot.table !in c.base.tables then s
      else s.(cache := Reload(c.base, s.db, s.cache, slot, readOk).0)
    case Tick =>
      if !s.phase.Idle? then s
      else if s.attempts == 0 then s.(last := s.clock, phase := Refreshing(c.base.tables, false))
      else s.(phase := Loading(s.clock))
    case Load(records) =>
      if s.phase.Loading? && s.phase.until < s.clock && (forall r | r in records :: MayBeRead(c, s, r)) then
        s.(phase := Applying(s.phase.until, records, {}))
      else s
    case LoadFails =>
      if s.phase.Loading? then s.(attempts := s.attempts - 1, phase := Idle) else s
    case ApplyNext(readOk) =>
      if !s.phase.Applying? then s
      else if s.phase.todo == [] then s.(phase := Repairing(s.phase.until, s.phase.small, true))
      else
        var a := ApplyRecord(c.base, s.db, s.cache, s.phase.small, s.phase.todo[0], readOk);
        s.(cache := a.cache, phase :=
          if a.outcome.Continue? then Applying(s.phase.until, s.phase.todo[1..], a.small)
          else Repairing(s.phase.until, a.small, a.outcome.ok))
    case Repair(table, readOk) =>
      if s.phase.Repairing? && table in s.phase.small then
        s.(cache := RefreshedTable(s.db, s.cache, table, readOk), phase := s.phase.(small := s.phase.small - {table}))
      else s
    case RefreshNext(table, readOk) =>
      if s.phase.Refreshing? && table in s.phase.tables && s.last < s.clock then
        s.(cache := RefreshedTable(s.db, s.cache, table, readOk),
           phase := Refreshing(s.phase.tables - {table}, s.phase.failed || !readOk))
      else s
    case Finish =>
      if s.phase.Repairing? && s.phase.small == {} then
        if s.phase.ok then s.(last := s.phase.until, attempts := c.retries, phase := Idle)
        else s.(attempts := s.attempts - 1, phase := Idle)
      else if s.phase.Refreshing? && s.phase.tables == {} && s.last < s.clock then
        s.(attempts := if s.phase.failed then s.attempts else s.attempts + 1, phase := Idle)
      else s
  }

  ghost function Run(c: Settings, s: State, es: seq<Event>): State
    requires c.window > 0
    decreases |es|
  {
    if es == [] then s else Run(c, Apply(c, s, es[0]), es[1..])
  }

  /** The rows of the window come back whole. The driver's iterator drops the rest of a row silently
      when a query fails, so this is an assumption about the run, not about the code. */
  ghost predicate LoadIsComplete(c: Settings, s: State, e: Event)
    requires c.window > 0
  {
    e.Load? && s.phase.Loading? ==> forall r | InWindow(c, s, r) :: r in e.records
  }

  /** A reload that finds nothing leaves no old entry behind: always so when the library drops entries, and otherwise
      when there was none. */
  ghost predicate StepLeavesNothingOld(c: Settings, s: State, e: Event) {
    e.ApplyNext? && s.phase.Applying? && s.phase.todo != [] ==>
      LeavesNothingOld(c.base, s.db, s.cache, s.phase.todo[0], e.readOk)
  }

  ghost predicate StepAssumption(c: Settings, s: State, e: Event)
    requires c.window > 0
  {
    LoadIsComplete(c, s, e) && StepLeavesNothingOld(c, s, e)
  }

  /** What is assumed of the reads in a run. */
  ghost predicate ReadsAreWhole(c: Settings, s: State, es: seq<Event>)
    requires c.window > 0
    decreases |es|
  {
    es != [] ==> StepAssumption(c, s, es[0]) && ReadsAreWhole(c, Apply(c, s, es[0]), es[1..])
  }

  // ---- What has been taken in, and what was dropped ----

  /** The records taken into the cache, one by one or by a reload of their table, and the rows that were dropped while
      the database had them and have not been loaded or written here since. Neither looks at what is cached. */
  datatype History = History(applied: set<Record>, dropped: set<Slot>)

  function RowsOf(db: Database, table: string): set<Slot> {
    set x | x in db && x.table == table && InDb(db, x)
  }

  ghost function NoteRecord(c: Settings, s: State, h: History, r: Record, readOk: bool): History {
    var x := Target(r);
    if !Relevant(c.base, r) || r.table !in c.base.tables then h
    else match r.op
      case Delete => History(h.applied + {r}, if InDb(s.db, x) then h.dropped + {x} else h.dropped)
      case Truncate => History(h.applied + {r}, h.dropped + RowsOf(s.db, r.table))
      case _ =>
        if !InDb(s.db, x) then h
        else if readOk then History(h.applied + {r}, h.dropped - {x})
        else h.(dropped := h.dropped + {x})
  }

  ghost function NoteReload(s: State, h: History, table: string, readOk: bool): History {
    if readOk then
      History(h.applied + (set r | r in s.log && r.table == table), set x | x in h.dropped && x.table != table)
    else h.(dropped := h.dropped + RowsOf(s.db, table))
  }

  ghost function Note(c: Settings, s: State, h: History, e: Event): History
    requires c.window > 0
  {
    match e
    case LocalWrite(slot, _) => if slot.table in c.base.tables then h.(dropped := h.dropped - {slot}) else h
    case CachedGet(slot, readOk) =>
      if slot.table in c.base.tables && readOk && InDb(s.db, slot) then h.(dropped := h.dropped - {slot}) else h
    case ApplyNext(readOk) =>
      if s.phase.Applying? && s.phase.todo != [] then NoteRecord(c, s, h, s.phase.todo[0], readOk) else h
    case Repair(table, readOk) =>
      if s.phase.Repairing? && table in s.phase.small then NoteReload(s, h, table, readOk) else h
    case RefreshNext(table, readOk) =>
      if s.phase.Refreshing? && table in s.phase.tables && s.last < s.clock then NoteReload(s, h, table, readOk) else h
    case _ => h
  }

  ghost function Noted(c: Settings, s: State, h: History, es: seq<Event>): History
    requires c.window > 0
    decreases |es|
  {
    if es == [] then h else Noted(c, Apply(c, s, es[0]), Note(c, s, h, es[0]), es[1..])
  }

  // ---- The invariant ----

  /** The cache does not know less about the record's slot than the record tells. */
  predicate Reflects(s: State, r: Record) {
    Target(r) !in s.cache || s.cache[Target(r)].serial >= r.serial
  }

  ghost predicate CacheIsHistory(db: Database, cache: Cache) {
    forall x | x in cache :: x in db && cache[x].serial <= db[x].serial &&
      (cache[x].serial == db[x].serial ==> db[x].value == Some(cache[x].value))
  }

  ghost predicate LogIsHistory(s: State) {
    (forall r | r in s.log :: r.stamp <= s.clock && Target(r) in s.db && r.serial <= s.db[Target(r)].serial && r.op != Truncate) &&
    (forall w | w in s.unlogged :: w.slot in s.db && w.serial <= s.db[w.slot].serial && w.op != Truncate)
  }

  /** A stale entry's slot was last written elsewhere, and that write is still to be logged or is in
      the log. */
  ghost predicate Explained(c: Settings, s: State, x: Slot)
    requires x in s.db
  {
    s.db[x].origin != c.base.self &&
    ((exists w :: w in s.unlogged && w.slot == x && w.serial == s.db[x].serial && w.origin == s.db[x].origin) ||
     (exists r :: r in s.log && Target(r) == x && r.serial == s.db[x].serial && r.origin == s.db[x].origin))
  }

  ghost predicate StaleIsExplained(c: Settings, s: State) {
    forall x | x in s.cache && x in s.db && s.cache[x].serial < s.db[x].serial :: Explained(c, s, x)
  }

  /** Likewise for a row that is missing without having been dropped. */
  ghost predicate AbsentIsExplained(c: Settings, s: State, h: History) {
    forall x | InDb(s.db, x) && x.table in c.base.tables && x !in s.cache && x !in h.dropped :: Explained(c, s, x)
  }

  ghost predicate DroppedAreAbsent(s: State, h: History) {
    forall x | x in h.dropped :: x !in s.cache
  }

  /** The record was taken in, and if its write is still the row's last one, the row is cached or was dropped. */
  ghost predicate Taken(c: Settings, s: State, h: History, r: Record) {
    r.table in c.base.tables ==>
      r in h.applied &&
      (InDb(s.db, Target(r)) && s.db[Target(r)].serial == r.serial ==> Target(r) in s.cache || Target(r) in h.dropped)
  }

  ghost predicate Reached(c: Settings, s: State, h: History, r: Record) {
    Reflects(s, r) && Taken(c, s, h, r)
  }

  ghost predicate AttemptsInRange(c: Settings, s: State) {
    0 <= s.attempts <= (if c.retries > 1 then c.retries else 1) &&
    (s.phase.Refreshing? ==> s.attempts == 0) &&
    (s.phase.Loading? || s.phase.Applying? || s.phase.Repairing? ==> s.attempts > 0)
  }

  ghost predicate TimesInOrder(s: State) {
    s.last <= s.clock < LAST_STAMP &&
    (s.attempts > 0 ==> s.last < s.clock) &&
    match s.phase
    case Idle => true
    case Loading(until) => s.last <= until <= s.clock
    case Applying(until, todo, _) => s.last <= until < s.clock
    case Repairing(until, _, _) => s.last <= until < s.clock
    case Refreshing(_, _) => true
  }

  ghost predicate Basic(c: Settings, s: State) {
    CacheIsHistory(s.db, s.cache) && LogIsHistory(s) && StaleIsExplained(c, s) && AttemptsInRange(c, s) && TimesInOrder(s) &&
    (s.phase.Refreshing? && s.last == s.clock ==> s.phase.tables == c.base.tables) &&
    PhaseTables(c, s) && (forall x | x in s.cache :: x.table in c.base.tables)
  }

  /** Only cached tables are ever reloaded. */
  ghost predicate PhaseTables(c: Settings, s: State) {
    match s.phase
    case Applying(_, _, small) => small <= c.base.tables
    case Repairing(_, small, _) => small <= c.base.tables
    case Refreshing(tables, _) => tables <= c.base.tables
    case _ => true
  }

  lemma UncachedTableReached(c: Settings, s: State, h: History, r: Record)
    requires Basic(c, s) && r.table !in c.base.tables
    ensures Reached(c, s, h, r)
  {
    assert Target(r).table == r.table;
  }

  /** What is known about a record at each point of the refresh cycle. */
  ghost predicate Covered(c: Settings, s: State, h: History, r: Record) {
    match s.phase
    case Idle => s.attempts > 0 && r.stamp <= s.last ==> Reached(c, s, h, r)
    case Loading(_) => r.stamp <= s.last ==> Reached(c, s, h, r)
    case Applying(until, todo, _) =>
      (r.stamp <= s.last ==> Reached(c, s, h, r)) && (r.stamp <= until ==> Reached(c, s, h, r) || r in todo)
    case Repairing(until, _, ok) =>
      (r.stamp <= s.last ==> Reached(c, s, h, r)) && (ok && r.stamp <= until ==> Reached(c, s, h, r))
    case Refreshing(tables, failed) => r.stamp <= s.last ==> Reached(c, s, h, r) || r.table in tables || failed
  }

  ghost predicate Inv(c: Settings, s: State, h: History) {
    Basic(c, s) && AbsentIsExplained(c, s, h) && DroppedAreAbsent(s, h) &&
    forall r | r in s.log && Relevant(c.base, r) :: Covered(c, s, h, r)
  }

  /** After precaching: the cached tables are in the cache as the database has them, and time has moved past the first
      stamp. What is in the log by then was written before. */
  ghost predicate Initial(c: Settings, s: State) {
    s.phase == Idle && s.attempts == c.retries && s.last < s.clock < LAST_STAMP && LogIsHistory(s) &&
    (forall x | x in s.cache :: x.table in c.base.tables && InDb(s.db, x) && s.cache[x] == Current(s.db, x)) &&
    (forall x | InDb(s.db, x) && x.table in c.base.tables :: x in s.cache)
  }

  function Start(s: State): History { History(s.log, {}) }

  lemma InitialInv(c: Settings, s: State)
    requires Initial(c, s)
    ensures Inv(c, s, Start(s))
  {
  }

  // ---- Every step keeps it ----

  /** What the history must remember when entries change. */
  ghost predicate LossIsNoted(c: Settings, s: State, h: History, t: State, g: History) {
    h.applied <= g.applied && DroppedAreAbsent(t, g) &&
    forall x | InDb(s.db, x) && x.table in c.base.tables && (x in s.cache || x in h.dropped) :: x in t.cache || x in g.dropped
  }

  /** Entries that change become current, and those that go are noted: nothing that was reached is forgotten. */
  lemma RenewalKeepsKnowledge(c: Settings, s: State, h: History, t: State, g: History)
    requires Basic(c, s) && AbsentIsExplained(c, s, h)
    requires t == s.(cache := t.cache, phase := t.phase, attempts := t.attempts, last := t.last)
    requires OnlyRenews(s.db, s.cache, t.cache) && LossIsNoted(c, s, h, t, g)
    ensures CacheIsHistory(t.db, t.cache) && LogIsHistory(t) && StaleIsExplained(c, t) && AbsentIsExplained(c, t, g)
    ensures forall r | r in s.log && Reached(c, s, h, r) :: Reached(c, t, g, r)
  {
    forall x | x in t.cache && x in t.db && t.cache[x].serial < t.db[x].serial ensures Explained(c, t, x) {
      assert x in s.cache && Explained(c, s, x);
      SameExplained(c, s, t, x);
    }
    forall x | InDb(t.db, x) && x.table in c.base.tables && x !in t.cache && x !in g.dropped ensures Explained(c, t, x) {
      assert Explained(c, s, x);
      SameExplained(c, s, t, x);
    }
  }

  lemma SameExplained(c: Settings, s: State, t: State, x: Slot)
    requires t.db == s.db && t.log == s.log && t.unlogged == s.unlogged && x in s.db && Explained(c, s, x)
    ensures Explained(c, t, x)
  {
  }

  /** A database write changes one cell, to a later serial. */
  lemma WriteKeepsHistory(c: Settings, s: State, origin: string, slot: Slot, op: Op, value: Option<string>)
    requires Basic(c, s) && SerialsUsed(s) && op != Truncate
    ensures var t := WriteDb(s, origin, slot, op, value);
      LogIsHistory(t) && (forall x | x in s.cache && x != slot :: x in t.db && t.db[x] == s.db[x]) &&
      (slot in s.db ==> s.db[slot].serial < t.db[slot].serial) &&
      Write(origin, slot, op, t.serial) in t.unlogged
  {
  }

  ghost predicate SerialsUsed(s: State) {
    forall x | x in s.db :: s.db[x].serial <= s.serial
  }

  lemma ExplanationSurvives(c: Settings, s: State, t: State, x: Slot)
    requires x in s.db && x in t.db && s.db[x] == t.db[x] && Explained(c, s, x)
    requires s.log <= t.log
    requires forall w | w in s.unlogged && w !in t.unlogged ::
      exists r :: r in t.log && Target(r) == w.slot && r.serial == w.serial && r.origin == w.origin
    ensures Explained(c, t, x)
  {
    if w :| w in s.unlogged && w.slot == x && w.serial == s.db[x].serial && w.origin == s.db[x].origin {
      if w !in t.unlogged {
        var r :| r in t.log && Target(r) == w.slot && r.serial == w.serial && r.origin == w.origin;
      }
    } else {
      var r :| r in s.log && Target(r) == x && r.serial == s.db[x].serial && r.origin == s.db[x].origin;
      assert r in t.log;
    }
  }

  /** Writing locally: the cell and the entry move together. */
  lemma LocalWriteInStep(c: Settings, s: State, slot: Slot, value: Option<string>)
    requires c.window > 0 && Basic(c, s) && SerialsUsed(s) && slot.table in c.base.tables
    ensures var t := Apply(c, s, LocalWrite(slot, value));
      CacheIsHistory(t.db, t.cache) && LogIsHistory(t) && (forall x | x in t.cache :: x.table in c.base.tables) &&
      (forall x | x in t.cache && x != slot :: x in s.cache && t.cache[x] == s.cache[x] && x in s.db && t.db[x] == s.db[x]) &&
      (slot in t.cache ==> slot in t.db && t.cache[slot].serial == t.db[slot].serial) &&
      (forall r | r in s.log && Reflects(s, r) :: Reflects(t, r))
  {
    WriteKeepsHistory(c, s, c.base.self, slot, if value.Some? then Create else Delete, value);
  }

  lemma LocalWriteTaken(c: Settings, s: State, h: History, slot: Slot, value: Option<string>, r: Record)
    requires c.window > 0 && Basic(c, s) && SerialsUsed(s) && slot.table in c.base.tables && r in s.log && Taken(c, s, h, r)
    ensures Taken(c, Apply(c, s, LocalWrite(slot, value)), Note(c, s, h, LocalWrite(slot, value)), r)
  {
  }

  lemma LocalWriteExplains(c: Settings, s: State, h: History, e: Event)
    requires c.window > 0 && Inv(c, s, h) && SerialsUsed(s) && e.LocalWrite? && e.slot.table in c.base.tables
    ensures var t := Apply(c, s, e); StaleIsExplained(c, t) && AbsentIsExplained(c, t, Note(c, s, h, e))
  {
    var t, g := Apply(c, s, e), Note(c, s, h, e);
    LocalWriteInStep(c, s, e.slot, e.value);
    forall x | x in t.cache && x in t.db && t.cache[x].serial < t.db[x].serial ensures Explained(c, t, x) {
      ExplanationSurvives(c, s, t, x);
    }
    forall x | InDb(t.db, x) && x.table in c.base.tables && x !in t.cache && x !in g.dropped ensures Explained(c, t, x) {
      assert x != e.slot && t.db[x] == s.db[x];
      ExplanationSurvives(c, s, t, x);
    }
  }

  lemma LocalWriteKeepsInv(c: Settings, s: State, h: History, e: Event)
    requires c.window > 0 && Inv(c, s, h) && SerialsUsed(s) && e.LocalWrite?
    ensures Inv(c, Apply(c, s, e), Note(c, s, h, e))
  {
    var t, g := Apply(c, s, e), Note(c, s, h, e);
    if e.slot.table in c.base.tables {
      LocalWriteInStep(c, s, e.slot, e.value);
      LocalWriteExplains(c, s, h, e);
      forall r | r in s.log && Relevant(c.base, r) ensures Covered(c, t, g, r) {
        assert Covered(c, s, h, r);
        if Taken(c, s, h, r) { LocalWriteTaken(c, s, h, e.slot, e.value, r); }
      }
    }
  }

  lemma RemoteWriteKeepsInv(c: Settings, s: State, h: History, e: Event)
    requires c.window > 0 && Inv(c, s, h) && SerialsUsed(s) && e.RemoteWrite?
    ensures Inv(c, Apply(c, s, e), Note(c, s, h, e))
  {
    var t := Apply(c, s, e);
    if t != s {
      WriteKeepsHistory(c, s, e.origin, e.slot, e.op, e.value);
      RemoteWriteExplains(c, s, h, e);
      forall r | r in s.log && Relevant(c.base, r) ensures Covered(c, t, h, r) {
        assert Covered(c, s, h, r);
        assert Reached(c, s, h, r) ==> Reached(c, t, h, r);
      }
    }
  }

  lemma RemoteWriteExplains(c: Settings, s: State, h: History, e: Event)
    requires c.window > 0 && Inv(c, s, h) && SerialsUsed(s) && e.RemoteWrite? && Apply(c, s, e) != s
    ensures var t := Apply(c, s, e); StaleIsExplained(c, t) && AbsentIsExplained(c, t, h)
  {
    var t := Apply(c, s, e);
    WriteKeepsHistory(c, s, e.origin, e.slot, e.op, e.value);
    assert Write(e.origin, e.slot, e.op, t.serial) in t.unlogged;
    assert Explained(c, t, e.slot);
    forall x | x in t.cache && x in t.db && t.cache[x].serial < t.db[x].serial ensures Explained(c, t, x) {
      if x != e.slot { ExplanationSurvives(c, s, t, x); }
    }
    forall x | InDb(t.db, x) && x.table in c.base.tables && x !in t.cache && x !in h.dropped ensures Explained(c, t, x) {
      if x != e.slot { ExplanationSurvives(c, s, t, x); }
    }
  }

  lemma AppendKeepsInv(c: Settings, s: State, h: History, e: Event)
    requires c.window > 0 && Inv(c, s, h) && e.Append?
    ensures Inv(c, Apply(c, s, e), Note(c, s, h, e))
  {
    var t := Apply(c, s, e);
    if t != s {
      var n := RecordOf(s, e);
      assert Target(n) == e.write.slot && n in t.log;
      forall x | x in s.db && Explained(c, s, x) ensures Explained(c, t, x) { ExplanationSurvives(c, s, t, x); }
      forall r | r in t.log && Relevant(c.base, r) ensures Covered(c, t, h, r) {
        if r in s.log { assert Covered(c, s, h, r); } else if r.table !in c.base.tables { UncachedTableReached(c, s, h, r); }
      }
    }
  }

  lemma LoadKeepsInv(c: Settings, s: State, h: History, e: Event)
    requires c.window > 0 && Inv(c, s, h) && e.Load? && StepAssumption(c, s, e)
    ensures Inv(c, Apply(c, s, e), Note(c, s, h, e))
  {
    var t := Apply(c, s, e);
    if t != s {
      forall x | x in s.db && Explained(c, s, x) ensures Explained(c, t, x) { SameExplained(c, s, t, x); }
      forall r | r in s.log && Relevant(c.base, r) ensures Covered(c, t, h, r) {
        assert Covered(c, s, h, r);
        MilliBounds(s.last);
        WindowCoverage(s.last, s.phase.until, c.window, r.stamp);
        if s.last < r.stamp <= s.phase.until { assert InWindow(c, s, r); }
      }
    }
  }

  lemma ApplyNextIsNoted(c: Settings, s: State, h: History, e: Event)
    requires c.window > 0 && Inv(c, s, h) && e.ApplyNext? && StepLeavesNothingOld(c, s, e) && s.phase.Applying? && s.phase.todo != []
    ensures LossIsNoted(c, s, h, Apply(c, s, e), Note(c, s, h, e))
  {
  }

  lemma ApplyNextReaches(c: Settings, s: State, h: History, e: Event)
    requires c.window > 0 && Inv(c, s, h) && e.ApplyNext? && StepLeavesNothingOld(c, s, e) && s.phase.Applying? && s.phase.todo != []
    requires s.phase.todo[0] in s.log && Relevant(c.base, s.phase.todo[0]) && Apply(c, s, e).phase.Applying?
    ensures Reached(c, Apply(c, s, e), Note(c, s, h, e), s.phase.todo[0])
  {
  }

  lemma ApplyNextKeepsInv(c: Settings, s: State, h: History, e: Event)
    requires c.window > 0 && Inv(c, s, h) && e.ApplyNext? && StepLeavesNothingOld(c, s, e)
    requires s.phase.Applying? ==> forall r | r in s.phase.todo :: r in s.log
    ensures Inv(c, Apply(c, s, e), Note(c, s, h, e))
  {
    var t, g := Apply(c, s, e), Note(c, s, h, e);
    if s.phase.Applying? && s.phase.todo != [] {
      var n := s.phase.todo[0];
      assert n in s.phase.todo;
      RecordOnlyRenews(c.base, s.db, s.cache, s.phase.small, n, e.readOk);
      ApplyNextIsNoted(c, s, h, e);
      RenewalKeepsKnowledge(c, s, h, t, g);
      forall r | r in s.log && Relevant(c.base, r) ensures Covered(c, t, g, r) {
        assert Covered(c, s, h, r);
        if t.phase.Applying? && r in s.phase.todo && r !in s.phase.todo[1..] {
          assert r == n;
          ApplyNextReaches(c, s, h, e);
        }
      }
    } else if t != s {
      RenewalKeepsKnowledge(c, s, h, t, g);
      forall r | r in s.log && Relevant(c.base, r) ensures Covered(c, t, g, r) { assert Covered(c, s, h, r); }
    }
  }

  /** A reload of one table: it only renews, what goes is noted, and a successful one takes in all the table's records. */
  lemma ReloadStep(c: Settings, s: State, h: History, table: string, readOk: bool, t: State)
    requires Basic(c, s) && AbsentIsExplained(c, s, h) && DroppedAreAbsent(s, h) && table in c.base.tables
    requires t == s.(cache := RefreshedTable(s.db, s.cache, table, readOk), phase := t.phase)
    ensures OnlyRenews(s.db, s.cache, t.cache) && LossIsNoted(c, s, h, t, NoteReload(s, h, table, readOk))
    ensures forall r | readOk && r in s.log && r.table == table :: Reached(c, t, NoteReload(s, h, table, readOk), r)
  {
  }

  lemma PassKeepsInv(c: Settings, s: State, h: History, e: Event)
    requires c.window > 0 && Inv(c, s, h) && e.Pass?
    ensures Inv(c, Apply(c, s, e), h)
  {
    var t := Apply(c, s, e);
    forall x | x in s.db && Explained(c, s, x) ensures Explained(c, t, x) { SameExplained(c, s, t, x); }
    forall r | r in s.log && Relevant(c.base, r) ensures Covered(c, t, h, r) { assert Covered(c, s, h, r); }
  }

  lemma GetKeepsInv(c: Settings, s: State, h: History, e: Event)
    requires c.window > 0 && Inv(c, s, h) && e.CachedGet?
    ensures Inv(c, Apply(c, s, e), Note(c, s, h, e))
  {
    var t, g := Apply(c, s, e), Note(c, s, h, e);
    RenewalKeepsKnowledge(c, s, h, t, g);
    forall r | r in s.log && Relevant(c.base, r) ensures Covered(c, t, g, r) { assert Covered(c, s, h, r); }
  }

  lemma RepairKeepsInv(c: Settings, s: State, h: History, e: Event)
    requires c.window > 0 && Inv(c, s, h) && e.Repair?
    ensures Inv(c, Apply(c, s, e), Note(c, s, h, e))
  {
    var t, g := Apply(c, s, e), Note(c, s, h, e);
    if s.phase.Repairing? && e.table in s.phase.small {
      ReloadStep(c, s, h, e.table, e.readOk, t);
      RenewalKeepsKnowledge(c, s, h, t, g);
      forall r | r in s.log && Relevant(c.base, r) ensures Covered(c, t, g, r) { assert Covered(c, s, h, r); }
    }
  }

  /** The steps that move only the cycle on. */
  lemma CycleStepsKeepInv(c: Settings, s: State, h: History, e: Event)
    requires c.window > 0 && Inv(c, s, h) && (e.Tick? || e.LoadFails? || e.Finish?)
    ensures Inv(c, Apply(c, s, e), Note(c, s, h, e))
  {
    var t := Apply(c, s, e);
    RenewalKeepsKnowledge(c, s, h, t, h);
    forall r | r in s.log && Relevant(c.base, r) ensures Covered(c, t, h, r) {
      assert Covered(c, s, h, r);
      if r.table !in c.base.tables { UncachedTableReached(c, s, h, r); }
    }
  }

  lemma RefreshKeepsInv(c: Settings, s: State, h: History, e: Event)
    requires c.window > 0 && Inv(c, s, h) && e.RefreshNext?
    ensures Inv(c, Apply(c, s, e), Note(c, s, h, e))
  {
    var t, g := Apply(c, s, e), Note(c, s, h, e);
    if s.phase.Refreshing? && e.table in s.phase.tables && s.last < s.clock {
      ReloadStep(c, s, h, e.table, e.readOk, t);
      RenewalKeepsKnowledge(c, s, h, t, g);
      forall r | r in s.log && Relevant(c.base, r) ensures Covered(c, t, g, r) { assert Covered(c, s, h, r); }
    }
  }

  /** Records being applied come from the log. */
  ghost predicate TodoFromLog(s: State) {
    s.phase.Applying? ==> forall r | r in s.phase.todo :: r in s.log
  }

  lemma StepKeepsHistory(c: Settings, s: State, e: Event)
    requires c.window > 0 && SerialsUsed(s) && TodoFromLog(s)
    ensures SerialsUsed(Apply(c, s, e)) && TodoFromLog(Apply(c, s, e))
  {
  }

  lemma StepKeepsInv(c: Settings, s: State, h: History, e: Event)
    requires c.window > 0 && Inv(c, s, h) && SerialsUsed(s) && TodoFromLog(s) && StepAssumption(c, s, e)
    ensures Inv(c, Apply(c, s, e), Note(c, s, h, e))
  {
    match e
    case Pass(_) => PassKeepsInv(c, s, h, e);
    case LocalWrite(_, _) => LocalWriteKeepsInv(c, s, h, e);
    case RemoteWrite(_, _, _, _) => RemoteWriteKeepsInv(c, s, h, e);
    case Append(_, _, _, _) => AppendKeepsInv(c, s, h, e);
    case CachedGet(_, _) => GetKeepsInv(c, s, h, e);
    case Load(_) => LoadKeepsInv(c, s, h, e);
    case ApplyNext(_) => ApplyNextKeepsInv(c, s, h, e);
    case Repair(_, _) => RepairKeepsInv(c, s, h, e);
    case RefreshNext(_, _) => RefreshKeepsInv(c, s, h, e);
    case _ => CycleStepsKeepInv(c, s, h, e);
  }

  lemma {:induction false} RunKeepsInv(c: Settings, s: State, h: History, es: seq<Event>)
    requires c.window > 0 && ReadsAreWhole(c, s, es)
    requires Inv(c, s, h) && SerialsUsed(s) && TodoFromLog(s)
    ensures Inv(c, Run(c, s, es), Noted(c, s, h, es)) && SerialsUsed(Run(c, s, es)) && TodoFromLog(Run(c, s, es))
    decreases |es|
  {
    if es != [] {
      StepKeepsHistory(c, s, es[0]);
      StepKeepsInv(c, s, h, es[0]);
      RunKeepsInv(c, Apply(c, s, es[0]), Note(c, s, h, es[0]), es[1..]);
    }
  }

  // ---- The theorems ----

  /** Attempts are left and no cycle is under way. */
  predicate AtRest(s: State) { s.phase.Idle? && s.attempts > 0 }

  /** Over any run, at rest: every foreign well-formed record of a cached table that is stamped up to the last refresh
      has been taken in, by itself or by a later reload of its table; the cache knows no older write of its row; and if
      the row's last write is the record's, the row is cached unless it was dropped since. The attempts stay in range. */
  lemma NoLostUpdate(c: Settings, s: State, es: seq<Event>)
    requires c.window > 0 && Initial(c, s) && SerialsUsed(s) && ReadsAreWhole(c, s, es)
    ensures var t, h := Run(c, s, es), Noted(c, s, Start(s), es);
      AtRest(t) ==> forall r | r in t.log && Relevant(c.base, r) && r.table in c.base.tables && r.stamp <= t.last ::
        r in h.applied && Reflects(t, r) &&
        (InDb(t.db, Target(r)) && t.db[Target(r)].serial == r.serial ==> Target(r) in t.cache || Target(r) in h.dropped)
    ensures var t := Run(c, s, es);
      0 <= t.attempts <= if c.retries > 1 then c.retries else 1
  {
    InitialInv(c, s);
    RunKeepsInv(c, s, Start(s), es);
    var t, h := Run(c, s, es), Noted(c, s, Start(s), es);
    if AtRest(t) {
      forall r | r in t.log && Relevant(c.base, r) && r.stamp <= t.last ensures Reached(c, t, h, r) {
        assert Covered(c, t, h, r);
      }
    }
  }

  /** The row's last write was made here, or by another server and is neither still to be logged nor logged with a later
      stamp than the last refresh or in a record that is not well formed. */
  ghost predicate LastWriteCovered(c: Settings, t: State, x: Slot)
    requires x in t.db
  {
    t.db[x].origin == c.base.self ||
    ((forall w | w in t.unlogged && w.slot == x :: w.serial != t.db[x].serial) &&
     (forall r | r in t.log && Target(r) == x && r.serial == t.db[x].serial :: WellFormed(r) && r.stamp <= t.last))
  }

  lemma CoveredIsReached(c: Settings, t: State, h: History, x: Slot)
    requires Inv(c, t, h) && AtRest(t) && x in t.db && LastWriteCovered(c, t, x) && Explained(c, t, x)
    ensures exists r :: r in t.log && Target(r) == x && r.serial == t.db[x].serial && Reached(c, t, h, r)
  {
    var r :| r in t.log && Target(r) == x && r.serial == t.db[x].serial && r.origin == t.db[x].origin;
    assert Relevant(c.base, r) && Covered(c, t, h, r);
  }

  /** Seen by a reader: a cached row whose last write is covered is the database's row. */
  lemma CachedRowsAreCurrent(c: Settings, s: State, es: seq<Event>, x: Slot)
    requires c.window > 0 && Initial(c, s) && SerialsUsed(s) && ReadsAreWhole(c, s, es)
    requires var t := Run(c, s, es);
      AtRest(t) && x in t.cache && x in t.db && LastWriteCovered(c, t, x)
    ensures var t := Run(c, s, es);
      t.db[x].value == Some(t.cache[x].value)
  {
    InitialInv(c, s);
    RunKeepsInv(c, s, Start(s), es);
    var t, h := Run(c, s, es), Noted(c, s, Start(s), es);
    if t.cache[x].serial < t.db[x].serial { CoveredIsReached(c, t, h, x); }
  }

  /** And a row whose last write is covered is cached exactly when it was not dropped after it was last loaded or
      written here. */
  lemma CoveredRowsAreCached(c: Settings, s: State, es: seq<Event>, x: Slot)
    requires c.window > 0 && Initial(c, s) && SerialsUsed(s) && ReadsAreWhole(c, s, es)
    requires var t := Run(c, s, es);
      AtRest(t) && InDb(t.db, x) && x.table in c.base.tables && LastWriteCovered(c, t, x)
    ensures x in Run(c, s, es).cache <==> x !in Noted(c, s, Start(s), es).dropped
  {
    InitialInv(c, s);
    RunKeepsInv(c, s, Start(s), es);
    var t, h := Run(c, s, es), Noted(c, s, Start(s), es);
    if x !in t.cache && x !in h.dropped { CoveredIsReached(c, t, h, x); }
  }

  // ---- When nothing is dropped ----

  /** The event does not drop a row the database has: its reads succeed, and no delete is applied to a row written
      again since. */
  ghost predicate Benign(c: Settings, s: State, e: Event) {
    match e
    case ApplyNext(readOk) =>
      s.phase.Applying? && s.phase.todo != [] && Relevant(c.base, s.phase.todo[0]) && s.phase.todo[0].table in c.base.tables ==>
        (match s.phase.todo[0].op
         case Delete => !InDb(s.db, Target(s.phase.todo[0]))
         case Truncate => false
         case _ => readOk)
    case Repair(_, readOk) => readOk
    case RefreshNext(_, readOk) => readOk
    case _ => true
  }

  ghost predicate AllBenign(c: Settings, s: State, es: seq<Event>)
    requires c.window > 0
    decreases |es|
  {
    es != [] ==> Benign(c, s, es[0]) && AllBenign(c, Apply(c, s, es[0]), es[1..])
  }

  lemma {:induction false} BenignDropsNothing(c: Settings, s: State, h: History, es: seq<Event>)
    requires c.window > 0 && AllBenign(c, s, es)
    ensures Noted(c, s, h, es).dropped <= h.dropped
    decreases |es|
  {
    if es != [] {
      assert Note(c, s, h, es[0]).dropped <= h.dropped;
      BenignDropsNothing(c, Apply(c, s, es[0]), Note(c, s, h, es[0]), es[1..]);
    }
  }

  /** So in a run of benign events every covered row is cached, as the database has it. */
  lemma BenignRunsCacheEverything(c: Settings, s: State, es: seq<Event>, x: Slot)
    requires c.window > 0 && Initial(c, s) && SerialsUsed(s) && ReadsAreWhole(c, s, es)
    requires AllBenign(c, s, es)
    requires var t := Run(c, s, es);
      AtRest(t) && InDb(t.db, x) && x.table in c.base.tables && LastWriteCovered(c, t, x)
    ensures var t := Run(c, s, es);
      x in t.cache && t.db[x].value == Some(t.cache[x].value)
  {
    BenignDropsNothing(c, s, Start(s), es);
    CoveredRowsAreCached(c, s, es, x);
    CachedRowsAreCurrent(c, s, es, x);
  }
}
