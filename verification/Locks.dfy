/** The distributed lock: three conditional steps on the Locks table, interleaved in any way. */
module Locks {
  import opened Common

  /** Clock readings are in nanoseconds; the table's timestamp columns keep whole milliseconds. */
  const NANOS_PER_MILLI := 1_000_000
  const NANOS_PER_SECOND := 1_000_000_000

  function Millis(t: int): int { t / NANOS_PER_MILLI }

  datatype Row = Row(lockedBy: string, lockedAt: int, expiresAt: int)

  /** Where one call of AcquireLock stands. */
  datatype Call =
    | Started(name: string, owner: string, lockedAt: int, expiresAt: int)
    | Occupied(name: string, owner: string, lockedAt: int, expiresAt: int, seen: int)
    | Overdue(name: string, owner: string, lockedAt: int, expiresAt: int)
    | Acquired
    | Failed

  /** An owner believes it holds a lock until that instant. Its own release ends the belief. */
  datatype Grant = Grant(name: string, owner: string, expiresAt: int)

  datatype State = State(now: int, table: map<string, Row>, calls: map<nat, Call>, grants: set<Grant>)

  /** A conditional write's answer may be lost: the client is told of an error, and the write was applied or not. */
  datatype Reply = Told | AppliedUnheard | NotApplied

  datatype Event =
    | Pass(nanos: nat)
    | Start(id: nat, name: string, owner: string, ttl: int)
    | Insert(id: nat, reply: Reply)
    | CheckExpiry(id: nat)
    | Update(id: nat, reply: Reply)
    | Release(name: string, owner: string, reply: Reply)

  function Apply(s: State, e: Event): State {
    match e
    case Pass(d) => s.(now := s.now + d)
    case Start(id, name, owner, ttl) =>
      if id in s.calls && !s.calls[id].Acquired? && !s.calls[id].Failed? then s
      else s.(calls := s.calls[id := Started(name, owner, s.now, s.now + ttl * NANOS_PER_SECOND)])
    case Insert(id, reply) =>
      if id in s.calls && s.calls[id].Started? then DoInsert(s, id, s.calls[id], reply) else s
    case CheckExpiry(id) =>
      if id in s.calls && s.calls[id].Occupied? then DoCheck(s, id, s.calls[id]) else s
    case Update(id, reply) =>
      if id in s.calls && s.calls[id].Overdue? then DoUpdate(s, id, s.calls[id], reply) else s
    case Release(name, owner, reply) =>
      if reply != NotApplied && name in s.table && s.table[name].lockedBy == owner then
        s.(table := s.table - {name}, grants := Without(s.grants, name, owner))
      else s.(grants := Without(s.grants, name, owner))
  }

  function NewRow(c: Call): Row
    requires c.Started? || c.Overdue?
  {
    Row(c.owner, Millis(c.lockedAt), Millis(c.expiresAt))
  }

  /** The row is written as the call's; the caller is granted the lock only if it hears of it. */
  function Written(s: State, id: nat, c: Call, reply: Reply): State
    requires c.Started? || c.Overdue?
  {
    if reply == Told then
      s.(table := s.table[c.name := NewRow(c)], calls := s.calls[id := Acquired],
         grants := s.grants + {Grant(c.name, c.owner, c.expiresAt)})
    else if reply == AppliedUnheard then
      s.(table := s.table[c.name := NewRow(c)], calls := s.calls[id := Failed])
    else s.(calls := s.calls[id := Failed])
  }

  /** INSERT ... IF NOT EXISTS. */
  function DoInsert(s: State, id: nat, c: Call, reply: Reply): State
    requires c.Started?
  {
    if c.name !in s.table then Written(s, id, c, reply)
    else if reply != Told then s.(calls := s.calls[id := Failed])
    else s.(calls := s.calls[id := Occupied(c.name, c.owner, c.lockedAt, c.expiresAt, s.table[c.name].expiresAt)])
  }

  /** The caller compares the row it was shown with its clock. */
  function DoCheck(s: State, id: nat, c: Call): State
    requires c.Occupied?
  {
    if s.now < c.seen * NANOS_PER_MILLI then s.(calls := s.calls[id := Failed])
    else s.(calls := s.calls[id := Overdue(c.name, c.owner, c.lockedAt, c.expiresAt)])
  }

  /** UPDATE ... IF expires_at < lockedAt; a row that is gone is not updated. */
  function DoUpdate(s: State, id: nat, c: Call, reply: Reply): State
    requires c.Overdue?
  {
    if c.name in s.table && s.table[c.name].expiresAt < Millis(c.lockedAt) then Written(s, id, c, reply)
    else s.(calls := s.calls[id := Failed])
  }

  function Without(grants: set<Grant>, name: string, owner: string): set<Grant> {
    set g | g in grants && !(g.name == name && g.owner == owner)
  }

  /** A conditional write of the call's row. */
  ghost predicate WritesRow(s: State, t: State, id: nat, c: Call, reply: Reply)
    requires c.Started? || c.Overdue?
  {
    t.table == (if reply == NotApplied then s.table
                else s.table[c.name := Row(c.owner, c.lockedAt / 1_000_000, c.expiresAt / 1_000_000)]) &&
    t.calls == s.calls[id := if reply == Told then Acquired else Failed] &&
    t.grants == (if reply == Told then s.grants + {Grant(c.name, c.owner, c.expiresAt)} else s.grants) && t.now == s.now
  }

  /** What the statements of a call do: the first write asks for no row, the second for a row that ran out before the call
      began, and nobody is granted a lock without hearing that the write was applied. */
  lemma StatementEffects(s: State, e: Event)
    requires (e.Insert? || e.CheckExpiry? || e.Update?) && e.id in s.calls
    ensures var t, c := Apply(s, e), s.calls[e.id];
      if e.Insert? && c.Started? then
        if c.name !in s.table then WritesRow(s, t, e.id, c, e.reply)
        else t == s.(calls := s.calls[e.id := if e.reply != Told then Failed
          else Occupied(c.name, c.owner, c.lockedAt, c.expiresAt, s.table[c.name].expiresAt)])
      else if e.CheckExpiry? && c.Occupied? then
        t == s.(calls := s.calls[e.id := if s.now < c.seen * 1_000_000 then Failed
          else Overdue(c.name, c.owner, c.lockedAt, c.expiresAt)])
      else if e.Update? && c.Overdue? then
        if c.name in s.table && s.table[c.name].expiresAt < c.lockedAt / 1_000_000 then WritesRow(s, t, e.id, c, e.reply)
        else t == s.(calls := s.calls[e.id := Failed])
      else t == s
  {
  }

  function Run(s: State, es: seq<Event>): State
    decreases |es|
  {
    if es == [] then s else Run(Apply(s, es[0]), es[1..])
  }

  lemma {:induction false} RunConcat(s: State, es: seq<Event>, fs: seq<Event>)
    ensures Run(s, es + fs) == Run(Run(s, es), fs)
    decreases |es|
  {
    if es == [] {
      assert es + fs == fs;
    } else {
      assert (es + fs)[1..] == es[1..] + fs;
      RunConcat(Apply(s, es[0]), es[1..], fs);
    }
  }

  /** Nobody is calling or holds a lock; rows may be left over. */
  ghost predicate Initial(s: State) {
    s.calls == map[] && s.grants == {}
  }

  /** The owner holds the lock now and its time has not run out. */
  ghost predicate HoldsLock(s: State, name: string, owner: string) {
    exists g :: g in s.grants && g.name == name && g.owner == owner && s.now < g.expiresAt
  }

  // ---- Mutual exclusion ----

  /** Every running grant is backed by the row, and calls were started in the past. */
  ghost predicate Inv(s: State) {
    (forall g | g in s.grants && s.now < g.expiresAt ::
      g.name in s.table && s.table[g.name].lockedBy == g.owner && Millis(g.expiresAt) <= s.table[g.name].expiresAt) &&
    (forall id | id in s.calls && (s.calls[id].Started? || s.calls[id].Occupied? || s.calls[id].Overdue?) ::
      s.calls[id].lockedAt <= s.now)
  }

  lemma StepKeepsInv(s: State, e: Event)
    requires Inv(s)
    ensures Inv(Apply(s, e))
  {
    if e.Update? && e.id in s.calls && s.calls[e.id].Overdue? {
      var c := s.calls[e.id];
      if c.name in s.table && s.table[c.name].expiresAt < Millis(c.lockedAt) {
        // The row had run out, in milliseconds, before this call began: so had every grant on it.
        assert forall g | g in s.grants && g.name == c.name :: g.expiresAt <= s.now;
      }
    }
  }

  lemma {:induction false} RunKeepsInv(s: State, es: seq<Event>)
    requires Inv(s)
    ensures Inv(Run(s, es))
    decreases |es|
  {
    if es != [] {
      StepKeepsInv(s, es[0]);
      RunKeepsInv(Apply(s, es[0]), es[1..]);
    }
  }

  /** In no interleaving do two owners hold one lock at once. */
  lemma MutualExclusion(s: State, es: seq<Event>, name: string, owner1: string, owner2: string)
    requires Initial(s)
    requires HoldsLock(Run(s, es), name, owner1) && HoldsLock(Run(s, es), name, owner2)
    ensures owner1 == owner2
  {
    RunKeepsInv(s, es);
  }

  /** Releasing takes away a row exactly when the releaser is written in it and the deletion is applied: a stale owner
      never removes its successor's row, nor anyone's row of another name. The releaser's own hold ends in any case. */
  lemma ReleaseRemovesOwnRowOnly(s: State, name: string, owner: string, reply: Reply)
    ensures var t := Apply(s, Release(name, owner, reply));
      t.table == if reply == NotApplied then s.table
                 else map n | n in s.table && !(n == name && s.table[n].lockedBy == owner) :: s.table[n]
    ensures var t := Apply(s, Release(name, owner, reply));
      forall n, o :: HoldsLock(t, n, o) <==> HoldsLock(s, n, o) && !(n == name && o == owner)
  {
    var t := Apply(s, Release(name, owner, reply));
    forall n, o ensures HoldsLock(t, n, o) <==> HoldsLock(s, n, o) && !(n == name && o == owner) {
      if HoldsLock(s, n, o) && !(n == name && o == owner) {
        var g :| g in s.grants && g.name == n && g.owner == o && s.now < g.expiresAt;
        assert g in t.grants;
      }
    }
  }

  /** While someone holds the lock, every other owner's steps leave the row alone. */
  lemma HolderIsUndisturbed(s: State, e: Event, name: string, owner: string)
    requires Inv(s) && HoldsLock(s, name, owner)
    requires !(e.Release? && e.name == name && e.owner == owner) && !e.Pass?
    ensures HoldsLock(Apply(s, e), name, owner) && Apply(s, e).table[name] == s.table[name]
  {
    var g :| g in s.grants && g.name == name && g.owner == owner && s.now < g.expiresAt;
    assert g in Apply(s, e).grants;
    if e.Update? && e.id in s.calls && s.calls[e.id].Overdue? {
      assert Millis(s.calls[e.id].lockedAt) <= Millis(s.now) <= Millis(g.expiresAt);
    }
  }

  predicate NoRelease(es: seq<Event>, name: string, owner: string) {
    forall i | 0 <= i < |es| :: !(es[i].Release? && es[i].name == name && es[i].owner == owner)
  }

  lemma {:induction false} GrantLasts(s: State, es: seq<Event>, g: Grant)
    requires g in s.grants && NoRelease(es, g.name, g.owner)
    ensures g in Run(s, es).grants
    decreases |es|
  {
    if es != [] { GrantLasts(Apply(s, es[0]), es[1..], g); }
  }

  /** What a granted call may rely on: until the grant runs out, and unless its owner releases it, nobody else gets
      the lock, whatever happens. */
  lemma GrantExcludesOthers(s: State, es: seq<Event>, g: Grant, other: string)
    requires Inv(s) && g in s.grants && NoRelease(es, g.name, g.owner)
    requires Run(s, es).now < g.expiresAt && HoldsLock(Run(s, es), g.name, other)
    ensures other == g.owner
  {
    GrantLasts(s, es, g);
    RunKeepsInv(s, es);
  }

  // ---- The client's code ----

  /** One server's view of the table, with other parties' events let in between any two steps. */
  class Client {
    var state: State

    constructor (s: State)
      ensures state == s
    {
      state := s;
    }

    method Others(es: seq<Event>)
      modifies this
      ensures state == Run(old(state), es)
    {
      for i := 0 to |es|
        invariant state == Run(old(state), es[..i])
      {
        assert es[..i+1] == es[..i] + [es[i]];
        RunConcat(old(state), es[..i], [es[i]]);
        assert [es[i]][1..] == [];
        assert Run(state, [es[i]]) == Run(Apply(state, es[i]), []);
        state := Apply(state, es[i]);
      }
      assert es[..|es|] == es;
    }

    /** Others' events, then one step of this call. */
    method Step(gap: seq<Event>, e: Event, id: nat, ghost start: State, ghost trace: seq<Event>)
      returns (ghost before: State, ghost trace': seq<Event>)
      requires Leaves(gap, id) && OfCall(e, id)
      requires gap == [] || id in state.calls
      requires state == Run(start, trace)
      modifies this
      ensures state == Run(start, trace') == Apply(before, e) && trace' == trace + gap + [e]
      ensures id in old(state.calls) ==> id in before.calls && before.calls[id] == old(state.calls[id])
      ensures gap == [] ==> before == old(state)
    {
      if id in state.calls { Quiet(state, gap, id); }
      RunConcat(start, trace, gap);
      OneMore(start, trace + gap, e);
      Others(gap);
      before := state;
      state := Apply(state, e);
      trace' := trace + gap + [e];
    }

    /** ok exactly when this call was granted the lock, and then its row is in the table. What the table goes through is
        a run of the protocol in which this call's steps are Start, Insert and, if the row was taken, CheckExpiry and,
        if it had expired, Update; the others' events come in between, and nothing else happens. */
    method AcquireLock(id: nat, name: string, owner: string, ttl: int, gaps: Gaps)
      returns (ok: bool, ghost trace: seq<Event>)
      requires Free(state, id) && gaps.Leave(id)
      modifies this
      ensures state == Run(old(state), trace) && IsCallTrace(trace, id, name, owner, ttl, gaps)
      ensures id in state.calls && state.calls[id] == if ok then Acquired else Failed
      ensures ok ==> Grant(name, owner, old(state.now) + ttl * 1_000_000_000) in state.grants
      ensures ok ==> HasRow(state, name, owner, old(state.now), old(state.now) + ttl * 1_000_000_000)
    {
      ghost var start, before := state, state;
      before, trace := Step([], Start(id, name, owner, ttl), id, start, []);
      before, trace := Step(gaps.first, Insert(id, gaps.inserted), id, start, trace);
      assert trace == CallTrace(id, name, owner, ttl, gaps, 2);
      if state.calls[id].Acquired? { return true, trace; }
      if state.calls[id].Failed? { return false, trace; }
      before, trace := Step(gaps.second, CheckExpiry(id), id, start, trace);
      assert trace == CallTrace(id, name, owner, ttl, gaps, 3);
      if state.calls[id].Failed? { return false, trace; }
      before, trace := Step(gaps.third, Update(id, gaps.updated), id, start, trace);
      assert trace == CallTrace(id, name, owner, ttl, gaps, 4);
      ok := state.calls[id].Acquired?;
    }

    /** A sleep, but not before the first attempt, and then a call. */
    method Attempt(id: nat, name: string, owner: string, ttl: int, attempt: nat, sleeps: nat -> seq<Event>, gaps: nat -> Gaps)
      returns (ok: bool, ghost call: seq<Event>)
      requires Free(state, id) && (attempt > 0 ==> id in state.calls)
      requires forall k :: gaps(k).Leave(id) && Leaves(sleeps(k), id)
      modifies this
      ensures state == Run(Run(old(state), Pause(sleeps, attempt)), call)
      ensures IsCallTrace(call, id, name, owner, ttl, gaps(attempt))
      ensures id in state.calls && state.calls[id] == if ok then Acquired else Failed
      ensures ok ==> exists g :: g in state.grants && g.name == name && g.owner == owner
    {
      if attempt > 0 {
        Quiet(state, sleeps(attempt), id);
        Others(sleeps(attempt));
      }
      ok, call := AcquireLock(id, name, owner, ttl, gaps(attempt));
    }

    /** The loop of attempts. */
    method TryLock(id: nat, name: string, owner: string, ttl: int, retries: int, sleeps: nat -> seq<Event>, gaps: nat -> Gaps)
      returns (ok: bool, ghost calls: seq<seq<Event>>)
      requires Free(state, id) && forall k :: gaps(k).Leave(id) && Leaves(sleeps(k), id)
      modifies this
      ensures state == After(old(state), calls, sleeps, |calls|)
      ensures Attempts(old(state), calls, sleeps, id, name, owner, ttl, gaps, ok)
      ensures if ok then 1 <= |calls| <= retries + 1 else |calls| == if retries < 0 then 0 else retries + 1
      ensures ok ==> exists g :: g in state.grants && g.name == name && g.owner == owner
    {
      ok, calls := false, [];
      var attempt := 0;
      while attempt <= retries
        invariant |calls| == attempt && (attempt <= retries + 1 || retries < 0 == attempt)
        invariant Free(state, id) && (attempt > 0 ==> id in state.calls)
        invariant state == After(old(state), calls, sleeps, |calls|)
        invariant Attempts(old(state), calls, sleeps, id, name, owner, ttl, gaps, false)
      {
        ghost var before, call := calls, [];
        ok, call := Attempt(id, name, owner, ttl, attempt, sleeps, gaps);
        calls := calls + [call];
        NextCall(old(state), before, call, sleeps, id, name, owner, ttl, gaps, ok, state);
        if ok { return; }
        attempt := attempt + 1;
      }
    }

    /** A blank owner is refused before the table is touched. Otherwise calls are made, each after the first preceded by a
        sleep that lets others in, until one succeeds or retries + 1 have failed. */
    method Lock(id: nat, name: string, owner: string, ttl: int, retries: int, sleeps: nat -> seq<Event>, gaps: nat -> Gaps)
      returns (ok: bool, ghost calls: seq<seq<Event>>)
      requires Free(state, id) && forall k :: gaps(k).Leave(id) && Leaves(sleeps(k), id)
      modifies this
      ensures (forall c | c in owner :: c == ' ') ==> !ok && state == old(state) && calls == []
      ensures !(forall c | c in owner :: c == ' ') ==>
        state == After(old(state), calls, sleeps, |calls|) &&
        Attempts(old(state), calls, sleeps, id, name, owner, ttl, gaps, ok) &&
        if ok then 1 <= |calls| <= retries + 1 else |calls| == if retries < 0 then 0 else retries + 1
      ensures ok ==> exists g :: g in state.grants && g.name == name && g.owner == owner
      ensures !(forall c | c in owner :: c == ' ') ==>
        forall pause: nat | Undisturbed(sleeps, gaps, pause) :: ok <==> RunsOutInTime(old(state), name, retries, pause)
    {
      if IsBlank(owner) { return false, []; }
      ok, calls := TryLock(id, name, owner, ttl, retries, sleeps, gaps);
      forall pause: nat | Undisturbed(sleeps, gaps, pause) ensures ok <==> RunsOutInTime(old(state), name, retries, pause) {
        UndisturbedLock(old(state), calls, sleeps, id, name, owner, ttl, gaps, ok, retries, pause);
      }
    }

    /** The release asks for the owner's own row; it is reported only when the deletion is known to have been applied. */
    method Unlock(name: string, owner: string, reply: Reply) returns (ok: bool)
      modifies this
      ensures (forall c | c in owner :: c == ' ') ==> !ok && state == old(state)
      ensures !(forall c | c in owner :: c == ' ') ==>
        state == Apply(old(state), Release(name, owner, reply)) &&
        (ok <==> reply == Told && name in old(state).table && old(state).table[name].lockedBy == owner)
    {
      if IsBlank(owner) { return false; }
      ok := reply == Told && name in state.table && state.table[name].lockedBy == owner;
      state := Apply(state, Release(name, owner, reply));
    }
  }

  /** What happens around one call: others' events after its first, second and third step, and the database's answers. */
  datatype Gaps = Gaps(first: seq<Event>, second: seq<Event>, third: seq<Event>, inserted: Reply, updated: Reply) {
    predicate Leave(id: nat) { Leaves(first, id) && Leaves(second, id) && Leaves(third, id) }
  }

  /** The first steps of a call, with the others' events between them. */
  function CallTrace(id: nat, name: string, owner: string, ttl: int, gaps: Gaps, steps: nat): seq<Event> {
    if steps <= 2 then [Start(id, name, owner, ttl)] + gaps.first + [Insert(id, gaps.inserted)]
    else if steps == 3 then CallTrace(id, name, owner, ttl, gaps, 2) + gaps.second + [CheckExpiry(id)]
    else CallTrace(id, name, owner, ttl, gaps, 3) + gaps.third + [Update(id, gaps.updated)]
  }

  ghost predicate IsCallTrace(trace: seq<Event>, id: nat, name: string, owner: string, ttl: int, gaps: Gaps) {
    exists steps: nat {:trigger CallTrace(id, name, owner, ttl, gaps, steps)} ::
      2 <= steps <= 4 && trace == CallTrace(id, name, owner, ttl, gaps, steps)
  }

  /** What happens before call k is begun. */
  function Pause(sleeps: nat -> seq<Event>, k: nat): seq<Event> { if k == 0 then [] else sleeps(k) }

  /** The state after the first n calls. */
  ghost function After(s: State, calls: seq<seq<Event>>, sleeps: nat -> seq<Event>, n: nat): State
    requires n <= |calls|
  {
    if n == 0 then s else Run(Run(After(s, calls, sleeps, n - 1), Pause(sleeps, n - 1)), calls[n - 1])
  }

  ghost predicate HasRow(s: State, name: string, owner: string, lockedAt: int, expiresAt: int) {
    name in s.table && s.table[name] == Row(owner, lockedAt / 1_000_000, expiresAt / 1_000_000)
  }

  /** Call k is one of AcquireLock from its first statement on, and ends without the lock, but for the last if it is had. */
  ghost predicate AttemptEnds(s: State, calls: seq<seq<Event>>, sleeps: nat -> seq<Event>, id: nat, name: string, owner: string,
    ttl: int, gaps: nat -> Gaps, k: nat, ok: bool)
    requires k < |calls|
  {
    IsCallTrace(calls[k], id, name, owner, ttl, gaps(k)) &&
    var t := After(s, calls, sleeps, k + 1); id in t.calls && t.calls[id] == if ok && k == |calls| - 1 then Acquired else Failed
  }

  ghost predicate Attempts(s: State, calls: seq<seq<Event>>, sleeps: nat -> seq<Event>, id: nat, name: string, owner: string,
    ttl: int, gaps: nat -> Gaps, ok: bool)
  {
    forall k | 0 <= k < |calls| :: AttemptEnds(s, calls, sleeps, id, name, owner, ttl, gaps, k, ok)
  }

  lemma {:induction false} AfterPrefix(s: State, calls: seq<seq<Event>>, more: seq<seq<Event>>, sleeps: nat -> seq<Event>, n: nat)
    requires n <= |calls|
    ensures After(s, calls + more, sleeps, n) == After(s, calls, sleeps, n)
  {
    if n > 0 { AfterPrefix(s, calls, more, sleeps, n - 1); }
  }

  lemma {:induction false} AttemptStays(s: State, calls: seq<seq<Event>>, call: seq<Event>, sleeps: nat -> seq<Event>, id: nat,
    name: string, owner: string, ttl: int, gaps: nat -> Gaps, k: nat, ok: bool)
    requires k < |calls| && AttemptEnds(s, calls, sleeps, id, name, owner, ttl, gaps, k, false)
    ensures AttemptEnds(s, calls + [call], sleeps, id, name, owner, ttl, gaps, k, ok)
  {
    AfterPrefix(s, calls, [call], sleeps, k + 1);
  }

  /** One more call after failures. */
  lemma {:induction false} NextCall(s: State, calls: seq<seq<Event>>, call: seq<Event>, sleeps: nat -> seq<Event>, id: nat,
    name: string, owner: string, ttl: int, gaps: nat -> Gaps, ok: bool, t: State)
    requires Attempts(s, calls, sleeps, id, name, owner, ttl, gaps, false)
    requires t == Run(Run(After(s, calls, sleeps, |calls|), Pause(sleeps, |calls|)), call)
    requires IsCallTrace(call, id, name, owner, ttl, gaps(|calls|))
    requires id in t.calls && t.calls[id] == if ok then Acquired else Failed
    ensures t == After(s, calls + [call], sleeps, |calls + [call]|)
    ensures Attempts(s, calls + [call], sleeps, id, name, owner, ttl, gaps, ok)
  {
    var all := calls + [call];
    AfterPrefix(s, calls, [call], sleeps, |calls|);
    assert AttemptEnds(s, all, sleeps, id, name, owner, ttl, gaps, |calls|, ok);
    forall k | 0 <= k < |all| ensures AttemptEnds(s, all, sleeps, id, name, owner, ttl, gaps, k, ok) {
      if k < |calls| { AttemptStays(s, calls, call, sleeps, id, name, owner, ttl, gaps, k, ok); }
    }
  }

  predicate Free(s: State, id: nat) {
    id !in s.calls || s.calls[id].Acquired? || s.calls[id].Failed?
  }

  function CallSteps(id: nat, name: string, owner: string, ttl: int, inserted: Reply, updated: Reply): seq<Event> {
    [Start(id, name, owner, ttl), Insert(id, inserted), CheckExpiry(id), Update(id, updated)]
  }

  /** Undisturbed and told the outcomes, a call is granted the lock exactly when there is no row or the row's expiry lies
      in an earlier millisecond. */
  lemma {:induction false} AloneAcquiresExactlyWhenExpired(s: State, id: nat, name: string, owner: string, ttl: int)
    requires Free(s, id)
    ensures var t := Run(s, CallSteps(id, name, owner, ttl, Told, Told));
      id in t.calls && (t.calls[id].Acquired? <==> name !in s.table || s.table[name].expiresAt < Millis(s.now))
    ensures var t := Run(s, CallSteps(id, name, owner, ttl, Told, Told));
      t.calls[id].Acquired? && ttl > 0 ==> HoldsLock(t, name, owner)
  {
    RunFour(s, Start(id, name, owner, ttl), Insert(id, Told), CheckExpiry(id), Update(id, Told));
    var t := Apply(Apply(Apply(Apply(s, Start(id, name, owner, ttl)), Insert(id, Told)), CheckExpiry(id)), Update(id, Told));
    var g := Grant(name, owner, s.now + ttl * NANOS_PER_SECOND);
    assert t.calls[id].Acquired? ==> g in t.grants;
    assert ttl > 0 ==> s.now < g.expiresAt;
  }

  // ---- A lock asked for undisturbed ----

  /** Nobody else acts, every outcome is told, and between attempts only time passes. */
  ghost predicate Undisturbed(sleeps: nat -> seq<Event>, gaps: nat -> Gaps, pause: nat) {
    forall k :: sleeps(k) == [Pass(pause)] && gaps(k) == Gaps([], [], [], Told, Told)
  }

  /** There is no row, or its expiry lies in an earlier millisecond than the time. */
  predicate RunOut(table: map<string, Row>, name: string, time: int) {
    name !in table || table[name].expiresAt < time / 1_000_000
  }

  lemma QuietTraces(s: State, id: nat, name: string, owner: string, ttl: int)
    ensures var gaps := Gaps([], [], [], Told, Told);
      var s2 := Apply(Apply(s, Start(id, name, owner, ttl)), Insert(id, Told));
      Run(s, CallTrace(id, name, owner, ttl, gaps, 2)) == s2 &&
      Run(s, CallTrace(id, name, owner, ttl, gaps, 3)) == Apply(s2, CheckExpiry(id)) &&
      Run(s, CallTrace(id, name, owner, ttl, gaps, 4)) == Apply(Apply(s2, CheckExpiry(id)), Update(id, Told))
  {
    var gaps := Gaps([], [], [], Told, Told);
    OneMore(s, [], Start(id, name, owner, ttl));
    OneMore(s, [Start(id, name, owner, ttl)], Insert(id, Told));
    assert [] + [Start(id, name, owner, ttl)] == [Start(id, name, owner, ttl)];
    assert [Start(id, name, owner, ttl)] + [] == [Start(id, name, owner, ttl)];
    var t2, t3 := CallTrace(id, name, owner, ttl, gaps, 2), CallTrace(id, name, owner, ttl, gaps, 3);
    OneMore(s, t2, CheckExpiry(id));
    OneMore(s, t3, Update(id, Told));
    assert t2 + [] == t2 && t3 + [] == t3;
  }

  /** One call on its own: it gets a lock that has run out, and changes nothing but itself otherwise. */
  lemma {:induction false} QuietCall(s: State, trace: seq<Event>, id: nat, name: string, owner: string, ttl: int)
    requires Free(s, id) && IsCallTrace(trace, id, name, owner, ttl, Gaps([], [], [], Told, Told))
    requires id in Run(s, trace).calls && (Run(s, trace).calls[id] == Acquired || Run(s, trace).calls[id] == Failed)
    ensures Run(s, trace).calls[id] == Acquired <==> RunOut(s.table, name, s.now)
    ensures Run(s, trace).calls[id] == Failed ==> Run(s, trace).table == s.table && Run(s, trace).now == s.now
  {
    QuietTraces(s, id, name, owner, ttl);
  }

  /** When attempt k is made. */
  function AttemptTime(now: int, pause: nat, k: int): int { now + k * pause }

  lemma NextAttempt(now: int, pause: nat, k: int)
    ensures AttemptTime(now, pause, k + 1) == AttemptTime(now, pause, k) + pause
    ensures AttemptTime(now, pause, 0) == now
  {
  }

  lemma PauseRun(s: State, pause: nat)
    ensures Run(s, [Pass(pause)]) == s.(now := s.now + pause)
  {
    OneMore(s, [], Pass(pause));
    assert [] + [Pass(pause)] == [Pass(pause)];
  }

  /** Call k, begun in t, fails and changes nothing. */
  lemma {:induction false} QuietFailure(s: State, calls: seq<seq<Event>>, sleeps: nat -> seq<Event>, id: nat, name: string, owner: string,
    ttl: int, gaps: nat -> Gaps, ok: bool, pause: nat, k: nat)
    requires Undisturbed(sleeps, gaps, pause) && Attempts(s, calls, sleeps, id, name, owner, ttl, gaps, ok)
    requires k < |calls| && (ok ==> k < |calls| - 1)
    requires Free(Run(After(s, calls, sleeps, k), Pause(sleeps, k)), id)
    ensures var t, u := Run(After(s, calls, sleeps, k), Pause(sleeps, k)), Run(After(s, calls, sleeps, k + 1), Pause(sleeps, k + 1));
      Free(u, id) && u.table == t.table && u.now == t.now + pause && !RunOut(t.table, name, t.now)
  {
    var t := Run(After(s, calls, sleeps, k), Pause(sleeps, k));
    assert AttemptEnds(s, calls, sleeps, id, name, owner, ttl, gaps, k, ok);
    QuietCall(t, calls[k], id, name, owner, ttl);
    PauseRun(After(s, calls, sleeps, k + 1), pause);
  }

  /** The last call, when it succeeds. */
  lemma {:induction false} QuietSuccess(s: State, calls: seq<seq<Event>>, sleeps: nat -> seq<Event>, id: nat, name: string, owner: string,
    ttl: int, gaps: nat -> Gaps, pause: nat)
    requires Undisturbed(sleeps, gaps, pause) && Attempts(s, calls, sleeps, id, name, owner, ttl, gaps, true) && calls != []
    requires Free(Run(After(s, calls, sleeps, |calls| - 1), Pause(sleeps, |calls| - 1)), id)
    ensures var t := Run(After(s, calls, sleeps, |calls| - 1), Pause(sleeps, |calls| - 1)); RunOut(t.table, name, t.now)
  {
    var k := |calls| - 1;
    var t := Run(After(s, calls, sleeps, k), Pause(sleeps, k));
    assert AttemptEnds(s, calls, sleeps, id, name, owner, ttl, gaps, k, true);
    QuietCall(t, calls[k], id, name, owner, ttl);
  }

  ghost predicate NeverRunOut(table: map<string, Row>, name: string, now: int, pause: nat, k: nat) {
    forall j | 0 <= j < k :: !RunOut(table, name, AttemptTime(now, pause, j))
  }

  lemma NeverOneMore(table: map<string, Row>, name: string, now: int, pause: nat, k: nat)
    requires NeverRunOut(table, name, now, pause, k) && !RunOut(table, name, AttemptTime(now, pause, k))
    ensures NeverRunOut(table, name, now, pause, k + 1)
  {
  }

  /** After k failed attempts the table is as it was, and the lock had run out at none of them. */
  lemma {:induction false} QuietFailures(s: State, calls: seq<seq<Event>>, sleeps: nat -> seq<Event>, id: nat, name: string, owner: string,
    ttl: int, gaps: nat -> Gaps, ok: bool, pause: nat, k: nat)
    requires Free(s, id) && Undisturbed(sleeps, gaps, pause) && Attempts(s, calls, sleeps, id, name, owner, ttl, gaps, ok)
    requires k <= |calls| && (ok ==> k < |calls|)
    ensures var t := Run(After(s, calls, sleeps, k), Pause(sleeps, k));
      Free(t, id) && t.table == s.table && t.now == AttemptTime(s.now, pause, k)
    ensures NeverRunOut(s.table, name, s.now, pause, k)
  {
    if k == 0 {
      NextAttempt(s.now, pause, 0);
    } else {
      QuietFailures(s, calls, sleeps, id, name, owner, ttl, gaps, ok, pause, k - 1);
      QuietFailure(s, calls, sleeps, id, name, owner, ttl, gaps, ok, pause, k - 1);
      NextAttempt(s.now, pause, k - 1);
      NeverOneMore(s.table, name, s.now, pause, k - 1);
    }
  }

  ghost predicate RunsOutInTime(s: State, name: string, retries: int, pause: nat) {
    exists k :: 0 <= k <= retries && RunOut(s.table, name, AttemptTime(s.now, pause, k))
  }

  /** Left alone, the lock is had exactly when it has run out at one of the attempts. */
  lemma {:induction false} UndisturbedLock(s: State, calls: seq<seq<Event>>, sleeps: nat -> seq<Event>, id: nat, name: string, owner: string,
    ttl: int, gaps: nat -> Gaps, ok: bool, retries: int, pause: nat)
    requires Free(s, id) && Undisturbed(sleeps, gaps, pause) && Attempts(s, calls, sleeps, id, name, owner, ttl, gaps, ok)
    requires if ok then 1 <= |calls| <= retries + 1 else |calls| == if retries < 0 then 0 else retries + 1
    ensures ok <==> RunsOutInTime(s, name, retries, pause)
  {
    if ok {
      var n := |calls| - 1;
      QuietFailures(s, calls, sleeps, id, name, owner, ttl, gaps, ok, pause, n);
      QuietSuccess(s, calls, sleeps, id, name, owner, ttl, gaps, pause);
      assert RunOut(s.table, name, AttemptTime(s.now, pause, n));
    } else {
      QuietFailures(s, calls, sleeps, id, name, owner, ttl, gaps, ok, pause, |calls|);
    }
  }

  lemma RunFour(s: State, e1: Event, e2: Event, e3: Event, e4: Event)
    ensures Run(s, [e1, e2, e3, e4]) == Apply(Apply(Apply(Apply(s, e1), e2), e3), e4)
  {
    assert [e1, e2, e3, e4][1..] == [e2, e3, e4] && [e2, e3, e4][1..] == [e3, e4];
    assert [e3, e4][1..] == [e4] && [e4][1..] == [];
    var s1 := Apply(s, e1);
    var s2 := Apply(s1, e2);
    var s3 := Apply(s2, e3);
    assert Run(s, [e1, e2, e3, e4]) == Run(s1, [e2, e3, e4]);
    assert Run(s1, [e2, e3, e4]) == Run(s2, [e3, e4]);
    assert Run(s2, [e3, e4]) == Run(s3, [e4]);
    assert Run(s3, [e4]) == Run(Apply(s3, e4), []);
  }

  /** The events that are steps of a given call. */
  function OfCall(e: Event, id: nat): bool {
    (e.Start? || e.Insert? || e.CheckExpiry? || e.Update?) && e.id == id
  }

  predicate Leaves(es: seq<Event>, id: nat) {
    forall i | 0 <= i < |es| :: !OfCall(es[i], id)
  }

  function Steps(es: seq<Event>, id: nat): seq<Event> {
    if es == [] then []
    else Steps(es[..|es| - 1], id) + if OfCall(es[|es| - 1], id) then [es[|es| - 1]] else []
  }

  lemma {:induction false} StepsQuiet(es: seq<Event>, gap: seq<Event>, id: nat)
    requires Leaves(gap, id)
    ensures Steps(es + gap, id) == Steps(es, id)
  {
    if gap == [] {
      assert es + gap == es;
    } else {
      assert (es + gap)[..|es + gap| - 1] == es + gap[..|gap| - 1];
      StepsQuiet(es, gap[..|gap| - 1], id);
    }
  }

  lemma {:induction false} Quiet(s: State, gap: seq<Event>, id: nat)
    requires Leaves(gap, id) && id in s.calls
    ensures id in Run(s, gap).calls && Run(s, gap).calls[id] == s.calls[id]
    decreases |gap|
  {
    if gap != [] {
      assert !OfCall(gap[0], id);
      Quiet(Apply(s, gap[0]), gap[1..], id);
    }
  }

  /** Of the whole trace, this call's own steps are the first of its four. */
  lemma CallTraceSteps(id: nat, name: string, owner: string, ttl: int, gaps: Gaps, steps: nat)
    requires gaps.Leave(id) && 2 <= steps <= 4
    ensures Steps(CallTrace(id, name, owner, ttl, gaps, steps), id) ==
      CallSteps(id, name, owner, ttl, gaps.inserted, gaps.updated)[..steps]
  {
    var start, insert := Start(id, name, owner, ttl), Insert(id, gaps.inserted);
    var t2, t3 := CallTrace(id, name, owner, ttl, gaps, 2), CallTrace(id, name, owner, ttl, gaps, 3);
    assert [] + [] + [start] == [start];
    StepsGap([], [], start, id);
    StepsGap([start], gaps.first, insert, id);
    assert Steps(t2, id) == [start, insert];
    StepsGap(t2, gaps.second, CheckExpiry(id), id);
    assert Steps(t3, id) == [start, insert, CheckExpiry(id)];
    StepsGap(t3, gaps.third, Update(id, gaps.updated), id);
  }

  lemma StepsGap(trace: seq<Event>, gap: seq<Event>, e: Event, id: nat)
    requires Leaves(gap, id) && OfCall(e, id)
    ensures Steps(trace + gap + [e], id) == Steps(trace, id) + [e]
  {
    StepsQuiet(trace, gap, id);
    assert (trace + gap + [e])[..|trace + gap|] == trace + gap;
  }

  lemma OneMore(s: State, es: seq<Event>, e: Event)
    ensures Run(s, es + [e]) == Apply(Run(s, es), e)
    ensures forall id :: Steps(es + [e], id) == Steps(es, id) + if OfCall(e, id) then [e] else []
  {
    RunConcat(s, es, [e]);
    assert [e][1..] == [];
    assert Run(Run(s, es), [e]) == Run(Apply(Run(s, es), e), []);
    assert (es + [e])[..|es|] == es;
  }
}
