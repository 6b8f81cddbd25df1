/** The two caches of one server, used sequentially: rows per table, and values derived from them. */
module AppCache {
  import opened Common

  const GENERIC := "GenericXconfNamedList"

  datatype NsList = NsList(id: string, typeName: string, data: seq<string>)

  function CacheKey(table: string, name: string): string { table + "::" + name }

  /** x is a member of some list of that type. */
  ghost predicate InUnion(rows: map<Slot, NsList>, typeName: string, x: string) {
    exists s :: s in rows && s.table == GENERIC && rows[s].typeName == typeName && x in rows[s].data
  }

  ghost predicate IsUnion(rows: map<Slot, NsList>, typeName: string, r: set<string>) {
    forall x :: x in r <==> InUnion(rows, typeName, x)
  }

  /** Every derived value the application cache holds for a list type is what the rows give. */
  ghost predicate Coherent(rows: map<Slot, NsList>, app: map<string, set<string>>) {
    forall t | CacheKey(GENERIC, t) in app :: IsUnion(rows, t, app[CacheKey(GENERIC, t)])
  }

  predicate HasPrefix(s: string, p: string) { p <= s }

  /** Prefix invalidation removes every derived key of the table. */
  lemma PrefixCoversTable(table: string, name: string)
    ensures HasPrefix(CacheKey(table, name), table)
  {
    var k := CacheKey(table, name);
    assert k[..|table|] == table;
  }

  ghost predicate DifferOnlyIn(rows: map<Slot, NsList>, rows': map<Slot, NsList>, table: string) {
    forall s: Slot | s.table != table :: (s in rows <==> s in rows') && (s in rows ==> rows[s] == rows'[s])
  }

  /** A row of another table does not show in the lists' unions. */
  lemma OtherTablesDoNotMatter(rows: map<Slot, NsList>, rows': map<Slot, NsList>, table: string, t: string, x: string)
    requires table != GENERIC && DifferOnlyIn(rows, rows', table)
    ensures InUnion(rows, t, x) <==> InUnion(rows', t, x)
  {
    if s :| s in rows && s.table == GENERIC && rows[s].typeName == t && x in rows[s].data { assert s in rows'; }
    if s :| s in rows' && s.table == GENERIC && rows'[s].typeName == t && x in rows'[s].data { assert s in rows; }
  }

  /** The derived values that survive an invalidation are still right after a change to the table. */
  lemma SurvivorsAreRight(rows: map<Slot, NsList>, rows': map<Slot, NsList>, table: string, before: map<string, set<string>>, after: map<string, set<string>>)
    requires Coherent(rows, before) && DifferOnlyIn(rows, rows', table)
    requires after == map k | k in before && !HasPrefix(k, table) :: before[k]
    ensures Coherent(rows', after)
  {
    forall t | CacheKey(GENERIC, t) in after ensures IsUnion(rows', t, after[CacheKey(GENERIC, t)]) {
      PrefixCoversTable(GENERIC, t);
      forall x ensures InUnion(rows, t, x) <==> InUnion(rows', t, x) { OtherTablesDoNotMatter(rows, rows', table, t, x); }
    }
  }

  /** They are after a change even to wrong ones, when the change is to the lists' own table. */
  lemma SurvivorsOfChange(rows: map<Slot, NsList>, rows': map<Slot, NsList>, table: string, before: map<string, set<string>>, after: map<string, set<string>>)
    requires DifferOnlyIn(rows, rows', table)
    requires after == map k | k in before && !HasPrefix(k, table) :: before[k]
    ensures Coherent(rows, before) || table == GENERIC ==> Coherent(rows', after)
  {
    if Coherent(rows, before) {
      SurvivorsAreRight(rows, rows', table, before, after);
    } else if table == GENERIC {
      forall t ensures CacheKey(GENERIC, t) !in after { PrefixCoversTable(GENERIC, t); }
    }
  }

  /** The table's rows put back. */
  function Refilled(cache: map<Slot, NsList>, db: map<Slot, NsList>, table: string): (r: map<Slot, NsList>)
    ensures forall s :: s in r <==> s in cache || (s in db && s.table == table)
    ensures forall s | s in r :: r[s] == if s in db && s.table == table then db[s] else cache[s]
  {
    cache + map s | s in db && s.table == table :: db[s]
  }

  lemma RefilledWhole(cache: map<Slot, NsList>, db: map<Slot, NsList>, table: string)
    requires forall s | s in cache :: s in db && cache[s] == db[s]
    ensures (forall s | s in db && s.table != table :: s in cache) ==> Refilled(cache, db, table) == db
  {
    if forall s | s in db && s.table != table :: s in cache { assert Refilled(cache, db, table).Keys == db.Keys; }
  }

  class Server {
    const tables: set<string>
    const validTypes: set<string>
    const enabled: bool
    var db: map<Slot, NsList>
    var cache: map<Slot, NsList>
    var app: map<string, set<string>>

    /** Rows may be missing, but none is wrong. */
    ghost predicate RowsSound()
      reads this
    {
      (forall s | s in cache :: s in db && cache[s] == db[s]) &&
      (!enabled ==> app == map[]) && forall s | s in db :: s.table in tables
    }

    /** And the derived values are what the database's rows give. */
    ghost predicate Sound()
      reads this
    {
      RowsSound() && Coherent(db, app)
    }

    /** Nothing is missing either. */
    ghost predicate Valid()
      reads this
    {
      Sound() && cache == db
    }

    /** After precaching. */
    constructor (tables: set<string>, validTypes: set<string>, enabled: bool, db: map<Slot, NsList>)
      requires forall s | s in db :: s.table in tables
      ensures Valid() && this.db == db && this.tables == tables && this.validTypes == validTypes && this.enabled == enabled
    {
      this.tables, this.validTypes, this.enabled, this.db, this.cache, this.app := tables, validTypes, enabled, db, db, map[];
    }

    method ApplicationCacheDeleteAll(table: string)
      requires !enabled ==> app == map[]
      modifies this`app
      ensures app == map k | k in old(app) && !(table <= k) :: old(app)[k]
    {
      if !enabled { return; }
      var keys := app.Keys;
      while keys != {}
        invariant keys <= old(app).Keys
        invariant app == map k | k in old(app) && (k in keys || !HasPrefix(k, table)) :: old(app)[k]
        decreases |keys|
      {
        var key :| key in keys;
        if HasPrefix(key, table) {
          app := app - {key};
        }
        keys := keys - {key};
      }
    }

    /** Database first, then both caches; nothing moves when the database refuses. */
    method SetOne(table: string, key: string, entity: NsList, dbOk: bool) returns (ok: bool)
      requires RowsSound()
      modifies this
      ensures RowsSound() && (old(Sound()) || (ok && table == GENERIC) ==> Sound()) && (old(Valid()) ==> Valid())
      ensures ok == (table in tables && dbOk)
      ensures app == if ok then map k | k in old(app) && !(table <= k) :: old(app)[k] else old(app)
      ensures db == if ok then old(db)[Slot(table, key) := entity] else old(db)
      ensures cache == if ok then old(cache)[Slot(table, key) := entity] else old(cache)
    {
      if table !in tables || !dbOk { return false; }
      ghost var rows := db;
      db := db[Slot(table, key) := entity];
      cache := cache[Slot(table, key) := entity];
      ghost var before := app;
      ApplicationCacheDeleteAll(table);
      SurvivorsOfChange(rows, db, table, before, app);
      ok := true;
    }

    method DeleteOne(table: string, key: string, dbOk: bool) returns (ok: bool, loggedSize: int)
      requires RowsSound()
      modifies this
      ensures RowsSound() && (old(Sound()) || (ok && table == GENERIC) ==> Sound()) && (old(Valid()) ==> Valid())
      ensures ok == (table in tables && dbOk)
      ensures app == if ok then map k | k in old(app) && !(table <= k) :: old(app)[k] else old(app)
      ensures db == if ok then old(db) - {Slot(table, key)} else old(db)
      ensures cache == if ok then old(cache) - {Slot(table, key)} else old(cache)
      ensures ok ==> loggedSize == |set s | s in old(cache) && s.table == table| - 1
    {
      loggedSize := 0;
      if table !in tables || !dbOk { return false, loggedSize; }
      ghost var rows := db;
      db := db - {Slot(table, key)};
      loggedSize := |set s | s in cache && s.table == table| - 1;
      cache := cache - {Slot(table, key)};
      ghost var before := app;
      ApplicationCacheDeleteAll(table);
      SurvivorsOfChange(rows, db, table, before, app);
      ok := true;
    }

    /** When the read fails the table is left empty, and the derived values are not invalidated. A later refresh that
        succeeds brings the table back, and with it the whole cache if nothing else was missing or wrong. */
    method RefreshAll(table: string, readOk: bool) returns (ok: bool)
      requires RowsSound()
      modifies this`cache, this`app
      ensures RowsSound() && (old(Sound()) || (ok && table == GENERIC) ==> Sound()) && ok == (table in tables && readOk)
      ensures app == if ok then map k | k in old(app) && !(table <= k) :: old(app)[k] else old(app)
      ensures DifferOnlyIn(old(cache), cache, table)
      ensures if table in tables then forall s | s in db && s.table == table :: s in cache <==> readOk else cache == old(cache)
      ensures ok && (forall s | s in db && s.table != table :: s in old(cache)) ==> cache == db
    {
      if table !in tables { return false; }
      ghost var before := app;
      cache := map s | s in cache && s.table != table :: cache[s];
      if !readOk { return false; }
      RefilledWhole(cache, db, table);
      cache := Refilled(cache, db, table);
      ApplicationCacheDeleteAll(table);
      SurvivorsOfChange(db, db, table, before, app);
      ok := true;
    }

    /** A cached read; a miss goes to the database and is kept. */
    method GetOne(table: string, key: string, dbOk: bool) returns (r: Option<NsList>)
      requires RowsSound()
      modifies this`cache
      ensures RowsSound() && (old(Sound()) ==> Sound()) && (old(Valid()) ==> Valid())
      ensures var s := Slot(table, key);
        r == (if s in db && (s in old(cache) || dbOk) then Some(db[s]) else None) &&
        cache == if s in db && dbOk then old(cache)[s := db[s]] else old(cache)
    {
      var s := Slot(table, key);
      if s in cache {
        assert cache[s := db[s]] == cache;
        return Some(cache[s]);
      }
      if dbOk && s in db {
        cache := cache[s := db[s]];
        return Some(db[s]);
      }
      r := None;
    }

    /** The members of the cached lists of that type. */
    method UnionOfCached(typeName: string) returns (result: set<string>)
      ensures IsUnion(cache, typeName, result)
      ensures forall x :: x in result <==>
        exists s :: s in cache && s.table == "GenericXconfNamedList" && cache[s].typeName == typeName && x in cache[s].data
    {
      result := {};
      var todo := set s | s in cache && s.table == GENERIC;
      while todo != {}
        invariant forall s | s in todo :: s in cache && s.table == GENERIC
        invariant forall x :: x in result <==>
          exists s :: s in cache && s.table == GENERIC && s !in todo && cache[s].typeName == typeName && x in cache[s].data
        decreases |todo|
      {
        var s :| s in todo;
        ghost var before := result;
        if cache[s].typeName == typeName {
          result := result + set x | x in cache[s].data;
        }
        ghost var left := todo - {s};
        forall x ensures x in result <==>
          exists u :: u in cache && u.table == GENERIC && u !in left && cache[u].typeName == typeName && x in cache[u].data
        {
          if x in before {
            var u :| u in cache && u.table == GENERIC && u !in todo && cache[u].typeName == typeName && x in cache[u].data;
            assert u !in left;
          }
        }
        todo := todo - {s};
      }
    }

    /** The union of the lists' members: the derived value when there is one, and otherwise computed from the cached rows
        and kept. What is computed is the union over the database's lists exactly when no member is missing from the
        cached ones, and only then is what is kept right. */
    method GetGenericNamedListSetByType(typeName: string) returns (r: Option<set<string>>)
      requires RowsSound()
      modifies this`app
      ensures RowsSound() && (old(Valid()) ==> Valid())
      ensures var hit := enabled && CacheKey(GENERIC, typeName) in old(app);
        (r.None? <==> typeName !in validTypes || (GENERIC !in tables && !hit)) &&
        (r.Some? && hit ==> r.value == old(app)[CacheKey(GENERIC, typeName)]) &&
        (r.Some? && !hit ==> forall x :: x in r.value <==>
          exists s :: s in cache && s.table == "GenericXconfNamedList" && cache[s].typeName == typeName && x in cache[s].data) &&
        (r.Some? && !hit ==> (IsUnion(db, typeName, r.value) <==> NoneMissing(db, cache, typeName))) &&
        app == if r.Some? && enabled && !hit then old(app)[CacheKey(GENERIC, typeName) := r.value] else old(app)
      ensures old(Sound()) && r.Some? && enabled && CacheKey(GENERIC, typeName) in old(app) ==> IsUnion(db, typeName, r.value)
      ensures old(Sound()) ==> (Sound() <==> !enabled || r.None? || IsUnion(db, typeName, r.value))
    {
      if typeName !in validTypes { return None; }
      var cacheKey := CacheKey(GENERIC, typeName);
      if enabled && cacheKey in app { return Some(app[cacheKey]); }
      if GENERIC !in tables { return None; }
      var result := UnionOfCached(typeName);
      UnionOfSound(db, cache, typeName, result);
      if enabled {
        ghost var before := app;
        app := app[cacheKey := result];
        if Coherent(db, before) { OneMoreValue(db, before, typeName, result); }
      }
      r := Some(result);
    }
  }

  /** Every member of a list of that type is in some cached list of the type. */
  ghost predicate NoneMissing(db: map<Slot, NsList>, cache: map<Slot, NsList>, typeName: string) {
    forall x :: InUnion(db, typeName, x) ==> InUnion(cache, typeName, x)
  }

  lemma UnionOfSound(db: map<Slot, NsList>, cache: map<Slot, NsList>, typeName: string, r: set<string>)
    requires (forall s | s in cache :: s in db && cache[s] == db[s]) && IsUnion(cache, typeName, r)
    ensures IsUnion(db, typeName, r) <==> NoneMissing(db, cache, typeName)
    ensures db == cache ==> IsUnion(db, typeName, r)
  {
    forall x | InUnion(cache, typeName, x) ensures InUnion(db, typeName, x) {
      var s :| s in cache && s.table == GENERIC && cache[s].typeName == typeName && x in cache[s].data;
      assert s in db;
    }
  }

  lemma OneMoreValue(db: map<Slot, NsList>, app: map<string, set<string>>, typeName: string, r: set<string>)
    requires Coherent(db, app)
    ensures Coherent(db, app[CacheKey(GENERIC, typeName) := r]) <==> IsUnion(db, typeName, r)
  {
    var app' := app[CacheKey(GENERIC, typeName) := r];
    assert CacheKey(GENERIC, typeName) in app';
    if IsUnion(db, typeName, r) {
      forall t | CacheKey(GENERIC, t) in app' ensures IsUnion(db, t, app'[CacheKey(GENERIC, t)]) {
        if CacheKey(GENERIC, t) == CacheKey(GENERIC, typeName) { SameKeySameType(t, typeName); }
      }
    }
  }

  /** A value computed while the lists' table is empty after a failing refresh is kept: the row's members stay hidden
      although the row is read, and cached, again. */
  method FailedRefreshHidesMembers(server: Server, typeName: string, key: string, x: string) returns (r: Option<set<string>>)
    requires server.Valid() && server.enabled && GENERIC in server.tables && typeName in server.validTypes
    requires CacheKey(GENERIC, typeName) !in server.app
    requires var s := Slot(GENERIC, key);
      s in server.db && server.db[s].typeName == typeName && x in server.db[s].data
    modifies server
    ensures server.db == old(server.db) && Slot(GENERIC, key) in server.cache && InUnion(server.cache, typeName, x)
    ensures r.Some? && x !in r.value && !server.Sound()
  {
    var refreshed := server.RefreshAll(GENERIC, false);
    var early := server.GetGenericNamedListSetByType(typeName);
    var row := server.GetOne(GENERIC, key, true);
    r := server.GetGenericNamedListSetByType(typeName);
  }

  lemma SameKeySameType(t: string, u: string)
    requires CacheKey(GENERIC, t) == CacheKey(GENERIC, u)
    ensures t == u
  {
    assert CacheKey(GENERIC, t)[|GENERIC| + 2..] == t;
    assert CacheKey(GENERIC, u)[|GENERIC| + 2..] == u;
  }
}
