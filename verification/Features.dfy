/** Merging the features of the matched rules, and the hash sent with them. */
module Features {
  import opened Common
  import opened Rules
  import opened Sorting

  datatype FeatureRule = FeatureRule(id: string, name: string, priority: int, applicationType: string,
    rule: Rule, featureIds: seq<string>)
  datatype Feature = Feature(id: string, name: string, featureName: string, body: string)

  /** A feature as it is sent: its instance name, and all the rest. */
  datatype Response = Response(featureInstance: string, rest: string)

  predicate LowerPriority(a: FeatureRule, b: FeatureRule) { a.priority <= b.priority }

  predicate InstanceLeq(a: Response, b: Response) { TextLeq(a.featureInstance, b.featureInstance) }

  lemma InstanceLeqIsOrder()
    ensures IsTotalPreorder(InstanceLeq)
    ensures forall a, b :: InstanceLeq(a, b) && InstanceLeq(b, a) ==> a.featureInstance == b.featureInstance
  {
    TextLeqIsOrder();
  }

  // ---- Which feature is kept for each name ----

  /** The stored features, and whether and how each can be copied and completed for a response. */
  datatype Store = Store(features: map<string, Feature>, prepare: Feature -> Option<Feature>)

  /** The ID names a stored feature that can be prepared. */
  predicate Usable(store: Store, id: string) {
    id != "" && id in store.features && store.prepare(store.features[id]).Some?
  }

  predicate UsableAs(store: Store, id: string, name: string) {
    Usable(store, id) && store.features[id].name == name
  }

  /** The feature kept for a name: that of the first usable ID with the name. */
  ghost predicate IsKept(store: Store, ids: seq<string>, name: string, kept: Feature) {
    exists i :: 0 <= i < |ids| && UsableAs(store, ids[i], name) &&
      kept == store.prepare(store.features[ids[i]]).value && (forall j | 0 <= j < i :: !UsableAs(store, ids[j], name))
  }

  ghost predicate IsMerge(store: Store, ids: seq<string>, featureMap: map<string, Feature>) {
    (forall id | id in ids && Usable(store, id) :: store.features[id].name in featureMap) &&
    (forall name | name in featureMap :: IsKept(store, ids, name, featureMap[name]))
  }

  /** There is only one such map. */
  lemma MergeIsUnique(store: Store, ids: seq<string>, a: map<string, Feature>, b: map<string, Feature>)
    requires IsMerge(store, ids, a) && IsMerge(store, ids, b)
    ensures a == b
  {
    forall name ensures name in a <==> name in b {
      if name in a { assert IsKept(store, ids, name, a[name]); }
      if name in b { assert IsKept(store, ids, name, b[name]); }
    }
    forall name | name in a ensures a[name] == b[name] {
      assert IsKept(store, ids, name, a[name]) && IsKept(store, ids, name, b[name]);
    }
  }

  lemma KeptAppend(store: Store, ids: seq<string>, id: string, name: string, kept: Feature)
    requires IsKept(store, ids, name, kept)
    ensures IsKept(store, ids + [id], name, kept)
  {
    var i :| 0 <= i < |ids| && UsableAs(store, ids[i], name) &&
      kept == store.prepare(store.features[ids[i]]).value && (forall j | 0 <= j < i :: !UsableAs(store, ids[j], name));
    var all := ids + [id];
    assert all[i] == ids[i];
    forall j | 0 <= j < i ensures !UsableAs(store, all[j], name) { assert all[j] == ids[j]; }
  }

  lemma MergeSkips(store: Store, ids: seq<string>, m: map<string, Feature>, id: string)
    requires IsMerge(store, ids, m)
    requires Usable(store, id) ==> store.features[id].name in m
    ensures IsMerge(store, ids + [id], m)
  {
    forall name | name in m ensures IsKept(store, ids + [id], name, m[name]) { KeptAppend(store, ids, id, name, m[name]); }
  }

  lemma MergeAdds(store: Store, ids: seq<string>, m: map<string, Feature>, id: string)
    requires IsMerge(store, ids, m)
    requires Usable(store, id) && store.features[id].name !in m
    ensures IsMerge(store, ids + [id], m[store.features[id].name := store.prepare(store.features[id]).value])
  {
    var added := store.features[id].name;
    var all := ids + [id];
    forall name | name in m ensures IsKept(store, all, name, m[name]) { KeptAppend(store, ids, id, name, m[name]); }
    assert all[|ids|] == id && UsableAs(store, all[|ids|], added);
    forall j | 0 <= j < |ids| ensures !UsableAs(store, all[j], added) {
      assert all[j] == ids[j] && ids[j] in ids;
    }
    assert IsKept(store, all, added, store.prepare(store.features[id]).value);
  }

  /** The ID is not empty and names a stored feature of that name, which prepared for the response is f. */
  predicate Gives(store: Store, id: string, name: string, f: Feature) {
    id != "" && id in store.features && store.features[id].name == name && store.prepare(store.features[id]) == Some(f)
  }

  /** Nothing that was there changes; what comes in is given by one of the IDs, and every name that one gives is there. */
  ghost predicate Added(store: Store, before: map<string, Feature>, ids: seq<string>, after: map<string, Feature>) {
    (forall name | name in before :: name in after && after[name] == before[name]) &&
    (forall name | name in after && name !in before :: exists k :: 0 <= k < |ids| && Gives(store, ids[k], name, after[name])) &&
    (forall k, name, f | 0 <= k < |ids| && Gives(store, ids[k], name, f) :: name in after)
  }

  lemma AddedSkips(store: Store, before: map<string, Feature>, ids: seq<string>, after: map<string, Feature>, id: string)
    requires Added(store, before, ids, after) && forall name, f | Gives(store, id, name, f) :: name in after
    ensures Added(store, before, ids + [id], after)
  {
    var all := ids + [id];
    forall name | name in after && name !in before ensures exists k :: 0 <= k < |all| && Gives(store, all[k], name, after[name]) {
      var k :| 0 <= k < |ids| && Gives(store, ids[k], name, after[name]);
      assert all[k] == ids[k];
    }
  }

  lemma AddedAdds(store: Store, before: map<string, Feature>, ids: seq<string>, after: map<string, Feature>, id: string, name: string, f: Feature)
    requires Added(store, before, ids, after) && Gives(store, id, name, f) && name !in after
    ensures Added(store, before, ids + [id], after[name := f])
  {
    var all, after' := ids + [id], after[name := f];
    forall n | n in after' && n !in before ensures exists k :: 0 <= k < |all| && Gives(store, all[k], n, after'[n]) {
      if n == name {
        assert all[|ids|] == id;
      } else {
        var k :| 0 <= k < |ids| && Gives(store, ids[k], n, after[n]);
        assert all[k] == ids[k];
      }
    }
  }

  method AddFeaturesToResult(store: Store, featureMap: map<string, Feature>, featureIds: seq<string>, ghost before: seq<string>)
    returns (r: map<string, Feature>)
    requires IsMerge(store, before, featureMap)
    ensures IsMerge(store, before + featureIds, r)
    ensures Added(store, featureMap, featureIds, r)
  {
    r := featureMap;
    assert before + featureIds[..0] == before;
    for i := 0 to |featureIds|
      invariant IsMerge(store, before + featureIds[..i], r)
      invariant Added(store, featureMap, featureIds[..i], r)
    {
      var featureID := featureIds[i];
      ghost var seen := before + featureIds[..i];
      assert before + featureIds[..i + 1] == seen + [featureID] && featureIds[..i + 1] == featureIds[..i] + [featureID];
      if featureID == "" || featureID !in store.features {
        MergeSkips(store, seen, r, featureID);
        AddedSkips(store, featureMap, featureIds[..i], r, featureID);
        continue;
      }
      var feature := store.features[featureID];
      var clonedFeature := store.prepare(feature);
      if feature.name in r || clonedFeature.None? {
        MergeSkips(store, seen, r, featureID);
        AddedSkips(store, featureMap, featureIds[..i], r, featureID);
        continue;
      }
      MergeAdds(store, seen, r, featureID);
      AddedAdds(store, featureMap, featureIds[..i], r, featureID, feature.name, clonedFeature.value);
      r := r[feature.name := clonedFeature.value];
    }
    assert featureIds[..|featureIds|] == featureIds;
  }

  // ---- Eval ----

  function FeatureIds(rules: seq<FeatureRule>): seq<string> {
    if rules == [] then [] else FeatureIds(rules[..|rules| - 1]) + rules[|rules| - 1].featureIds
  }

  /** The rules' IDs, rule after rule. */
  lemma {:induction false} FeatureIdsConcat(a: seq<FeatureRule>, b: seq<FeatureRule>)
    ensures FeatureIds(a + b) == FeatureIds(a) + FeatureIds(b)
    ensures forall r :: FeatureIds([r]) == r.featureIds
  {
    forall r ensures FeatureIds([r]) == r.featureIds { assert [r][..0] == []; }
    if b == [] {
      assert a + b == a;
    } else {
      var n := |b| - 1;
      assert (a + b)[..|a + b| - 1] == a + b[..n];
      FeatureIdsConcat(a, b[..n]);
    }
  }

  lemma FeatureIdsStep(rules: seq<FeatureRule>, i: nat)
    requires i < |rules|
    ensures FeatureIds(rules[..i + 1]) == FeatureIds(rules[..i]) + rules[i].featureIds
  {
    assert rules[..i + 1][..i] == rules[..i];
  }

  /** The rule belongs to the application and holds in the context. */
  ghost function Applies(leaf: Leaf, ctx: Context, applicationType: string): (test: FeatureRule -> bool)
    ensures forall r :: test(r) <==> r.applicationType == applicationType && Holds(leaf, r.rule, ctx)
  {
    (r: FeatureRule) => r.applicationType == applicationType && Holds(leaf, r.rule, ctx)
  }

  /** Some order of the map's values, as ranging over a Go map gives them. */
  ghost predicate Ranges(names: seq<string>, keys: set<string>) {
    (forall i, j | 0 <= i < j < |names| :: names[i] != names[j]) && forall n :: n in names <==> n in keys
  }

  function Responses(respond: Feature -> Response, featureMap: map<string, Feature>, names: seq<string>): seq<Response>
    requires forall n | n in names :: n in featureMap
  {
    seq(|names|, i requires 0 <= i < |names| => respond(featureMap[names[i]]))
  }

  ghost predicate IsListing(respond: Feature -> Response, featureMap: map<string, Feature>, list: seq<Response>) {
    exists names :: Ranges(names, featureMap.Keys) && list == Responses(respond, featureMap, names)
  }

  method ListResponses(respond: Feature -> Response, featureMap: map<string, Feature>) returns (list: seq<Response>)
    ensures IsListing(respond, featureMap, list)
  {
    list := [];
    ghost var names: seq<string> := [];
    var keys := featureMap.Keys;
    while keys != {}
      invariant keys <= featureMap.Keys && Ranges(names, featureMap.Keys - keys)
      invariant list == Responses(respond, featureMap, names)
      decreases |keys|
    {
      var key :| key in keys;
      list := list + [respond(featureMap[key])];
      names := names + [key];
      keys := keys - {key};
    }
    assert featureMap.Keys - keys == featureMap.Keys;
  }

  /** No rule of the application is evaluated into a panic. */
  ghost predicate NonePanics(leaf: Leaf, ctx: Context, applicationType: string, rules: seq<FeatureRule>) {
    forall r | r in rules && r.applicationType == applicationType :: !Panics(leaf, r.rule, ctx)
  }

  lemma SortedAreListed(rules: seq<FeatureRule>)
    ensures forall r :: r in StableSort(LowerPriority, rules) ==> r in rules
  {
    StableSortSorts(LowerPriority, rules);
    forall r | r in StableSort(LowerPriority, rules) ensures r in rules { assert r in multiset(rules); }
  }

  /** The rules that pass, the lower priority number first and ties in the order of the table. */
  ghost predicate ByPriority(test: FeatureRule -> bool, featureRules: seq<FeatureRule>, rules: seq<FeatureRule>) {
    exists sorted: seq<FeatureRule> :: IsStablySorted(LowerPriority, featureRules, sorted) && Picks(test, sorted, rules) &&
      forall i, j | 0 <= i < j < |sorted| :: sorted[i].priority <= sorted[j].priority
  }

  lemma FilteredByPriority(test: FeatureRule -> bool, featureRules: seq<FeatureRule>)
    ensures ByPriority(test, featureRules, Filter(test, StableSort(LowerPriority, featureRules)))
  {
    StableSortPlaces(LowerPriority, featureRules);
    StableSortSorts(LowerPriority, featureRules);
    FilterPicks(test, StableSort(LowerPriority, featureRules));
  }

  class FeatureControlRuleBase {
    const processor: RuleProcessor
    const store: Store
    const respond: Feature -> Response
    const featureRules: seq<FeatureRule>

    constructor (processor: RuleProcessor, store: Store, respond: Feature -> Response, featureRules: seq<FeatureRule>)
      ensures this.processor == processor && this.store == store && this.respond == respond
      ensures this.featureRules == featureRules
    {
      this.processor, this.store, this.respond, this.featureRules := processor, store, respond, featureRules;
    }

    method GetSortedFeatureRules() returns (sorted: seq<FeatureRule>)
      ensures sorted == StableSort(LowerPriority, featureRules)
    {
      if |featureRules| <= 1 { return featureRules; }
      sorted := StableSort(LowerPriority, featureRules);
    }

    /** The rules of a list that apply. */
    method FilterRules(sorted: seq<FeatureRule>, ctx: Context, applicationType: string) returns (rules: seq<FeatureRule>)
      requires NonePanics(processor.AsLeaf(), ctx, applicationType, sorted)
      ensures rules == Filter(Applies(processor.AsLeaf(), ctx, applicationType), sorted)
    {
      rules := [];
      for i := 0 to |sorted|
        invariant rules == Filter(Applies(processor.AsLeaf(), ctx, applicationType), sorted[..i])
      {
        var featureRule := sorted[i];
        FilterTake(Applies(processor.AsLeaf(), ctx, applicationType), sorted, i);
        if applicationType == featureRule.applicationType {
          var matched := processor.Evaluate(featureRule.rule, ctx);
          if matched == Some(true) { rules := rules + [featureRule]; }
        }
      }
      assert sorted[..|sorted|] == sorted;
    }

    /** The rules that apply, by priority, ties in the order of the table. */
    method ProcessFeatureRules(ctx: Context, applicationType: string) returns (rules: seq<FeatureRule>)
      requires NonePanics(processor.AsLeaf(), ctx, applicationType, featureRules)
      ensures rules == Filter(Applies(processor.AsLeaf(), ctx, applicationType), StableSort(LowerPriority, featureRules))
      ensures ByPriority(Applies(processor.AsLeaf(), ctx, applicationType), featureRules, rules)
    {
      FilteredByPriority(Applies(processor.AsLeaf(), ctx, applicationType), featureRules);
      SortedAreListed(featureRules);
      var sorted := GetSortedFeatureRules();
      rules := FilterRules(sorted, ctx, applicationType);
    }

    /** The features of the rules, merged in their order. */
    method MergeFeatures(applied: seq<FeatureRule>) returns (featureMap: map<string, Feature>)
      ensures IsMerge(store, FeatureIds(applied), featureMap)
    {
      featureMap := map[];
      for i := 0 to |applied|
        invariant IsMerge(store, FeatureIds(applied[..i]), featureMap)
      {
        FeatureIdsStep(applied, i);
        featureMap := AddFeaturesToResult(store, featureMap, applied[i].featureIds, FeatureIds(applied[..i]));
      }
      assert applied[..|applied|] == applied;
    }

    method Eval(ctx: Context, applicationType: string)
      returns (list: seq<Response>, applied: seq<FeatureRule>, ghost featureMap: map<string, Feature>)
      requires NonePanics(processor.AsLeaf(), ctx, applicationType, featureRules)
      ensures applied == Filter(Applies(processor.AsLeaf(), ctx, applicationType), StableSort(LowerPriority, featureRules))
      ensures ByPriority(Applies(processor.AsLeaf(), ctx, applicationType), featureRules, applied)
      ensures IsMerge(store, FeatureIds(applied), featureMap)
      ensures IsListing(respond, featureMap, list)
    {
      applied := ProcessFeatureRules(ctx, applicationType);
      var m := MergeFeatures(applied);
      featureMap := m;
      list := ListResponses(respond, m);
    }
  }

  // ---- The hash ----

  function Joined(marshal: Response -> string, features: seq<Response>): string {
    if features == [] then "" else Joined(marshal, features[..|features| - 1]) + marshal(features[|features| - 1])
  }

  /** The text that is hashed: the responses by instance, between brackets. */
  function HashInput(marshal: Response -> string, features: seq<Response>): string {
    "[" + Joined(marshal, StableSort(InstanceLeq, features)) + "]"
  }

  /** The responses by the names of their instances, ties in their order. */
  ghost predicate ByInstance(features: seq<Response>, sorted: seq<Response>) {
    IsStablySorted(InstanceLeq, features, sorted) &&
    forall i, j | 0 <= i < j < |sorted| :: TextLeq(sorted[i].featureInstance, sorted[j].featureInstance)
  }

  /** What is hashed: their texts between brackets. */
  lemma HashedText(marshal: Response -> string, features: seq<Response>) returns (sorted: seq<Response>)
    ensures ByInstance(features, sorted) && HashInput(marshal, features) == "[" + Joined(marshal, sorted) + "]"
  {
    InstanceLeqIsOrder();
    StableSortPlaces(InstanceLeq, features);
    StableSortSorts(InstanceLeq, features);
    sorted := StableSort(InstanceLeq, features);
  }

  method CalculateHash(marshal: Response -> string, digest: string -> string, features: seq<Response>)
    returns (hash: string)
    ensures hash == digest(HashInput(marshal, features))
  {
    var arrBytes := "[";
    var sorted := StableSort(InstanceLeq, features);
    for i := 0 to |sorted|
      invariant arrBytes == "[" + Joined(marshal, sorted[..i])
    {
      assert sorted[..i + 1][..i] == sorted[..i];
      arrBytes := arrBytes + marshal(sorted[i]);
    }
    assert sorted[..|sorted|] == sorted;
    arrBytes := arrBytes + "]";
    hash := digest(arrBytes);
  }

  // ---- When the hash shows no order ----

  lemma TakeOut<T>(s: seq<T>, x: T) returns (u: seq<T>, v: seq<T>)
    requires x in s
    ensures s == u + ([x] + v) && multiset(s) == multiset{x} + multiset(u + v)
  {
    var k :| 0 <= k < |s| && s[k] == x;
    u, v := s[..k], s[k + 1..];
    assert s == u + ([x] + v);
  }

  predicate Tied(x: Response, y: Response) { x.featureInstance == y.featureInstance }

  predicate Commute(marshal: Response -> string, x: Response, y: Response) {
    marshal(x) + marshal(y) == marshal(y) + marshal(x)
  }

  /** The texts of any two responses with one instance can be swapped. */
  ghost predicate TiesCommute(marshal: Response -> string, features: seq<Response>) {
    forall x, y | x in features && y in features && Tied(x, y) :: Commute(marshal, x, y)
  }

  ghost predicate OrderFree(marshal: Response -> string, features: seq<Response>) {
    forall other | multiset(other) == multiset(features) :: HashInput(marshal, other) == HashInput(marshal, features)
  }

  lemma {:induction false} JoinedConcat(marshal: Response -> string, a: seq<Response>, b: seq<Response>)
    ensures Joined(marshal, a + b) == Joined(marshal, a) + Joined(marshal, b)
  {
    if b == [] {
      assert a + b == a;
    } else {
      var n := |b| - 1;
      assert (a + b)[..|a + b| - 1] == a + b[..n];
      JoinedConcat(marshal, a, b[..n]);
    }
  }

  lemma JoinedOne(marshal: Response -> string, x: Response)
    ensures Joined(marshal, [x]) == marshal(x)
  {
    assert [x][..0] == [];
  }

  lemma PassFront(p: string, m: string, q: string)
    requires p + m == m + p
    ensures p + (m + q) == m + (p + q)
  {
    assert p + (m + q) == (p + m) + q;
    assert m + (p + q) == (m + p) + q;
  }

  lemma {:induction false} CommutesThrough(marshal: Response -> string, u: seq<Response>, x: Response)
    requires forall y | y in u :: Commute(marshal, x, y)
    ensures Joined(marshal, u) + marshal(x) == marshal(x) + Joined(marshal, u)
  {
    if u != [] {
      var n := |u| - 1;
      CommutesThrough(marshal, u[..n], x);
      assert Commute(marshal, x, u[n]);
      PassFront(Joined(marshal, u[..n]), marshal(x), marshal(u[n]));
      assert Joined(marshal, u) + marshal(x) == Joined(marshal, u[..n]) + (marshal(u[n]) + marshal(x));
    }
  }

  lemma MoveToFront(marshal: Response -> string, u: seq<Response>, x: Response, v: seq<Response>)
    requires forall y | y in u :: Commute(marshal, x, y)
    ensures Joined(marshal, u + ([x] + v)) == marshal(x) + Joined(marshal, u + v)
  {
    JoinedConcat(marshal, u, [x] + v);
    JoinedConcat(marshal, [x], v);
    JoinedOne(marshal, x);
    JoinedConcat(marshal, u, v);
    CommutesThrough(marshal, u, x);
    PassFront(Joined(marshal, u), marshal(x), Joined(marshal, v));
  }

  lemma SortedAround(u: seq<Response>, x: Response, v: seq<Response>)
    requires SortedBy(InstanceLeq, u + ([x] + v))
    ensures SortedBy(InstanceLeq, u + v)
    ensures forall y | y in u :: InstanceLeq(y, x)
    ensures forall y | y in v :: InstanceLeq(x, y)
  {
    var t, n := u + ([x] + v), |u|;
    assert t[n] == x;
    forall i, j | 0 <= i < j < |u + v| ensures InstanceLeq((u + v)[i], (u + v)[j]) {
      assert (u + v)[i] == t[if i < n then i else i + 1] && (u + v)[j] == t[if j < n then j else j + 1];
    }
    forall y | y in u ensures InstanceLeq(y, x) { var i :| 0 <= i < n && u[i] == y; assert t[i] == y; }
    forall y | y in v ensures InstanceLeq(x, y) { var i :| 0 <= i < |v| && v[i] == y; assert t[n + 1 + i] == y; }
  }

  /** What stands in front of the first response of one order, in another, ties with it. */
  lemma FrontTies(x: Response, s: seq<Response>, u: seq<Response>, v: seq<Response>)
    requires SortedBy(InstanceLeq, [x] + s) && SortedBy(InstanceLeq, u + ([x] + v)) && multiset(s) == multiset(u + v)
    ensures forall y | y in u :: y in s && Tied(x, y)
  {
    InstanceLeqIsOrder();
    SortedAround(u, x, v);
    assert [] + ([x] + s) == [x] + s;
    SortedAround([], x, s);
    forall y | y in u ensures y in s && Tied(x, y) { assert y in u + v && y in multiset(u + v); }
  }

  lemma FoundElsewhere<T>(x: T, s: seq<T>, t: seq<T>) returns (u: seq<T>, v: seq<T>)
    requires multiset([x] + s) == multiset(t)
    ensures t == u + ([x] + v) && multiset(s) == multiset(u + v)
  {
    assert ([x] + s)[0] == x && x in multiset([x] + s);
    assert x in t;
    u, v := TakeOut(t, x);
    assert multiset([x] + (u + v)) == multiset(t);
    SameRest(x, s, u + v);
  }

  /** The first response of one order, found in another. */
  lemma FirstElsewhere(x: Response, s: seq<Response>, t: seq<Response>) returns (u: seq<Response>, v: seq<Response>)
    requires multiset([x] + s) == multiset(t) && SortedBy(InstanceLeq, [x] + s) && SortedBy(InstanceLeq, t)
    ensures t == u + ([x] + v) && multiset(s) == multiset(u + v)
    ensures SortedBy(InstanceLeq, s) && SortedBy(InstanceLeq, u + v)
    ensures forall y | y in u :: y in s && Tied(x, y)
  {
    u, v := FoundElsewhere(x, s, t);
    FrontTies(x, s, u, v);
    SortedAround(u, x, v);
    SortedTail(x, s);
  }

  lemma SortedTail(x: Response, s: seq<Response>)
    requires SortedBy(InstanceLeq, [x] + s)
    ensures SortedBy(InstanceLeq, s)
  {
    assert [] + ([x] + s) == [x] + s && [] + s == s;
    SortedAround([], x, s);
  }

  /** Both texts begin with that response's. */
  lemma SameFront(marshal: Response -> string, x: Response, s: seq<Response>, t: seq<Response>)
    returns (u: seq<Response>, v: seq<Response>)
    requires multiset([x] + s) == multiset(t) && SortedBy(InstanceLeq, [x] + s) && SortedBy(InstanceLeq, t)
    requires TiesCommute(marshal, [x] + s)
    ensures multiset(s) == multiset(u + v) && SortedBy(InstanceLeq, s) && SortedBy(InstanceLeq, u + v)
    ensures Joined(marshal, [x] + s) == marshal(x) + Joined(marshal, s)
    ensures Joined(marshal, t) == marshal(x) + Joined(marshal, u + v)
  {
    u, v := FirstElsewhere(x, s, t);
    forall y | y in u ensures Commute(marshal, x, y) { assert x in [x] + s && y in [x] + s; }
    MoveToFront(marshal, u, x, v);
    JoinedConcat(marshal, [x], s);
    JoinedOne(marshal, x);
  }

  lemma FewerTiesCommute(marshal: Response -> string, x: Response, s: seq<Response>)
    requires TiesCommute(marshal, [x] + s)
    ensures TiesCommute(marshal, s)
  {
    assert forall y | y in s :: y in [x] + s;
  }

  /** Two sorted orders of the same responses give one text when ties commute. */
  lemma {:induction false} SortedAlike(marshal: Response -> string, s: seq<Response>, t: seq<Response>)
    requires multiset(s) == multiset(t) && SortedBy(InstanceLeq, s) && SortedBy(InstanceLeq, t) && TiesCommute(marshal, s)
    ensures Joined(marshal, s) == Joined(marshal, t)
    decreases |s|
  {
    if s == [] {
      assert |multiset(t)| == 0;
    } else {
      assert s == [s[0]] + s[1..];
      var u, v := SameFront(marshal, s[0], s[1..], t);
      FewerTiesCommute(marshal, s[0], s[1..]);
      SortedAlike(marshal, s[1..], u + v);
    }
  }

  lemma TiesCommuteSorted(marshal: Response -> string, a: seq<Response>, s: seq<Response>)
    requires multiset(a) == multiset(s) && TiesCommute(marshal, a)
    ensures TiesCommute(marshal, s)
  {
    forall x, y | x in s && y in s && Tied(x, y) ensures Commute(marshal, x, y) {
      assert x in multiset(a) && y in multiset(a);
    }
  }

  lemma CommutingHashAlike(marshal: Response -> string, a: seq<Response>, b: seq<Response>)
    requires multiset(a) == multiset(b) && TiesCommute(marshal, a)
    ensures HashInput(marshal, a) == HashInput(marshal, b)
  {
    InstanceLeqIsOrder();
    StableSortSorts(InstanceLeq, a);
    StableSortSorts(InstanceLeq, b);
    var s := StableSort(InstanceLeq, a);
    TiesCommuteSorted(marshal, a, s);
    SortedAlike(marshal, s, StableSort(InstanceLeq, b));
  }

  lemma JoinedAround(marshal: Response -> string, u: seq<Response>, x: Response, y: Response, v: seq<Response>)
    ensures Joined(marshal, u + [x, y] + v) == Joined(marshal, u) + (marshal(x) + marshal(y)) + Joined(marshal, v)
  {
    JoinedConcat(marshal, u + [x, y], v);
    JoinedConcat(marshal, u, [x, y]);
    assert [x, y] == [x] + [y];
    JoinedConcat(marshal, [x], [y]);
    JoinedOne(marshal, x);
    JoinedOne(marshal, y);
  }

  lemma CancelAround(p: string, a: string, b: string, q: string)
    requires |a| == |b| && "[" + (p + a + q) + "]" == "[" + (p + b + q) + "]"
    ensures a == b
  {
    var s, t := "[" + (p + a + q) + "]", "[" + (p + b + q) + "]";
    assert s[|p| + 1..|p| + 1 + |a|] == a && t[|p| + 1..|p| + 1 + |b|] == b;
  }

  /** Swapping two tied responses in front of the others shows in the text unless their own texts commute. */
  lemma SwappedHashAlike(marshal: Response -> string, x: Response, y: Response, rest: seq<Response>)
    requires Tied(x, y) && HashInput(marshal, [x, y] + rest) == HashInput(marshal, [y, x] + rest)
    ensures Commute(marshal, x, y)
  {
    InstanceLeqIsOrder();
    var sorted := StableSort(InstanceLeq, rest);
    var u, v := InsertTied(InstanceLeq, x, y, sorted);
    SortTwo(x, y, rest);
    SortTwo(y, x, rest);
    JoinedAround(marshal, u, x, y, v);
    JoinedAround(marshal, u, y, x, v);
    CancelAround(Joined(marshal, u), marshal(x) + marshal(y), marshal(y) + marshal(x), Joined(marshal, v));
  }

  lemma SortTwo(x: Response, y: Response, rest: seq<Response>)
    ensures StableSort(InstanceLeq, [x, y] + rest) ==
      Insert(InstanceLeq, x, Insert(InstanceLeq, y, StableSort(InstanceLeq, rest)))
  {
    var all := [x, y] + rest;
    assert all[1..] == [y] + rest && ([y] + rest)[1..] == rest;
    assert StableSort(InstanceLeq, [y] + rest) == Insert(InstanceLeq, y, StableSort(InstanceLeq, rest));
  }

  /** The hashed text is the same for every order of the responses exactly when any two with one instance commute. */
  lemma OrderFreeExactly(marshal: Response -> string, a: seq<Response>)
    ensures OrderFree(marshal, a) <==> TiesCommute(marshal, a)
  {
    if TiesCommute(marshal, a) {
      forall b | multiset(b) == multiset(a) ensures HashInput(marshal, b) == HashInput(marshal, a) {
        CommutingHashAlike(marshal, a, b);
      }
    }
    if OrderFree(marshal, a) {
      forall x, y | x in a && y in a && Tied(x, y) ensures Commute(marshal, x, y) {
        if x != y {
          var rest := OthersThan(a, x, y);
          assert HashInput(marshal, [x, y] + rest) == HashInput(marshal, a);
          assert HashInput(marshal, [y, x] + rest) == HashInput(marshal, a);
          SwappedHashAlike(marshal, x, y, rest);
        }
      }
    }
  }

  lemma PutBack<T>(x: T, y: T, rest: seq<T>)
    ensures multiset([x, y] + rest) == multiset{x} + (multiset{y} + multiset(rest))
  {
    assert [x, y] + rest == [x] + ([y] + rest);
  }

  lemma OthersThan(a: seq<Response>, x: Response, y: Response) returns (rest: seq<Response>)
    requires x in a && y in a && x != y
    ensures multiset([x, y] + rest) == multiset(a) == multiset([y, x] + rest)
  {
    var u, v := TakeOut(a, x);
    assert y in u + v;
    var p, q := TakeOut(u + v, y);
    rest := p + q;
    PutBack(x, y, rest);
    PutBack(y, x, rest);
  }

  ghost predicate DistinctInstances(features: seq<Response>) {
    forall i, j | 0 <= i < j < |features| :: features[i].featureInstance != features[j].featureInstance
  }

  /** With distinct instances the text does not depend on the order of the responses. */
  lemma HashIgnoresOrder(marshal: Response -> string, a: seq<Response>)
    requires DistinctInstances(a)
    ensures OrderFree(marshal, a)
  {
    OrderFreeExactly(marshal, a);
  }

  lemma ResponsesWithout(respond: Feature -> Response, m: map<string, Feature>, u: seq<string>, x: string, v: seq<string>)
    requires forall n | n in u + ([x] + v) :: n in m
    ensures x in m && forall n | n in u + v :: n in m
    ensures multiset(Responses(respond, m, u + ([x] + v))) == multiset{respond(m[x])} + multiset(Responses(respond, m, u + v))
  {
    assert x in u + ([x] + v);
    forall n | n in u + v ensures n in m { assert n in u + ([x] + v); }
    var rs := Responses(respond, m, u + v);
    assert Responses(respond, m, u + ([x] + v)) == rs[..|u|] + [respond(m[x])] + rs[|u|..];
    assert rs == rs[..|u|] + rs[|u|..];
  }

  lemma {:induction false} SameMembersSameResponses(respond: Feature -> Response, m: map<string, Feature>, a: seq<string>, b: seq<string>)
    requires multiset(a) == multiset(b) && (forall n | n in a :: n in m) && forall n | n in b :: n in m
    ensures multiset(Responses(respond, m, a)) == multiset(Responses(respond, m, b))
  {
    if a == [] {
      assert |multiset(b)| == 0;
    } else {
      var x, tail := a[0], a[1..];
      assert a == [x] + tail && x in multiset(b);
      var u, v := TakeOut(b, x);
      assert multiset([x] + (u + v)) == multiset(b);
      SameRest(x, tail, u + v);
      assert forall n | n in u + v :: n in b;
      SameMembersSameResponses(respond, m, tail, u + v);
      ResponsesWithout(respond, m, [], x, tail);
      ResponsesWithout(respond, m, u, x, v);
      assert [] + ([x] + tail) == a && [] + tail == tail;
    }
  }

  lemma ListingsArePermutations(respond: Feature -> Response, m: map<string, Feature>, a: seq<Response>, b: seq<Response>)
    requires IsListing(respond, m, a) && IsListing(respond, m, b)
    ensures multiset(a) == multiset(b)
  {
    var names :| Ranges(names, m.Keys) && a == Responses(respond, m, names);
    var others :| Ranges(others, m.Keys) && b == Responses(respond, m, others);
    DistinctIsSet(names, m.Keys);
    DistinctIsSet(others, m.Keys);
    SameMembersSameResponses(respond, m, names, others);
  }

  lemma {:induction false} SetIsListed(keys: set<string>) returns (names: seq<string>)
    ensures Ranges(names, keys)
    decreases |keys|
  {
    if keys == {} {
      names := [];
    } else {
      var n :| n in keys;
      names := SetIsListed(keys - {n});
      names := names + [n];
    }
  }

  /** Two features can come first, in either order. */
  lemma ListedInFront(respond: Feature -> Response, m: map<string, Feature>, n1: string, n2: string) returns (rest: seq<Response>)
    requires n1 in m && n2 in m && n1 != n2
    ensures IsListing(respond, m, [respond(m[n1]), respond(m[n2])] + rest)
    ensures IsListing(respond, m, [respond(m[n2]), respond(m[n1])] + rest)
  {
    var others := SetIsListed(m.Keys - {n1, n2});
    rest := Responses(respond, m, others);
    var names, swapped := [n1, n2] + others, [n2, n1] + others;
    assert Ranges(names, m.Keys) && Ranges(swapped, m.Keys);
    assert Responses(respond, m, names) == [respond(m[n1]), respond(m[n2])] + rest;
    assert Responses(respond, m, swapped) == [respond(m[n2]), respond(m[n1])] + rest;
  }

  ghost predicate ListingsHashAlike(marshal: Response -> string, respond: Feature -> Response, m: map<string, Feature>) {
    forall a, b | IsListing(respond, m, a) && IsListing(respond, m, b) :: HashInput(marshal, a) == HashInput(marshal, b)
  }

  /** The order in which the feature map is ranged over does not show in the hashed text exactly when any two of its
      features that respond with one instance have texts that commute. */
  lemma MapOrderFreeExactly(marshal: Response -> string, respond: Feature -> Response, m: map<string, Feature>)
    ensures ListingsHashAlike(marshal, respond, m) <==>
      forall n1, n2 | n1 in m && n2 in m && Tied(respond(m[n1]), respond(m[n2])) ::
        Commute(marshal, respond(m[n1]), respond(m[n2]))
  {
    if ListingsHashAlike(marshal, respond, m) {
      forall n1, n2 | n1 in m && n2 in m && Tied(respond(m[n1]), respond(m[n2]))
        ensures Commute(marshal, respond(m[n1]), respond(m[n2]))
      {
        if n1 != n2 {
          var rest := ListedInFront(respond, m, n1, n2);
          SwappedHashAlike(marshal, respond(m[n1]), respond(m[n2]), rest);
        }
      }
    } else {
      var a, b :| IsListing(respond, m, a) && IsListing(respond, m, b) && HashInput(marshal, a) != HashInput(marshal, b);
      ListingsArePermutations(respond, m, a, b);
      if TiesCommute(marshal, a) { CommutingHashAlike(marshal, a, b); }
      var x, y :| x in a && y in a && Tied(x, y) && !Commute(marshal, x, y);
      var n1 := NameOf(respond, m, a, x);
      var n2 := NameOf(respond, m, a, y);
    }
  }

  lemma NameOf(respond: Feature -> Response, m: map<string, Feature>, a: seq<Response>, x: Response) returns (n: string)
    requires IsListing(respond, m, a) && x in a
    ensures n in m && respond(m[n]) == x
  {
    var names :| Ranges(names, m.Keys) && a == Responses(respond, m, names);
    var i :| 0 <= i < |a| && a[i] == x;
    n := names[i];
    assert n in names;
  }

  /** So it does not when the instances are distinct. */
  lemma HashIgnoresMapOrder(marshal: Response -> string, respond: Feature -> Response, m: map<string, Feature>,
    a: seq<Response>, b: seq<Response>)
    requires IsListing(respond, m, a) && IsListing(respond, m, b) && DistinctInstances(a)
    ensures HashInput(marshal, a) == HashInput(marshal, b)
  {
    ListingsArePermutations(respond, m, a, b);
    HashIgnoresOrder(marshal, a);
  }

  /** For two responses: both orders hash alike exactly when their instances differ or their texts commute. */
  lemma TwoResponses(marshal: Response -> string, x: Response, y: Response)
    ensures HashInput(marshal, [x, y]) == HashInput(marshal, [y, x]) <==> !Tied(x, y) || Commute(marshal, x, y)
  {
    if !Tied(x, y) || Commute(marshal, x, y) {
      assert multiset([x, y]) == multiset([y, x]);
      CommutingHashAlike(marshal, [x, y], [y, x]);
    }
    if Tied(x, y) && HashInput(marshal, [x, y]) == HashInput(marshal, [y, x]) {
      assert [x, y] + [] == [x, y] && [y, x] + [] == [y, x];
      SwappedHashAlike(marshal, x, y, []);
    }
  }
}
