/** Order-insensitive equality of rules, and why it is safe for evaluation. */
module RuleEquality {
  import opened Common
  import opened Rules
  import opened RuleBuilders
  import opened RuleFlatten
  import FixedArgs

  // ---- Equality of leaves ----

  predicate FixedArgEquals(a: FixedArg, x: FixedArg) {
    if a.collection.Some? && x.collection.Some? && |a.collection.value| > 0 && |x.collection.value| > 0 then
      FixedArgs.Elements(a.collection.value) == FixedArgs.Elements(x.collection.value)
    else
      GetValue(a) == GetValue(x)
  }

  /** Arguments are equal exactly when no evaluator can tell them apart. */
  lemma FixedArgEqualsIsView(a: FixedArg, x: FixedArg)
    ensures FixedArgEquals(a, x) <==> ViewValue(GetValue(a)) == ViewValue(GetValue(x))
  {
  }

  /** Lists are equal as sets; texts and numbers by themselves; and nothing equals a value of another kind. */
  lemma FixedArgEqualsExactly(a: FixedArg, x: FixedArg)
    ensures FixedArgEquals(a, x) <==>
      if HasItems(a) || HasItems(x)
      then HasItems(a) && HasItems(x) && (set t | t in a.collection.value) == (set t | t in x.collection.value)
      else TextOf(a) == TextOf(x) && (TextOf(a).None? ==> NumberOf(a) == NumberOf(x))
  {
  }

  predicate EqualConditions(c1: Option<Condition>, c2: Option<Condition>) {
    if c1.None? && c2.None? then true
    else if c1.None? || c2.None? then false
    else if c1.value.freeArg.None? || c2.value.freeArg.None? then false
    else if c1.value.freeArg.value.name != c2.value.freeArg.value.name then false
    else if c1.value.operation == "" || c2.value.operation == "" then false
    else if c1.value.operation != c2.value.operation then false
    else if c1.value.fixedArg.None? || c2.value.fixedArg.None? then false
    else FixedArgEquals(c1.value.fixedArg.value, c2.value.fixedArg.value)
  }

  predicate EqualNonCompoundRules(r1: Rule, r2: Rule) {
    r1.negated == r2.negated && r1.relation == r2.relation && EqualConditions(r1.condition, r2.condition)
  }

  /** What is compared: everything about a leaf but the type of its free argument and the order and
      multiplicity of a list. A leaf with an argument or the operation missing has no key, and is
      equal to nothing, itself included. */
  datatype Key = Key(negated: bool, relation: string, name: string, operation: string, value: ValueView)

  function KeyOf(r: Rule): Option<Key>
    requires r.condition.Some?
  {
    var c := r.condition.value;
    if c.freeArg.None? || c.operation == "" || c.fixedArg.None? then None
    else Some(Key(r.negated, r.relation, c.freeArg.value.name, c.operation, ViewValue(GetValue(c.fixedArg.value))))
  }

  lemma EqualMeansSameKey(r1: Rule, r2: Rule)
    requires r1.condition.Some? && r2.condition.Some?
    ensures EqualNonCompoundRules(r1, r2) <==> KeyOf(r1).Some? && KeyOf(r1) == KeyOf(r2)
  {
    if r1.condition.value.fixedArg.Some? && r2.condition.value.fixedArg.Some? {
      FixedArgEqualsIsView(r1.condition.value.fixedArg.value, r2.condition.value.fixedArg.value);
    }
  }

  /** Said of the fields: leaves are equal exactly when none of both arguments and the operation is missing, and negation,
      relation, argument name, operation and value are the same. The type of the free argument is not compared. */
  lemma EqualLeavesExactly(r1: Rule, r2: Rule)
    requires r1.condition.Some? && r2.condition.Some?
    ensures var c1, c2 := r1.condition.value, r2.condition.value;
      EqualNonCompoundRules(r1, r2) <==>
        r1.negated == r2.negated && r1.relation == r2.relation &&
        c1.freeArg.Some? && c2.freeArg.Some? && c1.freeArg.value.name == c2.freeArg.value.name &&
        c1.operation == c2.operation != "" &&
        c1.fixedArg.Some? && c2.fixedArg.Some? && FixedArgEquals(c1.fixedArg.value, c2.fixedArg.value)
  {
  }

  ghost predicate AllLeaves(rs: seq<Rule>) {
    forall r | r in rs :: r.condition.Some?
  }

  function Keys(rs: seq<Rule>): (ks: seq<Option<Key>>)
    requires AllLeaves(rs)
    ensures |ks| == |rs|
  {
    seq(|rs|, i requires 0 <= i < |rs| => KeyOf(rs[i]))
  }

  // ---- The comparison ----

  ghost predicate SameBag(a: seq<Rule>, b: seq<Rule>)
    requires AllLeaves(a) && AllLeaves(b)
  {
    None !in Keys(a) && multiset(Keys(a)) == multiset(Keys(b))
  }

  /** Greedy matching: every rule of the first list takes away the first equal rule of the second. */
  method IntersectionOfNonCompoundRules(rules1: seq<Rule>, rules2: seq<Rule>) returns (result: seq<Rule>)
    requires AllLeaves(rules1) && AllLeaves(rules2) && |rules1| == |rules2|
    ensures |result| == |rules1| <==> SameBag(rules1, rules2)
  {
    result := [];
    var rest := rules2;
    ghost var missed := false;
    for i := 0 to |rules1|
      invariant AllLeaves(rest) && |result| <= i
      invariant missed ==> |result| < i && !SameBag(rules1, rules2)
      invariant !missed ==> |result| == i && None !in Keys(rules1[..i])
      invariant !missed ==> |rest| == |rules2| - i
      invariant !missed ==> multiset(Keys(rules1[..i])) + multiset(Keys(rest)) == multiset(Keys(rules2))
    {
      var found := false;
      var j := 0;
      while j < |rest|
        invariant 0 <= j <= |rest| && !found
        invariant forall k | 0 <= k < j :: !EqualNonCompoundRules(rules1[i], rest[k])
        decreases |rest| - j
      {
        if EqualNonCompoundRules(rules1[i], rest[j]) {
          EqualMeansSameKey(rules1[i], rest[j]);
          KeysWithout(rest, j);
          KeysSnoc(rules1, i);
          result := result + [rules1[i]];
          rest := rest[..j] + rest[j+1..];
          found := true;
          break;
        }
        j := j + 1;
      }
      if !found && !missed {
        Unmatched(rules1, rules2, i, rest);
        missed := true;
      }
    }
    if !missed {
      assert rules1[..|rules1|] == rules1;
      assert rest == [];
      assert Keys(rest) == [];
    }
  }

  lemma KeysSnoc(rs: seq<Rule>, i: nat)
    requires AllLeaves(rs) && i < |rs|
    ensures Keys(rs[..i+1]) == Keys(rs[..i]) + [KeyOf(rs[i])]
  {
  }

  lemma KeysWithout(rs: seq<Rule>, j: nat)
    requires AllLeaves(rs) && j < |rs|
    ensures AllLeaves(rs[..j] + rs[j+1..])
    ensures multiset(Keys(rs)) == multiset(Keys(rs[..j] + rs[j+1..])) + multiset{KeyOf(rs[j])}
  {
    var ks := Keys(rs);
    assert ks == ks[..j] + [ks[j]] + ks[j+1..];
    assert Keys(rs[..j] + rs[j+1..]) == ks[..j] + ks[j+1..];
  }

  lemma Unmatched(rules1: seq<Rule>, rules2: seq<Rule>, i: nat, rest: seq<Rule>)
    requires AllLeaves(rules1) && AllLeaves(rules2) && AllLeaves(rest) && i < |rules1|
    requires multiset(Keys(rules1[..i])) + multiset(Keys(rest)) == multiset(Keys(rules2))
    requires forall k | 0 <= k < |rest| :: !EqualNonCompoundRules(rules1[i], rest[k])
    ensures !SameBag(rules1, rules2)
  {
    var key := KeyOf(rules1[i]);
    assert Keys(rules1)[i] == key;
    if key.Some? {
      forall k | 0 <= k < |rest| ensures Keys(rest)[k] != key { EqualMeansSameKey(rules1[i], rest[k]); }
      assert multiset(Keys(rest))[key] == 0;
      KeysSnoc(rules1, i);
      assert Keys(rules1) == Keys(rules1[..i+1]) + Keys(rules1[i+1..]);
      assert multiset(Keys(rules1))[key] > multiset(Keys(rules1[..i]))[key] == multiset(Keys(rules2))[key];
    }
  }

  predicate AllRulesHaveSameRelation(rs: seq<Rule>) {
    forall i | 0 <= i < |rs| :: IsBlank(rs[i].relation) || rs[|rs| - 1].relation == rs[i].relation
  }

  function IsEmpty(r: Option<Rule>): bool {
    r.None? || (r.value.parts == [] && r.value.condition.None?)
  }

  function FirstRelated(rs: seq<Rule>, relation: string): seq<Rule>
    requires rs != []
  {
    rs[0 := rs[0].(relation := relation)]
  }

  ghost predicate InOrder(a: seq<Rule>, b: seq<Rule>)
    requires AllLeaves(a) && AllLeaves(b)
  {
    None !in Keys(a) && Keys(a) == Keys(b)
  }

  ghost predicate SameLists(f1: seq<Rule>, f2: seq<Rule>)
    requires AllLeaves(f1) && AllLeaves(f2)
  {
    |f1| == |f2| &&
    if |f1| > 1 && AllRulesHaveSameRelation(f1) && AllRulesHaveSameRelation(f2) then
      var relation := f1[|f1| - 1].relation;
      SameBag(FirstRelated(f1, relation), FirstRelated(f2, relation))
    else InOrder(f1, f2)
  }

  /** When EqualComplexRules says yes. */
  ghost predicate EqualRules(rule1: Option<Rule>, rule2: Option<Rule>) {
    if IsEmpty(rule1) && IsEmpty(rule2) then true
    else if rule1.None? || rule2.None? then false
    else
      LevelOrderHasConditions([rule1.value]);
      LevelOrderHasConditions([rule2.value]);
      SameLists(LevelOrder([rule1.value]), LevelOrder([rule2.value]))
  }

  method EqualRegardingTheOrder(a: seq<Rule>, b: seq<Rule>) returns (equal: bool)
    requires AllLeaves(a) && AllLeaves(b)
    ensures equal <==> |a| == |b| && InOrder(a, b)
  {
    if |a| != |b| { return false; }
    for i := 0 to |a|
      invariant forall k | 0 <= k < i :: Keys(a)[k].Some? && Keys(a)[k] == Keys(b)[k]
    {
      EqualMeansSameKey(a[i], b[i]);
      if !EqualNonCompoundRules(a[i], b[i]) {
        assert Keys(a)[i].None? || Keys(a)[i] != Keys(b)[i];
        return false;
      }
    }
    equal := true;
  }

  method EqualComplexRules(rule1: Option<Rule>, rule2: Option<Rule>) returns (result: bool)
    ensures result <==> EqualRules(rule1, rule2)
    ensures rule1.None? ==> (result <==> rule2.None? || (rule2.value.parts == [] && rule2.value.condition.None?))
    ensures rule2.None? ==> (result <==> rule1.None? || (rule1.value.parts == [] && rule1.value.condition.None?))
  {
    if IsEmpty(rule1) && IsEmpty(rule2) { return true; }
    if rule1.None? || rule2.None? { return false; }
    var f1 := FlattenRule(rule1.value);
    var f2 := FlattenRule(rule2.value);
    LevelOrderHasConditions([rule1.value]);
    LevelOrderHasConditions([rule2.value]);
    if |f1| != |f2| { return false; }
    if |f1| > 1 && AllRulesHaveSameRelation(f1) && AllRulesHaveSameRelation(f2) {
      var sameRelation := f1[|f1| - 1].relation;
      var common := IntersectionOfNonCompoundRules(FirstRelated(f1, sameRelation), FirstRelated(f2, sameRelation));
      result := |common| == |f1|;
    } else {
      result := EqualRegardingTheOrder(f1, f2);
    }
  }

  // ---- Soundness for evaluation ----

  /** A leaf, or a compound of leaves. */
  predicate OneLevel(r: Rule) {
    if IsCompound(r) then forall i | 0 <= i < |r.parts| :: r.parts[i].condition.Some? && r.parts[i].parts == []
    else r.parts == []
  }

  function LeavesOf(r: Rule): seq<Rule> {
    if IsCompound(r) then r.parts else [r]
  }

  predicate AndOrAfterFirst(rs: seq<Rule>) {
    forall i | 0 < i < |rs| :: rs[i].relation == AND || rs[i].relation == OR
  }

  /** Conditions on the same free-argument name agree on its type. */
  predicate NamesDetermineTypes(rs: seq<Rule>) {
    forall i, j | 0 <= i < |rs| && 0 <= j < |rs| && rs[i].condition.Some? && rs[j].condition.Some? ::
      var a, b := rs[i].condition.value.freeArg, rs[j].condition.value.freeArg;
      a.Some? && b.Some? && a.value.name == b.value.name ==> a == b
  }

  lemma {:induction false} LeavesOfLeaves(rs: seq<Rule>)
    requires forall i | 0 <= i < |rs| :: rs[i].condition.Some? && rs[i].parts == []
    ensures Leaves(rs) == rs && Children(rs) == []
  {
    if rs != [] {
      LeavesOfLeaves(rs[1..]);
      assert rs == [rs[0]] + rs[1..];
    }
  }

  lemma OneLevelFlattens(r: Rule)
    requires OneLevel(r)
    ensures LevelOrder([r]) == LeavesOf(r)
  {
    ChildrenSize([r]);
    assert Children([r]) == r.parts + Children([]);
    assert r.parts + [] == r.parts;
    assert Leaves([r]) == WithCondition(r);
    if IsCompound(r) {
      LeavesOfLeaves(r.parts);
      ChildrenSize(r.parts);
      assert r.parts + [] == r.parts;
      assert LevelOrder(r.parts) == r.parts by {
        if r.parts != [] { assert LevelOrder(r.parts) == Leaves(r.parts) + LevelOrder([]); }
      }
    }
  }

  ghost predicate HaveKeys(rs: seq<Rule>) {
    AllLeaves(rs) && None !in Keys(rs)
  }

  lemma KeysMakeEvaluable(rs: seq<Rule>)
    requires HaveKeys(rs)
    ensures forall i | 0 <= i < |rs| :: Evaluable(rs[i])
  {
    forall i | 0 <= i < |rs| ensures Evaluable(rs[i]) { assert Keys(rs)[i] in Keys(rs); }
  }

  /** A one-level rule means what its leaves say, up to the negation around them. */
  lemma OneLevelMeaning(leaf: Leaf, r: Rule, ctx: Context)
    requires OneLevel(r) && HaveKeys(LeavesOf(r))
    ensures Evaluable(r) && forall i | 0 <= i < |LeavesOf(r)| :: Evaluable(LeavesOf(r)[i])
    ensures Holds(leaf, r, ctx) ==
      (GroupsHold(Relations(LeavesOf(r)), Values(leaf, LeavesOf(r), ctx)) != OuterNegation(r))
  {
    KeysMakeEvaluable(LeavesOf(r));
    if IsCompound(r) {
      HoldsByParts(leaf, r, ctx);
    } else {
      assert LeavesOf(r)[0] == r;
      var rels, vals := Relations([r]), Values(leaf, [r], ctx);
      assert Closes(rels, 0) && Joined(rels, 0, 0);
      if GroupTrue(rels, vals, 0) { var i :| 0 <= i <= 0 && Joined(rels, i, 0) && vals[i]; }
    }
  }

  /** Leaves with one key have one value, the relation aside. */
  lemma SameKeySameValue(leaf: Leaf, r: Rule, s: Rule, ctx: Context)
    requires !IsCompound(r) && !IsCompound(s) && KeyOf(r).Some? && KeyOf(s).Some?
    requires KeyOf(r).value.(relation := "") == KeyOf(s).value.(relation := "")
    requires r.condition.value.freeArg.value.name == s.condition.value.freeArg.value.name ==>
      r.condition.value.freeArg == s.condition.value.freeArg
    ensures Evaluable(r) && Evaluable(s) && Holds(leaf, r, ctx) == Holds(leaf, s, ctx)
  {
    assert View(r.condition.value) == View(s.condition.value);
  }

  lemma UniformMeaning(rels: seq<string>, vals: seq<bool>, relation: string)
    requires |rels| == |vals| > 0
    requires forall k | 0 < k < |rels| :: rels[k] == relation
    ensures relation == AND ==> (GroupsHold(rels, vals) <==> forall i | 0 <= i < |vals| :: vals[i])
    ensures relation == OR ==> (GroupsHold(rels, vals) <==> exists i | 0 <= i < |vals| :: vals[i])
  {
    var n := |rels|;
    if relation == AND {
      forall j | 0 <= j < n ensures Closes(rels, j) && GroupTrue(rels, vals, j) == vals[j] {
        assert Joined(rels, j, j);
        forall i | 0 <= i < j ensures !Joined(rels, i, j) { assert rels[j] == AND; }
      }
    }
    if relation == OR {
      var last := n - 1;
      assert forall j | 0 <= j < last :: !Closes(rels, j);
      assert Closes(rels, last);
      assert forall i | 0 <= i < n :: Joined(rels, i, last);
    }
  }

  /** Equal keys, up to relations: each value of one list occurs in the other. */
  ghost predicate ValuesOccur(vals: seq<bool>, in_: seq<bool>) {
    forall i | 0 <= i < |vals| :: vals[i] in in_
  }

  lemma BagGivesValues(leaf: Leaf, f1: seq<Rule>, f2: seq<Rule>, relation: string, ctx: Context)
    requires |f1| == |f2| > 0 && AllLeaves(f1) && AllLeaves(f2) && NamesDetermineTypes(f1 + f2)
    requires SameBag(FirstRelated(f1, relation), FirstRelated(f2, relation))
    ensures HaveKeys(f1) && HaveKeys(f2)
    ensures forall i | 0 <= i < |f1| :: Evaluable(f1[i]) && Evaluable(f2[i])
    ensures ValuesOccur(Values(leaf, f1, ctx), Values(leaf, f2, ctx))
  {
    var g1, g2 := FirstRelated(f1, relation), FirstRelated(f2, relation);
    SameBagHasKeys(f1, g1, g1, g2, relation);
    SameBagHasKeys(f2, g2, g1, g2, relation);
    KeysMakeEvaluable(f1);
    KeysMakeEvaluable(f2);
    forall i | 0 <= i < |f1| ensures Values(leaf, f1, ctx)[i] in Values(leaf, f2, ctx) {
      assert Keys(g1)[i] in multiset(Keys(g2));
      var j :| 0 <= j < |g2| && Keys(g2)[j] == Keys(g1)[i];
      assert (f1 + f2)[i] == f1[i] && (f1 + f2)[|f1| + j] == f2[j];
      assert KeyOf(f1[i]).Some? && KeyOf(f2[j]).Some?;
      SameKeySameValue(leaf, f1[i], f2[j], ctx);
      assert Values(leaf, f2, ctx)[j] == Values(leaf, f1, ctx)[i];
    }
  }

  lemma SameBagHasKeys(f: seq<Rule>, g: seq<Rule>, g1: seq<Rule>, g2: seq<Rule>, relation: string)
    requires f != [] && g == FirstRelated(f, relation) && AllLeaves(f) && AllLeaves(g1) && AllLeaves(g2)
    requires SameBag(g1, g2) && (g == g1 || g == g2)
    ensures HaveKeys(f)
    ensures forall i | 0 <= i < |f| :: Keys(g)[i].Some? && Keys(f)[i].Some?
  {
    forall i | 0 <= i < |f| ensures Keys(g)[i].Some? && Keys(f)[i].Some? {
      assert Keys(g)[i] in multiset(Keys(g));
      assert Keys(g)[i] in multiset(Keys(g1));
      assert KeyOf(g[i]).Some? ==> KeyOf(f[i]).Some?;
    }
  }

  /** The relation of the last leaf is the relation of every leaf after the first. */
  lemma SameRelationThroughout(f: seq<Rule>)
    requires |f| > 1 && AndOrAfterFirst(f) && AllRulesHaveSameRelation(f)
    ensures forall k | 0 < k < |f| :: f[k].relation == f[|f| - 1].relation
  {
    forall k | 0 < k < |f| ensures f[k].relation == f[|f| - 1].relation {
      assert f[k].relation[0] != ' ';
      assert f[k].relation[0] in f[k].relation;
      assert !IsBlank(f[k].relation);
    }
  }

  lemma SameBagSameGroups(leaf: Leaf, f1: seq<Rule>, f2: seq<Rule>, relation: string, ctx: Context)
    requires AllLeaves(f1) && AllLeaves(f2) && |f1| == |f2| > 1 && NamesDetermineTypes(f1 + f2)
    requires relation == AND || relation == OR
    requires forall k | 0 < k < |f1| :: f1[k].relation == relation && f2[k].relation == relation
    requires SameBag(FirstRelated(f1, relation), FirstRelated(f2, relation))
    ensures HaveKeys(f1) && HaveKeys(f2)
    ensures forall i | 0 <= i < |f1| :: Evaluable(f1[i]) && Evaluable(f2[i])
    ensures GroupsHold(Relations(f1), Values(leaf, f1, ctx)) == GroupsHold(Relations(f2), Values(leaf, f2, ctx))
  {
    var g1, g2 := FirstRelated(f1, relation), FirstRelated(f2, relation);
    BagGivesValues(leaf, f1, f2, relation, ctx);
    Swapped(f1, f2);
    SameBagHasKeys(f2, g2, g1, g2, relation);
    BagGivesValues(leaf, f2, f1, relation, ctx);
    UniformMeaning(Relations(f1), Values(leaf, f1, ctx), relation);
    UniformMeaning(Relations(f2), Values(leaf, f2, ctx), relation);
    SameQuantifiers(Values(leaf, f1, ctx), Values(leaf, f2, ctx));
  }

  lemma InOrderSameGroups(leaf: Leaf, f1: seq<Rule>, f2: seq<Rule>, ctx: Context)
    requires AllLeaves(f1) && AllLeaves(f2) && |f1| == |f2| && InOrder(f1, f2) && NamesDetermineTypes(f1 + f2)
    ensures HaveKeys(f1) && HaveKeys(f2)
    ensures forall i | 0 <= i < |f1| :: Evaluable(f1[i]) && Evaluable(f2[i])
    ensures GroupsHold(Relations(f1), Values(leaf, f1, ctx)) == GroupsHold(Relations(f2), Values(leaf, f2, ctx))
  {
    KeysMakeEvaluable(f1);
    KeysMakeEvaluable(f2);
    forall i | 0 <= i < |f1|
      ensures Holds(leaf, f1[i], ctx) == Holds(leaf, f2[i], ctx) && f1[i].relation == f2[i].relation
    {
      assert Keys(f1)[i] == Keys(f2)[i] && Keys(f1)[i] in Keys(f1);
      assert (f1 + f2)[i] == f1[i] && (f1 + f2)[|f1| + i] == f2[i];
      SameKeySameValue(leaf, f1[i], f2[i], ctx);
    }
    assert Relations(f1) == Relations(f2);
    assert Values(leaf, f1, ctx) == Values(leaf, f2, ctx);
  }

  lemma SameListsSameGroups(leaf: Leaf, f1: seq<Rule>, f2: seq<Rule>, ctx: Context)
    requires AllLeaves(f1) && AllLeaves(f2) && SameLists(f1, f2) && f1 != []
    requires AndOrAfterFirst(f1) && AndOrAfterFirst(f2) && NamesDetermineTypes(f1 + f2)
    ensures HaveKeys(f1) && HaveKeys(f2)
    ensures forall i | 0 <= i < |f1| :: Evaluable(f1[i]) && Evaluable(f2[i])
    ensures GroupsHold(Relations(f1), Values(leaf, f1, ctx)) == GroupsHold(Relations(f2), Values(leaf, f2, ctx))
  {
    if |f1| > 1 && AllRulesHaveSameRelation(f1) && AllRulesHaveSameRelation(f2) {
      var relation := f1[|f1| - 1].relation;
      SameRelationThroughout(f1);
      RelationTravels(f1, f2, relation);
      SameBagSameGroups(leaf, f1, f2, relation, ctx);
    } else {
      InOrderSameGroups(leaf, f1, f2, ctx);
    }
  }

  lemma SameQuantifiers(v: seq<bool>, w: seq<bool>)
    requires ValuesOccur(v, w) && ValuesOccur(w, v)
    ensures (forall i | 0 <= i < |v| :: v[i]) <==> (forall i | 0 <= i < |w| :: w[i])
    ensures (exists i | 0 <= i < |v| :: v[i]) <==> (exists i | 0 <= i < |w| :: w[i])
  {
  }

  lemma Swapped(f1: seq<Rule>, f2: seq<Rule>)
    requires NamesDetermineTypes(f1 + f2)
    ensures NamesDetermineTypes(f2 + f1)
  {
    var n, m := |f1|, |f2|;
    forall i | 0 <= i < n + m ensures (f2 + f1)[i] == (f1 + f2)[if i < m then n + i else i - m] {}
  }

  lemma RelationTravels(f1: seq<Rule>, f2: seq<Rule>, relation: string)
    requires |f1| == |f2| > 1 && AllLeaves(f1) && AllLeaves(f2)
    requires SameBag(FirstRelated(f1, relation), FirstRelated(f2, relation))
    requires forall k | 0 < k < |f1| :: f1[k].relation == relation
    ensures forall k | 0 < k < |f2| :: f2[k].relation == relation
  {
    var g1, g2 := FirstRelated(f1, relation), FirstRelated(f2, relation);
    forall k | 0 < k < |f2| ensures f2[k].relation == relation {
      assert Keys(g2)[k] in multiset(Keys(g1));
      var i :| 0 <= i < |g1| && Keys(g1)[i] == Keys(g2)[k];
      assert Keys(g1)[i] in Keys(g1);
    }
  }

  lemma EqualLeaves(r1: Rule, r2: Rule)
    requires OneLevel(r1) && OneLevel(r2) && EqualRules(Some(r1), Some(r2))
    requires !IsEmpty(Some(r1)) || !IsEmpty(Some(r2))
    ensures AllLeaves(LeavesOf(r1)) && AllLeaves(LeavesOf(r2)) && LeavesOf(r1) != []
    ensures SameLists(LeavesOf(r1), LeavesOf(r2))
  {
    OneLevelFlattens(r1);
    OneLevelFlattens(r2);
  }

  /** One-level rules found equal give the same groups' value. */
  lemma EqualRulesInside(leaf: Leaf, r1: Rule, r2: Rule, ctx: Context)
    requires OneLevel(r1) && OneLevel(r2)
    requires AndOrAfterFirst(LeavesOf(r1)) && AndOrAfterFirst(LeavesOf(r2))
    requires NamesDetermineTypes(LeavesOf(r1) + LeavesOf(r2))
    requires EqualRules(Some(r1), Some(r2))
    ensures Evaluable(r1) && Evaluable(r2) && Inner(leaf, r1, ctx) == Inner(leaf, r2, ctx)
  {
    if IsEmpty(Some(r1)) && IsEmpty(Some(r2)) {
      HoldsByParts(leaf, r1, ctx);
      HoldsByParts(leaf, r2, ctx);
    } else {
      EqualLeaves(r1, r2);
      SameListsSameGroups(leaf, LeavesOf(r1), LeavesOf(r2), ctx);
      OneLevelMeaning(leaf, r1, ctx);
      OneLevelMeaning(leaf, r2, ctx);
    }
  }

  /** One-level rules found equal, with AND or OR after the first part and names that determine types, evaluate alike
      exactly when the negation around them is the same: the comparison never looks at it. */
  lemma EqualRulesEvaluateAlike(leaf: Leaf, r1: Rule, r2: Rule, ctx: Context)
    requires OneLevel(r1) && OneLevel(r2)
    requires AndOrAfterFirst(LeavesOf(r1)) && AndOrAfterFirst(LeavesOf(r2))
    requires NamesDetermineTypes(LeavesOf(r1) + LeavesOf(r2))
    requires EqualRules(Some(r1), Some(r2))
    ensures Evaluable(r1) && Evaluable(r2)
    ensures Holds(leaf, r1, ctx) == Holds(leaf, r2, ctx) <==> OuterNegation(r1) == OuterNegation(r2)
  {
    EqualRulesInside(leaf, r1, r2, ctx);
  }

  /** So every compound of complete leaves is found equal to its own negation, which it always contradicts. */
  lemma NegationIsNotCompared(leaf: Leaf, r: Rule, ctx: Context)
    requires IsCompound(r) && OneLevel(r) && HaveKeys(r.parts) && AndOrAfterFirst(r.parts) && NamesDetermineTypes(r.parts + r.parts)
    ensures var n := r.(negated := !r.negated);
      EqualRules(Some(r), Some(n)) && Evaluable(r) && Evaluable(n) && Holds(leaf, n, ctx) != Holds(leaf, r, ctx)
  {
    var n := r.(negated := !r.negated);
    OneLevelFlattens(r);
    OneLevelFlattens(n);
    SameListsReflexive(r.parts);
    EqualRulesEvaluateAlike(leaf, r, n, ctx);
  }

  predicate Uniform(rs: seq<Rule>, relation: string) {
    |rs| > 1 && (IsBlank(rs[0].relation) || rs[0].relation == relation) &&
    forall i | 0 < i < |rs| :: rs[i].relation == relation
  }

  lemma UniformLists(f1: seq<Rule>, f2: seq<Rule>, relation: string)
    requires AllLeaves(f1) && AllLeaves(f2) && Uniform(f1, relation) && Uniform(f2, relation)
    ensures AllLeaves(FirstRelated(f1, relation)) && AllLeaves(FirstRelated(f2, relation))
    ensures SameLists(f1, f2) <==> SameBag(FirstRelated(f1, relation), FirstRelated(f2, relation))
  {
    var g1, g2 := FirstRelated(f1, relation), FirstRelated(f2, relation);
    assert AllRulesHaveSameRelation(f1) && AllRulesHaveSameRelation(f2);
    assert |multiset(Keys(g1))| == |f1| && |multiset(Keys(g2))| == |f2|;
  }

  /** The keys of leaves under one and the same relation. */
  ghost function KeysUnder(rs: seq<Rule>, relation: string): (ks: seq<Option<Key>>)
    requires AllLeaves(rs)
  {
    seq(|rs|, i requires 0 <= i < |rs| => if KeyOf(rs[i]).None? then None else Some(KeyOf(rs[i]).value.(relation := relation)))
  }

  lemma UniformKeys(rs: seq<Rule>, relation: string)
    requires AllLeaves(rs) && Uniform(rs, relation)
    ensures AllLeaves(FirstRelated(rs, relation)) && Keys(FirstRelated(rs, relation)) == KeysUnder(rs, relation)
  {
  }

  /** With one relation throughout, equality is equality of the parts' multisets, in whatever order they come and whatever
      the first one's relation is. */
  lemma UniformRulesCompareAsBags(r1: Rule, r2: Rule, relation: string)
    requires IsCompound(r1) && IsCompound(r2) && OneLevel(r1) && OneLevel(r2)
    requires Uniform(r1.parts, relation) && Uniform(r2.parts, relation)
    ensures AllLeaves(r1.parts) && AllLeaves(r2.parts)
    ensures EqualRules(Some(r1), Some(r2)) <==>
      None !in KeysUnder(r1.parts, relation) &&
      multiset(KeysUnder(r1.parts, relation)) == multiset(KeysUnder(r2.parts, relation))
  {
    OneLevelFlattens(r1);
    OneLevelFlattens(r2);
    UniformLists(r1.parts, r2.parts, relation);
    UniformKeys(r1.parts, relation);
    UniformKeys(r2.parts, relation);
  }

  /** Somewhere a relation is neither blank nor the last one's. */
  ghost predicate Mixed(rs: seq<Rule>) {
    exists i :: 0 <= i < |rs| && (exists c :: c in rs[i].relation && c != ' ') && rs[i].relation != rs[|rs| - 1].relation
  }

  lemma MixedIsNotUniform(rs: seq<Rule>)
    ensures Mixed(rs) <==> !AllRulesHaveSameRelation(rs)
  {
    forall i | 0 <= i < |rs| ensures IsBlank(rs[i].relation) <==> !(exists c :: c in rs[i].relation && c != ' ') {}
  }

  /** With mixed relations on either side, or a single condition, the conditions are compared place by place. */
  lemma MixedRulesCompareInOrder(r1: Rule, r2: Rule)
    requires !IsEmpty(Some(r1)) || !IsEmpty(Some(r2))
    requires Mixed(LevelOrder([r1])) || Mixed(LevelOrder([r2])) || |LevelOrder([r1])| <= 1
    ensures AllLeaves(LevelOrder([r1])) && AllLeaves(LevelOrder([r2]))
    ensures var f1, f2 := LevelOrder([r1]), LevelOrder([r2]);
      EqualRules(Some(r1), Some(r2)) <==> |f1| == |f2| && forall i | 0 <= i < |f1| :: EqualNonCompoundRules(f1[i], f2[i])
  {
    LevelOrderHasConditions([r1]);
    LevelOrderHasConditions([r2]);
    MixedListsInOrder(LevelOrder([r1]), LevelOrder([r2]));
  }

  lemma MixedListsInOrder(f1: seq<Rule>, f2: seq<Rule>)
    requires AllLeaves(f1) && AllLeaves(f2) && (Mixed(f1) || Mixed(f2) || |f1| <= 1)
    ensures SameLists(f1, f2) <==> |f1| == |f2| && forall i | 0 <= i < |f1| :: EqualNonCompoundRules(f1[i], f2[i])
  {
    MixedIsNotUniform(f1);
    MixedIsNotUniform(f2);
    if |f1| == |f2| { InOrderIsPlacewise(f1, f2); }
  }

  lemma InOrderIsPlacewise(f1: seq<Rule>, f2: seq<Rule>)
    requires AllLeaves(f1) && AllLeaves(f2) && |f1| == |f2|
    ensures InOrder(f1, f2) <==> forall i | 0 <= i < |f1| :: EqualNonCompoundRules(f1[i], f2[i])
  {
    forall i | 0 <= i < |f1| ensures EqualNonCompoundRules(f1[i], f2[i]) <==> Keys(f1)[i].Some? && Keys(f1)[i] == Keys(f2)[i] {
      EqualMeansSameKey(f1[i], f2[i]);
    }
    if InOrder(f1, f2) {
      assert forall i | 0 <= i < |f1| :: Keys(f1)[i] in Keys(f1);
    }
  }

  // ---- What equality does not promise ----

  lemma SameListsReflexive(f: seq<Rule>)
    requires AllLeaves(f)
    ensures SameLists(f, f) <==> None !in Keys(f)
  {
    if |f| > 1 {
      var g := FirstRelated(f, f[|f| - 1].relation);
      assert forall i | 0 <= i < |f| :: Keys(g)[i].Some? == Keys(f)[i].Some?;
      if None in Keys(f) { var i :| 0 <= i < |f| && Keys(f)[i] == None; assert Keys(g)[i] == None; }
    }
  }

  /** A rule equals itself exactly when it is empty or every condition in it has both arguments and
      an operation. In particular a rule with an EXISTS condition never equals itself. */
  lemma EqualToItself(r: Rule)
    ensures AllLeaves(LevelOrder([r]))
    ensures EqualRules(Some(r), Some(r)) <==> IsEmpty(Some(r)) || None !in Keys(LevelOrder([r]))
  {
    LevelOrderHasConditions([r]);
    SameListsReflexive(LevelOrder([r]));
  }

  /** The rules themselves, without what is below them. */
  function Bare(rs: seq<Rule>): (bare: seq<Rule>)
    ensures |bare| == |rs|
  {
    seq(|rs|, i requires 0 <= i < |rs| => rs[i].(parts := []))
  }

  lemma BareFirstRelated(f: seq<Rule>, relation: string)
    requires f != []
    ensures FirstRelated(Bare(f), relation) == Bare(FirstRelated(f, relation))
  {
  }

  lemma BareHasKeys(f: seq<Rule>)
    requires AllLeaves(f)
    ensures AllLeaves(Bare(f)) && Keys(Bare(f)) == Keys(f) && Relations(Bare(f)) == Relations(f)
  {
    forall i | 0 <= i < |f| ensures KeyOf(Bare(f)[i]) == KeyOf(f[i]) {}
  }

  lemma BareSameRelation(f: seq<Rule>)
    ensures AllRulesHaveSameRelation(Bare(f)) <==> AllRulesHaveSameRelation(f)
  {
    var g := Bare(f);
    forall i | 0 <= i < |f|
      ensures IsBlank(g[i].relation) || g[|g| - 1].relation == g[i].relation <==>
        IsBlank(f[i].relation) || f[|f| - 1].relation == f[i].relation
    {
      assert g[i].relation == f[i].relation && g[|g| - 1].relation == f[|f| - 1].relation;
    }
  }

  lemma BareIsSameList(f: seq<Rule>)
    requires HaveKeys(f)
    ensures AllLeaves(Bare(f)) && SameLists(f, Bare(f))
  {
    BareHasKeys(f);
    SameListsReflexive(f);
    if |f| > 1 {
      var relation := f[|f| - 1].relation;
      BareFirstRelated(f, relation);
      BareHasKeys(FirstRelated(f, relation));
      BareSameRelation(f);
    }
  }

  /** All of a rule's conditions side by side, two levels down, the inner level negated or not. */
  function Nested(conditions: seq<Rule>, negated: bool): Rule {
    Rule([Rule(Bare(conditions), None, negated, "", "")], None, false, "", "")
  }

  lemma {:induction false} InnerFlattens(inner: Rule, conditions: seq<Rule>)
    requires AllLeaves(conditions) && IsCompound(inner) && inner.parts == Bare(conditions)
    ensures LevelOrder([inner]) == Bare(conditions)
  {
    OneLevelFlattens(inner);
  }

  lemma {:induction false} NestedFlattens(conditions: seq<Rule>, negated: bool)
    requires AllLeaves(conditions)
    ensures LevelOrder([Nested(conditions, negated)]) == Bare(conditions)
  {
    var s := Nested(conditions, negated);
    var inner := s.parts[0];
    assert [] + LevelOrder([inner]) == LevelOrder([inner]);
    NextLevel([s], [], [inner]);
    InnerFlattens(inner, conditions);
  }

  lemma NestedMeaning(leaf: Leaf, conditions: seq<Rule>, negated: bool, ctx: Context)
    requires HaveKeys(conditions)
    ensures var s := Nested(conditions, negated);
      Evaluable(s) && !OuterNegation(s) &&
      Holds(leaf, s, ctx) == (GroupsHold(Relations(conditions), Values(leaf, Bare(conditions), ctx)) != negated)
  {
    var s := Nested(conditions, negated);
    var inner := s.parts[0];
    BareHasKeys(conditions);
    KeysMakeEvaluable(Bare(conditions));
    HoldsByParts(leaf, inner, ctx);
    HoldsByParts(leaf, s, ctx);
    UniformMeaning(Relations(s.parts), Values(leaf, s.parts, ctx), AND);
  }

  lemma NestedIsEqual(r: Rule, negated: bool)
    requires HaveKeys(LevelOrder([r]))
    ensures EqualRules(Some(r), Some(Nested(LevelOrder([r]), negated)))
  {
    NestedFlattens(LevelOrder([r]), negated);
    BareIsSameList(LevelOrder([r]));
  }

  lemma SameListsHaveKeys(f1: seq<Rule>, f2: seq<Rule>)
    requires AllLeaves(f1) && AllLeaves(f2) && SameLists(f1, f2)
    ensures HaveKeys(f1)
  {
    if |f1| > 1 && AllRulesHaveSameRelation(f1) && AllRulesHaveSameRelation(f2) {
      var relation := f1[|f1| - 1].relation;
      var g1, g2 := FirstRelated(f1, relation), FirstRelated(f2, relation);
      SameBagHasKeys(f1, g1, g1, g2, relation);
    }
  }

  /** The rule s is found equal to r, in itself un-negated, and evaluates otherwise. */
  ghost predicate Contradicts(leaf: Leaf, r: Rule, s: Rule, ctx: Context) {
    EqualRules(Some(r), Some(s)) && Evaluable(s) && !OuterNegation(s) && Holds(leaf, s, ctx) != Holds(leaf, r, ctx)
  }

  /** Nesting is invisible to the comparison. Every rule that is found equal to anything, and so to itself, is also found
      equal to one that contradicts it, whatever the evaluators and the context: without a bound on the levels equality
      says nothing about the value. */
  lemma EqualityIgnoresNesting(leaf: Leaf, r: Rule, ctx: Context)
    ensures (exists s :: Contradicts(leaf, r, s, ctx)) <==> EqualRules(Some(r), Some(r))
  {
    var conditions := LevelOrder([r]);
    EqualToItself(r);
    if EqualRules(Some(r), Some(r)) {
      if IsEmpty(Some(r)) { OneLevelFlattens(r); }
      var g := GroupsHold(Relations(conditions), Values(leaf, Bare(conditions), ctx));
      var s := Nested(conditions, g == Holds(leaf, r, ctx));
      NestedIsEqual(r, s.parts[0].negated);
      NestedMeaning(leaf, conditions, s.parts[0].negated, ctx);
      assert Contradicts(leaf, r, s, ctx);
    }
    if s :| Contradicts(leaf, r, s, ctx) {
      LevelOrderHasConditions([s]);
      if !IsEmpty(Some(r)) { SameListsHaveKeys(conditions, LevelOrder([s])); }
    }
  }

  function SampleLeaf(name: string, relation: string): Rule {
    Rule([], Some(Condition(Some(FreeArg("STRING", name)), "IS", Some(FixedArg(Some(Bean(Some("x"), None)), None)))),
      false, relation, "")
  }

  const A := SampleLeaf("a", "")
  const B := SampleLeaf("b", OR)
  const C := SampleLeaf("c", AND)
  const GROUPED := Rule([Rule([A, B], None, false, "", ""), C], None, false, "", "")
  const FLAT := Rule([C, Rule([A, B], None, false, OR, "")], None, false, "", "")

  /** Only a is true. */
  function OnlyA(v: ConditionView, ctx: Context): Option<bool> { Some(v.freeArg.name == "a") }

  /** An example: (a OR b) AND c is found equal to c OR (a OR b), and where only a is true the two differ. */
  lemma NestedRulesMayDiffer()
    ensures EqualRules(Some(GROUPED), Some(FLAT))
    ensures Evaluable(GROUPED) && !Holds(OnlyA, GROUPED, map[])
    ensures Evaluable(FLAT) && Holds(OnlyA, FLAT, map[])
  {
    NestedFoundEqual();
    NestedValues();
  }

  lemma SampleKeys()
    ensures HaveKeys([C, A, B])
  {
    assert KeyOf(A).Some? && KeyOf(B).Some? && KeyOf(C).Some?;
  }

  lemma {:induction false} NestedFoundEqual()
    ensures EqualRules(Some(GROUPED), Some(FLAT))
  {
    NestedFlattenAlike();
    SampleKeys();
    SameListsReflexive([C, A, B]);
  }

  lemma NestedFlattenAlike()
    ensures LevelOrder([GROUPED]) == [C, A, B] == LevelOrder([FLAT])
  {
    LastLevel();
    FlattenGrouped();
    FlattenFlat();
  }

  lemma LastLevel()
    ensures LevelOrder([A, B]) == [A, B]
  {
    NextLevel([A, B], [A, B], []);
  }

  lemma FlattenGrouped()
    ensures LevelOrder([GROUPED]) == [C] + LevelOrder([A, B])
  {
    NextLevel(GROUPED.parts, [C], [A, B]);
    NextLevel([GROUPED], [], GROUPED.parts);
  }

  lemma FlattenFlat()
    ensures LevelOrder([FLAT]) == [C] + LevelOrder([A, B])
  {
    NextLevel(FLAT.parts, [C], [A, B]);
    NextLevel([FLAT], [], FLAT.parts);
  }

  lemma NestedValues()
    ensures Evaluable(GROUPED) && !Holds(OnlyA, GROUPED, map[])
    ensures Evaluable(FLAT) && Holds(OnlyA, FLAT, map[])
  {
    assert Evaluable(A) && Holds(OnlyA, A, map[]) && Evaluable(C) && !Holds(OnlyA, C, map[]) && Evaluable(B);
    var d := FLAT.parts[1];
    assert Evaluable(d) && Evaluable(GROUPED.parts[0]);
    HoldsByParts(OnlyA, d, map[]);
    HoldsByParts(OnlyA, GROUPED, map[]);
    HoldsByParts(OnlyA, FLAT, map[]);
    UniformMeaning(Relations(d.parts), Values(OnlyA, d.parts, map[]), OR);
    UniformMeaning(Relations(GROUPED.parts), Values(OnlyA, GROUPED.parts, map[]), AND);
    UniformMeaning(Relations(FLAT.parts), Values(OnlyA, FLAT.parts, map[]), OR);
    assert Values(OnlyA, d.parts, map[])[0];
    assert !Values(OnlyA, GROUPED.parts, map[])[1];
    assert Values(OnlyA, FLAT.parts, map[])[1];
  }

  lemma NextLevel(rs: seq<Rule>, here: seq<Rule>, below: seq<Rule>)
    requires 1 <= |rs| <= 2
    requires here == WithCondition(rs[0]) + if |rs| == 2 then WithCondition(rs[1]) else []
    requires below == rs[0].parts + if |rs| == 2 then rs[1].parts else []
    ensures LevelOrder(rs) == here + LevelOrder(below)
  {
    ChildrenSize(rs);
    assert Leaves(rs) == here && Children(rs) == below by {
      assert rs[1..] == if |rs| == 2 then [rs[1]] else [];
      assert Leaves(rs[1..]) == if |rs| == 2 then WithCondition(rs[1]) else [];
      assert Children(rs[1..]) == if |rs| == 2 then rs[1].parts else [];
    }
  }
}
