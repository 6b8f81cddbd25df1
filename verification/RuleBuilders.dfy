/** Copy, Not, And, Or: what they do to a rule's meaning. */
module RuleBuilders {
  import opened Common
  import opened Rules

  /** A deep copy; a leaf loses its compound parts, if it had any. */
  function Copy(r: Rule): Rule
    requires Evaluable(r)
    decreases r
  {
    if IsCompound(r) then
      Rule(seq(|r.parts|, i requires 0 <= i < |r.parts| => Copy(r.parts[i])), None, r.negated, r.relation, r.xxid + "_Copy")
    else
      Rule([], r.condition, r.negated, r.relation, r.xxid + "_Copy")
  }

  /** A copy keeps negation, relation and condition, has its own parts' copies in their order, and an ID of its own. */
  lemma CopyKeeps(r: Rule)
    requires Evaluable(r)
    ensures var c := Copy(r);
      c.negated == r.negated && c.relation == r.relation && c.condition == r.condition && c.xxid == r.xxid + "_Copy" &&
      |c.parts| == (if r.condition.Some? then 0 else |r.parts|) &&
      forall i | 0 <= i < |c.parts| :: Evaluable(r.parts[i]) && c.parts[i] == Copy(r.parts[i])
  {
  }

  function Not(r: Rule): Rule
    requires Evaluable(r)
  {
    Copy(r).(negated := !r.negated)
  }

  function AndRules(base: Rule, compound: Rule): Rule
    requires !IsCompound(base) ==> Evaluable(base)
  {
    AddRelatedCompound(base, compound, AND)
  }

  function OrRules(base: Rule, compound: Rule): Rule
    requires !IsCompound(base) ==> Evaluable(base)
  {
    AddRelatedCompound(base, compound, OR)
  }

  function AddRelatedCompound(base: Rule, compound: Rule, relation: string): Rule
    requires !IsCompound(base) ==> Evaluable(base)
  {
    var result := if IsCompound(base) then base else Rule([Copy(base)], None, false, "", "");
    result.(parts := result.parts + [compound.(relation := relation)])
  }

  lemma {:induction false} CopyIsEvaluable(r: Rule)
    requires Evaluable(r)
    ensures Evaluable(Copy(r))
    decreases r
  {
    if IsCompound(r) {
      var c := Copy(r);
      forall i | 0 <= i < |r.parts| ensures c.parts[i] == Copy(r.parts[i]) && Evaluable(c.parts[i]) {
        CopyIsEvaluable(r.parts[i]);
      }
    }
  }

  lemma {:induction false} CopyMeaning(leaf: Leaf, r: Rule, ctx: Context)
    requires Evaluable(r)
    ensures Evaluable(Copy(r))
    ensures Holds(leaf, Copy(r), ctx) == Holds(leaf, r, ctx)
    decreases r
  {
    CopyIsEvaluable(r);
    if IsCompound(r) {
      var c := Copy(r);
      forall i | 0 <= i < |r.parts| ensures Holds(leaf, c.parts[i], ctx) == Holds(leaf, r.parts[i], ctx) {
        CopyMeaning(leaf, r.parts[i], ctx);
      }
      assert forall i | 0 <= i < |r.parts| :: c.parts[i] == Copy(r.parts[i]);
      assert forall i | 0 <= i < |r.parts| :: Copy(r.parts[i]).relation == r.parts[i].relation;
      SamePartsSameMeaning(leaf, c, r, ctx);
    }
  }

  lemma SamePartsSameMeaning(leaf: Leaf, r: Rule, s: Rule, ctx: Context)
    requires Evaluable(r) && Evaluable(s) && IsCompound(r) && IsCompound(s) && r.negated == s.negated
    requires |r.parts| == |s.parts|
    requires forall i | 0 <= i < |r.parts| :: Holds(leaf, r.parts[i], ctx) == Holds(leaf, s.parts[i], ctx)
    requires forall i | 0 <= i < |r.parts| :: r.parts[i].relation == s.parts[i].relation
    ensures Holds(leaf, r, ctx) == Holds(leaf, s, ctx)
  {
    HoldsByParts(leaf, r, ctx);
    HoldsByParts(leaf, s, ctx);
    assert Relations(r.parts) == Relations(s.parts);
    assert Values(leaf, r.parts, ctx) == Values(leaf, s.parts, ctx);
  }

  ghost predicate HasEvaluator(leaf: Leaf, r: Rule, ctx: Context)
    requires Evaluable(r)
  {
    IsCompound(r) || leaf(View(r.condition.value), ctx).Some?
  }

  /** Not negates exactly the rules that are compound or whose leaf has an evaluator. */
  lemma NotNegates(leaf: Leaf, r: Rule, ctx: Context)
    requires Evaluable(r)
    ensures Evaluable(Not(r))
    ensures Holds(leaf, Not(r), ctx) != Holds(leaf, r, ctx) <==> HasEvaluator(leaf, r, ctx)
  {
    CopyMeaning(leaf, r, ctx);
    if IsCompound(r) {
      HoldsByParts(leaf, Not(r), ctx);
      HoldsByParts(leaf, Copy(r), ctx);
    }
  }

  /** A rule that passes the processor's check can be copied and evaluated without a panic, and Not negates it and each
      of its parts, EXISTS conditions without a fixed argument included. */
  lemma {:induction false} JudgedRulesNegate(leaf: Leaf, r: Rule, ctx: Context)
    requires Judged(leaf, r)
    ensures Evaluable(r) && !Panics(leaf, r, ctx)
    ensures Evaluable(Not(r)) && Holds(leaf, Not(r), ctx) != Holds(leaf, r, ctx)
    ensures IsCompound(r) ==>
      forall p | p in r.parts :: Evaluable(p) && Evaluable(Not(p)) && Holds(leaf, Not(p), ctx) != Holds(leaf, p, ctx)
    decreases r
  {
    if IsCompound(r) {
      forall i | 0 <= i < |r.parts|
        ensures Evaluable(r.parts[i]) && Evaluable(Not(r.parts[i]))
        ensures Holds(leaf, Not(r.parts[i]), ctx) != Holds(leaf, r.parts[i], ctx)
      {
        JudgedRulesNegate(leaf, r.parts[i], ctx);
      }
    }
    EvaluableNeverPanics(leaf, r, ctx);
    NotNegates(leaf, r, ctx);
  }

  // ---- One more part ----

  ghost predicate AndedGroupsHold(rels: seq<string>, vals: seq<bool>)
    requires |rels| == |vals|
  {
    forall j | 0 <= j < |rels| - 1 && rels[j + 1] == AND :: GroupTrue(rels, vals, j)
  }

  lemma GroupPrefix(rels: seq<string>, vals: seq<bool>, rel: string, v: bool, j: int)
    requires |rels| == |vals| && 0 <= j < |rels|
    ensures GroupTrue(rels + [rel], vals + [v], j) == GroupTrue(rels, vals, j)
  {
    var rels', vals' := rels + [rel], vals + [v];
    if GroupTrue(rels', vals', j) {
      var i :| 0 <= i <= j && Joined(rels', i, j) && vals'[i];
      assert forall k | i < k <= j :: rels[k] == rels'[k];
      assert Joined(rels, i, j) && vals[i];
    }
    if GroupTrue(rels, vals, j) {
      var i :| 0 <= i <= j && Joined(rels, i, j) && vals[i];
      assert forall k | i < k <= j :: rels[k] == rels'[k];
      assert Joined(rels', i, j) && vals'[i];
    }
  }

  lemma AppendPart(rels: seq<string>, vals: seq<bool>, rel: string, v: bool)
    requires |rels| == |vals|
    ensures rel == AND ==>
      GroupsHold(rels + [rel], vals + [v]) == ((rels == [] || GroupsHold(rels, vals)) && v)
    ensures rel == OR && rels != [] ==>
      GroupsHold(rels + [rel], vals + [v]) == (AndedGroupsHold(rels, vals) && (GroupsHold(rels, vals) || v))
    ensures rels == [] ==>
      GroupsHold(rels + [rel], vals + [v]) == v
  {
    var rels', vals', n := rels + [rel], vals + [v], |rels|;
    forall j | 0 <= j < n ensures GroupTrue(rels', vals', j) == GroupTrue(rels, vals, j) {
      GroupPrefix(rels, vals, rel, v, j);
    }
    assert Closes(rels', n);
    if n > 0 {
      GroupExtends(rels', vals', n);
      assert Closes(rels, n - 1);
      assert forall j | 0 <= j < n - 1 :: Closes(rels', j) == Closes(rels, j);
      assert Closes(rels', n - 1) == (rel == AND);
    } else {
      assert Joined(rels', 0, 0);
      if GroupTrue(rels', vals', 0) { var i :| 0 <= i <= 0 && Joined(rels', i, 0) && vals'[i]; }
    }
  }

  /** The base's value before its own negation. */
  ghost function Inner(leaf: Leaf, base: Rule, ctx: Context): bool
    requires Evaluable(base)
  {
    Holds(leaf, base, ctx) != OuterNegation(base)
  }

  predicate OuterNegation(r: Rule) { IsCompound(r) && r.negated }

  /** The parts a base contributes. */
  function BaseParts(base: Rule): seq<Rule>
    requires !IsCompound(base) ==> Evaluable(base)
  {
    if IsCompound(base) then base.parts else [Copy(base)]
  }

  lemma BasePartsMeaning(leaf: Leaf, base: Rule, ctx: Context)
    requires Evaluable(base)
    ensures forall i | 0 <= i < |BaseParts(base)| :: Evaluable(BaseParts(base)[i])
    ensures GroupsHold(Relations(BaseParts(base)), Values(leaf, BaseParts(base), ctx)) == Inner(leaf, base, ctx)
  {
    if IsCompound(base) {
      HoldsByParts(leaf, base, ctx);
    } else {
      CopyMeaning(leaf, base, ctx);
      var rels, vals := Relations([Copy(base)]), Values(leaf, [Copy(base)], ctx);
      assert Closes(rels, 0) && Joined(rels, 0, 0);
      if GroupTrue(rels, vals, 0) { var i :| 0 <= i <= 0 && Joined(rels, i, 0) && vals[i]; }
    }
  }

  /** Every group of the base that is followed by AND is true. */
  ghost predicate NoGroupFails(leaf: Leaf, base: Rule, ctx: Context)
    requires Evaluable(base)
  {
    IsCompound(base) ==> AndedGroupsHold(Relations(base.parts), Values(leaf, base.parts, ctx))
  }

  lemma RelationIsOutside(leaf: Leaf, c: Rule, rel: string, ctx: Context)
    requires Evaluable(c)
    ensures Evaluable(c.(relation := rel))
    ensures Holds(leaf, c.(relation := rel), ctx) == Holds(leaf, c, ctx)
  {
    if IsCompound(c) { SamePartsSameMeaning(leaf, c, c.(relation := rel), ctx); }
  }

  /** The result has the base's parts, or the copy of a base without any, and the added rule after them; a compound base
      keeps the rest of it. */
  lemma AddedParts(base: Rule, c: Rule)
    requires !IsCompound(base) ==> Evaluable(base)
    ensures var parts := if base.condition.None? then base.parts else [Copy(base)];
      AndRules(base, c).parts == parts + [c.(relation := "AND")] && OrRules(base, c).parts == parts + [c.(relation := "OR")]
    ensures base.condition.None? ==>
      AndRules(base, c).(parts := base.parts) == base && OrRules(base, c).(parts := base.parts) == base
  {
  }

  lemma AddedMeaning(leaf: Leaf, base: Rule, c: Rule, rel: string, ctx: Context)
    requires Evaluable(base) && Evaluable(c)
    requires rel == AND || rel == OR
    ensures Evaluable(AddRelatedCompound(base, c, rel))
    ensures Holds(leaf, AddRelatedCompound(base, c, rel), ctx) == (OuterNegation(base) !=
      if BaseParts(base) == [] then Holds(leaf, c, ctx)
      else if rel == AND then Inner(leaf, base, ctx) && Holds(leaf, c, ctx)
      else NoGroupFails(leaf, base, ctx) && (Inner(leaf, base, ctx) || Holds(leaf, c, ctx)))
  {
    var r, parts, d := AddRelatedCompound(base, c, rel), BaseParts(base), c.(relation := rel);
    BasePartsMeaning(leaf, base, ctx);
    RelationIsOutside(leaf, c, rel, ctx);
    assert r.parts == parts + [d];
    assert Evaluable(r);
    HoldsByParts(leaf, r, ctx);
    assert Relations(r.parts) == Relations(parts) + [rel];
    assert Values(leaf, r.parts, ctx) == Values(leaf, parts, ctx) + [Holds(leaf, c, ctx)];
    AppendPart(Relations(parts), Values(leaf, parts, ctx), rel, Holds(leaf, c, ctx));
  }

  const NEVER := Rule([], None, false, "", "")
  const ALWAYS := Rule([], None, true, "", "")

  /** An empty compound is false before negation. */
  lemma EmptyCompound(leaf: Leaf, ctx: Context)
    ensures Evaluable(NEVER) && !Holds(leaf, NEVER, ctx)
    ensures Evaluable(ALWAYS) && Holds(leaf, ALWAYS, ctx)
  {
    HoldsByParts(leaf, NEVER, ctx);
    HoldsByParts(leaf, ALWAYS, ctx);
  }

  ghost predicate Conjoins(leaf: Leaf, base: Rule, c: Rule, ctx: Context)
    requires Evaluable(base) && Evaluable(c)
  {
    Evaluable(AndRules(base, c)) &&
    Holds(leaf, AndRules(base, c), ctx) == (Holds(leaf, base, ctx) && Holds(leaf, c, ctx))
  }

  ghost predicate Disjoins(leaf: Leaf, base: Rule, c: Rule, ctx: Context)
    requires Evaluable(base) && Evaluable(c)
  {
    Evaluable(OrRules(base, c)) &&
    Holds(leaf, OrRules(base, c), ctx) == (Holds(leaf, base, ctx) || Holds(leaf, c, ctx))
  }

  /** AndRules is conjunction, whatever is added, exactly for simple bases and for un-negated
      compound bases that have parts. */
  lemma AndRulesIsConjunction(leaf: Leaf, base: Rule, ctx: Context)
    requires Evaluable(base)
    ensures (forall c | Evaluable(c) :: Conjoins(leaf, base, c, ctx)) <==>
      (!IsCompound(base) || (base.parts != [] && !base.negated))
  {
    EmptyCompound(leaf, ctx);
    if !IsCompound(base) || (base.parts != [] && !base.negated) {
      forall c | Evaluable(c) ensures Conjoins(leaf, base, c, ctx) { AddedMeaning(leaf, base, c, AND, ctx); }
    } else {
      AddedMeaning(leaf, base, NEVER, AND, ctx);
      AddedMeaning(leaf, base, ALWAYS, AND, ctx);
      BasePartsMeaning(leaf, base, ctx);
      assert !Conjoins(leaf, base, NEVER, ctx) || !Conjoins(leaf, base, ALWAYS, ctx);
    }
  }

  /** OrRules is disjunction, whatever is added, exactly when the base is not negated and none of its
      AND-followed groups is false, or it is negated and one of them is false. */
  lemma OrRulesIsDisjunction(leaf: Leaf, base: Rule, ctx: Context)
    requires Evaluable(base)
    ensures (forall c | Evaluable(c) :: Disjoins(leaf, base, c, ctx)) <==>
      (OuterNegation(base) != NoGroupFails(leaf, base, ctx))
  {
    EmptyCompound(leaf, ctx);
    BasePartsMeaning(leaf, base, ctx);
    InnerNeedsGroups(leaf, base, ctx);
    if OuterNegation(base) != NoGroupFails(leaf, base, ctx) {
      forall c | Evaluable(c) ensures Disjoins(leaf, base, c, ctx) { AddedMeaning(leaf, base, c, OR, ctx); }
    } else {
      AddedMeaning(leaf, base, ALWAYS, OR, ctx);
      assert !Disjoins(leaf, base, ALWAYS, ctx);
    }
  }

  lemma InnerNeedsGroups(leaf: Leaf, base: Rule, ctx: Context)
    requires Evaluable(base)
    ensures IsCompound(base) && Inner(leaf, base, ctx) ==> NoGroupFails(leaf, base, ctx)
    ensures IsCompound(base) && base.parts == [] ==> NoGroupFails(leaf, base, ctx) && !Inner(leaf, base, ctx)
  {
    if IsCompound(base) {
      HoldsByParts(leaf, base, ctx);
      var rels := Relations(base.parts);
      assert forall j | 0 <= j < |rels| - 1 && rels[j + 1] == AND :: Closes(rels, j);
    }
  }

  /** The caller's check: no AND after the first part, and no negation. */
  lemma OrRulesWithoutAnd(leaf: Leaf, base: Rule, c: Rule, ctx: Context)
    requires Evaluable(base) && Evaluable(c)
    requires IsCompound(base) ==> !base.negated && forall i | 0 < i < |base.parts| :: base.parts[i].relation != AND
    ensures Disjoins(leaf, base, c, ctx)
  {
    OrRulesIsDisjunction(leaf, base, ctx);
  }

  /** A processor that knows no evaluators: every leaf is false. */
  function NoEvaluators(v: ConditionView, ctx: Context): Option<bool> { None }

  lemma LeavesFalse(base: Rule, j: nat)
    requires IsCompound(base) && Evaluable(base) && forall p | p in base.parts :: !IsCompound(p)
    requires j + 1 < |base.parts| && base.parts[j + 1].relation == AND
    ensures !NoGroupFails(NoEvaluators, base, map[])
  {
    var rels, vals := Relations(base.parts), Values(NoEvaluators, base.parts, map[]);
    forall i | 0 <= i < |vals| ensures !vals[i] { assert base.parts[i] in base.parts; }
    assert !GroupTrue(rels, vals, j) && rels[j + 1] == AND;
  }

  ghost predicate AlwaysDisjoins(base: Rule)
    requires IsCompound(base) && Evaluable(base)
  {
    forall leaf: Leaf, ctx: Context, c: Rule | Evaluable(c) :: Disjoins(leaf, base, c, ctx)
  }

  predicate NoLaterAnd(base: Rule) {
    forall i | 0 < i < |base.parts| :: base.parts[i].relation != AND
  }

  /** A false group before the AND keeps even a rule that always holds from being added as an alternative. */
  lemma LaterAndBreaksOr(base: Rule, i: nat)
    requires IsCompound(base) && !base.negated && Evaluable(base) && forall p | p in base.parts :: !IsCompound(p)
    requires 0 < i < |base.parts| && base.parts[i].relation == AND
    ensures Evaluable(ALWAYS) && !Disjoins(NoEvaluators, base, ALWAYS, map[])
  {
    var leaf: Leaf, ctx: Context := NoEvaluators, map[];
    LeavesFalse(base, i - 1);
    assert !NoGroupFails(leaf, base, ctx) && BaseParts(base) != [];
    EmptyCompound(leaf, ctx);
    AddedMeaning(leaf, base, ALWAYS, OR, ctx);
    assert !Holds(leaf, OrRules(base, ALWAYS), ctx);
  }

  /** For an un-negated compound of leaves the caller's check is exact: OrRules is disjunction for all leaves, contexts
      and added rules exactly when no part after the first is joined by AND. */
  lemma OrRulesExactly(base: Rule)
    requires IsCompound(base) && !base.negated && Evaluable(base) && forall p | p in base.parts :: !IsCompound(p)
    ensures AlwaysDisjoins(base) <==> NoLaterAnd(base)
  {
    if NoLaterAnd(base) {
      forall leaf: Leaf, ctx: Context, c: Rule | Evaluable(c) ensures Disjoins(leaf, base, c, ctx) {
        OrRulesWithoutAnd(leaf, base, c, ctx);
      }
    } else {
      var i :| 0 < i < |base.parts| && base.parts[i].relation == AND;
      LaterAndBreaksOr(base, i);
    }
  }
}
