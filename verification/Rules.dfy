/** Rule trees and what they mean. A rule without a condition is compound. */
module Rules {
  import opened Common

  type Context = map<string, string>

  const AND: string := "AND"
  const OR: string := "OR"

  datatype FreeArg = FreeArg(ttype: string, name: string)
  datatype Bean = Bean(str: Option<string>, dbl: Option<real>)
  datatype FixedArg = FixedArg(bean: Option<Bean>, collection: Option<seq<string>>)
  datatype Condition = Condition(freeArg: Option<FreeArg>, operation: string, fixedArg: Option<FixedArg>)
  datatype Rule = Rule(parts: seq<Rule>, condition: Option<Condition>, negated: bool, relation: string, xxid: string)

  /** The value an evaluator reads out of a fixed argument. */
  datatype Value = Nothing | Items(items: seq<string>) | Text(text: string) | Number(number: real)

  function GetValue(a: FixedArg): Value {
    if a.collection.Some? && |a.collection.value| > 0 then Items(a.collection.value)
    else if a.bean.Some? && a.bean.value.str.Some? then Text(a.bean.value.str.value)
    else if a.bean.Some? && a.bean.value.dbl.Some? then Number(a.bean.value.dbl.value)
    else Nothing
  }

  /** What any of the leaf evaluators can tell apart: a list counts only as a set. */
  datatype ValueView = NothingView | ItemSet(items: set<string>) | TextView(text: string) | NumberView(number: real)
  datatype ConditionView = ConditionView(freeArg: FreeArg, operation: string, value: Option<ValueView>)

  function ViewValue(v: Value): ValueView {
    match v
    case Nothing => NothingView
    case Items(items) => ItemSet(set x | x in items)
    case Text(s) => TextView(s)
    case Number(x) => NumberView(x)
  }

  function View(c: Condition): ConditionView
    requires c.freeArg.Some?
  {
    ConditionView(c.freeArg.value, c.operation,
      if c.fixedArg.Some? then Some(ViewValue(GetValue(c.fixedArg.value))) else None)
  }

  predicate HasItems(a: FixedArg) { a.collection.Some? && a.collection.value != [] }

  function TextOf(a: FixedArg): Option<string> { if a.bean.Some? then a.bean.value.str else None }

  function NumberOf(a: FixedArg): Option<real> { if a.bean.Some? then a.bean.value.dbl else None }

  /** An evaluator sees the free argument and the operation as stored, and of the fixed argument the list's elements if
      there are any, else the text if there is one, else the number, else nothing. */
  lemma ViewShows(c: Condition)
    requires c.freeArg.Some?
    ensures View(c).freeArg == c.freeArg.value && View(c).operation == c.operation
    ensures View(c).value == match c.fixedArg
      case None => None
      case Some(a) =>
        Some(if HasItems(a) then ItemSet(set x | x in a.collection.value)
        else if TextOf(a).Some? then TextView(TextOf(a).value)
        else if NumberOf(a).Some? then NumberView(NumberOf(a).value)
        else NothingView)
  {
  }

  /** A leaf's verdict; None when no evaluator is registered for it. */
  type Leaf = (ConditionView, Context) -> Option<bool>

  predicate IsCompound(r: Rule) { r.condition.None? }

  /** Every condition in the rule has a free argument. */
  predicate Evaluable(r: Rule) {
    if IsCompound(r) then forall i | 0 <= i < |r.parts| :: Evaluable(r.parts[i])
    else r.condition.value.freeArg.Some?
  }

  // ---- The meaning of a list of related parts ----

  /** Parts i..j belong to one OR group. */
  predicate Joined(rels: seq<string>, i: int, j: int)
    requires 0 <= i <= j < |rels|
  {
    forall k | i < k <= j :: rels[k] == OR
  }

  /** Part j ends a group that counts: it is followed by AND, or it is the last part. A group that
      is followed by any other relation is thrown away. */
  predicate Closes(rels: seq<string>, j: int)
    requires 0 <= j < |rels|
  {
    j + 1 == |rels| || rels[j + 1] == AND
  }

  ghost predicate GroupTrue(rels: seq<string>, vals: seq<bool>, j: int)
    requires |rels| == |vals| && 0 <= j < |rels|
  {
    exists i :: 0 <= i <= j && Joined(rels, i, j) && vals[i]
  }

  /** The conjunction, over the groups that count, of the disjunction inside each group;
      false when there are no parts. */
  ghost predicate GroupsHold(rels: seq<string>, vals: seq<bool>)
    requires |rels| == |vals|
  {
    rels != [] && forall j | 0 <= j < |rels| && Closes(rels, j) :: GroupTrue(rels, vals, j)
  }

  function Relations(parts: seq<Rule>): (rels: seq<string>)
    ensures |rels| == |parts| && forall i | 0 <= i < |parts| :: rels[i] == parts[i].relation
  {
    seq(|parts|, i requires 0 <= i < |parts| => parts[i].relation)
  }

  /** A leaf without an evaluator is false whatever its negation. */
  ghost function LeafHolds(leaf: Leaf, c: Condition, negated: bool, ctx: Context): bool {
    c.freeArg.Some? &&
    var v := leaf(View(c), ctx);
    v.Some? && v.value != negated
  }

  ghost predicate Holds(leaf: Leaf, r: Rule, ctx: Context)
    decreases r
  {
    if IsCompound(r) then
      GroupsHold(Relations(r.parts), seq(|r.parts|, i requires 0 <= i < |r.parts| => Holds(leaf, r.parts[i], ctx))) != r.negated
    else
      LeafHolds(leaf, r.condition.value, r.negated, ctx)
  }

  ghost function Values(leaf: Leaf, parts: seq<Rule>, ctx: Context): (vals: seq<bool>)
    ensures |vals| == |parts|
    ensures forall i | 0 <= i < |parts| :: vals[i] == Holds(leaf, parts[i], ctx)
  {
    seq(|parts|, i requires 0 <= i < |parts| => Holds(leaf, parts[i], ctx))
  }

  lemma HoldsByParts(leaf: Leaf, r: Rule, ctx: Context)
    requires IsCompound(r)
    ensures Holds(leaf, r, ctx) == (GroupsHold(Relations(r.parts), Values(leaf, r.parts, ctx)) != r.negated)
  {
    assert seq(|r.parts|, i requires 0 <= i < |r.parts| => Holds(leaf, r.parts[i], ctx)) == Values(leaf, r.parts, ctx);
  }

  // ---- That meaning, part by part: these three cases decide every list ----

  /** Without an AND or another relation: one group, true when a part is. */
  lemma OneGroup(rels: seq<string>, vals: seq<bool>)
    requires |rels| == |vals| && forall k | 0 < k < |rels| :: rels[k] == "OR"
    ensures GroupsHold(rels, vals) <==> exists k :: 0 <= k < |vals| && vals[k]
  {
    if rels != [] {
      var last := |rels| - 1;
      assert Closes(rels, last) && forall k | 0 <= k <= last :: Joined(rels, k, last);
      assert forall j | 0 <= j < last :: !Closes(rels, j);
    }
  }

  lemma SplitGroup(rels: seq<string>, vals: seq<bool>, k: int, j: int)
    requires |rels| == |vals| && 0 < k < |rels| && rels[k] != "OR" && 0 <= j < |rels|
    ensures j < k ==> GroupTrue(rels, vals, j) == GroupTrue(rels[..k], vals[..k], j)
    ensures j >= k ==> GroupTrue(rels, vals, j) == GroupTrue(rels[k..], vals[k..], j - k)
  {
    if j < k {
      assert forall i | 0 <= i <= j :: Joined(rels, i, j) == Joined(rels[..k], i, j);
    } else {
      forall i | 0 <= i <= j ensures Joined(rels, i, j) <==> i >= k && Joined(rels[k..], i - k, j - k) {
        if i >= k && Joined(rels[k..], i - k, j - k) {
          forall m | i < m <= j ensures rels[m] == OR { assert rels[k..][m - k] == rels[m]; }
        }
      }
      if GroupTrue(rels[k..], vals[k..], j - k) {
        var i :| 0 <= i <= j - k && Joined(rels[k..], i, j - k) && vals[k..][i];
        assert Joined(rels, i + k, j) && vals[i + k];
      }
    }
  }

  /** Both sides of an AND have to hold. */
  lemma AndSplits(rels: seq<string>, vals: seq<bool>, k: int)
    requires |rels| == |vals| && 0 < k < |rels| && rels[k] == "AND"
    ensures GroupsHold(rels, vals) <==> GroupsHold(rels[..k], vals[..k]) && GroupsHold(rels[k..], vals[k..])
  {
    forall j | 0 <= j < |rels| ensures Closes(rels, j) == if j < k then Closes(rels[..k], j) else Closes(rels[k..], j - k) {}
    forall j | 0 <= j < |rels|
      ensures GroupTrue(rels, vals, j) == if j < k then GroupTrue(rels[..k], vals[..k], j) else GroupTrue(rels[k..], vals[k..], j - k)
    {
      SplitGroup(rels, vals, k, j);
    }
    if GroupsHold(rels, vals) {
      assert forall j | 0 <= j < k && Closes(rels[..k], j) :: Closes(rels, j);
      forall j | 0 <= j < |rels[k..]| && Closes(rels[k..], j) ensures GroupTrue(rels[k..], vals[k..], j) {
        assert Closes(rels, j + k) && GroupTrue(rels, vals, j + k);
      }
    }
  }

  /** What comes before any other relation does not count, unless an AND followed it. */
  lemma OtherDiscards(rels: seq<string>, vals: seq<bool>, k: int)
    requires |rels| == |vals| && 0 < k < |rels| && rels[k] != "AND" && rels[k] != "OR"
    requires forall j | 0 < j < k :: rels[j] != "AND"
    ensures GroupsHold(rels, vals) <==> GroupsHold(rels[k..], vals[k..])
  {
    forall j | 0 <= j < |rels| ensures Closes(rels, j) <==> j >= k && Closes(rels[k..], j - k) {}
    forall j | k <= j < |rels| ensures GroupTrue(rels, vals, j) == GroupTrue(rels[k..], vals[k..], j - k) { SplitGroup(rels, vals, k, j); }
    if GroupsHold(rels, vals) {
      forall j | 0 <= j < |rels[k..]| && Closes(rels[k..], j) ensures GroupTrue(rels[k..], vals[k..], j) {
        assert Closes(rels, j + k) && GroupTrue(rels, vals, j + k);
      }
    }
  }

  // ---- Which parts are looked at ----

  /** Part i is looked at: no group before it that an AND follows is false, and its own OR group is not true yet. */
  ghost predicate Reached(rels: seq<string>, vals: seq<bool>, i: int)
    requires |rels| == |vals| && 0 <= i < |rels|
  {
    (forall j | 0 <= j < i && rels[j + 1] == AND :: GroupTrue(rels, vals, j)) &&
    !(i > 0 && rels[i] == OR && GroupTrue(rels, vals, i - 1))
  }

  /** Evaluation reaches a condition without a free argument, which the code dereferences. */
  ghost predicate Panics(leaf: Leaf, r: Rule, ctx: Context)
    decreases r
  {
    if IsCompound(r) then
      exists i :: 0 <= i < |r.parts| && Panics(leaf, r.parts[i], ctx) &&
        Reached(Relations(r.parts), Values(leaf, r.parts, ctx), i)
    else r.condition.value.freeArg.None?
  }

  /** Of two parts the second is passed over after a true one when it is joined by OR, and after a false one by AND. */
  lemma SecondPartPassedOver(leaf: Leaf, a: Rule, b: Rule, r: Rule, ctx: Context)
    requires IsCompound(r) && r.parts == [a, b]
    ensures var skipped := if Holds(leaf, a, ctx) then b.relation == "OR" else b.relation == "AND";
      Panics(leaf, r, ctx) <==> Panics(leaf, a, ctx) || (Panics(leaf, b, ctx) && !skipped)
  {
    var rels, vals := Relations(r.parts), Values(leaf, r.parts, ctx);
    assert Joined(rels, 0, 0);
    assert GroupTrue(rels, vals, 0) == vals[0];
    assert Reached(rels, vals, 0);
    assert r.parts[0] == a && r.parts[1] == b;
  }

  lemma {:induction false} EvaluableNeverPanics(leaf: Leaf, r: Rule, ctx: Context)
    requires Evaluable(r)
    ensures !Panics(leaf, r, ctx)
    decreases r
  {
    if IsCompound(r) {
      forall i | 0 <= i < |r.parts| ensures !Panics(leaf, r.parts[i], ctx) { EvaluableNeverPanics(leaf, r.parts[i], ctx); }
    }
  }

  const EXISTS := "EXISTS"

  /** Every leaf has its arguments, the fixed one being optional for EXISTS, and an evaluator. */
  ghost predicate Judged(leaf: Leaf, r: Rule) {
    if IsCompound(r) then forall i | 0 <= i < |r.parts| :: Judged(leaf, r.parts[i])
    else
      var c := r.condition.value;
      c.freeArg.Some? && (c.fixedArg.None? ==> c.operation == EXISTS) && forall ctx :: leaf(View(c), ctx).Some?
  }

  // ---- The processor ----

  datatype Evaluator = Evaluator(freeArgType: string, operation: string, test: (ConditionView, Context) -> bool)

  function LookupKey(ttype: string, operation: string): string { ttype + "_" + operation }

  /** The first evaluator of that type and operation. */
  function Scan(evs: seq<Evaluator>, ttype: string, operation: string): Option<Evaluator> {
    if evs == [] then None
    else if evs[0].freeArgType == ttype && evs[0].operation == operation then Some(evs[0])
    else Scan(evs[1..], ttype, operation)
  }

  /** Later evaluators replace earlier ones under the same joined key. */
  function MapOf(evs: seq<Evaluator>): map<string, Evaluator> {
    if evs == [] then map[]
    else
      var last := evs[|evs| - 1];
      MapOf(evs[..|evs| - 1])[LookupKey(last.freeArgType, last.operation) := last]
  }

  /** Looking up the joined key finds what the scan finds when all evaluators filed under that key
      are one evaluator of that very type and operation. */
  lemma {:induction false} LookupsAgree(evs: seq<Evaluator>, ttype: string, operation: string)
    requires forall i, j | 0 <= i < |evs| && 0 <= j < |evs| &&
      LookupKey(evs[i].freeArgType, evs[i].operation) == LookupKey(ttype, operation) ==
      LookupKey(evs[j].freeArgType, evs[j].operation) :: evs[i] == evs[j]
    requires forall i | 0 <= i < |evs| && LookupKey(evs[i].freeArgType, evs[i].operation) == LookupKey(ttype, operation) ::
      evs[i].freeArgType == ttype && evs[i].operation == operation
    ensures Scan(evs, ttype, operation) ==
      if LookupKey(ttype, operation) in MapOf(evs) then Some(MapOf(evs)[LookupKey(ttype, operation)]) else None
  {
    if evs != [] {
      var n := |evs| - 1;
      LookupsAgree(evs[..n], ttype, operation);
      ScanSnoc(evs[..n], evs[n], ttype, operation);
      assert evs == evs[..n] + [evs[n]];
      ScanFinds(evs[..n], ttype, operation);
    }
  }

  lemma {:induction false} ScanSnoc(evs: seq<Evaluator>, e: Evaluator, ttype: string, operation: string)
    ensures Scan(evs + [e], ttype, operation) ==
      if Scan(evs, ttype, operation).Some? then Scan(evs, ttype, operation) else Scan([e], ttype, operation)
  {
    if evs != [] {
      assert (evs + [e])[1..] == evs[1..] + [e];
      ScanSnoc(evs[1..], e, ttype, operation);
    } else {
      assert evs + [e] == [e];
    }
  }

  lemma {:induction false} ScanFinds(evs: seq<Evaluator>, ttype: string, operation: string)
    ensures var r := Scan(evs, ttype, operation);
      if r.Some? then r.value in evs && r.value.freeArgType == ttype && r.value.operation == operation
      else forall e | e in evs :: e.freeArgType != ttype || e.operation != operation
  {
    if evs != [] { ScanFinds(evs[1..], ttype, operation); }
  }

  /** The evaluator answers for the type and operation: in the list by both, in the map by the two joined. */
  predicate AnswersFor(useMap: bool, e: Evaluator, ttype: string, operation: string) {
    if useMap then e.freeArgType + "_" + e.operation == ttype + "_" + operation
    else e.freeArgType == ttype && e.operation == operation
  }

  /** Of the evaluators that answer, the list gives the first and the map the last. */
  ghost predicate IsFound(evs: seq<Evaluator>, useMap: bool, ttype: string, operation: string, found: Option<Evaluator>) {
    match found
    case None => forall e | e in evs :: !AnswersFor(useMap, e, ttype, operation)
    case Some(e) => exists i :: IsFoundAt(evs, useMap, ttype, operation, e, i)
  }

  ghost predicate IsFoundAt(evs: seq<Evaluator>, useMap: bool, ttype: string, operation: string, e: Evaluator, i: int) {
    0 <= i < |evs| && evs[i] == e && AnswersFor(useMap, e, ttype, operation) &&
    (!useMap ==> forall j | 0 <= j < i :: !AnswersFor(useMap, evs[j], ttype, operation)) &&
    (useMap ==> forall j | i < j < |evs| :: !AnswersFor(useMap, evs[j], ttype, operation))
  }

  /** The test of the evaluator that is found, negated if asked; false when none is. */
  ghost predicate IsVerdict(evs: seq<Evaluator>, useMap: bool, c: Condition, negation: bool, ctx: Context, verdict: bool)
    requires c.freeArg.Some?
  {
    exists found :: IsFound(evs, useMap, c.freeArg.value.ttype, c.operation, found) &&
      verdict == (found.Some? && found.value.test(View(c), ctx) != negation)
  }

  lemma {:induction false} ScanFindsFirst(evs: seq<Evaluator>, ttype: string, operation: string)
    ensures IsFound(evs, false, ttype, operation, Scan(evs, ttype, operation))
  {
    if evs == [] {
    } else if evs[0].freeArgType == ttype && evs[0].operation == operation {
      assert IsFoundAt(evs, false, ttype, operation, evs[0], 0);
    } else {
      var tail := evs[1..];
      ScanFindsFirst(tail, ttype, operation);
      var found := Scan(tail, ttype, operation);
      assert evs == [evs[0]] + tail && !AnswersFor(false, evs[0], ttype, operation);
      if found.Some? {
        var i :| IsFoundAt(tail, false, ttype, operation, found.value, i);
        assert forall j | 0 < j < i + 1 :: evs[j] == tail[j - 1];
        assert IsFoundAt(evs, false, ttype, operation, found.value, i + 1);
      }
    }
  }

  function Lookup(m: map<string, Evaluator>, ttype: string, operation: string): Option<Evaluator> {
    if LookupKey(ttype, operation) in m then Some(m[LookupKey(ttype, operation)]) else None
  }

  lemma {:induction false} MapFindsLast(evs: seq<Evaluator>, ttype: string, operation: string)
    ensures IsFound(evs, true, ttype, operation, Lookup(MapOf(evs), ttype, operation))
  {
    if evs != [] {
      var n := |evs| - 1;
      var front, found := evs[..n], Lookup(MapOf(evs), ttype, operation);
      MapFindsLast(front, ttype, operation);
      if AnswersFor(true, evs[n], ttype, operation) {
        assert found == Some(evs[n]) && IsFoundAt(evs, true, ttype, operation, evs[n], n);
      } else {
        assert evs == front + [evs[n]] && found == Lookup(MapOf(front), ttype, operation);
        if found.Some? {
          var i :| IsFoundAt(front, true, ttype, operation, found.value, i);
          assert forall j | i <= j < n :: evs[j] == front[j];
          assert IsFoundAt(evs, true, ttype, operation, found.value, i);
        }
      }
    }
  }

  class RuleProcessor {
    var evaluators: seq<Evaluator>
    var evaluatorMap: map<string, Evaluator>
    var useMap: bool

    /** The map has seen every evaluator of the list, in order. */
    ghost predicate Valid()
      reads this
    {
      evaluatorMap == MapOf(evaluators)
    }

    constructor (evs: seq<Evaluator>, useMap: bool)
      ensures Valid() && evaluators == evs && this.useMap == useMap
    {
      this.evaluators, this.evaluatorMap, this.useMap := [], map[], useMap;
      new;
      AddEvaluators(evs);
    }

    method AddEvaluators(evs: seq<Evaluator>)
      requires Valid()
      modifies this`evaluators, this`evaluatorMap
      ensures Valid() && evaluators == old(evaluators) + evs
    {
      var before := evaluators;
      evaluators := evaluators + evs;
      assert before + evs[..0] == before;
      for i := 0 to |evs|
        invariant evaluators == before + evs
        invariant evaluatorMap == MapOf(before + evs[..i])
      {
        evaluatorMap := evaluatorMap[LookupKey(evs[i].freeArgType, evs[i].operation) := evs[i]];
        var now := before + evs[..i+1];
        assert now[..|now| - 1] == before + evs[..i] && now[|now| - 1] == evs[i];
      }
      assert evs[..|evs|] == evs;
    }

    function GetEvaluator(ttype: string, operation: string): Option<Evaluator>
      reads this
    {
      if useMap then Lookup(evaluatorMap, ttype, operation) else Scan(evaluators, ttype, operation)
    }

    lemma GetEvaluatorFinds(ttype: string, operation: string)
      requires Valid()
      ensures IsFound(evaluators, useMap, ttype, operation, GetEvaluator(ttype, operation))
    {
      if useMap { MapFindsLast(evaluators, ttype, operation); } else { ScanFindsFirst(evaluators, ttype, operation); }
    }

    /** What this processor makes of a leaf. */
    ghost function AsLeaf(): Leaf
      reads this
    {
      var evs, m, u := evaluators, evaluatorMap, useMap;
      (v: ConditionView, ctx: Context) =>
        var e := if u then Lookup(m, v.freeArg.ttype, v.operation) else Scan(evs, v.freeArg.ttype, v.operation);
        if e.Some? then Some(e.value.test(v, ctx)) else None
    }

    /** A leaf holds when the evaluator found for it says so. */
    lemma LeafIsJudged(c: Condition, negation: bool, ctx: Context)
      requires Valid() && c.freeArg.Some?
      ensures IsVerdict(evaluators, useMap, c, negation, ctx, LeafHolds(AsLeaf(), c, negation, ctx))
    {
      GetEvaluatorFinds(c.freeArg.value.ttype, c.operation);
    }

    method EvaluateWithNegation(c: Condition, negation: bool, ctx: Context) returns (result: bool)
      requires c.freeArg.Some?
      ensures result == LeafHolds(AsLeaf(), c, negation, ctx)
      ensures Valid() ==> IsVerdict(evaluators, useMap, c, negation, ctx, result)
    {
      if Valid() { LeafIsJudged(c, negation, ctx); }
      var e := GetEvaluator(c.freeArg.value.ttype, c.operation);
      if e.None? { return false; }
      result := e.value.test(View(c), ctx);
      if negation { result := !result; }
    }

    /** True exactly for the rules all of whose leaves this processor can judge. */
    method GetEvaluatorOK(r: Rule) returns (ok: bool)
      ensures ok <==> Judged(AsLeaf(), r)
      ensures IsCompound(r) ==> (ok <==> forall i | 0 <= i < |r.parts| :: Judged(AsLeaf(), r.parts[i]))
      ensures !IsCompound(r) && Valid() ==>
        (ok <==> var c := r.condition.value;
          c.freeArg.Some? && (c.fixedArg.Some? || c.operation == "EXISTS") &&
          exists e :: e in evaluators && AnswersFor(useMap, e, c.freeArg.value.ttype, c.operation))
      decreases r
    {
      if !IsCompound(r) {
        var condition := r.condition.value;
        if condition.freeArg.None? { return false; }
        if condition.fixedArg.None? && condition.operation != EXISTS { return false; }
        var e := GetEvaluator(condition.freeArg.value.ttype, condition.operation);
        assert forall ctx :: AsLeaf()(View(condition), ctx).Some? == e.Some?;
        ghost var anywhere: Context := map[];
        assert AsLeaf()(View(condition), anywhere).Some? == e.Some?;
        if Valid() { GetEvaluatorFinds(condition.freeArg.value.ttype, condition.operation); }
        return e.Some?;
      }
      for i := 0 to |r.parts|
        invariant forall k | 0 <= k < i :: Judged(AsLeaf(), r.parts[k])
      {
        var partOk := GetEvaluatorOK(r.parts[i]);
        if !partOk { return false; }
      }
      ok := true;
    }

    /** The loop with its two short cuts computes exactly the groups' meaning, None standing for the panic on a
        condition that it reaches without a free argument. */
    method Evaluate(r: Rule, ctx: Context) returns (r': Option<bool>)
      ensures r' == if Panics(AsLeaf(), r, ctx) then None else Some(Holds(AsLeaf(), r, ctx))
      ensures !IsCompound(r) && r.condition.value.freeArg.Some? && Valid() ==>
        r'.Some? && IsVerdict(evaluators, useMap, r.condition.value, r.negated, ctx, r'.value)
      ensures !IsCompound(r) && r.condition.value.freeArg.None? ==> r' == None
      decreases r
    {
      if !IsCompound(r) {
        if r.condition.value.freeArg.None? { return None; }
        var verdict := EvaluateWithNegation(r.condition.value, r.negated, ctx);
        return Some(verdict);
      }
      ghost var leaf := AsLeaf();
      ghost var rels, vals := Relations(r.parts), Values(leaf, r.parts, ctx);
      HoldsByParts(leaf, r, ctx);
      var result := false;
      var i := 0;
      while i < |r.parts|
        invariant 0 <= i <= |r.parts|
        invariant Scanned(rels, vals, i, result)
        invariant forall k | 0 <= k < i && Reached(rels, vals, k) :: !Panics(leaf, r.parts[k], ctx)
      {
        var cp := r.parts[i];
        if i == 0 {
          FirstPart(rels, vals);
        } else {
          var relation := cp.relation;
          NextPart(rels, vals, i, result);
          if result && relation == OR {
            i := i + 1;
            continue;
          }
          if !result && relation == AND { break; }
        }
        var value := Evaluate(cp, ctx);
        if value.None? { return None; }
        result := value.value;
        i := i + 1;
      }
      if i == |r.parts| { LastPart(rels, vals, result); }
      assert result == GroupsHold(rels, vals);
      r' := Some(if r.negated then !result else result);
    }
  }

  /** Before part i: the value of the group that part i - 1 is in, all earlier groups that count being true. */
  ghost predicate Scanned(rels: seq<string>, vals: seq<bool>, i: int, result: bool)
    requires |rels| == |vals| && 0 <= i <= |rels|
  {
    (i == 0 ==> !result) && (i > 0 ==> result == GroupTrue(rels, vals, i - 1)) &&
    forall j | 0 <= j < i - 1 && Closes(rels, j) :: GroupTrue(rels, vals, j)
  }

  lemma FirstPart(rels: seq<string>, vals: seq<bool>)
    requires |rels| == |vals| && rels != []
    ensures Scanned(rels, vals, 1, vals[0]) && Reached(rels, vals, 0)
  {
    assert Joined(rels, 0, 0);
  }

  /** One part more: skipped after true OR, the end of it all after false AND, and otherwise evaluated. */
  lemma NextPart(rels: seq<string>, vals: seq<bool>, i: int, result: bool)
    requires |rels| == |vals| && 0 < i < |rels| && Scanned(rels, vals, i, result)
    ensures result && rels[i] == OR ==> Scanned(rels, vals, i + 1, true) && !Reached(rels, vals, i)
    ensures !result && rels[i] == AND ==> !GroupsHold(rels, vals)
    ensures !result && rels[i] == AND ==> forall k | i <= k < |rels| :: !Reached(rels, vals, k)
    ensures !(result && rels[i] == OR) && !(!result && rels[i] == AND) ==>
      Scanned(rels, vals, i + 1, vals[i]) && Reached(rels, vals, i)
  {
    GroupExtends(rels, vals, i);
    assert Closes(rels, i - 1) == (rels[i] == AND);
  }

  lemma LastPart(rels: seq<string>, vals: seq<bool>, result: bool)
    requires |rels| == |vals| && Scanned(rels, vals, |rels|, result)
    ensures result == GroupsHold(rels, vals)
  {
    if rels != [] { assert Closes(rels, |rels| - 1); }
  }

  /** How a group's value changes with one more part. */
  lemma GroupExtends(rels: seq<string>, vals: seq<bool>, i: int)
    requires |rels| == |vals| && 0 < i < |rels|
    ensures GroupTrue(rels, vals, i) == (vals[i] || (rels[i] == OR && GroupTrue(rels, vals, i - 1)))
  {
    assert Joined(rels, i, i);
    if rels[i] == OR && GroupTrue(rels, vals, i - 1) {
      var k :| 0 <= k <= i - 1 && Joined(rels, k, i - 1) && vals[k];
      assert Joined(rels, k, i);
    }
    if GroupTrue(rels, vals, i) && !vals[i] {
      var k :| 0 <= k <= i && Joined(rels, k, i) && vals[k];
      assert rels[i] == OR && Joined(rels, k, i - 1);
    }
  }
}
