/** The three flattenings: queues that visit a rule tree level by level. */
module RuleFlatten {
  import opened Common
  import opened Rules
  import opened Sorting

  /** Number of nodes in a list of trees. */
  function Size(rs: seq<Rule>): nat {
    if rs == [] then 0 else 1 + Size(rs[0].parts) + Size(rs[1..])
  }

  lemma {:induction false} SizeConcat(a: seq<Rule>, b: seq<Rule>)
    ensures Size(a + b) == Size(a) + Size(b)
  {
    if a == [] {
      assert a + b == b;
    } else {
      assert (a + b)[1..] == a[1..] + b;
      SizeConcat(a[1..], b);
    }
  }

  function WithCondition(r: Rule): seq<Rule> {
    if r.condition.Some? then [r] else []
  }

  // ---- Level order, said by generations ----

  function Leaves(rs: seq<Rule>): seq<Rule> {
    if rs == [] then [] else WithCondition(rs[0]) + Leaves(rs[1..])
  }

  function Children(rs: seq<Rule>): seq<Rule> {
    if rs == [] then [] else rs[0].parts + Children(rs[1..])
  }

  lemma {:induction false} ChildrenSize(rs: seq<Rule>)
    ensures Size(Children(rs)) + |rs| == Size(rs)
  {
    if rs != [] {
      ChildrenSize(rs[1..]);
      SizeConcat(rs[0].parts, Children(rs[1..]));
    }
  }

  /** A generation's conditions, then those of the next generation. */
  function LevelOrder(rs: seq<Rule>): seq<Rule>
    decreases Size(rs)
  {
    if rs == [] then []
    else
      ChildrenSize(rs);
      Leaves(rs) + LevelOrder(Children(rs))
  }

  // ---- The queue ----

  function Queue(q: seq<Rule>): seq<Rule>
    decreases Size(q)
  {
    if q == [] then []
    else
      SizeConcat(q[1..], q[0].parts);
      WithCondition(q[0]) + Queue(q[1..] + q[0].parts)
  }

  lemma {:induction false} QueueTakesAFront(xs: seq<Rule>, ys: seq<Rule>)
    ensures Queue(xs + ys) == Leaves(xs) + Queue(ys + Children(xs))
  {
    if xs == [] {
      assert xs + ys == ys && ys + Children(xs) == ys;
    } else {
      assert (xs + ys)[1..] + xs[0].parts == xs[1..] + (ys + xs[0].parts);
      QueueTakesAFront(xs[1..], ys + xs[0].parts);
      assert ys + xs[0].parts + Children(xs[1..]) == ys + Children(xs);
    }
  }

  /** A queue of trees is emptied in level order. */
  lemma {:induction false} QueueIsLevelOrder(rs: seq<Rule>)
    ensures Queue(rs) == LevelOrder(rs)
    decreases Size(rs)
  {
    if rs != [] {
      QueueTakesAFront(rs, []);
      assert rs + [] == rs && [] + Children(rs) == Children(rs);
      ChildrenSize(rs);
      QueueIsLevelOrder(Children(rs));
    }
  }

  // ---- The recursive traversal ----

  function PreOrder(rs: seq<Rule>): seq<Rule> {
    if rs == [] then [] else WithCondition(rs[0]) + PreOrder(rs[0].parts) + PreOrder(rs[1..])
  }

  lemma {:induction false} PreOrderConcat(a: seq<Rule>, b: seq<Rule>)
    ensures PreOrder(a + b) == PreOrder(a) + PreOrder(b)
  {
    if a == [] {
      assert a + b == b;
    } else {
      assert (a + b)[1..] == a[1..] + b;
      PreOrderConcat(a[1..], b);
    }
  }

  lemma {:induction false} PreOrderByGeneration(rs: seq<Rule>)
    ensures multiset(PreOrder(rs)) == multiset(Leaves(rs)) + multiset(PreOrder(Children(rs)))
  {
    if rs != [] {
      PreOrderByGeneration(rs[1..]);
      PreOrderConcat(rs[0].parts, Children(rs[1..]));
    }
  }

  /** Level order lists each condition-bearing node of the tree exactly once. */
  lemma {:induction false} LevelOrderIsComplete(rs: seq<Rule>)
    ensures multiset(LevelOrder(rs)) == multiset(PreOrder(rs))
    decreases Size(rs)
  {
    if rs != [] {
      ChildrenSize(rs);
      PreOrderByGeneration(rs);
      LevelOrderIsComplete(Children(rs));
    }
  }

  /** The node is the tree's root or lies somewhere below it. */
  predicate IsNode(root: Rule, node: Rule)
    decreases root
  {
    node == root || exists i :: 0 <= i < |root.parts| && IsNode(root.parts[i], node)
  }

  lemma {:induction false} PreOrderMembers(rs: seq<Rule>, node: Rule)
    ensures node in PreOrder(rs) <==> node.condition.Some? && exists i :: 0 <= i < |rs| && IsNode(rs[i], node)
  {
    if rs != [] {
      PreOrderMembers(rs[0].parts, node);
      PreOrderMembers(rs[1..], node);
      assert IsNode(rs[0], node) <==> node == rs[0] || exists i :: 0 <= i < |rs[0].parts| && IsNode(rs[0].parts[i], node);
      if i :| 0 <= i < |rs| && IsNode(rs[i], node) { assert i > 0 ==> rs[i] == rs[1..][i - 1]; }
    }
  }

  /** What is listed are the nodes with a condition, on whatever level. */
  lemma {:induction false} LevelOrderMembers(root: Rule, node: Rule)
    ensures node in LevelOrder([root]) <==> node.condition.Some? && IsNode(root, node)
  {
    LevelOrderIsComplete([root]);
    PreOrderMembers([root], node);
    assert node in LevelOrder([root]) <==> node in multiset(LevelOrder([root]));
    assert node in PreOrder([root]) <==> node in multiset(PreOrder([root]));
  }

  /** First the conditions of the given nodes, then, in the same order, those one level down, and so on. */
  lemma {:induction false} LevelByLevel(rs: seq<Rule>)
    ensures LevelOrder(rs) == Filter((r: Rule) => r.condition.Some?, rs) + LevelOrder(Children(rs))
    ensures forall r :: Children([r]) == r.parts
    ensures forall k | 0 <= k <= |rs| :: Children(rs) == Children(rs[..k]) + Children(rs[k..])
  {
    LeavesFiltered(rs);
    forall r ensures Children([r]) == r.parts { assert [r][1..] == []; }
    forall k | 0 <= k <= |rs| ensures Children(rs) == Children(rs[..k]) + Children(rs[k..]) {
      assert rs[..k] + rs[k..] == rs;
      ChildrenConcat(rs[..k], rs[k..]);
    }
  }

  lemma {:induction false} LeavesFiltered(rs: seq<Rule>)
    ensures Leaves(rs) == Filter((r: Rule) => r.condition.Some?, rs)
  {
    if rs != [] { LeavesFiltered(rs[1..]); }
  }

  lemma {:induction false} ChildrenConcat(a: seq<Rule>, b: seq<Rule>)
    ensures Children(a + b) == Children(a) + Children(b)
  {
    if a == [] {
      assert a + b == b;
    } else {
      assert (a + b)[1..] == a[1..] + b;
      ChildrenConcat(a[1..], b);
    }
  }

  lemma {:induction false} LevelOrderHasConditions(rs: seq<Rule>)
    ensures forall r | r in LevelOrder(rs) :: r.condition.Some?
  {
    LevelOrderIsComplete(rs);
    PreOrderHasConditions(rs);
    forall r | r in LevelOrder(rs) ensures r.condition.Some? {
      assert r in multiset(PreOrder(rs));
    }
  }

  lemma {:induction false} PreOrderHasConditions(rs: seq<Rule>)
    ensures forall r | r in PreOrder(rs) :: r.condition.Some?
  {
    if rs != [] {
      PreOrderHasConditions(rs[0].parts);
      PreOrderHasConditions(rs[1..]);
    }
  }

  function ConditionsOf(rs: seq<Rule>): seq<Condition>
    requires forall r | r in rs :: r.condition.Some?
  {
    seq(|rs|, i requires 0 <= i < |rs| => rs[i].condition.value)
  }

  /** The conditions of a tree, level by level. */
  function Conditions(r: Rule): seq<Condition> {
    LevelOrderHasConditions([r]);
    ConditionsOf(LevelOrder([r]))
  }

  // ---- The three loops ----

  function Advance(q: seq<Rule>): seq<Rule>
    requires q != []
  {
    q[1..] + q[0].parts
  }

  lemma QueueStep(done: seq<Rule>, q: seq<Rule>)
    requires q != []
    ensures done + Queue(q) == (done + WithCondition(q[0])) + Queue(Advance(q))
    ensures Size(Advance(q)) < Size(q)
  {
    SizeConcat(q[1..], q[0].parts);
  }

  lemma QueueStart(rs: seq<Rule>)
    ensures [] + Queue(rs) == LevelOrder(rs)
    ensures forall r | r in LevelOrder(rs) :: r.condition.Some?
  {
    QueueIsLevelOrder(rs);
    LevelOrderHasConditions(rs);
  }

  lemma QueueEnd(done: seq<Rule>)
    ensures done + Queue([]) == done
  {
  }

  method FlattenRule(r: Rule) returns (result: seq<Rule>)
    ensures result == LevelOrder([r])
  {
    result := [];
    var tmpList := [r];
    ghost var all := LevelOrder([r]);
    QueueStart([r]);
    while |tmpList| > 0
      invariant result + Queue(tmpList) == all
      decreases Size(tmpList)
    {
      var currentRule := tmpList[0];
      ghost var next := Advance(tmpList);
      QueueStep(result, tmpList);
      tmpList := tmpList[1..];
      if currentRule.condition.Some? {
        result := result + [currentRule];
      } else {
        assert result + [] == result;
      }
      if |currentRule.parts| > 0 {
        tmpList := tmpList + currentRule.parts;
      }
      assert tmpList == next;
    }
    QueueEnd(result);
  }

  ghost predicate ConditionsAre(rs: seq<Rule>, cs: seq<Condition>) {
    |rs| == |cs| && forall i | 0 <= i < |rs| :: rs[i].condition == Some(cs[i])
  }

  method ToConditionValues(rule: Rule) returns (result: seq<Condition>)
    ensures result == Conditions(rule)
  {
    result := [];
    var tmpRulesQ := [rule];
    ghost var done, all := [], LevelOrder([rule]);
    QueueStart([rule]);
    while |tmpRulesQ| > 0
      invariant done + Queue(tmpRulesQ) == all
      invariant ConditionsAre(done, result)
      decreases Size(tmpRulesQ)
    {
      var curRule := tmpRulesQ[0];
      ghost var next := Advance(tmpRulesQ);
      QueueStep(done, tmpRulesQ);
      tmpRulesQ := tmpRulesQ[1..];
      if curRule.condition.Some? {
        result := result + [curRule.condition.value];
      }
      done := done + WithCondition(curRule);
      tmpRulesQ := tmpRulesQ + curRule.parts;
      assert tmpRulesQ == next;
    }
    QueueEnd(done);
  }

  /** Works on references; a nil rule has no conditions. */
  method ToConditions(rule: Option<Rule>) returns (result: seq<Condition>)
    ensures result == if rule.None? then [] else Conditions(rule.value)
  {
    result := [];
    var rulesQueue := if rule.Some? then [rule.value] else [];
    ghost var done, all := [], LevelOrder(rulesQueue);
    QueueStart(rulesQueue);
    while |rulesQueue| > 0
      invariant done + Queue(rulesQueue) == all
      invariant ConditionsAre(done, result)
      decreases Size(rulesQueue)
    {
      var currentRule := rulesQueue[0];
      ghost var next := Advance(rulesQueue);
      QueueStep(done, rulesQueue);
      rulesQueue := rulesQueue[1..];
      if currentRule.condition.Some? {
        result := result + [currentRule.condition.value];
      }
      done := done + WithCondition(currentRule);
      rulesQueue := AppendAll(rulesQueue, currentRule.parts);
      assert rulesQueue == next;
    }
    QueueEnd(done);
  }

  method AppendAll(queue: seq<Rule>, parts: seq<Rule>) returns (r: seq<Rule>)
    ensures r == queue + parts
  {
    r := queue;
    for i := 0 to |parts|
      invariant r == queue + parts[..i]
    {
      r := r + [parts[i]];
    }
    assert parts[..|parts|] == parts;
  }
}
