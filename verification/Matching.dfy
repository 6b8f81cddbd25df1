/** Finding the firmware rules that match a context, template by template, while the bypassed types grow. */
module Matching {
  import opened Common
  import opened Rules
  import opened RuleFlatten
  import opened Sorting

  const ENV_MODEL_RULE := "ENV_MODEL_RULE"
  const ACTIVATION_VERSION := "ACTIVATION_VERSION"

  datatype FirmwareRule = FirmwareRule(id: string, name: string, rule: Rule, active: bool)
  datatype Template = Template(id: string, priority: int, byPassFilters: seq<string>)

  type RuleMap = map<string, seq<FirmwareRule>>
  type Sorter = seq<FirmwareRule> -> seq<FirmwareRule>

  predicate MoreConditions(a: FirmwareRule, b: FirmwareRule) {
    |Conditions(a.rule)| >= |Conditions(b.rule)|
  }

  predicate LowerPriority(a: Template, b: Template) { a.priority <= b.priority }

  predicate HigherPriority(a: Template, b: Template) { a.priority >= b.priority }

  /** What sort.Slice promises: some order of the same elements, ties broken the same way each time. */
  ghost predicate Sorts<T(!new)>(sort: seq<T> -> seq<T>, leq: (T, T) -> bool) {
    forall s :: multiset(sort(s)) == multiset(s) && SortedBy(leq, sort(s))
  }

  predicate SortedBySize(id: string) { id == ENV_MODEL_RULE || id == ACTIVATION_VERSION }

  /** The rules of a type in the order they are tried. */
  function Listed(bySize: Sorter, rules: RuleMap, id: string): seq<FirmwareRule> {
    if id !in rules then [] else if SortedBySize(id) && rules[id] != [] then bySize(rules[id]) else rules[id]
  }

  type Test = FirmwareRule -> bool

  /** An active rule that holds in the context. */
  ghost function ActiveMatch(leaf: Leaf, ctx: Context): (test: Test)
    ensures forall r :: test(r) <==> r.active && Holds(leaf, r.rule, ctx)
  {
    (r: FirmwareRule) => r.active && Holds(leaf, r.rule, ctx)
  }

  ghost function Matches(test: Test, rs: seq<FirmwareRule>): seq<FirmwareRule> {
    if rs == [] then [] else
      var last := rs[|rs| - 1];
      Matches(test, rs[..|rs| - 1]) + if test(last) then [last] else []
  }

  /** What holds of no rules, and one rule more at a time, holds of a list and its matches. */
  lemma {:induction false} MatchesBuild(test: Test, rs: seq<FirmwareRule>, related: (seq<FirmwareRule>, seq<FirmwareRule>) -> bool)
    requires related([], [])
    requires forall s, m, r | related(s, m) :: related(s + [r], if test(r) then m + [r] else m)
    ensures related(rs, Matches(test, rs))
  {
    if rs != [] {
      var n := |rs| - 1;
      MatchesBuild(test, rs[..n], related);
      assert rs == rs[..n] + [rs[n]];
      assert Matches(test, rs) == if test(rs[n]) then Matches(test, rs[..n]) + [rs[n]] else Matches(test, rs[..n]);
    }
  }

  /** The rules of a list that pass, each as often as it is listed and in its order. */
  lemma {:induction false} MatchesPicks(test: Test, rs: seq<FirmwareRule>)
    ensures Picks(test, rs, Matches(test, rs))
  {
    PickNothing(test);
    forall s, m, r | Picks(test, s, m) ensures Picks(test, s + [r], if test(r) then m + [r] else m) { PickOneMore(test, s, m, r); }
    MatchesBuild(test, rs, (s, m) => Picks(test, s, m));
  }

  /** So every rule occurs as often as it is listed when it passes, and never otherwise. */
  lemma {:induction false} MatchesCount(test: Test, rs: seq<FirmwareRule>, r: FirmwareRule)
    ensures multiset(Matches(test, rs))[r] == if test(r) then multiset(rs)[r] else 0
  {
    if rs != [] {
      var n := |rs| - 1;
      MatchesCount(test, rs[..n], r);
      assert rs == rs[..n] + [rs[n]];
    }
  }

  function Names(filters: seq<string>): set<string> { set f | f in filters }

  /** The bypassed types once the first k templates were visited. */
  function Bypassed(templates: seq<Template>, k: nat, bypass: set<string>): set<string>
    requires k <= |templates|
  {
    if k == 0 then bypass
    else Bypassed(templates, k - 1, bypass) + Names(templates[k - 1].byPassFilters)
  }

  /** Template k is tried: neither the caller, nor an earlier template, nor itself bypasses its type. */
  predicate Open(templates: seq<Template>, k: nat, bypass: set<string>)
    requires k < |templates|
  {
    templates[k].id !in Bypassed(templates, k + 1, bypass)
  }

  /** All the matching rules of the first k templates. */
  ghost function AllMatches(test: Test, bySize: Sorter, rules: RuleMap,
    templates: seq<Template>, k: nat, bypass: set<string>): seq<FirmwareRule>
    requires k <= |templates|
  {
    if k == 0 then [] else
      AllMatches(test, bySize, rules, templates, k - 1, bypass) +
      MatchesAt(test, bySize, rules, templates, k - 1, bypass)
  }

  function SortOne(bySize: Sorter, rules: RuleMap, id: string): RuleMap {
    if SortedBySize(id) && id in rules && rules[id] != [] then rules[id := bySize(rules[id])] else rules
  }

  /** The rules as they are left: the lists tried so far are sorted in place. */
  function RulesAfter(bySize: Sorter, rules: RuleMap, templates: seq<Template>, k: nat, bypass: set<string>): RuleMap
    requires k <= |templates|
  {
    if k == 0 then rules else
      var before := RulesAfter(bySize, rules, templates, k - 1, bypass);
      if Open(templates, k - 1, bypass) then SortOne(bySize, before, templates[k - 1].id) else before
  }

  lemma {:induction false} MatchesPrefix(test: Test, rs: seq<FirmwareRule>, i: nat)
    requires i <= |rs|
    ensures Matches(test, rs[..i]) <= Matches(test, rs)
  {
    if i < |rs| {
      assert rs[..|rs| - 1][..i] == rs[..i];
      MatchesPrefix(test, rs[..|rs| - 1], i);
    } else {
      assert rs[..i] == rs;
    }
  }

  lemma {:induction false} AllMatchesPrefix(test: Test, bySize: Sorter, rules: RuleMap,
    templates: seq<Template>, k: nat, n: nat, bypass: set<string>)
    requires k <= n <= |templates|
    ensures AllMatches(test, bySize, rules, templates, k, bypass) <= AllMatches(test, bySize, rules, templates, n, bypass)
  {
    if k < n { AllMatchesPrefix(test, bySize, rules, templates, k, n - 1, bypass); }
  }

  ghost function MatchesAt(test: Test, bySize: Sorter, rules: RuleMap,
    templates: seq<Template>, k: nat, bypass: set<string>): seq<FirmwareRule>
    requires k < |templates|
  {
    if Open(templates, k, bypass) then Matches(test, Listed(bySize, rules, templates[k].id)) else []
  }

  /** One template visited: its filters are added first, then its rules are tried unless its own type is bypassed by now. */
  ghost predicate Visits(test: Test, bySize: Sorter, isSingle: bool, template: Template,
    rules: RuleMap, bypass: set<string>, rules': RuleMap, bypass': set<string>, found: seq<FirmwareRule>)
  {
    bypass' == bypass + Names(template.byPassFilters) &&
    rules' == (if template.id !in bypass' then SortOne(bySize, rules, template.id) else rules) &&
    found == First(isSingle, if template.id !in bypass' then Matches(test, Listed(bySize, rules, template.id)) else [])
  }

  /** The state of a search after k templates. */
  ghost predicate Searched(test: Test, bySize: Sorter, isSingle: bool, templates: seq<Template>, k: nat,
    rules: RuleMap, bypass: set<string>, rules': RuleMap, bypass': set<string>, results: seq<FirmwareRule>)
  {
    k <= |templates| &&
    results == First(isSingle, AllMatches(test, bySize, rules, templates, k, bypass)) &&
    bypass' == Bypassed(templates, k, bypass) &&
    rules' == RulesAfter(bySize, rules, templates, k, bypass)
  }

  lemma SearchStep(test: Test, bySize: Sorter, isSingle: bool, templates: seq<Template>, k: nat,
    rules: RuleMap, bypass: set<string>, rules1: RuleMap, bypass1: set<string>, results: seq<FirmwareRule>,
    rules2: RuleMap, bypass2: set<string>, found: seq<FirmwareRule>)
    requires k < |templates| && DistinctIds(templates)
    requires Searched(test, bySize, isSingle, templates, k, rules, bypass, rules1, bypass1, results)
    requires Visits(test, bySize, isSingle, templates[k], rules1, bypass1, rules2, bypass2, found)
    requires isSingle ==> results == []
    ensures Searched(test, bySize, isSingle, templates, k + 1, rules, bypass, rules2, bypass2, results + found)
  {
    NotVisited(bySize, rules, templates, k, bypass, templates[k].id);
  }

  /** The first k templates have no match to offer. */
  ghost predicate NoneBefore(test: Test, bySize: Sorter, rules: RuleMap, templates: seq<Template>, k: nat, bypass: set<string>)
    requires k <= |templates|
  {
    AllMatches(test, bySize, rules, templates, k, bypass) == []
  }

  lemma EmptySearch(test: Test, bySize: Sorter, templates: seq<Template>, k: nat,
    rules: RuleMap, bypass: set<string>, rules': RuleMap, bypass': set<string>)
    requires Searched(test, bySize, true, templates, k, rules, bypass, rules', bypass', [])
    ensures NoneBefore(test, bySize, rules, templates, k, bypass)
  {
  }

  lemma SearchEnds(test: Test, bySize: Sorter, templates: seq<Template>, k: nat, rules: RuleMap, bypass: set<string>)
    requires k <= |templates| && AllMatches(test, bySize, rules, templates, k, bypass) != []
    ensures First(true, AllMatches(test, bySize, rules, templates, k, bypass)) ==
      First(true, AllMatches(test, bySize, rules, templates, |templates|, bypass))
  {
    AllMatchesPrefix(test, bySize, rules, templates, k, |templates|, bypass);
  }

  // ---- The search ----

  /** None of the rules that are evaluated panics: the active ones, for a single search up to the first match. */
  ghost predicate TriedSafely(leaf: Leaf, ctx: Context, isSingle: bool, rs: seq<FirmwareRule>) {
    forall i | 0 <= i < |rs| && rs[i].active && (isSingle ==> Matches(ActiveMatch(leaf, ctx), rs[..i]) == []) ::
      !Panics(leaf, rs[i].rule, ctx)
  }

  /** The same of every open template, for a single search up to the first with a match. */
  ghost predicate SearchedSafely(leaf: Leaf, ctx: Context, isSingle: bool, bySize: Sorter, rules: RuleMap,
    templates: seq<Template>, bypass: set<string>)
  {
    forall k {:trigger Open(templates, k, bypass)} | 0 <= k < |templates| && Open(templates, k, bypass) &&
      (isSingle ==> AllMatches(ActiveMatch(leaf, ctx), bySize, rules, templates, k, bypass) == []) ::
      TriedSafely(leaf, ctx, isSingle, Listed(bySize, rules, templates[k].id))
  }

  /** What the search asks of its next template. */
  lemma NextIsSafe(leaf: Leaf, ctx: Context, isSingle: bool, bySize: Sorter, templates: seq<Template>, k: nat,
    rules: RuleMap, bypass: set<string>, rules': RuleMap, bypass': set<string>, results: seq<FirmwareRule>)
    requires k < |templates| && DistinctIds(templates) && (isSingle ==> results == [])
    requires Searched(ActiveMatch(leaf, ctx), bySize, isSingle, templates, k, rules, bypass, rules', bypass', results)
    requires SearchedSafely(leaf, ctx, isSingle, bySize, rules, templates, bypass)
    ensures templates[k].id !in bypass' + Names(templates[k].byPassFilters) ==>
      TriedSafely(leaf, ctx, isSingle, Listed(bySize, rules', templates[k].id))
  {
    NotVisited(bySize, rules, templates, k, bypass, templates[k].id);
    assert Open(templates, k, bypass) <==> templates[k].id !in bypass' + Names(templates[k].byPassFilters);
  }

  ghost predicate DistinctIds(templates: seq<Template>) {
    forall i, j | 0 <= i < j < |templates| :: templates[i].id != templates[j].id
  }

  /** All the rules of a list that pass, or for a single search the first of them. */
  ghost predicate IsTried(test: Test, isSingle: bool, rs: seq<FirmwareRule>, results: seq<FirmwareRule>) {
    exists picked :: Picks(test, rs, picked) && results == if isSingle && picked != [] then [picked[0]] else picked
  }

  lemma TriedIsPicked(test: Test, isSingle: bool, rs: seq<FirmwareRule>)
    ensures IsTried(test, isSingle, rs, First(isSingle, Matches(test, rs)))
  {
    MatchesPicks(test, rs);
  }

  class Matcher {
    const processor: RuleProcessor
    /** The templates of each action type. */
    const templates: map<string, seq<Template>>
    const bySize: Sorter
    const byPriority: seq<Template> -> seq<Template>
    const byPriorityDown: seq<Template> -> seq<Template>
    var rules: RuleMap
    var bypassFilters: set<string>

    ghost predicate Valid()
      reads this
    {
      Sorts(bySize, MoreConditions) && Sorts(byPriority, LowerPriority) && Sorts(byPriorityDown, HigherPriority) &&
      forall t | t in templates :: DistinctIds(templates[t])
    }

    constructor (processor: RuleProcessor, templates: map<string, seq<Template>>, bySize: Sorter,
      byPriority: seq<Template> -> seq<Template>, byPriorityDown: seq<Template> -> seq<Template>,
      rules: RuleMap, bypassFilters: set<string>)
      requires Sorts(bySize, MoreConditions) && Sorts(byPriority, LowerPriority) && Sorts(byPriorityDown, HigherPriority)
      requires forall t | t in templates :: DistinctIds(templates[t])
      ensures Valid() && this.rules == rules && this.bypassFilters == bypassFilters && this.processor == processor
      ensures this.templates == templates && this.bySize == bySize
    {
      this.processor, this.templates, this.bySize := processor, templates, bySize;
      this.byPriority, this.byPriorityDown := byPriority, byPriorityDown;
      this.rules, this.bypassFilters := rules, bypassFilters;
    }

    function GetSortedTemplate(actionType: string, reverse: bool): (sorted: seq<Template>)
      requires Valid()
      reads this
      ensures multiset(sorted) == multiset(if actionType in templates then templates[actionType] else [])
      ensures SortedBy(if reverse then HigherPriority else LowerPriority, sorted)
      ensures forall i, j | 0 <= i < j < |sorted| ::
        if reverse then sorted[i].priority >= sorted[j].priority else sorted[i].priority <= sorted[j].priority
    {
      var all := if actionType in templates then templates[actionType] else [];
      if |all| <= 1 then all
      else if reverse then byPriorityDown(all)
      else byPriority(all)
    }

    /** The rules of one type, one after the other; a single search stops at the first match. */
    method TryRules(firmwareRules: seq<FirmwareRule>, ctx: Context, isSingle: bool) returns (results: seq<FirmwareRule>)
      requires TriedSafely(processor.AsLeaf(), ctx, isSingle, firmwareRules)
      ensures var all := Matches(ActiveMatch(processor.AsLeaf(), ctx), firmwareRules);
        results == First(isSingle, all)
    {
      results := [];
      for i := 0 to |firmwareRules|
        invariant results == Matches(ActiveMatch(processor.AsLeaf(), ctx), firmwareRules[..i])
        invariant isSingle ==> results == []
      {
        var firmwareRule := firmwareRules[i];
        assert firmwareRules[..i + 1][..i] == firmwareRules[..i];
        if firmwareRule.active {
          var isEvaluate := processor.Evaluate(firmwareRule.rule, ctx);
          if isEvaluate == Some(true) {
            results := results + [firmwareRule];
            if isSingle {
              MatchesPrefix(ActiveMatch(processor.AsLeaf(), ctx), firmwareRules, i + 1);
              return;
            }
          }
        }
      }
      assert firmwareRules[..|firmwareRules|] == firmwareRules;
    }

    method VisitTemplate(template: Template, ctx: Context, isSingle: bool) returns (results: seq<FirmwareRule>)
      requires Valid()
      requires template.id !in bypassFilters + Names(template.byPassFilters) ==>
        TriedSafely(processor.AsLeaf(), ctx, isSingle, Listed(bySize, rules, template.id))
      modifies this
      ensures Valid() && Visits(ActiveMatch(processor.AsLeaf(), ctx), bySize, isSingle, template,
        old(rules), old(bypassFilters), rules, bypassFilters, results)
      ensures bypassFilters == old(bypassFilters) + set f | f in template.byPassFilters
      ensures rules ==
        if template.id !in bypassFilters && (template.id == "ENV_MODEL_RULE" || template.id == "ACTIVATION_VERSION") &&
           template.id in old(rules) && old(rules)[template.id] != []
        then old(rules)[template.id := bySize(old(rules)[template.id])] else old(rules)
      ensures template.id in bypassFilters || template.id !in rules ==> results == []
      ensures template.id !in bypassFilters && template.id in rules ==>
        IsTried(ActiveMatch(processor.AsLeaf(), ctx), isSingle, rules[template.id], results)
    {
      bypassFilters := bypassFilters + Names(template.byPassFilters);
      if template.id in bypassFilters { return []; }
      if template.id !in rules || |rules[template.id]| == 0 {
        TriedIsPicked(ActiveMatch(processor.AsLeaf(), ctx), isSingle, []);
        return [];
      }
      if template.id == ENV_MODEL_RULE || template.id == ACTIVATION_VERSION {
        rules := rules[template.id := bySize(rules[template.id])];
      }
      results := TryRules(rules[template.id], ctx, isSingle);
      TriedIsPicked(ActiveMatch(processor.AsLeaf(), ctx), isSingle, rules[template.id]);
    }

    /** One more template of a search. */
    method SearchNext(ts: seq<Template>, k: nat, ctx: Context, isSingle: bool, ghost rules0: RuleMap, ghost bypass: set<string>,
      ghost results: seq<FirmwareRule>) returns (found: seq<FirmwareRule>)
      requires Valid() && DistinctIds(ts) && k < |ts| && (isSingle ==> results == [])
      requires SearchedSafely(processor.AsLeaf(), ctx, isSingle, bySize, rules0, ts, bypass)
      requires Searched(ActiveMatch(processor.AsLeaf(), ctx), bySize, isSingle, ts, k, rules0, bypass, rules, bypassFilters, results)
      modifies this
      ensures Valid()
      ensures Searched(ActiveMatch(processor.AsLeaf(), ctx), bySize, isSingle, ts, k + 1, rules0, bypass, rules, bypassFilters,
        results + found)
    {
      ghost var rules1, bypass1 := rules, bypassFilters;
      NextIsSafe(processor.AsLeaf(), ctx, isSingle, bySize, ts, k, rules0, bypass, rules, bypassFilters, results);
      found := VisitTemplate(ts[k], ctx, isSingle);
      SearchStep(ActiveMatch(processor.AsLeaf(), ctx), bySize, isSingle, ts, k, rules0, bypass, rules1, bypass1, results,
        rules, bypassFilters, found);
    }

    method SearchTemplates(ts: seq<Template>, ctx: Context, isSingle: bool)
      returns (results: seq<FirmwareRule>, ghost visited: nat)
      requires Valid() && DistinctIds(ts)
      requires SearchedSafely(processor.AsLeaf(), ctx, isSingle, bySize, rules, ts, bypassFilters)
      modifies this
      ensures Valid() && Searched(ActiveMatch(processor.AsLeaf(), ctx), bySize, isSingle, ts, visited,
        old(rules), old(bypassFilters), rules, bypassFilters, results)
      ensures !isSingle || results == [] ==> visited == |ts|
      ensures isSingle && results != [] ==> 0 < visited <= |ts|
      ensures isSingle && results != [] ==>
        NoneBefore(ActiveMatch(processor.AsLeaf(), ctx), bySize, old(rules), ts, visited - 1, old(bypassFilters))
    {
      results := [];
      ghost var test, bypass, rules0 := ActiveMatch(processor.AsLeaf(), ctx), bypassFilters, rules;
      visited := 0;
      for k := 0 to |ts|
        invariant visited == k && (isSingle ==> results == [] && NoneBefore(test, bySize, rules0, ts, k, bypass))
        invariant Searched(test, bySize, isSingle, ts, k, rules0, bypass, rules, bypassFilters, results)
        invariant Valid()
      {
        var found := SearchNext(ts, k, ctx, isSingle, rules0, bypass, results);
        results := results + found;
        visited := k + 1;
        if isSingle {
          if |results| > 0 { return; }
          EmptySearch(test, bySize, ts, k + 1, rules0, bypass, rules, bypassFilters);
        }
      }
    }

    method FindMatchedRules(templateType: string, ctx: Context, isSingle: bool, reverse: bool)
      returns (results: seq<FirmwareRule>, ghost visited: nat)
      requires Valid()
      requires SearchedSafely(processor.AsLeaf(), ctx, isSingle, bySize, rules, GetSortedTemplate(templateType, reverse), bypassFilters)
      modifies this
      ensures Valid()
      ensures var ts := old(GetSortedTemplate(templateType, reverse));
        var all := AllMatches(ActiveMatch(processor.AsLeaf(), ctx), bySize, old(rules), ts, |ts|, old(bypassFilters));
        results == (if isSingle && all != [] then [all[0]] else all) &&
        visited <= |ts| && (!isSingle || results == [] ==> visited == |ts|) &&
        bypassFilters == Bypassed(ts, visited, old(bypassFilters)) &&
        rules == RulesAfter(bySize, old(rules), ts, visited, old(bypassFilters))
      ensures isSingle && results != [] ==>
        var ts := old(GetSortedTemplate(templateType, reverse));
        0 < visited <= |ts| && NoneBefore(ActiveMatch(processor.AsLeaf(), ctx), bySize, old(rules), ts, visited - 1, old(bypassFilters))
      ensures !isSingle ==> IsExhaustive(ActiveMatch(processor.AsLeaf(), ctx), old(rules),
        old(GetSortedTemplate(templateType, reverse)), old(bypassFilters), results)
    {
      var ts := GetSortedTemplate(templateType, reverse);
      SortedIdsDistinct(if templateType in templates then templates[templateType] else [], ts);
      ghost var test, bypass, rules0 := ActiveMatch(processor.AsLeaf(), ctx), bypassFilters, rules;
      results, visited := SearchTemplates(ts, ctx, isSingle);
      if visited < |ts| { SearchEnds(test, bySize, ts, visited, rules0, bypass); }
      SearchIsExhaustive(test, bySize, rules0, ts, |ts|, bypass);
    }

    method FindMatchedRule(templateType: string, ctx: Context) returns (r: Option<FirmwareRule>)
      requires Valid()
      requires SearchedSafely(processor.AsLeaf(), ctx, true, bySize, rules, GetSortedTemplate(templateType, false), bypassFilters)
      modifies this
      ensures Valid()
      ensures var ts := old(GetSortedTemplate(templateType, false));
        var all := AllMatches(ActiveMatch(processor.AsLeaf(), ctx), bySize, old(rules), ts, |ts|, old(bypassFilters));
        r == if all == [] then None else Some(all[0])
    {
      var matchedRules, _ := FindMatchedRules(templateType, ctx, true, false);
      r := if |matchedRules| == 0 then None else Some(matchedRules[0]);
    }
  }

  function First<T>(isSingle: bool, all: seq<T>): seq<T> {
    if isSingle && all != [] then [all[0]] else all
  }

  lemma SortedIdsDistinct(all: seq<Template>, sorted: seq<Template>)
    requires multiset(sorted) == multiset(all) && DistinctIds(all)
    ensures DistinctIds(sorted)
  {
    forall i, j | 0 <= i < j < |sorted| ensures sorted[i].id != sorted[j].id {
      if sorted[i] == sorted[j] {
        TwoCopies(sorted, i, j);
        OneCopy(all, sorted[i]);
      } else {
        assert sorted[i] in multiset(all) && sorted[j] in multiset(all);
      }
    }
  }

  lemma {:induction false} OneCopy(s: seq<Template>, x: Template)
    requires DistinctIds(s)
    ensures multiset(s)[x] <= 1
  {
    if s != [] {
      var n := |s| - 1;
      assert s == s[..n] + [s[n]];
      OneCopy(s[..n], x);
      assert x in multiset(s[..n]) <==> x in s[..n];
    }
  }

  /** The lists of types not visited yet are as they were. */
  lemma {:induction false} NotVisited(bySize: Sorter, rules: RuleMap, templates: seq<Template>, k: nat, bypass: set<string>, id: string)
    requires k <= |templates| && forall j | 0 <= j < k :: templates[j].id != id
    ensures var after := RulesAfter(bySize, rules, templates, k, bypass);
      (id in after <==> id in rules) && (id in rules ==> after[id] == rules[id])
  {
    if k > 0 { NotVisited(bySize, rules, templates, k - 1, bypass, id); }
  }

  /** No list gains or loses a rule. */
  lemma {:induction false} ListsArePermuted(bySize: Sorter, rules: RuleMap, templates: seq<Template>, k: nat, bypass: set<string>)
    requires k <= |templates| && Sorts(bySize, MoreConditions)
    ensures RulesAfter(bySize, rules, templates, k, bypass).Keys == rules.Keys
    ensures forall id | id in rules :: multiset(RulesAfter(bySize, rules, templates, k, bypass)[id]) == multiset(rules[id])
  {
    if k > 0 { ListsArePermuted(bySize, rules, templates, k - 1, bypass); }
  }

  /** A visited list that is sorted by size is left that way. */
  lemma {:induction false} VisitedAreSorted(bySize: Sorter, rules: RuleMap, templates: seq<Template>, k: nat, bypass: set<string>, j: nat)
    requires j < k <= |templates| && DistinctIds(templates) && Open(templates, j, bypass) && SortedBySize(templates[j].id)
    requires Sorts(bySize, MoreConditions) && templates[j].id in rules
    ensures var id, after := templates[j].id, RulesAfter(bySize, rules, templates, k, bypass);
      id in after && multiset(after[id]) == multiset(rules[id]) &&
      forall m, n | 0 <= m < n < |after[id]| :: |Conditions(after[id][m].rule)| >= |Conditions(after[id][n].rule)|
  {
    NotVisited(bySize, rules, templates, j, bypass, templates[j].id);
    if j < k - 1 { VisitedAreSorted(bySize, rules, templates, k - 1, bypass, j); }
  }

  // ---- What the exhaustive search gives ----

  /** Template k is tried, said of the templates themselves. */
  ghost predicate IsOpen(templates: seq<Template>, k: nat, bypass: set<string>)
    requires k < |templates|
  {
    templates[k].id !in bypass && forall j | 0 <= j <= k :: templates[k].id !in templates[j].byPassFilters
  }

  lemma OpenIsOpen(templates: seq<Template>, k: nat, bypass: set<string>)
    requires k < |templates|
    ensures Open(templates, k, bypass) <==> IsOpen(templates, k, bypass)
  {
    BypassedIsUnion(templates, k + 1, bypass, templates[k].id);
  }

  /** What template k contributes: nothing unless it is open, and otherwise the rules of its list that pass, each as often
      as it is listed: for the two sized types those with more conditions first, for others in the order of the list. */
  ghost predicate IsBlock(test: Test, rules: RuleMap, templates: seq<Template>, bypass: set<string>, k: nat, block: seq<FirmwareRule>)
    requires k < |templates|
  {
    var rs := Of(rules, templates[k].id);
    (!IsOpen(templates, k, bypass) ==> block == []) &&
    (IsOpen(templates, k, bypass) ==>
      (forall r :: multiset(block)[r] == if test(r) then multiset(rs)[r] else 0) &&
      if templates[k].id == "ENV_MODEL_RULE" || templates[k].id == "ACTIVATION_VERSION"
      then forall i, j | 0 <= i < j < |block| :: |Conditions(block[i].rule)| >= |Conditions(block[j].rule)|
      else Picks(test, rs, block))
  }

  function Concat<T>(blocks: seq<seq<T>>): seq<T> {
    if blocks == [] then [] else Concat(blocks[..|blocks| - 1]) + blocks[|blocks| - 1]
  }

  ghost predicate AreBlocks(test: Test, rules: RuleMap, templates: seq<Template>, bypass: set<string>, blocks: seq<seq<FirmwareRule>>) {
    |blocks| <= |templates| && forall k | 0 <= k < |blocks| :: IsBlock(test, rules, templates, bypass, k, blocks[k])
  }

  /** Template after template. */
  ghost predicate IsExhaustive(test: Test, rules: RuleMap, templates: seq<Template>, bypass: set<string>, results: seq<FirmwareRule>) {
    exists blocks :: |blocks| == |templates| && AreBlocks(test, rules, templates, bypass, blocks) && results == Concat(blocks)
  }

  lemma PickedPair(test: Test, rs: seq<FirmwareRule>, picked: seq<FirmwareRule>, idx: seq<int>, i: nat, j: nat)
    requires PickedAt(test, rs, picked, idx) && i < j < |picked|
    ensures 0 <= idx[i] < idx[j] < |rs| && picked[i] == rs[idx[i]] && picked[j] == rs[idx[j]]
  {
  }

  lemma PicksSorted(test: Test, rs: seq<FirmwareRule>, picked: seq<FirmwareRule>)
    requires Picks(test, rs, picked) && SortedBy(MoreConditions, rs)
    ensures forall i, j | 0 <= i < j < |picked| :: |Conditions(picked[i].rule)| >= |Conditions(picked[j].rule)|
  {
    var idx :| PickedAt(test, rs, picked, idx);
    forall i, j | 0 <= i < j < |picked| ensures MoreConditions(picked[i], picked[j]) { PickedPair(test, rs, picked, idx, i, j); }
  }

  lemma TemplateGivesBlock(test: Test, bySize: Sorter, rules: RuleMap, templates: seq<Template>, k: nat, bypass: set<string>)
    requires Sorts(bySize, MoreConditions) && k < |templates|
    ensures IsBlock(test, rules, templates, bypass, k, MatchesAt(test, bySize, rules, templates, k, bypass))
  {
    var id := templates[k].id;
    var listed := Listed(bySize, rules, id);
    OpenIsOpen(templates, k, bypass);
    if Open(templates, k, bypass) {
      MatchesPicks(test, listed);
      assert multiset(listed) == multiset(Of(rules, id));
      forall r ensures multiset(Matches(test, listed))[r] == if test(r) then multiset(Of(rules, id))[r] else 0 {
        MatchesCount(test, listed, r);
      }
      if SortedBySize(id) { PicksSorted(test, listed, Matches(test, listed)); }
    }
  }

  lemma {:induction false} OneMoreBlock(test: Test, rules: RuleMap, templates: seq<Template>, bypass: set<string>,
    blocks: seq<seq<FirmwareRule>>, block: seq<FirmwareRule>)
    requires AreBlocks(test, rules, templates, bypass, blocks) && |blocks| < |templates|
    requires IsBlock(test, rules, templates, bypass, |blocks|, block)
    ensures AreBlocks(test, rules, templates, bypass, blocks + [block])
    ensures Concat(blocks + [block]) == Concat(blocks) + block
  {
    assert (blocks + [block])[..|blocks|] == blocks;
  }

  lemma {:induction false} SearchGivesBlocks(test: Test, bySize: Sorter, rules: RuleMap, templates: seq<Template>, k: nat, bypass: set<string>)
    returns (blocks: seq<seq<FirmwareRule>>)
    requires Sorts(bySize, MoreConditions) && k <= |templates|
    ensures |blocks| == k && AreBlocks(test, rules, templates, bypass, blocks)
    ensures AllMatches(test, bySize, rules, templates, k, bypass) == Concat(blocks)
  {
    blocks := [];
    if k > 0 {
      var block := MatchesAt(test, bySize, rules, templates, k - 1, bypass);
      blocks := SearchGivesBlocks(test, bySize, rules, templates, k - 1, bypass);
      TemplateGivesBlock(test, bySize, rules, templates, k - 1, bypass);
      OneMoreBlock(test, rules, templates, bypass, blocks, block);
      blocks := blocks + [block];
    }
  }

  lemma {:induction false} SearchIsExhaustive(test: Test, bySize: Sorter, rules: RuleMap, templates: seq<Template>, n: nat, bypass: set<string>)
    requires Sorts(bySize, MoreConditions) && n == |templates|
    ensures IsExhaustive(test, rules, templates, bypass, AllMatches(test, bySize, rules, templates, n, bypass))
  {
    var blocks := SearchGivesBlocks(test, bySize, rules, templates, n, bypass);
  }

  // ---- What the first match is ----

  function Of(rules: RuleMap, id: string): seq<FirmwareRule> {
    if id in rules then rules[id] else []
  }

  /** r is the first of rs to pass the test. */
  ghost predicate IsFirst(test: Test, rs: seq<FirmwareRule>, r: FirmwareRule) {
    exists i :: 0 <= i < |rs| && rs[i] == r && test(r) && (forall j | 0 <= j < i :: !test(rs[j]))
  }

  ghost predicate NoneOf(test: Test, rs: seq<FirmwareRule>) {
    forall r | r in rs :: !test(r)
  }

  /** Of the matches of a list, the first is the first that passes; there is none when none passes. */
  ghost predicate HeadIsFirst(test: Test, rs: seq<FirmwareRule>, matches: seq<FirmwareRule>) {
    if matches == [] then NoneOf(test, rs) else IsFirst(test, rs, matches[0])
  }

  lemma HeadOneMore(test: Test, rs: seq<FirmwareRule>, matches: seq<FirmwareRule>, r: FirmwareRule)
    requires HeadIsFirst(test, rs, matches)
    ensures HeadIsFirst(test, rs + [r], if test(r) then matches + [r] else matches)
  {
    var all := rs + [r];
    if matches != [] {
      var i :| 0 <= i < |rs| && rs[i] == matches[0] && test(rs[i]) && (forall j | 0 <= j < i :: !test(rs[j]));
      assert all[i] == matches[0] && forall j | 0 <= j < i :: all[j] == rs[j];
    } else if test(r) {
      assert all[|rs|] == r;
      forall j | 0 <= j < |rs| ensures !test(all[j]) { assert all[j] in rs; }
    }
  }

  lemma {:induction false} FirstOfMatches(test: Test, rs: seq<FirmwareRule>)
    ensures if Matches(test, rs) == [] then NoneOf(test, rs) else IsFirst(test, rs, Matches(test, rs)[0])
  {
    forall s, m, r | HeadIsFirst(test, s, m) ensures HeadIsFirst(test, s + [r], if test(r) then m + [r] else m) { HeadOneMore(test, s, m, r); }
    MatchesBuild(test, rs, (s, m) => HeadIsFirst(test, s, m));
    assert HeadIsFirst(test, rs, Matches(test, rs));
  }

  ghost predicate NothingOpen(test: Test, rules: RuleMap, templates: seq<Template>, n: nat, bypass: set<string>)
    requires n <= |templates|
  {
    forall k {:trigger Open(templates, k, bypass)} | 0 <= k < n && Open(templates, k, bypass) :: NoneOf(test, Of(rules, templates[k].id))
  }

  /** The choice among the open templates is the first one with a match; inside it, a match with the most conditions
      for the two types sorted by size, and otherwise the first in the list. */
  ghost predicate IsBest(test: Test, rules: RuleMap, templates: seq<Template>, bypass: set<string>, k: nat, r: FirmwareRule) {
    k < |templates| && Open(templates, k, bypass) &&
    NothingOpen(test, rules, templates, k, bypass) &&
    var rs := Of(rules, templates[k].id);
    r in rs && test(r) &&
    if SortedBySize(templates[k].id)
    then forall x | x in rs && test(x) :: |Conditions(x.rule)| <= |Conditions(r.rule)|
    else IsFirst(test, rs, r)
  }

  lemma ListedIsSame(bySize: Sorter, rules: RuleMap, id: string)
    requires Sorts(bySize, MoreConditions)
    ensures forall r :: r in Listed(bySize, rules, id) <==> r in Of(rules, id)
  {
    var listed, rs := Listed(bySize, rules, id), Of(rules, id);
    assert multiset(listed) == multiset(rs);
    forall r ensures r in listed <==> r in rs { assert r in multiset(listed) <==> r in multiset(rs); }
  }

  lemma FirstListedIsBiggest(test: Test, bySize: Sorter, rules: RuleMap, id: string, r: FirmwareRule)
    requires Sorts(bySize, MoreConditions) && SortedBySize(id)
    requires IsFirst(test, Listed(bySize, rules, id), r)
    ensures forall x | x in Of(rules, id) && test(x) :: |Conditions(x.rule)| <= |Conditions(r.rule)|
  {
    var listed := Listed(bySize, rules, id);
    ListedIsSame(bySize, rules, id);
    var i :| 0 <= i < |listed| && listed[i] == r && test(r) && (forall j | 0 <= j < i :: !test(listed[j]));
    assert SortedBy(MoreConditions, listed);
    forall x | x in Of(rules, id) && test(x) ensures |Conditions(x.rule)| <= |Conditions(r.rule)| {
      assert x in listed;
      var j :| 0 <= j < |listed| && listed[j] == x;
      assert j == i || MoreConditions(listed[i], listed[j]);
    }
  }

  lemma BestOfTemplate(test: Test, bySize: Sorter, rules: RuleMap, templates: seq<Template>, k: nat, bypass: set<string>)
    requires Sorts(bySize, MoreConditions) && k < |templates| && Open(templates, k, bypass)
    requires NothingOpen(test, rules, templates, k, bypass)
    requires Matches(test, Listed(bySize, rules, templates[k].id)) != []
    ensures IsBest(test, rules, templates, bypass, k, Matches(test, Listed(bySize, rules, templates[k].id))[0])
  {
    var id := templates[k].id;
    var listed := Listed(bySize, rules, id);
    FirstOfMatches(test, listed);
    ListedIsSame(bySize, rules, id);
    if SortedBySize(id) { FirstListedIsBiggest(test, bySize, rules, id, Matches(test, listed)[0]); }
  }

  lemma {:induction false} EmptyParts(test: Test, bySize: Sorter, rules: RuleMap, templates: seq<Template>, n: nat, bypass: set<string>, k: nat)
    requires k < n <= |templates| && AllMatches(test, bySize, rules, templates, n, bypass) == []
    ensures MatchesAt(test, bySize, rules, templates, k, bypass) == []
  {
    if k < n - 1 { EmptyParts(test, bySize, rules, templates, n - 1, bypass, k); }
  }

  lemma NoMatchListed(test: Test, bySize: Sorter, rules: RuleMap, id: string)
    requires Sorts(bySize, MoreConditions) && Matches(test, Listed(bySize, rules, id)) == []
    ensures NoneOf(test, Of(rules, id))
  {
    FirstOfMatches(test, Listed(bySize, rules, id));
    ListedIsSame(bySize, rules, id);
  }

  /** The search is empty only when no open template has a match. */
  lemma EmptyMeansNoMatch(test: Test, bySize: Sorter, rules: RuleMap, templates: seq<Template>, n: nat, bypass: set<string>)
    requires Sorts(bySize, MoreConditions) && n <= |templates|
    requires AllMatches(test, bySize, rules, templates, n, bypass) == []
    ensures NothingOpen(test, rules, templates, n, bypass)
  {
    forall k {:trigger Open(templates, k, bypass)} | 0 <= k < n && Open(templates, k, bypass)
      ensures NoneOf(test, Of(rules, templates[k].id))
    {
      EmptyParts(test, bySize, rules, templates, n, bypass, k);
      NoMatchListed(test, bySize, rules, templates[k].id);
    }
  }

  lemma {:induction false} FirstTemplate(test: Test, bySize: Sorter, rules: RuleMap, templates: seq<Template>, n: nat, bypass: set<string>)
    returns (k: nat)
    requires n <= |templates| && AllMatches(test, bySize, rules, templates, n, bypass) != []
    ensures k < n && AllMatches(test, bySize, rules, templates, k, bypass) == []
    ensures MatchesAt(test, bySize, rules, templates, k, bypass) != []
    ensures AllMatches(test, bySize, rules, templates, n, bypass)[0] == MatchesAt(test, bySize, rules, templates, k, bypass)[0]
  {
    k := n - 1;
    if AllMatches(test, bySize, rules, templates, n - 1, bypass) != [] {
      k := FirstTemplate(test, bySize, rules, templates, n - 1, bypass);
    }
  }

  /** The head of the exhaustive search is a lexicographic optimum, found at template k. */
  lemma HeadIsBest(test: Test, bySize: Sorter, rules: RuleMap, templates: seq<Template>, bypass: set<string>)
    returns (k: nat)
    requires Sorts(bySize, MoreConditions)
    requires AllMatches(test, bySize, rules, templates, |templates|, bypass) != []
    ensures IsBest(test, rules, templates, bypass, k, AllMatches(test, bySize, rules, templates, |templates|, bypass)[0])
  {
    k := FirstTemplate(test, bySize, rules, templates, |templates|, bypass);
    EmptyMeansNoMatch(test, bySize, rules, templates, k, bypass);
    BestOfTemplate(test, bySize, rules, templates, k, bypass);
  }

  /** The bypassed types are those of the caller and of every template visited, open or not. */
  lemma {:induction false} BypassedIsUnion(templates: seq<Template>, k: nat, bypass: set<string>, f: string)
    requires k <= |templates|
    ensures f in Bypassed(templates, k, bypass) <==> f in bypass || exists j :: 0 <= j < k && f in templates[j].byPassFilters
  {
    if k > 0 { BypassedIsUnion(templates, k - 1, bypass, f); }
  }
}
