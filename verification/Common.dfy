/** Option, rows, and the byte-wise order of texts that Go's `<` and Cassandra's text columns use. */
module Common {
  datatype Option<+T> = None | Some(value: T)

  /** A row of a table: a cached entry, a database cell. */
  datatype Slot = Slot(table: string, key: string)

  /** Only spaces. */
  predicate IsBlank(s: string) { forall c | c in s :: c == ' ' }

  /** a comes no later than b. */
  predicate TextLeq(a: string, b: string) {
    a == [] || (b != [] && (a[0] < b[0] || (a[0] == b[0] && TextLeq(a[1..], b[1..]))))
  }

  predicate TextLess(a: string, b: string) {
    TextLeq(a, b) && a != b
  }

  lemma {:induction false} TextTotal(a: string, b: string)
    ensures TextLeq(a, b) || TextLeq(b, a)
  {
    if a != [] && b != [] { TextTotal(a[1..], b[1..]); }
  }

  lemma {:induction false} TextAntisymmetric(a: string, b: string)
    requires TextLeq(a, b) && TextLeq(b, a)
    ensures a == b
  {
    if a != [] {
      TextAntisymmetric(a[1..], b[1..]);
      assert a == [a[0]] + a[1..] && b == [b[0]] + b[1..];
    }
  }

  lemma {:induction false} TextTransitive(a: string, b: string, c: string)
    requires TextLeq(a, b) && TextLeq(b, c)
    ensures TextLeq(a, c)
  {
    if a != [] && a[0] == b[0] && b[0] == c[0] { TextTransitive(a[1..], b[1..], c[1..]); }
  }

  /** A common prefix does not affect the order. */
  lemma {:induction false} TextCommonPrefix(p: string, a: string, b: string)
    ensures TextLeq(p + a, p + b) <==> TextLeq(a, b)
  {
    if p == [] {
      assert p + a == a && p + b == b;
    } else {
      assert (p + a)[1..] == p[1..] + a && (p + b)[1..] == p[1..] + b;
      TextCommonPrefix(p[1..], a, b);
    }
  }

  lemma TextLeqIsOrder()
    ensures IsTotalPreorder(TextLeq)
    ensures forall a, b :: TextLeq(a, b) && TextLeq(b, a) ==> a == b
  {
    forall a, b ensures TextLeq(a, b) || TextLeq(b, a) { TextTotal(a, b); }
    forall a, b, c | TextLeq(a, b) && TextLeq(b, c) ensures TextLeq(a, c) { TextTransitive(a, b, c); }
    forall a, b | TextLeq(a, b) && TextLeq(b, a) ensures a == b { TextAntisymmetric(a, b); }
  }

  /** The comparisons a sort can be given: total and transitive, ties allowed. */
  ghost predicate IsTotalPreorder<T(!new)>(leq: (T, T) -> bool) {
    (forall x, y :: leq(x, y) || leq(y, x)) &&
    (forall x, y, z :: leq(x, y) && leq(y, z) ==> leq(x, z))
  }

  ghost predicate SortedBy<T(!new)>(leq: (T, T) -> bool, s: seq<T>) {
    forall i, j | 0 <= i < j < |s| :: leq(s[i], s[j])
  }
}

/** Numbers written in decimal, as strconv.Itoa does. */
module Decimal {
  function Digit(d: nat): char
    requires d < 10
  {
    "0123456789"[d]
  }

  function Itoa(n: nat): string {
    if n < 10 then [Digit(n)] else Itoa(n / 10) + [Digit(n % 10)]
  }

  lemma DigitOrder(c: nat, d: nat)
    requires c < 10 && d < 10
    ensures Digit(c) < Digit(d) <==> c < d
    ensures Digit(c) == Digit(d) <==> c == d
  {
  }

  lemma {:induction false} ItoaInjective(m: nat, n: nat)
    requires Itoa(m) == Itoa(n)
    ensures m == n
  {
    var s, t := Itoa(m), Itoa(n);
    ItoaNonEmpty(m / 10);
    ItoaNonEmpty(n / 10);
    assert s[|s| - 1] == t[|t| - 1];
    DigitOrder(m % 10, n % 10);
    if m >= 10 && n >= 10 {
      assert s[..|s| - 1] == Itoa(m / 10) && t[..|t| - 1] == Itoa(n / 10);
      ItoaInjective(m / 10, n / 10);
    }
  }

  lemma ItoaNonEmpty(n: nat)
    ensures |Itoa(n)| >= 1
  {
  }

  lemma {:induction false} FirstDigit(n: nat)
    requires n > 0
    ensures |Itoa(n)| >= 1 && Itoa(n)[0] >= '1'
  {
    if n >= 10 { FirstDigit(n / 10); }
  }
}

/** Go's sort package. Callers see only the contracts, so any order of ties is covered. */
module Sorting {
  import opened Common

  function Insert<T>(leq: (T, T) -> bool, x: T, s: seq<T>): seq<T> {
    if s == [] || leq(x, s[0]) then [x] + s else [s[0]] + Insert(leq, x, s[1..])
  }

  function StableSort<T>(leq: (T, T) -> bool, s: seq<T>): seq<T> {
    if s == [] then [] else Insert(leq, s[0], StableSort(leq, s[1..]))
  }

  lemma {:induction false} InsertAdds<T>(leq: (T, T) -> bool, x: T, s: seq<T>)
    ensures multiset(Insert(leq, x, s)) == multiset{x} + multiset(s)
  {
    if s != [] && !leq(x, s[0]) {
      InsertAdds(leq, x, s[1..]);
      assert s == [s[0]] + s[1..];
    }
  }

  lemma {:induction false} PrependSorted<T(!new)>(leq: (T, T) -> bool, x: T, s: seq<T>)
    requires SortedBy(leq, s) && forall y | y in s :: leq(x, y)
    ensures SortedBy(leq, [x] + s)
  {
  }

  lemma {:induction false} InsertSorted<T(!new)>(leq: (T, T) -> bool, x: T, s: seq<T>)
    requires IsTotalPreorder(leq) && SortedBy(leq, s)
    ensures SortedBy(leq, Insert(leq, x, s))
  {
    if s == [] || leq(x, s[0]) {
      forall y | y in s ensures leq(x, y) { assert y == s[0] || leq(s[0], y); }
      PrependSorted(leq, x, s);
    } else {
      var rest := Insert(leq, x, s[1..]);
      InsertSorted(leq, x, s[1..]);
      InsertAdds(leq, x, s[1..]);
      forall y | y in rest ensures leq(s[0], y) {
        assert y in multiset(rest);
        assert y == x || y in s[1..];
      }
      PrependSorted(leq, s[0], rest);
    }
  }

  lemma {:induction false} StableSortSorts<T(!new)>(leq: (T, T) -> bool, s: seq<T>)
    requires IsTotalPreorder(leq)
    ensures multiset(StableSort(leq, s)) == multiset(s)
    ensures SortedBy(leq, StableSort(leq, s))
  {
    if s != [] {
      assert s == [s[0]] + s[1..];
      StableSortSorts(leq, s[1..]);
      InsertSorted(leq, s[0], StableSort(leq, s[1..]));
      InsertAdds(leq, s[0], StableSort(leq, s[1..]));
    }
  }

  ghost function Filter<T>(p: T -> bool, s: seq<T>): seq<T> {
    if s == [] then [] else (if p(s[0]) then [s[0]] else []) + Filter(p, s[1..])
  }

  lemma {:induction false} InsertIsStable<T(!new)>(leq: (T, T) -> bool, p: T -> bool, x: T, s: seq<T>)
    requires IsTotalPreorder(leq) && forall a, b | p(a) && p(b) :: leq(a, b)
    ensures Filter(p, Insert(leq, x, s)) == Filter(p, [x] + s)
  {
    assert ([x] + s)[1..] == s;
    if s != [] && !leq(x, s[0]) { InsertIsStable(leq, p, x, s[1..]); }
  }

  /** Elements that tie keep the order they came in. */
  lemma {:induction false} StableSortIsStable<T(!new)>(leq: (T, T) -> bool, p: T -> bool, s: seq<T>)
    requires IsTotalPreorder(leq) && forall a, b | p(a) && p(b) :: leq(a, b)
    ensures Filter(p, StableSort(leq, s)) == Filter(p, s)
  {
    if s != [] {
      var rest := StableSort(leq, s[1..]);
      StableSortIsStable(leq, p, s[1..]);
      InsertIsStable(leq, p, s[0], rest);
      assert ([s[0]] + rest)[1..] == rest;
    }
  }

  /** Two elements that tie end up side by side, the one inserted last in front. */
  lemma {:induction false} InsertTied<T(!new)>(leq: (T, T) -> bool, x: T, y: T, s: seq<T>) returns (u: seq<T>, v: seq<T>)
    requires IsTotalPreorder(leq) && leq(x, y) && leq(y, x)
    ensures Insert(leq, x, Insert(leq, y, s)) == u + [x, y] + v
    ensures Insert(leq, y, Insert(leq, x, s)) == u + [y, x] + v
  {
    if s == [] || leq(x, s[0]) {
      u, v := [], s;
      assert ([x] + s)[0] == x && ([y] + s)[0] == y;
    } else {
      u, v := InsertTied(leq, x, y, s[1..]);
      u := [s[0]] + u;
      assert Insert(leq, y, s) == [s[0]] + Insert(leq, y, s[1..]);
      assert Insert(leq, x, s) == [s[0]] + Insert(leq, x, s[1..]);
      assert Insert(leq, y, s)[1..] == Insert(leq, y, s[1..]) && Insert(leq, x, s)[1..] == Insert(leq, x, s[1..]);
    }
  }

  method SortSeq<T(!new)>(leq: (T, T) -> bool, s: seq<T>) returns (r: seq<T>)
    requires IsTotalPreorder(leq)
    ensures multiset(r) == multiset(s)
    ensures SortedBy(leq, r)
  {
    StableSortSorts(leq, s);
    r := StableSort(leq, s);
  }

  method SortArray<T(!new)>(leq: (T, T) -> bool, a: array<T>)
    requires IsTotalPreorder(leq)
    modifies a
    ensures multiset(a[..]) == multiset(old(a[..]))
    ensures SortedBy(leq, a[..])
  {
    var r := SortSeq(leq, a[..]);
    assert |multiset(r)| == |multiset(a[..])|;
    forall i | 0 <= i < a.Length { a[i] := r[i]; }
    assert a[..] == r;
  }

  // ---- Selections and orders, said of places ----

  /** picked are the elements of s that pass, each as often as it occurs and in its order: idx are their places. */
  ghost predicate PickedAt<T(!new)>(test: T -> bool, s: seq<T>, picked: seq<T>, idx: seq<int>) {
    |idx| == |picked| &&
    (forall n | 0 <= n < |idx| :: 0 <= idx[n] < |s| && picked[n] == s[idx[n]] && test(s[idx[n]])) &&
    (forall m, n | 0 <= m < n < |idx| :: idx[m] < idx[n]) &&
    (forall i | 0 <= i < |s| && test(s[i]) :: i in idx)
  }

  ghost predicate Picks<T(!new)>(test: T -> bool, s: seq<T>, picked: seq<T>) {
    exists idx :: PickedAt(test, s, picked, idx)
  }

  lemma PickNothing<T(!new)>(test: T -> bool)
    ensures Picks(test, [], [])
  {
    assert PickedAt(test, [], [], []);
  }

  lemma PickSame<T(!new)>(test: T -> bool, s: seq<T>, picked: seq<T>, idx: seq<int>, x: T)
    requires PickedAt(test, s, picked, idx) && !test(x)
    ensures PickedAt(test, s + [x], picked, idx)
  {
  }

  lemma PickNext<T(!new)>(test: T -> bool, s: seq<T>, picked: seq<T>, idx: seq<int>, x: T)
    requires PickedAt(test, s, picked, idx) && test(x)
    ensures PickedAt(test, s + [x], picked + [x], idx + [|s|])
  {
    var all, idx' := s + [x], idx + [|s|];
    assert idx'[|idx|] == |s|;
    forall i | 0 <= i < |s| && test(all[i]) ensures i in idx' { assert all[i] == s[i] && i in idx; }
  }

  lemma {:induction false} PickOneMore<T(!new)>(test: T -> bool, s: seq<T>, picked: seq<T>, x: T)
    requires Picks(test, s, picked)
    ensures Picks(test, s + [x], if test(x) then picked + [x] else picked)
  {
    var idx :| PickedAt(test, s, picked, idx);
    if test(x) { PickNext(test, s, picked, idx, x); } else { PickSame(test, s, picked, idx, x); }
  }

  predicate PairInOrder<T(!new)>(leq: (T, T) -> bool, sorted: seq<T>, idx: seq<int>, m: nat, n: nat)
    requires m < n < |sorted| == |idx|
  {
    leq(sorted[m], sorted[n]) && (leq(sorted[n], sorted[m]) ==> idx[m] < idx[n])
  }

  /** sorted is s in that order, ties in their order: idx are the places the elements come from. */
  ghost predicate PlacedAt<T(!new)>(leq: (T, T) -> bool, s: seq<T>, sorted: seq<T>, idx: seq<int>) {
    |idx| == |sorted| == |s| &&
    (forall n | 0 <= n < |idx| :: 0 <= idx[n] < |s| && sorted[n] == s[idx[n]]) &&
    (forall i | 0 <= i < |s| :: i in idx) &&
    forall m, n | 0 <= m < n < |idx| :: PairInOrder(leq, sorted, idx, m, n)
  }

  ghost predicate IsStablySorted<T(!new)>(leq: (T, T) -> bool, s: seq<T>, sorted: seq<T>) {
    exists idx :: PlacedAt(leq, s, sorted, idx)
  }

  lemma {:induction false} InsertPlace<T>(leq: (T, T) -> bool, x: T, s: seq<T>) returns (p: nat)
    ensures p <= |s| && Insert(leq, x, s) == s[..p] + [x] + s[p..]
    ensures (forall i | 0 <= i < p :: !leq(x, s[i])) && (p < |s| ==> leq(x, s[p]))
  {
    if s == [] || leq(x, s[0]) {
      p := 0;
    } else {
      p := InsertPlace(leq, x, s[1..]);
      p := p + 1;
    }
  }

  /** The places once x stands in front of the list and at p in the order. */
  function Shifted(idx: seq<int>, p: nat): seq<int>
    requires p <= |idx|
  {
    seq(|idx| + 1, n requires 0 <= n <= |idx| => if n < p then idx[n] + 1 else if n == p then 0 else idx[n - 1] + 1)
  }

  lemma ShiftedCovers(idx: seq<int>, p: nat, i: int)
    requires p <= |idx| && (i == 0 || i - 1 in idx)
    ensures i in Shifted(idx, p)
  {
    if i == 0 {
      assert Shifted(idx, p)[p] == 0;
    } else {
      var n :| 0 <= n < |idx| && idx[n] == i - 1;
      assert Shifted(idx, p)[if n < p then n else n + 1] == i;
    }
  }

  lemma PlacedInsert<T(!new)>(leq: (T, T) -> bool, x: T, s: seq<T>, sorted: seq<T>, idx: seq<int>, p: nat)
    requires IsTotalPreorder(leq) && PlacedAt(leq, s, sorted, idx) && p <= |sorted|
    requires (forall i | 0 <= i < p :: !leq(x, sorted[i])) && (p < |sorted| ==> leq(x, sorted[p]))
    ensures PlacedAt(leq, [x] + s, sorted[..p] + [x] + sorted[p..], Shifted(idx, p))
  {
    var all, r, idx' := [x] + s, sorted[..p] + [x] + sorted[p..], Shifted(idx, p);
    forall i | 0 <= i < |all| ensures i in idx' { ShiftedCovers(idx, p, i); }
    forall m, n | 0 <= m < n < |idx'| ensures PairInOrder(leq, r, idx', m, n) { InsertedPair(leq, x, sorted, idx, p, m, n); }
  }

  lemma InsertedPair<T(!new)>(leq: (T, T) -> bool, x: T, sorted: seq<T>, idx: seq<int>, p: nat, m: nat, n: nat)
    requires IsTotalPreorder(leq) && |idx| == |sorted| && forall i | 0 <= i < |idx| :: idx[i] >= 0
    requires forall i, j | 0 <= i < j < |idx| :: PairInOrder(leq, sorted, idx, i, j)
    requires p <= |sorted| && (forall i | 0 <= i < p :: !leq(x, sorted[i])) && (p < |sorted| ==> leq(x, sorted[p]))
    requires m < n <= |idx|
    ensures PairInOrder(leq, sorted[..p] + [x] + sorted[p..], Shifted(idx, p), m, n)
  {
    var i, j := if m < p then m else m - 1, if n < p then n else n - 1;
    if m == p {
      if p < j { assert PairInOrder(leq, sorted, idx, p, j); }
    } else if n != p {
      assert PairInOrder(leq, sorted, idx, i, j);
    }
  }

  /** The stable sort is that order, whatever the list and its ties. */
  lemma {:induction false} StableSortPlaces<T(!new)>(leq: (T, T) -> bool, s: seq<T>)
    requires IsTotalPreorder(leq)
    ensures IsStablySorted(leq, s, StableSort(leq, s))
  {
    if s == [] {
      assert PlacedAt(leq, s, [], []);
    } else {
      StableSortPlaces(leq, s[1..]);
      StablyInserted(leq, s[0], s[1..], StableSort(leq, s[1..]));
      assert [s[0]] + s[1..] == s;
    }
  }

  lemma {:induction false} StablyInserted<T(!new)>(leq: (T, T) -> bool, x: T, s: seq<T>, sorted: seq<T>)
    requires IsTotalPreorder(leq) && IsStablySorted(leq, s, sorted)
    ensures IsStablySorted(leq, [x] + s, Insert(leq, x, sorted))
  {
    var idx :| PlacedAt(leq, s, sorted, idx);
    var p := InsertPlace(leq, x, sorted);
    PlacedInsert(leq, x, s, sorted, idx, p);
  }

  lemma {:induction false} FilterSnoc<T>(p: T -> bool, s: seq<T>, x: T)
    ensures Filter(p, s + [x]) == if p(x) then Filter(p, s) + [x] else Filter(p, s)
  {
    if s == [] {
      assert [] + [x] == [x] && [x][1..] == [];
    } else {
      var head, rest := if p(s[0]) then [s[0]] else [], Filter(p, s[1..]);
      assert (s + [x])[1..] == s[1..] + [x] && (s + [x])[0] == s[0];
      FilterSnoc(p, s[1..], x);
      assert head + (rest + [x]) == (head + rest) + [x];
    }
  }

  lemma FilterTake<T>(p: T -> bool, s: seq<T>, i: nat)
    requires i < |s|
    ensures Filter(p, s[..i + 1]) == if p(s[i]) then Filter(p, s[..i]) + [s[i]] else Filter(p, s[..i])
  {
    FilterSnoc(p, s[..i], s[i]);
    assert s[..i + 1] == s[..i] + [s[i]];
  }

  lemma {:induction false} FilterBuild<T(!new)>(p: T -> bool, s: seq<T>, related: (seq<T>, seq<T>) -> bool)
    requires related([], [])
    requires forall t, m, x | related(t, m) :: related(t + [x], if p(x) then m + [x] else m)
    ensures related(s, Filter(p, s))
  {
    if s != [] {
      var n := |s| - 1;
      FilterBuild(p, s[..n], related);
      FilterSnoc(p, s[..n], s[n]);
      assert s == s[..n] + [s[n]];
    }
  }

  /** A filtered list is the selection of what passes. */
  lemma {:induction false} FilterPicks<T(!new)>(p: T -> bool, s: seq<T>)
    ensures Picks(p, s, Filter(p, s))
  {
    PickNothing(p);
    forall t, m, x | Picks(p, t, m) ensures Picks(p, t + [x], if p(x) then m + [x] else m) { PickOneMore(p, t, m, x); }
    FilterBuild(p, s, (t, m) => Picks(p, t, m));
  }

  /** Without ties there is only one sorted order. */
  lemma {:induction false} SortedUnique<T(!new)>(leq: (T, T) -> bool, s: seq<T>, t: seq<T>)
    requires SortedBy(leq, s) && SortedBy(leq, t) && multiset(s) == multiset(t)
    requires forall x, y | x in s && y in s && leq(x, y) && leq(y, x) :: x == y
    ensures s == t
  {
    if s == [] {
      assert |multiset(t)| == 0;
    } else {
      FirstIsLeast(leq, s, t);
      assert s == [s[0]] + s[1..] && t == [s[0]] + t[1..];
      SameRest(s[0], s[1..], t[1..]);
      SortedUnique(leq, s[1..], t[1..]);
    }
  }

  lemma SameRest<T>(x: T, s: seq<T>, t: seq<T>)
    requires multiset([x] + s) == multiset([x] + t)
    ensures multiset(s) == multiset(t)
  {
    assert multiset([x] + s) == multiset{x} + multiset(s) && multiset([x] + t) == multiset{x} + multiset(t);
    assert multiset{x} + multiset(s) - multiset{x} == multiset(s);
    assert multiset{x} + multiset(t) - multiset{x} == multiset(t);
  }

  lemma FirstIsLeast<T(!new)>(leq: (T, T) -> bool, s: seq<T>, t: seq<T>)
    requires s != [] && SortedBy(leq, s) && SortedBy(leq, t) && multiset(s) == multiset(t)
    requires forall x, y | x in s && y in s && leq(x, y) && leq(y, x) :: x == y
    ensures t != [] && s[0] == t[0]
  {
    assert s[0] in multiset(t);
    assert t[0] in multiset(s);
    var i :| 0 <= i < |t| && t[i] == s[0];
    var j :| 0 <= j < |s| && s[j] == t[0];
  }

  lemma TwoCopies<T>(s: seq<T>, i: nat, j: nat)
    requires i < j < |s| && s[i] == s[j]
    ensures multiset(s)[s[i]] >= 2
  {
    assert s == s[..j] + [s[j]] + s[j + 1..];
    assert s[i] in s[..j];
  }

  /** A list without repetitions holds each member of its set once. */
  lemma {:induction false} DistinctIsSet<T>(s: seq<T>, all: set<T>)
    requires forall i, j | 0 <= i < j < |s| :: s[i] != s[j]
    requires forall x :: x in s <==> x in all
    ensures multiset(s) == multiset(all)
  {
    if s == [] {
      assert all == {};
    } else {
      var n := |s| - 1;
      assert s == s[..n] + [s[n]];
      DistinctIsSet(s[..n], all - {s[n]});
      assert all == all - {s[n]} + {s[n]};
    }
  }
}
