/** Comparing two list arguments, in place. */
module FixedArgs {
  import opened Common
  import opened Sorting

  function Elements(s: seq<string>): set<string> { set x | x in s }

  function SortedTexts(s: seq<string>): seq<string> { StableSort(TextLeq, s) }

  /** The first element of every run of equal elements. */
  function Dedup(s: seq<string>): (r: seq<string>)
    ensures |r| <= |s|
  {
    if |s| <= 1 then s
    else
      var n := |s| - 1;
      if s[n] != s[n - 1] then Dedup(s[..n]) + [s[n]] else Dedup(s[..n])
  }

  lemma SortedTextsProperties(s: seq<string>)
    ensures SortedBy(TextLeq, SortedTexts(s)) && multiset(SortedTexts(s)) == multiset(s)
    ensures Elements(SortedTexts(s)) == Elements(s) && |SortedTexts(s)| == |s|
  {
    TextLeqIsOrder();
    StableSortSorts(TextLeq, s);
    assert forall x :: x in s <==> x in multiset(s);
    assert forall x :: x in SortedTexts(s) <==> x in multiset(SortedTexts(s));
    assert |multiset(SortedTexts(s))| == |multiset(s)|;
  }

  method SortStrings(a: array<string>)
    modifies a
    ensures a[..] == SortedTexts(old(a[..]))
  {
    TextLeqIsOrder();
    SortedTextsProperties(a[..]);
    ghost var before := a[..];
    SortArray(TextLeq, a);
    SortedUnique(TextLeq, a[..], SortedTexts(before));
  }

  /** Compacts the runs to the front and leaves the rest of the array as it was. */
  method RemoveDuplicates(s: array<string>) returns (j: nat)
    modifies s
    ensures j == |Dedup(old(s[..]))|
    ensures s[..] == Dedup(old(s[..])) + old(s[..])[j..]
  {
    ghost var o := s[..];
    if s.Length == 0 { return 0; }
    j := 1;
    assert o[..1] == s[..1];
    for i := 1 to s.Length
      invariant 1 <= j <= i
      invariant s[..j] == Dedup(o[..i])
      invariant forall k | j <= k < s.Length :: s[k] == o[k]
      invariant s[i - 1] == o[i - 1]
    {
      assert o[..i+1][..i] == o[..i];
      if s[i] != s[i - 1] {
        s[j] := s[i];
        j := j + 1;
        assert s[..j] == s[..j-1] + [o[i]];
      }
    }
    assert o[..s.Length] == o;
    assert s[..] == s[..j] + o[j..];
  }

  // ---- What compaction keeps ----

  ghost predicate StrictlySorted(s: seq<string>) {
    forall i, j | 0 <= i < j < |s| :: TextLess(s[i], s[j])
  }

  lemma {:induction false} DedupKeepsElements(s: seq<string>)
    ensures forall x :: x in Dedup(s) <==> x in s
    ensures Elements(Dedup(s)) == Elements(s)
  {
    if |s| > 1 {
      var n := |s| - 1;
      DedupKeepsElements(s[..n]);
      assert s == s[..n] + [s[n]];
      assert s[n - 1] in s[..n];
      forall x ensures x in Dedup(s) <==> x in s {
        assert x in s <==> x in s[..n] || x == s[n];
        assert x in Dedup(s) <==> x in Dedup(s[..n]) || (s[n] != s[n - 1] && x == s[n]);
      }
    }
  }

  lemma {:induction false} DedupKeepsEnds(s: seq<string>)
    requires s != []
    ensures Dedup(s) != [] && Dedup(s)[0] == s[0] && Dedup(s)[|Dedup(s)| - 1] == s[|s| - 1]
  {
    if |s| > 1 { DedupKeepsEnds(s[..|s| - 1]); }
  }

  lemma {:induction false} DedupOfSorted(s: seq<string>)
    requires SortedBy(TextLeq, s)
    ensures StrictlySorted(Dedup(s))
  {
    if |s| > 1 {
      var n := |s| - 1;
      DedupOfSorted(s[..n]);
      DedupKeepsElements(s[..n]);
      if s[n] != s[n - 1] {
        forall x | x in Dedup(s[..n]) ensures TextLess(x, s[n]) {
          assert x in s[..n];
          if x != s[n - 1] { assert TextLeq(x, s[n - 1]); }
          StrictlyBefore(x, s[n - 1], s[n]);
        }
      }
    }
  }

  lemma StrictlyBefore(x: string, p: string, q: string)
    requires (x == p || TextLeq(x, p)) && TextLess(p, q)
    ensures TextLess(x, q)
  {
    if x != p {
      TextTransitive(x, p, q);
      if x == q { TextAntisymmetric(p, q); }
    }
  }

  lemma {:induction false} DedupOfStrict(s: seq<string>)
    requires StrictlySorted(s)
    ensures Dedup(s) == s
  {
    if |s| > 1 {
      var n := |s| - 1;
      DedupOfStrict(s[..n]);
      assert TextLess(s[n - 1], s[n]);
      assert s == s[..n] + [s[n]];
    }
  }

  lemma NoElements(t: seq<string>)
    ensures Elements(t) == {} <==> t == []
  {
    if t != [] { assert t[0] in Elements(t); }
  }

  /** Two strictly sorted lists with the same elements are the same list. */
  lemma {:induction false} StrictUnique(s: seq<string>, t: seq<string>)
    requires StrictlySorted(s) && StrictlySorted(t) && Elements(s) == Elements(t)
    ensures s == t
  {
    TextLeqIsOrder();
    if s == [] {
      NoElements(t);
    } else {
      assert s[0] in Elements(t);
      assert t != [] && t[0] in Elements(s);
      assert s[0] == t[0];
      assert s == [s[0]] + s[1..] && t == [t[0]] + t[1..];
      forall x ensures x in s[1..] <==> x in t[1..] {
        assert x in Elements(s) <==> x in Elements(t);
        assert x in s[1..] ==> TextLess(s[0], x);
        assert x in t[1..] ==> TextLess(t[0], x);
      }
      assert Elements(s[1..]) == Elements(t[1..]);
      StrictUnique(s[1..], t[1..]);
    }
  }

  lemma SetsDecide(s: seq<string>, t: seq<string>)
    ensures Dedup(SortedTexts(s)) == Dedup(SortedTexts(t)) <==> Elements(s) == Elements(t)
  {
    SortedTextsProperties(s);
    SortedTextsProperties(t);
    DedupOfSorted(SortedTexts(s));
    DedupOfSorted(SortedTexts(t));
    DedupKeepsElements(SortedTexts(s));
    DedupKeepsElements(SortedTexts(t));
    if Elements(s) == Elements(t) { StrictUnique(Dedup(SortedTexts(s)), Dedup(SortedTexts(t))); }
  }

  lemma {:induction false} RunsOfConcat(u: seq<string>, v: seq<string>)
    requires u != [] && v != []
    ensures |Dedup(u + v)| == |Dedup(u)| + |Dedup(v)| - (if u[|u| - 1] == v[0] then 1 else 0)
  {
    var n := |v| - 1;
    assert (u + v)[..|u + v| - 1] == u + v[..n];
    if n == 0 {
      assert u + v[..n] == u;
    } else {
      RunsOfConcat(u, v[..n]);
    }
  }

  /** A list compared with itself, sharing one array, is compacted twice. The second pass finds as
      many runs as the first exactly when nothing but copies of the greatest element is left over. */
  lemma CompactedTwice(s: seq<string>)
    requires s != [] && SortedBy(TextLeq, s)
    ensures |Dedup(Compacted(s))| == |Dedup(s)| <==> (|Dedup(s)| == |s| || s[|Dedup(s)|] == s[|s| - 1])
  {
    var u := Dedup(s);
    var d := |u|;
    DedupOfSorted(s);
    DedupKeepsEnds(s);
    DedupOfStrict(u);
    if d < |s| {
      RunsOfConcat(u, s[d..]);
      OneRun(s[d..]);
      if s[d] == s[|s| - 1] { assert s[d..][0] == u[d - 1]; }
    } else {
      assert u + s[d..] == u;
    }
  }

  lemma OneRun(v: seq<string>)
    requires v != [] && SortedBy(TextLeq, v)
    ensures |Dedup(v)| >= 1
    ensures |Dedup(v)| == 1 <==> v[0] == v[|v| - 1]
  {
    DedupKeepsEnds(v);
    DedupOfSorted(v);
    var n := |Dedup(v)| - 1;
    if n > 0 { assert TextLess(Dedup(v)[0], Dedup(v)[n]); }
  }

  /** What an array holds after its runs were compacted. */
  function Compacted(s: seq<string>): seq<string> { Dedup(s) + s[|Dedup(s)|..] }

  lemma CompactedKeepsElements(s: seq<string>)
    ensures Elements(Compacted(s)) == Elements(s)
  {
    DedupKeepsElements(s);
    assert forall x | x in s[|Dedup(s)|..] :: x in s;
    assert forall x :: x in Compacted(s) <==> x in s;
  }

  lemma SortedAgain(s: seq<string>)
    ensures SortedTexts(SortedTexts(s)) == SortedTexts(s)
  {
    TextLeqIsOrder();
    SortedTextsProperties(s);
    SortedTextsProperties(SortedTexts(s));
    SortedUnique(TextLeq, SortedTexts(SortedTexts(s)), SortedTexts(s));
  }

  /** The comparison of the two compacted prefixes. */
  method SamePrefix(a: array<string>, n: nat, x: array<string>, m: nat) returns (equal: bool)
    requires n <= a.Length && m <= x.Length
    ensures equal <==> a[..n] == x[..m]
  {
    if n != m { return false; }
    for i := 0 to n
      invariant a[..i] == x[..i]
    {
      if a[i] != x[i] {
        assert a[..n][i] != x[..n][i];
        return false;
      }
    }
    equal := true;
  }

  method SortAndCompact(a: array<string>, x: array<string>) returns (n: nat, m: nat)
    requires a != x
    modifies a, x
    ensures a[..] == Compacted(SortedTexts(old(a[..]))) && n == |Dedup(SortedTexts(old(a[..])))|
    ensures x[..] == Compacted(SortedTexts(old(x[..]))) && m == |Dedup(SortedTexts(old(x[..])))|
  {
    SortStrings(a);
    SortStrings(x);
    n := RemoveDuplicates(a);
    m := RemoveDuplicates(x);
  }

  method SortAndCompactShared(a: array<string>) returns (n: nat, m: nat)
    modifies a
    ensures var s := SortedTexts(old(a[..]));
      a[..] == Compacted(Compacted(s)) && n == |Dedup(s)| && m == |Dedup(Compacted(s))|
  {
    SortedAgain(a[..]);
    SortStrings(a);
    SortStrings(a);
    n := RemoveDuplicates(a);
    m := RemoveDuplicates(a);
  }

  /** Two lists with arrays of their own are equal exactly when they have the same elements, and
      although both arrays are rewritten, neither loses or gains an element. */
  method EqualLists(a: array<string>, x: array<string>) returns (equal: bool)
    requires a.Length > 0 && x.Length > 0 && a != x
    modifies a, x
    ensures equal <==> Elements(old(a[..])) == Elements(old(x[..]))
    ensures Elements(a[..]) == Elements(old(a[..])) && Elements(x[..]) == Elements(old(x[..]))
  {
    ghost var a0, x0 := a[..], x[..];
    SetsDecide(a0, x0);
    SortedTextsProperties(a0);
    SortedTextsProperties(x0);
    CompactedKeepsElements(SortedTexts(a0));
    CompactedKeepsElements(SortedTexts(x0));
    var n, m := SortAndCompact(a, x);
    assert a[..n] == a[..][..n] && x[..m] == x[..][..m];
    equal := SamePrefix(a, n, x, m);
  }

  /** One array behind both arguments is found equal to itself only when all its surplus copies are
      copies of the greatest element, or it has none; its elements are kept all the same. */
  method EqualSharedList(a: array<string>) returns (equal: bool)
    requires a.Length > 0
    modifies a
    ensures var s := SortedTexts(old(a[..]));
      |s| == a.Length && (equal <==> (|Dedup(s)| == |s| || s[|Dedup(s)|] == s[|s| - 1]))
    ensures Elements(a[..]) == Elements(old(a[..]))
  {
    ghost var a0 := a[..];
    SortedTextsProperties(a0);
    CompactedTwice(SortedTexts(a0));
    CompactedKeepsElements(SortedTexts(a0));
    CompactedKeepsElements(Compacted(SortedTexts(a0)));
    var n, m := SortAndCompactShared(a);
    equal := SamePrefix(a, n, a, m);
    if n != m { assert |a[..n]| != |a[..m]|; }
  }
}
