/** Sorting integers and the ranks of the sorted positions. */
module OrderStatistics {
  function Insert(x: int, s: seq<int>): (r: seq<int>)
    ensures |r| == |s| + 1
  {
    if s == [] || x <= s[0] then [x] + s else [s[0]] + Insert(x, s[1..])
  }

  function Sorted(s: seq<int>): (r: seq<int>)
    ensures |r| == |s|
  {
    if s == [] then [] else Insert(s[0], Sorted(s[1..]))
  }

  predicate Ascending(s: seq<int>) {
    forall i, j :: 0 <= i < j < |s| ==> s[i] <= s[j]
  }

  function CountAtMost(s: seq<int>, m: int): (c: nat)
    ensures c <= |s|
  {
    if s == [] then 0 else (if s[0] <= m then 1 else 0) + CountAtMost(s[1..], m)
  }

  lemma {:induction false} InsertPermutes(x: int, s: seq<int>)
    ensures multiset(Insert(x, s)) == multiset(s) + multiset{x}
  {
    if s == [] || x <= s[0] {
    } else {
      InsertPermutes(x, s[1..]);
      assert s == [s[0]] + s[1..];
    }
  }

  lemma {:induction false} InsertAbove(lo: int, x: int, s: seq<int>)
    requires lo <= x && forall i :: 0 <= i < |s| ==> lo <= s[i]
    ensures forall i :: 0 <= i < |s| + 1 ==> lo <= Insert(x, s)[i]
  {
    if s == [] || x <= s[0] {
    } else {
      InsertAbove(lo, x, s[1..]);
    }
  }

  lemma {:induction false} InsertAscends(x: int, s: seq<int>)
    requires Ascending(s)
    ensures Ascending(Insert(x, s))
  {
    if s == [] || x <= s[0] {
    } else {
      InsertAscends(x, s[1..]);
      InsertAbove(s[0], x, s[1..]);
    }
  }

  lemma {:induction false} InsertCounts(x: int, s: seq<int>, m: int)
    ensures CountAtMost(Insert(x, s), m) == CountAtMost(s, m) + if x <= m then 1 else 0
  {
    if s == [] || x <= s[0] {
      assert ([x] + s)[1..] == s;
    } else {
      InsertCounts(x, s[1..], m);
      assert ([s[0]] + Insert(x, s[1..]))[1..] == Insert(x, s[1..]);
    }
  }

  /** Sorting orders its input and permutes it. */
  lemma {:induction false} SortedIsAscendingPermutation(s: seq<int>)
    ensures Ascending(Sorted(s))
    ensures multiset(Sorted(s)) == multiset(s)
  {
    if s == [] {
    } else {
      SortedIsAscendingPermutation(s[1..]);
      InsertAscends(s[0], Sorted(s[1..]));
      InsertPermutes(s[0], Sorted(s[1..]));
      assert s == [s[0]] + s[1..];
    }
  }

  lemma {:induction false} SortedCounts(s: seq<int>, m: int)
    ensures CountAtMost(Sorted(s), m) == CountAtMost(s, m)
  {
    if s == [] {
    } else {
      SortedCounts(s[1..], m);
      InsertCounts(s[0], Sorted(s[1..]), m);
    }
  }

  lemma LastIsBounded(s: seq<int>, t: seq<int>)
    requires s != [] && t != [] && Ascending(t) && multiset(s) == multiset(t)
    ensures s[|s| - 1] <= t[|t| - 1]
  {
    assert s[|s| - 1] in multiset(t);
    var i :| 0 <= i < |t| && t[i] == s[|s| - 1];
  }

  lemma SameRest(a: multiset<int>, b: multiset<int>, x: int)
    requires a + multiset{x} == b + multiset{x}
    ensures a == b
  {
    assert a == (a + multiset{x}) - multiset{x} == b;
  }

  /** Any ascending permutation is the sorted sequence, so the choice of sorting algorithm does not matter. */
  lemma {:induction false} SortedIsUnique(s: seq<int>, t: seq<int>)
    requires Ascending(s) && Ascending(t) && multiset(s) == multiset(t)
    ensures s == t
  {
    assert |s| == |multiset(s)| == |multiset(t)| == |t|;
    if s == [] {
    } else {
      var n := |s| - 1;
      var u, v := s[..n], t[..n];
      LastIsBounded(s, t);
      LastIsBounded(t, s);
      assert s == u + [s[n]] && t == v + [t[n]];
      assert multiset(s) == multiset(u) + multiset{s[n]};
      assert multiset(t) == multiset(v) + multiset{s[n]};
      SameRest(multiset(u), multiset(v), s[n]);
      SortedIsUnique(u, v);
    }
  }

  lemma {:induction false} NoneAtMost(s: seq<int>, m: int)
    requires forall i :: 0 <= i < |s| ==> m < s[i]
    ensures CountAtMost(s, m) == 0
  {
    if s == [] {
    } else {
      NoneAtMost(s[1..], m);
    }
  }

  lemma {:induction false} AscendingRank(s: seq<int>, m: int, k: nat)
    requires Ascending(s) && k < |s|
    ensures s[k] <= m <==> k < CountAtMost(s, m)
  {
    if m < s[0] {
      assert forall i :: 0 <= i < |s| ==> m < s[i];
      NoneAtMost(s, m);
    } else if 0 < k {
      AscendingRank(s[1..], m, k - 1);
    }
  }

  /** The value at a sorted position is at most `m` exactly when more than that many values are. */
  lemma Rank(s: seq<int>, m: int, k: nat)
    requires k < |s|
    ensures Sorted(s)[k] <= m <==> k < CountAtMost(s, m)
  {
    SortedIsAscendingPermutation(s);
    SortedCounts(s, m);
    AscendingRank(Sorted(s), m, k);
  }

  /** A value stands at sorted position `k` exactly when at most `k` values are below it
      and more than `k` are not above it. */
  lemma RankIsExact(s: seq<int>, x: int, k: nat)
    requires k < |s|
    ensures Sorted(s)[k] == x <==> CountAtMost(s, x - 1) <= k < CountAtMost(s, x)
  {
    Rank(s, x, k);
    Rank(s, x - 1, k);
  }

  lemma SortedMember(s: seq<int>, k: nat)
    requires k < |s|
    ensures Sorted(s)[k] in s
  {
    SortedIsAscendingPermutation(s);
    assert Sorted(s)[k] in multiset(Sorted(s));
  }

  /** What `sort_unstable` leaves in an array. */
  method SortInPlace(a: array<int>)
    modifies a
    ensures a[..] == Sorted(old(a[..]))
  {
    var s := Sorted(a[..]);
    forall i | 0 <= i < a.Length {
      a[i] := s[i];
    }
  }
}
