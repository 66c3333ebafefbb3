/** Counting, and scattering elements to their ranks: when every element is written to the position given by the number
    of elements before it in some strict total order, the result is a permutation in that order. */
module RankScatter {
  import opened SeqEdit

  /** The number of i < n with p(i). */
  ghost function Num(n: nat, p: int -> bool): (r: nat)
    ensures r <= n
  {
    if n == 0 then 0 else Num(n - 1, p) + if p(n - 1) then 1 else 0
  }

  lemma {:induction false} NumSame(n: nat, p: int -> bool, q: int -> bool)
    requires forall i :: 0 <= i < n ==> p(i) == q(i)
    ensures Num(n, p) == Num(n, q)
  {
    if n > 0 { NumSame(n - 1, p, q); }
  }

  lemma {:induction false} NumLess(n: nat, p: int -> bool, q: int -> bool)
    requires forall i :: 0 <= i < n && p(i) ==> q(i)
    ensures Num(n, p) <= Num(n, q)
  {
    if n > 0 { NumLess(n - 1, p, q); }
  }

  lemma {:induction false} NumStrict(n: nat, p: int -> bool, q: int -> bool, k: int)
    requires (forall i :: 0 <= i < n && p(i) ==> q(i)) && 0 <= k < n && q(k) && !p(k)
    ensures Num(n, p) < Num(n, q)
  {
    if k < n - 1 { NumStrict(n - 1, p, q, k); } else { NumLess(n - 1, p, q); }
  }

  /** Splitting a count into two disjoint ones. */
  lemma {:induction false} NumSplit(n: nat, p: int -> bool, q: int -> bool, r: int -> bool)
    requires forall i :: 0 <= i < n ==> !(q(i) && r(i)) && (p(i) <==> q(i) || r(i))
    ensures Num(n, p) == Num(n, q) + Num(n, r)
  {
    if n > 0 { NumSplit(n - 1, p, q, r); }
  }

  lemma {:induction false} NumNone(n: nat, p: int -> bool)
    requires forall i :: 0 <= i < n ==> !p(i)
    ensures Num(n, p) == 0
  {
    if n > 0 { NumNone(n - 1, p); }
  }

  lemma {:induction false} NumAll(n: nat, p: int -> bool)
    requires forall i :: 0 <= i < n ==> p(i)
    ensures Num(n, p) == n
  {
    if n > 0 { NumAll(n - 1, p); }
  }

  /** Counting no further than where the property can hold. */
  lemma {:induction false} NumShort(m: nat, n: nat, p: int -> bool)
    requires m <= n && forall i :: m <= i < n ==> !p(i)
    ensures Num(n, p) == Num(m, p)
  {
    if m < n { NumShort(m, n - 1, p); }
  }

  /** The number of elements of s with p. */
  ghost function CountIn(s: seq<int>, p: int -> bool): nat {
    if s == [] then 0 else CountIn(s[..|s| - 1], p) + if p(s[|s| - 1]) then 1 else 0
  }

  lemma {:induction false} CountConcat(a: seq<int>, b: seq<int>, p: int -> bool)
    ensures CountIn(a + b, p) == CountIn(a, p) + CountIn(b, p)
  {
    if b == [] {
      assert a + b == a;
    } else {
      var n := |b| - 1;
      CountConcat(a, b[..n], p);
      assert (a + b)[..|a + b| - 1] == a + b[..n];
    }
  }

  lemma CountInserted(s: seq<int>, k: nat, v: int, p: int -> bool)
    requires k <= |s|
    ensures CountIn(InsertAt(s, k, v), p) == CountIn(s, p) + if p(v) then 1 else 0
  {
    hide CountIn;
    var a, b := s[..k], s[k..];
    assert a + b == s && InsertAt(s, k, v) == (a + [v]) + b;
    CountConcat(a, b, p);
    CountConcat(a, [v], p);
    CountConcat(a + [v], b, p);
    CountOne(v, p);
  }

  lemma CountOne(v: int, p: int -> bool)
    ensures CountIn([v], p) == if p(v) then 1 else 0
  {
    assert [v][..0] == [];
  }

  /** A count over a sequence only depends on its multiset. */
  lemma {:induction false} CountPermutation(a: seq<int>, b: seq<int>, p: int -> bool)
    requires multiset(a) == multiset(b)
    ensures CountIn(a, p) == CountIn(b, p)
    decreases |a|
  {
    if a == [] {
      EmptyPermutation(a, b);
    } else {
      var k := FindLast(a, b);
      CountPermutation(a[..|a| - 1], RemoveAt(b, k), p);
      CountInserted(RemoveAt(b, k), k, b[k], p);
    }
  }

  lemma {:induction false} CountIsNum(s: seq<int>, p: int -> bool, q: int -> bool)
    requires forall i :: 0 <= i < |s| ==> q(i) == p(s[i])
    ensures CountIn(s, p) == Num(|s|, q)
  {
    if s != [] { CountIsNum(s[..|s| - 1], p, q); }
  }

  // ---- Ranks ------------------------------------------------------------------------------------

  /** A strict total order of the positions below n. */
  ghost predicate TotalOrder(n: nat, lt: (int, int) -> bool) {
    (forall i :: 0 <= i < n ==> !lt(i, i)) &&
    (forall i, j :: 0 <= i < n && 0 <= j < n && i != j ==> lt(i, j) || lt(j, i)) &&
    (forall i, j, k :: 0 <= i < n && 0 <= j < n && 0 <= k < n && lt(i, j) && lt(j, k) ==> lt(i, k))
  }

  ghost function Rank(n: nat, lt: (int, int) -> bool, i: int): nat {
    Num(n, j => lt(j, i))
  }

  lemma RankBelow(n: nat, lt: (int, int) -> bool, i: int)
    requires TotalOrder(n, lt) && 0 <= i < n
    ensures Rank(n, lt, i) < n
  {
    NumStrict(n, j => lt(j, i), j => true, i);
  }

  lemma RankOrder(n: nat, lt: (int, int) -> bool, i: int, j: int)
    requires TotalOrder(n, lt) && 0 <= i < n && 0 <= j < n
    ensures lt(i, j) <==> Rank(n, lt, i) < Rank(n, lt, j)
    ensures i != j ==> Rank(n, lt, i) != Rank(n, lt, j)
  {
    if lt(i, j) { NumStrict(n, k => lt(k, i), k => lt(k, j), i); }
    if lt(j, i) { NumStrict(n, k => lt(k, j), k => lt(k, i), j); }
  }

  ghost function Ranks(n: nat, lt: (int, int) -> bool): (r: seq<int>)
    ensures |r| == n && forall i :: 0 <= i < n ==> r[i] == Rank(n, lt, i)
  {
    seq(n, i requires 0 <= i < n => Rank(n, lt, i))
  }

  lemma RanksDistinct(n: nat, lt: (int, int) -> bool)
    requires TotalOrder(n, lt)
    ensures AllDistinct(Ranks(n, lt)) && forall i :: 0 <= i < n ==> 0 <= Ranks(n, lt)[i] < n
  {
    var r := Ranks(n, lt);
    forall i, j | 0 <= i < j < n ensures r[i] != r[j] { RankOrder(n, lt, i, j); }
    forall i | 0 <= i < n ensures 0 <= r[i] < n { RankBelow(n, lt, i); }
  }

  /** Every position is the rank of some element. */
  lemma RankCovers(n: nat, lt: (int, int) -> bool, p: int) returns (i: int)
    requires TotalOrder(n, lt) && 0 <= p < n
    ensures 0 <= i < n && Rank(n, lt, i) == p
  {
    i := 0;
    RanksDistinct(n, lt);
    var r := Ranks(n, lt);
    if k :| 0 <= k < n && r[k] == p {
      i := k;
    } else {
      var s := seq(n, k requires 0 <= k < n => if r[k] > p then r[k] - 1 else r[k]);
      forall a, b | 0 <= a < b < n ensures s[a] != s[b] { assert r[a] != r[b] && r[a] != p && r[b] != p; }
      forall a | 0 <= a < n ensures 0 <= s[a] < n - 1 { assert r[a] != p && 0 <= r[a] < n; }
      Pigeonhole(s, n - 1);
    }
  }

  // ---- Scattering -------------------------------------------------------------------------------

  ghost function Picked<T>(s: seq<T>, r: seq<int>): (t: seq<T>)
    requires forall i :: 0 <= i < |r| ==> 0 <= r[i] < |s|
    ensures |t| == |r| && forall i :: 0 <= i < |r| ==> t[i] == s[r[i]]
  {
    seq(|r|, i requires 0 <= i < |r| => s[r[i]])
  }

  /** Picking at different positions takes no element twice. */
  lemma {:induction false} PickedWithin<T>(s: seq<T>, r: seq<int>)
    requires AllDistinct(r) && forall i :: 0 <= i < |r| ==> 0 <= r[i] < |s|
    ensures multiset(Picked(s, r)) <= multiset(s)
    decreases |s|
  {
    if s != [] {
      var n := |s| - 1;
      var s' := s[..n];
      assert s == s' + [s[n]];
      assert multiset(s) == multiset(s') + multiset{s[n]};
      if k :| 0 <= k < |r| && r[k] == n {
        var r' := RemoveAt(r, k);
        forall i | 0 <= i < |r'| ensures 0 <= r'[i] < n { assert r'[i] == if i < k then r[i] else r[i + 1]; }
        PickedWithin(s', r');
        assert Picked(s', r') == RemoveAt(Picked(s, r), k);
        RemoveOne(Picked(s, r), k);
      } else {
        PickedWithin(s', r);
        assert Picked(s', r) == Picked(s, r);
      }
    }
  }

  lemma SubsetEqual<T>(a: multiset<T>, b: multiset<T>)
    requires a <= b && |a| == |b|
    ensures a == b
  {
    assert b == a + (b - a);
    assert |b - a| == 0;
  }

  /** Elements written to their ranks form a permutation of the original. */
  lemma ScatterPermutes<T>(s: seq<T>, out: seq<T>, lt: (int, int) -> bool)
    requires |s| == |out| && TotalOrder(|s|, lt) &&
             forall i :: 0 <= i < |s| ==> Rank(|s|, lt, i) < |s| && out[Rank(|s|, lt, i)] == s[i]
    ensures multiset(out) == multiset(s)
  {
    var r := Ranks(|s|, lt);
    RanksDistinct(|s|, lt);
    PickedWithin(out, r);
    assert Picked(out, r) == s;
    assert |multiset(s)| == |s| && |multiset(out)| == |out|;
    SubsetEqual(multiset(s), multiset(out));
  }
}
