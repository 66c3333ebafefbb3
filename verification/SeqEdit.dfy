/** Insertion and removal of one element of a sequence: what the shifting loops
    of the programs compute on their arrays. */
module SeqEdit {

  function InsertAt<T>(s: seq<T>, i: nat, x: T): (r: seq<T>)
    requires i <= |s|
    ensures |r| == |s| + 1 && r[i] == x
    ensures forall j :: 0 <= j < i ==> r[j] == s[j]
    ensures forall j :: i < j <= |s| ==> r[j] == s[j - 1]
  {
    s[..i] + [x] + s[i..]
  }

  function RemoveAt<T>(s: seq<T>, i: nat): (r: seq<T>)
    requires i < |s|
    ensures |r| == |s| - 1
    ensures forall j :: 0 <= j < i ==> r[j] == s[j]
    ensures forall j :: i <= j < |s| - 1 ==> r[j] == s[j + 1]
  {
    s[..i] + s[i + 1..]
  }

  /** A slice that is known to be a concatenation splits into its pieces. */
  lemma SplitSlice<T>(s: seq<T>, at: int, x: seq<T>, y: seq<T>)
    requires 0 <= at && at + |x| + |y| <= |s| && s[at..at + |x| + |y|] == x + y
    ensures s[at..at + |x|] == x && s[at + |x|..at + |x| + |y|] == y
  {
    var all := s[at..at + |x| + |y|];
    assert s[at..at + |x|] == all[..|x|];
    assert s[at + |x|..at + |x| + |y|] == all[|x|..];
  }

  // ---- Permutations -------------------------------------------------------------------------------

  lemma EmptyPermutation<T>(a: seq<T>, b: seq<T>)
    requires multiset(a) == multiset(b) && a == []
    ensures b == []
  {
    assert |b| == |multiset(b)| == |multiset(a)| == 0;
  }

  lemma RemoveOne<T>(b: seq<T>, k: nat)
    requires k < |b|
    ensures b == InsertAt(RemoveAt(b, k), k, b[k]) && multiset(b) == multiset(RemoveAt(b, k)) + multiset{b[k]}
  {
    assert b == b[..k] + [b[k]] + b[k + 1..];
  }

  /** Where the last element of a sequence stands in a permutation of it. */
  lemma FindLast<T>(a: seq<T>, b: seq<T>) returns (k: nat)
    requires multiset(a) == multiset(b) && a != []
    ensures k < |b| && b[k] == a[|a| - 1] && multiset(a[..|a| - 1]) == multiset(RemoveAt(b, k))
    ensures b == InsertAt(RemoveAt(b, k), k, b[k]) && a == a[..|a| - 1] + [a[|a| - 1]]
  {
    var n := |a| - 1;
    k := FindIn(b, a[n]) by { assert a[n] in multiset(a); }
    RemoveOne(b, k);
    RemoveOne(a, n);
    assert RemoveAt(a, n) == a[..n];
    Cancel(multiset(a[..n]), multiset(RemoveAt(b, k)), a[n]);
  }

  lemma FindIn<T>(b: seq<T>, x: T) returns (k: nat)
    requires x in multiset(b)
    ensures k < |b| && b[k] == x
  {
    assert x in b;
    k :| 0 <= k < |b| && b[k] == x;
  }

  lemma Cancel<T>(m: multiset<T>, n: multiset<T>, x: T)
    requires m + multiset{x} == n + multiset{x}
    ensures m == n
  {
    forall y ensures m[y] == n[y] { assert (m + multiset{x})[y] == (n + multiset{x})[y]; }
  }

  ghost predicate Positions(order: seq<nat>, n: nat) {
    forall k :: 0 <= k < |order| ==> order[k] < n
  }

  /** The elements at the given positions. */
  ghost function ElementsAt<T>(b: seq<T>, order: seq<nat>): (r: seq<T>)
    requires Positions(order, |b|)
    ensures |r| == |order| && forall k :: 0 <= k < |order| ==> r[k] == b[order[k]]
  {
    seq(|order|, k requires 0 <= k < |order| => b[order[k]])
  }

  /** Every position below n exactly once. */
  ghost predicate Arranges(order: seq<nat>, n: nat) {
    |order| == n && Positions(order, n) && forall k, l :: 0 <= k < l < n ==> order[k] != order[l]
  }

  /** A permutation of a sequence visits its positions in some order. */
  lemma {:induction false} Arrangement<T>(a: seq<T>, b: seq<T>) returns (order: seq<nat>)
    requires multiset(a) == multiset(b)
    ensures Arranges(order, |b|) && ElementsAt(b, order) == a
    decreases |a|
  {
    if a == [] {
      EmptyPermutation(a, b);
      order := [];
    } else {
      var k := FindLast(a, b);
      var rest := Arrangement(a[..|a| - 1], RemoveAt(b, k));
      order := Others(rest, k, |b|);
      ElementsAround(b, rest, k);
    }
  }

  /** The positions of the others, with k taken out, and then k itself. */
  ghost function Others(rest: seq<nat>, k: nat, n: nat): (order: seq<nat>)
    requires k < n && Arranges(rest, n - 1)
    ensures Arranges(order, n)
  {
    seq(|rest|, i requires 0 <= i < |rest| => if rest[i] < k then rest[i] else rest[i] + 1) + [k]
  }

  lemma ElementsAround<T>(b: seq<T>, rest: seq<nat>, k: nat)
    requires k < |b| && Arranges(rest, |b| - 1)
    ensures ElementsAt(b, Others(rest, k, |b|)) == ElementsAt(RemoveAt(b, k), rest) + [b[k]]
  {
    var order := Others(rest, k, |b|);
    forall i | 0 <= i < |rest| ensures b[order[i]] == RemoveAt(b, k)[rest[i]] {
      assert order[i] == if rest[i] < k then rest[i] else rest[i] + 1;
    }
  }

  lemma Assoc<T>(a: seq<T>, b: seq<T>, c: seq<T>)
    ensures (a + b) + c == a + (b + c)
  {
  }

  lemma SubSlice<T>(s: seq<T>, a: int, b: int, p: int, q: int)
    requires 0 <= a <= b <= |s| && 0 <= p <= q <= b - a
    ensures s[a..b][p..q] == s[a + p..a + q]
  {
    var x, y := s[a..b][p..q], s[a + p..a + q];
    assert |x| == |y| == q - p;
    forall i | 0 <= i < q - p ensures x[i] == y[i] { assert x[i] == s[a..b][p + i] == s[a + (p + i)]; }
  }

  ghost predicate AllDistinct<T(!new)>(s: seq<T>) {
    forall i, j :: 0 <= i < j < |s| ==> s[i] != s[j]
  }

  lemma {:induction false} Pigeonhole(r: seq<int>, m: nat)
    requires AllDistinct(r) && forall i :: 0 <= i < |r| ==> 0 <= r[i] < m
    ensures |r| <= m
  {
    if |r| > 0 {
      assert 0 <= r[0] < m;
      if k :| 0 <= k < |r| && r[k] == m - 1 {
        Pigeonhole(r[..k] + r[k + 1..], m - 1);
      } else {
        Pigeonhole(r, m - 1);
      }
    }
  }

  lemma SliceNext<T>(s: seq<T>, a: int, b: int)
    requires 0 <= a <= b < |s|
    ensures s[a..b + 1] == s[a..b] + [s[b]]
  {
  }

  lemma TailIndex<T>(s: seq<T>, t: seq<T>, k: int, j: int)
    requires 0 <= k <= j < |s| == |t| && s[k..] == t[k..]
    ensures s[j] == t[j]
  {
    assert s[k..][j - k] == t[k..][j - k];
  }
}
