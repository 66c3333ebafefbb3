/** The in-place heap sort of (key, tuple) pairs that the scheduler uses twice, with positions counted from 1. */
module HeapSort {
  import opened SeqEdit

  datatype Keyed = Keyed(key: nat, tuple: bv64)

  /** In the first l elements every parent from position f on is at least its children. */
  ghost predicate Heap(s: seq<Keyed>, f: int, l: int) {
    l <= |s| && forall c :: 2 <= c <= l && c / 2 >= f ==> s[c / 2 - 1].key >= s[c - 1].key
  }

  /** The same except below position j, where it only holds one generation further up. */
  ghost predicate HeapBut(s: seq<Keyed>, f: int, l: int, j: int) {
    l <= |s| && 1 <= f <= j &&
    (forall c :: 2 <= c <= l && c / 2 >= f && c / 2 != j ==> s[c / 2 - 1].key >= s[c - 1].key) &&
    (forall c :: 2 <= c <= l && c / 2 == j && j / 2 >= f ==> s[j / 2 - 1].key >= s[c - 1].key)
  }

  /** The first l elements were permuted, the others kept. */
  ghost predicate Permuted(s: seq<Keyed>, t: seq<Keyed>, l: int) {
    0 <= l <= |s| == |t| && multiset(t[..l]) == multiset(s[..l]) && t[l..] == s[l..]
  }

  lemma PermutedSwap(s0: seq<Keyed>, s: seq<Keyed>, p: int, q: int, l: int)
    requires Permuted(s0, s, l) && 0 <= p < l && 0 <= q < l
    ensures Permuted(s0, SwappedAt(s, p, q), l)
  {
    SwapMultiset(s[..l], p, q);
    var t := SwappedAt(s, p, q);
    assert t[..l] == SwappedAt(s[..l], p, q);
  }

  lemma PermutedWhole(s: seq<Keyed>, t: seq<Keyed>, l: int)
    requires Permuted(s, t, l)
    ensures multiset(s) == multiset(t)
  {
    assert s == s[..l] + s[l..] && t == t[..l] + t[l..];
  }

  lemma SwapMultiset(s: seq<Keyed>, p: int, q: int)
    requires 0 <= p < |s| && 0 <= q < |s|
    ensures multiset(SwappedAt(s, p, q)) == multiset(s)
  {
  }

  // ---- The sort as a function ---------------------------------------------------------------------------------

  ghost function SwappedAt(s: seq<Keyed>, p: int, q: int): (t: seq<Keyed>)
    requires 0 <= p < |s| && 0 <= q < |s|
    ensures |t| == |s|
  {
    s[p := s[q]][q := s[p]]
  }

  ghost function Larger(s: seq<Keyed>, l: int, j: int): int
    requires l <= |s| && 1 <= j <= l / 2
  {
    if 2 * j < l && s[2 * j - 1].key < s[2 * j].key then 2 * j + 1 else 2 * j
  }

  ghost function Sift(s: seq<Keyed>, j: int, l: int): (t: seq<Keyed>)
    requires 1 <= j && l <= |s|
    ensures |t| == |s|
    decreases l - j
  {
    if j > l / 2 then s
    else
      var m := Larger(s, l, j);
      if s[m - 1].key > s[j - 1].key then Sift(SwappedAt(s, m - 1, j - 1), m, l) else s
  }

  ghost function Built(s: seq<Keyed>, i: nat): (t: seq<Keyed>)
    ensures |t| == |s|
    decreases i
  {
    if i == 0 then s else Built(Sift(s, i, |s|), i - 1)
  }

  ghost function Drained(s: seq<Keyed>, i: nat): (t: seq<Keyed>)
    requires i <= |s|
    ensures |t| == |s|
    decreases i
  {
    if i < 2 then s else Drained(Sift(SwappedAt(s, 0, i - 1), 1, i - 1), i - 1)
  }

  /** What the sort computes; all tasks that sort the same pairs get the same order. */
  ghost function HeapSorted(s: seq<Keyed>): seq<Keyed> {
    Drained(Built(s, |s| / 2), |s|)
  }

  ghost predicate LargestChild(s: seq<Keyed>, l: int, j: int, m: int) {
    2 <= m <= l <= |s| && m / 2 == j && forall c :: 2 <= c <= l && c / 2 == j ==> s[c - 1].key <= s[m - 1].key
  }

  lemma ChildPlace(s: seq<Keyed>, l: int, j: int, m: int)
    requires LargestChild(s, l, j, m)
    ensures 1 <= j < m <= l <= |s|
  {
  }

  lemma SiftStep(s: seq<Keyed>, f: int, l: int, j: int, m: int)
    requires HeapBut(s, f, l, j) && LargestChild(s, l, j, m) && s[m - 1].key > s[j - 1].key
    ensures HeapBut(SwappedAt(s, m - 1, j - 1), f, l, m)
  {
    var t := SwappedAt(s, m - 1, j - 1);
    forall c | 2 <= c <= l && c / 2 >= f && c / 2 != m ensures t[c / 2 - 1].key >= t[c - 1].key {
      if c / 2 == j {
        assert t[c - 1].key <= s[m - 1].key;
      } else {
        assert s[c / 2 - 1].key >= s[c - 1].key;
        if c == j { assert s[j / 2 - 1].key >= s[m - 1].key; }
      }
    }
    forall c | 2 <= c <= l && c / 2 == m && m / 2 >= f ensures t[m / 2 - 1].key >= t[c - 1].key {
      assert s[c / 2 - 1].key >= s[c - 1].key;
    }
  }

  lemma SiftDone(s: seq<Keyed>, f: int, l: int, j: int, m: int)
    requires Sifting(s, f, l, j) && j <= l / 2 && LargestChild(s, l, j, m) && s[m - 1].key <= s[j - 1].key
    ensures Sifting(s, f, l, l)
  {
  }

  method Swap(x: array<Keyed>, p: int, q: int)
    requires 0 <= p < x.Length && 0 <= q < x.Length
    modifies x
    ensures x[..] == SwappedAt(old(x[..]), p, q)
  {
    x[p], x[q] := x[q], x[p];
  }

  method LargerChild(x: array<Keyed>, l: int, j: int) returns (m: int)
    requires l <= x.Length && 1 <= j <= l / 2
    ensures LargestChild(x[..], l, j, m) && m == Larger(x[..], l, j)
  {
    var tj := j * 2;
    m := tj;
    if tj < l && x[tj - 1].key < x[tj].key { m := tj + 1; }
    Children(x[..], l, j, m);
  }

  /** restore: sifts the element at position f down into the heap behind it. */
  method Restore(x: array<Keyed>, f: int, l: int)
    requires 1 <= f && 0 <= l <= x.Length && Heap(x[..], f + 1, l)
    modifies x
    ensures Heap(x[..], f, l) && Permuted(old(x[..]), x[..], l) && x[..] == Sift(old(x[..]), f, l)
  {
    hide Heap, Sifting, Permuted, LargestChild, SwappedAt, Larger;
    var j, hl := f, l / 2;
    SiftStarts(x[..], f, l);
    while j <= hl
      invariant f <= j && Permuted(old(x[..]), x[..], l) && Sifting(x[..], f, l, j)
      invariant Sift(old(x[..]), f, l) == if j <= hl then Sift(x[..], j, l) else x[..]
      decreases l - j
    {
      var m := LargerChild(x, l, j);
      ChildPlace(x[..], l, j, m);
      if x[m - 1].key > x[j - 1].key {
        SiftDown(old(x[..]), x[..], f, l, j, m);
        Swap(x, m - 1, j - 1);
        j := m;
      } else {
        SiftDone(x[..], f, l, j, m);
        j := l;
      }
    }
    SiftEnds(x[..], f, l, j);
  }

  ghost predicate Sifting(s: seq<Keyed>, f: int, l: int, j: int) {
    if j <= l / 2 then HeapBut(s, f, l, j) else Heap(s, f, l)
  }

  lemma SiftEnds(s: seq<Keyed>, f: int, l: int, j: int)
    requires Sifting(s, f, l, j) && j > l / 2
    ensures Heap(s, f, l)
  {
  }

  lemma SiftDown(s0: seq<Keyed>, s: seq<Keyed>, f: int, l: int, j: int, m: int)
    requires Sifting(s, f, l, j) && j <= l / 2 && LargestChild(s, l, j, m) && s[m - 1].key > s[j - 1].key &&
             Permuted(s0, s, l)
    ensures var t := SwappedAt(s, m - 1, j - 1); Sifting(t, f, l, m) && Permuted(s0, t, l)
  {
    hide Heap, HeapBut, LargestChild, Permuted;
    ChildPlace(s, l, j, m);
    SiftStep(s, f, l, j, m);
    PermutedSwap(s0, s, m - 1, j - 1, l);
    if m > l / 2 { SiftBottom(SwappedAt(s, m - 1, j - 1), f, l, m); }
  }

  lemma SiftStarts(s: seq<Keyed>, f: int, l: int)
    requires 1 <= f && 0 <= l <= |s| && Heap(s, f + 1, l)
    ensures Permuted(s, s, l)
    ensures Sifting(s, f, l, f)
  {
  }

  lemma SiftBottom(s: seq<Keyed>, f: int, l: int, j: int)
    requires HeapBut(s, f, l, j) && j > l / 2
    ensures Heap(s, f, l)
  {
  }

  lemma Children(s: seq<Keyed>, l: int, j: int, m: int)
    requires l <= |s| && 1 <= j <= l / 2 &&
             m == if 2 * j < l && s[2 * j - 1].key < s[2 * j].key then 2 * j + 1 else 2 * j
    ensures LargestChild(s, l, j, m)
  {
    forall c | 2 <= c <= l && c / 2 == j ensures c == 2 * j || c == 2 * j + 1 { }
  }

  // ---- Sorting ----------------------------------------------------------------------------------------------

  ghost predicate SortedFrom(s: seq<Keyed>, i: int) {
    0 <= i <= |s| && (forall p, q :: i <= p < q < |s| ==> s[p].key <= s[q].key) &&
    forall p, q :: 0 <= p < i <= q < |s| ==> s[p].key <= s[q].key
  }

  /** The first element of a heap is the largest. */
  lemma {:induction false} HeapTop(s: seq<Keyed>, l: int, c: int)
    requires Heap(s, 1, l) && 1 <= c <= l
    ensures s[c - 1].key <= s[0].key
    decreases c
  {
    if c > 1 { HeapTop(s, l, c / 2); }
  }

  /** After the largest of the first i elements has moved to their end, the sorted part is one longer; permuting the
      rest does not matter. */
  lemma SortedStep(s: seq<Keyed>, i: int, u: seq<Keyed>)
    requires SortedFrom(s, i) && 2 <= i && Heap(s, 1, i) && Permuted(SwappedAt(s, 0, i - 1), u, i - 1)
    ensures SortedFrom(u, i - 1)
  {
    var t := SwappedAt(s, 0, i - 1);
    forall p | 0 <= p < i ensures t[p].key <= s[0].key { HeapTop(s, i, p + 1); HeapTop(s, i, i); }
    forall q | i - 1 <= q < |u| ensures u[q] == t[q] { assert u[i - 1..][q - (i - 1)] == t[i - 1..][q - (i - 1)]; }
    forall p | 0 <= p < i - 1 ensures u[p].key <= s[0].key && forall q :: i <= q < |s| ==> u[p].key <= s[q].key {
      assert u[..i - 1][p] in multiset(u[..i - 1]);
      var p' := FindIn(t[..i - 1], u[p]);
      assert t[p'] == u[p] && (t[p'] == s[p'] || t[p'] == s[i - 1]);
    }
    assert forall q :: i <= q < |u| ==> u[q] == s[q];
    assert u[i - 1] == s[0];
  }

  /** vszsort and onessort: in place, the keys end up in ascending order. */
  method Sort(x: array<Keyed>, n: int)
    requires n == x.Length
    modifies x
    ensures SortedFrom(x[..], 0) && multiset(x[..]) == multiset(old(x[..])) && x[..] == HeapSorted(old(x[..]))
  {
    hide Heap, SortedFrom, Permuted, Sift, Built;
    BuildHeap(x, n);
    var i := n;
    SortedStarts(x[..]);
    while i >= 2
      invariant 0 <= i <= n && Heap(x[..], 1, i) && SortedFrom(x[..], i) && multiset(x[..]) == multiset(old(x[..]))
      invariant HeapSorted(old(x[..])) == Drained(x[..], i)
    {
      ghost var s := x[..];
      ghost var t := SwappedAt(s, 0, i - 1);
      Swap(x, 0, i - 1);
      HeapShrinks(s, i);
      Restore(x, 1, i - 1);
      SortedStep(s, i, x[..]);
      SwapMultiset(s, 0, i - 1);
      PermutedWhole(t, x[..], i - 1);
      i := i - 1;
    }
    SortedEnds(x[..], i);
  }

  method BuildHeap(x: array<Keyed>, n: int)
    requires n == x.Length
    modifies x
    ensures Heap(x[..], 1, n) && multiset(x[..]) == multiset(old(x[..])) && x[..] == Built(old(x[..]), n / 2)
  {
    hide Heap, Permuted, Sift;
    var i := n / 2;
    HeapLeaves(x[..], n);
    while i >= 1
      invariant 0 <= i <= n && Heap(x[..], i + 1, n) && multiset(x[..]) == multiset(old(x[..])) &&
                Built(old(x[..]), n / 2) == Built(x[..], i)
    {
      ghost var s := x[..];
      Restore(x, i, n);
      PermutedWhole(s, x[..], n);
      i := i - 1;
    }
  }

  lemma HeapLeaves(s: seq<Keyed>, n: int)
    requires n == |s|
    ensures Heap(s, n / 2 + 1, n)
  {
  }

  lemma HeapShrinks(s: seq<Keyed>, i: int)
    requires Heap(s, 1, i) && 2 <= i <= |s|
    ensures Heap(SwappedAt(s, 0, i - 1), 2, i - 1)
  {
  }

  lemma SortedStarts(s: seq<Keyed>)
    ensures SortedFrom(s, |s|)
  {
  }

  lemma SortedEnds(s: seq<Keyed>, i: int)
    requires SortedFrom(s, i) && 0 <= i < 2
    ensures SortedFrom(s, 0)
  {
  }

  // ---- What the function computes -----------------------------------------------------------------------------

  lemma PermutedOn(s: seq<Keyed>, t: seq<Keyed>, u: seq<Keyed>, l: int)
    requires Permuted(s, t, l) && Permuted(t, u, l)
    ensures Permuted(s, u, l)
  {
  }

  lemma {:induction false} SiftIs(s: seq<Keyed>, f: int, l: int, j: int)
    requires 1 <= f <= j && 0 <= l <= |s| && Sifting(s, f, l, j)
    ensures Heap(Sift(s, j, l), f, l) && Permuted(s, Sift(s, j, l), l)
    decreases l - j
  {
    hide *;
    PermutedSelf(s, l);
    if j > l / 2 {
      SiftEnds(s, f, l, j);
      SiftNone(s, j, l);
      return;
    }
    var m := Larger(s, l, j);
    LargerIs(s, l, j);
    SiftOnce(s, j, l);
    if s[m - 1].key > s[j - 1].key {
      var t := SwappedAt(s, m - 1, j - 1);
      SiftDown(s, s, f, l, j, m);
      SiftIs(t, f, l, m);
      PermutedOn(s, t, Sift(t, m, l), l);
    } else {
      SiftDone(s, f, l, j, m);
      SiftEnds(s, f, l, l);
    }
  }

  lemma SiftNone(s: seq<Keyed>, j: int, l: int)
    requires 1 <= j && j > l / 2 && l <= |s|
    ensures Sift(s, j, l) == s
  {
  }

  lemma LargerIs(s: seq<Keyed>, l: int, j: int)
    requires l <= |s| && 1 <= j <= l / 2
    ensures LargestChild(s, l, j, Larger(s, l, j)) && j < Larger(s, l, j) <= l
  {
    Children(s, l, j, Larger(s, l, j));
  }

  lemma SiftOnce(s: seq<Keyed>, j: int, l: int)
    requires 1 <= j <= l / 2 && l <= |s| && j < Larger(s, l, j) <= l
    ensures var m := Larger(s, l, j);
      Sift(s, j, l) == if s[m - 1].key > s[j - 1].key then Sift(SwappedAt(s, m - 1, j - 1), m, l) else s
  {
  }

  lemma PermutedSelf(s: seq<Keyed>, l: int)
    requires 0 <= l <= |s|
    ensures Permuted(s, s, l)
  {
  }

  lemma {:induction false} BuiltIs(s: seq<Keyed>, i: nat)
    requires i <= |s| && Heap(s, i + 1, |s|)
    ensures Heap(Built(s, i), 1, |s|) && multiset(Built(s, i)) == multiset(s)
    decreases i
  {
    if i > 0 {
      hide Heap, Permuted, Sift;
      var t := Sift(s, i, |s|);
      SiftStarts(s, i, |s|);
      SiftIs(s, i, |s|, i);
      PermutedWhole(s, t, |s|);
      BuiltIs(t, i - 1);
    }
  }

  lemma {:induction false} DrainedIs(s: seq<Keyed>, i: nat)
    requires i <= |s| && Heap(s, 1, i) && SortedFrom(s, i)
    ensures SortedFrom(Drained(s, i), 0) && multiset(Drained(s, i)) == multiset(s)
    decreases i
  {
    if i < 2 {
      SortedEnds(s, i);
    } else {
      hide Heap, Permuted, Sift, SortedFrom;
      var t := SwappedAt(s, 0, i - 1);
      var u := Sift(t, 1, i - 1);
      HeapShrinks(s, i);
      SiftStarts(t, 1, i - 1);
      SiftIs(t, 1, i - 1, 1);
      SortedStep(s, i, u);
      SwapMultiset(s, 0, i - 1);
      PermutedWhole(t, u, i - 1);
      DrainedIs(u, i - 1);
    }
  }

  /** The sort's result is sorted and has the same pairs. */
  lemma HeapSortedIs(s: seq<Keyed>)
    ensures SortedFrom(HeapSorted(s), 0) && multiset(HeapSorted(s)) == multiset(s)
  {
    hide Heap, SortedFrom, Built, Drained;
    HeapLeaves(s, |s|);
    BuiltIs(s, |s| / 2);
    SortedStarts(Built(s, |s| / 2));
    DrainedIs(Built(s, |s| / 2), |s|);
  }
}
