/** The element-moving loops that the B+ tree code repeats on `keys` and `pointers`. */
module ArrayLoops {
  import opened SeqEdit

  /** The elements from `at` on move one place up, the last first, and x takes the free place. */
  method ShiftRightInsert<T>(a: seq<T>, n: nat, at: nat, x: T) returns (r: seq<T>)
    requires at <= n < |a|
    ensures |r| == |a| && r[..n + 1] == InsertAt(a[..n], at, x) && r[n + 1..] == a[n + 1..]
  {
    r := a;
    var i := n;
    while i > at
      invariant at <= i <= n && |r| == |a|
      invariant r[..i + 1] == a[..i + 1] && r[i + 1..n + 1] == a[i..n] && r[n + 1..] == a[n + 1..]
    {
      r := r[i := r[i - 1]];
      i := i - 1;
    }
    r := r[at := x];
  }

  /** The elements behind `at` move one place down, the first first. */
  method ShiftLeftRemove<T>(a: seq<T>, n: nat, at: nat) returns (r: seq<T>)
    requires at < n <= |a|
    ensures |r| == |a| && r[..n - 1] == RemoveAt(a[..n], at) && r[n - 1..] == a[n - 1..]
  {
    r := a;
    var i := at + 1;
    while i < n
      invariant at + 1 <= i <= n && |r| == |a|
      invariant r[..at] == a[..at] && r[i - 1..] == a[i - 1..]
      invariant forall j :: at <= j < i - 1 ==> r[j] == a[j + 1]
    {
      assert r[i] == r[i - 1..][1] == a[i];
      r := r[i - 1 := r[i]];
      i := i + 1;
    }
  }

  /** The temporary array of a split: the n old elements with position `hole` left free,
      then filled with x. */
  method SpreadAround<T>(a: seq<T>, n: nat, hole: nat, x: T) returns (tmp: seq<T>)
    requires hole <= n <= |a|
    ensures tmp == InsertAt(a[..n], hole, x)
  {
    tmp := seq(n + 1, _ => x);
    var i, j := 0, 0;
    while i < n
      invariant 0 <= i <= n && j == (if i <= hole then i else i + 1) && |tmp| == n + 1
      invariant forall k :: 0 <= k < i ==> tmp[if k < hole then k else k + 1] == a[k]
    {
      if j == hole { j := j + 1; }
      tmp := tmp[j := a[i]];
      i, j := i + 1, j + 1;
    }
    tmp := tmp[hole := x];
    forall k | 0 <= k < n + 1 ensures tmp[k] == InsertAt(a[..n], hole, x)[k] {
      if k < hole { assert tmp[if k < hole then k else k + 1] == a[k]; }
      else if k > hole { assert tmp[if k - 1 < hole then k - 1 else k] == a[k - 1]; }
    }
  }

  /** A stretch of one array is copied into another. */
  method CopyInto<T>(dst: seq<T>, at: nat, src: seq<T>, from: nat, n: nat) returns (r: seq<T>)
    requires at + n <= |dst| && from + n <= |src|
    ensures r == dst[..at] + src[from..from + n] + dst[at + n..]
  {
    r := dst;
    var k := 0;
    while k < n
      invariant 0 <= k <= n && |r| == |dst|
      invariant forall j :: 0 <= j < |dst| ==> r[j] == if at <= j < at + k then src[from + j - at] else dst[j]
    {
      r := r[at + k := src[from + k]];
      k := k + 1;
    }
  }

  /** A stretch of the array is set to x. */
  method Fill<T>(a: seq<T>, from: nat, to: nat, x: T) returns (r: seq<T>)
    requires to <= |a|
    ensures |r| == |a| && forall j :: 0 <= j < |a| ==> r[j] == if from <= j < to then x else a[j]
  {
    r := a;
    var i := from;
    while i < to
      invariant from <= i && |r| == |a|
      invariant forall j :: 0 <= j < |a| ==> r[j] == if from <= j < i && j < to then x else a[j]
    {
      r := r[i := x];
      i := i + 1;
    }
  }
}
