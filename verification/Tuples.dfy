/** Group-by tuples. A tuple says of each dimension whether a view has it. The programs keep tuples in machine words
    with the first dimension in the top bit; here the tuple itself is a sequence of truth values. */
module Tuples {
  import opened CubeGroups

  type Tuple = seq<bool>

  ghost predicate Subset(c: Tuple, p: Tuple) {
    |c| == |p| && forall i :: 0 <= i < |c| && c[i] ==> p[i]
  }

  function Count(t: Tuple): (n: nat)
    ensures n <= |t|
  {
    if t == [] then 0 else Count(t[..|t| - 1]) + if t[|t| - 1] then 1 else 0
  }

  /** The dimensions of a view, as column numbers counted from 1. */
  function Selected(t: Tuple): (s: seq<int>)
    ensures |s| == Count(t)
  {
    if t == [] then [] else Selected(t[..|t| - 1]) + if t[|t| - 1] then [|t|] else []
  }

  /** The columns of the parent view that make up the child view. */
  function FromParent(c: Tuple, p: Tuple): seq<int>
    requires |c| == |p|
  {
    if c == [] then []
    else FromParent(c[..|c| - 1], p[..|p| - 1]) + if p[|p| - 1] && c[|c| - 1] then [Count(p)] else []
  }

  lemma {:induction false} SelectedColumns(t: Tuple)
    ensures Columns(Selected(t), |t|)
  {
    if t != [] {
      var n := |t| - 1;
      SelectedColumns(t[..n]);
      assert forall i :: 0 <= i < |Selected(t[..n])| ==> Selected(t)[i] == Selected(t[..n])[i];
    }
  }

  lemma {:induction false} SelectedAscends(t: Tuple)
    ensures forall i, j :: 0 <= i < j < |Selected(t)| ==> Selected(t)[i] < Selected(t)[j]
  {
    if t != [] {
      var n := |t| - 1;
      SelectedAscends(t[..n]);
      SelectedColumns(t[..n]);
    }
  }

  lemma {:induction false} SubsetCount(c: Tuple, p: Tuple)
    requires Subset(c, p)
    ensures Count(c) <= Count(p) && (Count(c) == Count(p) ==> c == p)
  {
    if c != [] {
      var n := |c| - 1;
      SubsetCount(c[..n], p[..n]);
      assert c == c[..n] + [c[n]] && p == p[..n] + [p[n]];
    }
  }

  // How the functions grow with one more dimension.

  lemma CountNext(t: Tuple, b: bool)
    ensures Count(t + [b]) == Count(t) + if b then 1 else 0
  {
    assert (t + [b])[..|t|] == t;
  }

  lemma SelectedNone(t: Tuple)
    requires t == []
    ensures Selected(t) == []
  {
  }

  lemma SelectedNext(t: Tuple, b: bool)
    ensures Selected(t + [b]) == Selected(t) + if b then [|t| + 1] else []
  {
    assert (t + [b])[..|t|] == t;
  }

  lemma FromParentNext(c: Tuple, p: Tuple, b: bool, q: bool)
    requires |c| == |p|
    ensures FromParent(c + [b], p + [q]) == FromParent(c, p) + if q && b then [Count(p + [q])] else []
  {
    assert (c + [b])[..|c|] == c && (p + [q])[..|p|] == p;
  }

  lemma PickMore(sel: seq<int>, more: seq<int>, cols: seq<int>)
    requires Columns(cols, |sel|)
    ensures Columns(cols, |sel + more|) && Pick(sel + more, cols) == Pick(sel, cols)
  {
  }

  lemma PickLast(sel: seq<int>, x: int, cols: seq<int>)
    requires Columns(cols, |sel|)
    ensures Columns(cols + [|sel| + 1], |sel + [x]|) && Pick(sel + [x], cols + [|sel| + 1]) == Pick(sel, cols) + [x]
  {
  }

  /** The remapped column numbers pick exactly the child's columns out of the parent's. */
  lemma {:induction false} FromParentPicks(c: Tuple, p: Tuple)
    requires Subset(c, p)
    ensures Columns(FromParent(c, p), Count(p)) && Pick(Selected(p), FromParent(c, p)) == Selected(c)
  {
    if c != [] {
      var n := |c| - 1;
      var c', p', b, q := c[..n], p[..n], c[n], p[n];
      assert c == c' + [b] && p == p' + [q] && (b ==> q);
      FromParentPicks(c', p');
      FromParentPicksNext(c', p', b, q);
    }
  }

  lemma FromParentPicksNext(c: Tuple, p: Tuple, b: bool, q: bool)
    requires |c| == |p| && (b ==> q) && Columns(FromParent(c, p), Count(p)) &&
             Pick(Selected(p), FromParent(c, p)) == Selected(c)
    ensures Columns(FromParent(c + [b], p + [q]), Count(p + [q]))
    ensures Pick(Selected(p + [q]), FromParent(c + [b], p + [q])) == Selected(c + [b])
  {
    hide Count, Selected, FromParent;
    CountNext(p, q);
    SelectedNext(p, q);
    SelectedNext(c, b);
    FromParentNext(c, p, b, q);
    PickMore(Selected(p), if q then [|p| + 1] else [], FromParent(c, p));
    PickLast(Selected(p), |p| + 1, FromParent(c, p));
    assert FromParent(c, p) + [] == FromParent(c, p) && Selected(c) + [] == Selected(c);
  }

  // ---- Tuples in machine words ------------------------------------------------------------------------

  const MLB32: bv32 := 0x8000_0000
  const MLB: bv64 := 0x8000_0000_0000_0000

  function Half32(x: bv32): bv32 { x >> 1 }
  function Half64(x: bv64): bv64 { x >> 1 }
  function Double32(x: bv32): bv32 { x << 1 }
  predicate Test32(x: bv32, m: bv32) { x & m != 0 }
  predicate Test64(x: bv64, m: bv64) { x & m != 0 }
  function And64(x: bv64, m: bv64): bv64 { x & m }

  /** A shift by k places is k shifts by one place. */
  function Shr32(x: bv32, k: nat): bv32 { if k == 0 then x else Half32(Shr32(x, k - 1)) }
  function Shr64(x: bv64, k: nat): bv64 { if k == 0 then x else Half64(Shr64(x, k - 1)) }
  function Shl32(x: bv32, k: nat): bv32 { if k == 0 then x else Double32(Shl32(x, k - 1)) }
  function Low32(x: bv64): bv32 { (x & 0xFFFF_FFFF) as bv32 }
  function Wide(x: bv32): bv64 { x as bv64 }

  predicate Bit32(x: bv32, i: nat) { Test32(x, Shr32(MLB32, i)) }
  predicate Bit64(x: bv64, i: nat) { Test64(x, Shr64(MLB, i)) }

  function Tuple32(x: bv32, nd: nat): (t: Tuple)
    ensures |t| == nd && forall i :: 0 <= i < nd ==> t[i] == Bit32(x, i)
  {
    seq(nd, i requires 0 <= i < nd => Bit32(x, i))
  }

  function Tuple64(x: bv64, nd: nat): (t: Tuple)
    ensures |t| == nd && forall i :: 0 <= i < nd ==> t[i] == Bit64(x, i)
  {
    seq(nd, i requires 0 <= i < nd => Bit64(x, i))
  }

  /** The top nd bits of a 64-bit tuple, as a 32-bit tuple: shifted to the bottom, truncated, and shifted to the top. */
  function Groupby(x: bv64, nd: nat): bv32
    requires nd <= 32
  {
    Shl32(Low32(Shr64(x, 64 - nd)), 32 - nd)
  }

  // Facts about single words.

  lemma AndHalf(x: bv64, y: bv64)
    ensures And64(Half64(x), Half64(y)) == Half64(And64(x, y))
  {
  }

  lemma TestAnd(x: bv64, m: bv64)
    ensures Test64(x, m) <==> And64(x, m) != 0
  {
  }

  /** At most one bit is set. */
  predicate Single(m: bv64) { m & (m - 1) == 0 }
  predicate Short(m: bv64) { m & 0xFFFF_FFFF_0000_0000 == 0 }
  predicate Tall(m: bv64) { m & 0xFFFF_FFFF == 0 }

  lemma SingleHalf(m: bv64)
    requires Single(m)
    ensures Single(Half64(m))
  {
  }

  lemma SingleAnd(x: bv64, m: bv64)
    requires Single(m)
    ensures And64(x, m) == 0 || And64(x, m) == m
  {
  }

  lemma LowHalf(y: bv64)
    requires Short(y)
    ensures Low32(Half64(y)) == Half32(Low32(y)) && Short(Half64(y))
  {
  }

  lemma LowTest(x: bv64, m: bv64)
    requires Short(m)
    ensures Test32(Low32(x), Low32(m)) <==> Test64(x, m)
  {
  }

  lemma DoubleTest(x: bv32, m: bv32)
    ensures Test32(Double32(x), m) <==> Test32(x, Half32(m))
  {
  }

  lemma SubsetBit(g: bv32, t: bv32, m: bv32)
    requires g & t == g && Test32(g, m)
    ensures Test32(t, m)
  {
  }

  lemma WideLow(x: bv32)
    ensures Low32(Wide(x)) == x
  {
  }

  lemma WideTall(x: bv32, m: bv64)
    requires Tall(m)
    ensures !Test64(Wide(x), m)
  {
  }

  lemma SingleTall(m: bv64)
    requires Single(m) && !Tall(m)
    ensures m <= 0x8000_0000
  {
  }

  lemma HalfBelow(m: bv64)
    requires m <= 0x8000_0000
    ensures Half64(m) <= 0x4000_0000
  {
  }

  lemma ZeroWord(x: bv64)
    ensures Half64(0) == 0 && !Test64(x, 0) && Half64(1) == 0
  {
  }

  // Shifting bits.

  lemma {:induction false} Shr64Add(x: bv64, a: nat, b: nat)
    ensures Shr64(x, a + b) == Shr64(Shr64(x, a), b)
  {
    hide Half64;
    if b > 0 { Shr64Add(x, a, b - 1); }
  }

  lemma {:induction false} Shr64Zero(k: nat)
    ensures Shr64(0, k) == 0
  {
    if k > 0 { Shr64Zero(k - 1); }
  }

  lemma {:induction false} Shr64And(x: bv64, y: bv64, k: nat)
    ensures And64(Shr64(x, k), Shr64(y, k)) == Shr64(And64(x, y), k)
  {
    hide Half64, And64;
    if k > 0 {
      Shr64And(x, y, k - 1);
      AndHalf(Shr64(x, k - 1), Shr64(y, k - 1));
    }
  }

  lemma MaskValues()
    ensures Shr64(MLB, 32) == 0x8000_0000 && Shr64(MLB, 63) == 1
  {
    Shr64Add(MLB, 8, 8);
    assert Shr64(MLB, 8) == 0x80_0000_0000_0000;
    assert Shr64(0x80_0000_0000_0000, 8) == 0x8000_0000_0000;
    Shr64Add(MLB, 16, 8);
    assert Shr64(0x8000_0000_0000, 8) == 0x80_0000_0000;
    Shr64Add(MLB, 24, 8);
    assert Shr64(0x80_0000_0000, 8) == 0x8000_0000;
    MaskValuesLow();
    Shr64Add(MLB, 32, 31);
  }

  lemma MaskValuesLow()
    ensures Shr64(0x8000_0000, 31) == 1
  {
    Shr64Add(0x8000_0000, 8, 8);
    assert Shr64(0x8000_0000, 8) == 0x80_0000;
    assert Shr64(0x80_0000, 8) == 0x8000;
    Shr64Add(0x8000_0000, 16, 15);
    assert Shr64(0x8000, 8) == 0x80;
    Shr64Add(0x8000, 8, 7);
    assert Shr64(0x80, 7) == 1;
  }

  lemma MaskNonzero(i: nat)
    requires i <= 63
    ensures Shr64(MLB, i) != 0
  {
    hide Half64;
    MaskValues();
    Shr64Add(MLB, i, 63 - i);
    Shr64Zero(63 - i);
  }

  lemma {:induction false} MaskSingle(i: nat)
    ensures Single(Shr64(MLB, i))
  {
    if i > 0 {
      MaskSingle(i - 1);
      SingleHalf(Shr64(MLB, i - 1));
    }
  }

  /** A right shift moves bit i to bit i + k. */
  lemma Bit64Shr(x: bv64, k: nat, i: nat)
    requires i + k <= 63
    ensures Bit64(Shr64(x, k), i + k) <==> Bit64(x, i)
  {
    hide Half64, And64, Test64, Single;
    var m := Shr64(MLB, i);
    Shr64Add(MLB, i, k);
    Shr64And(x, m, k);
    MaskSingle(i);
    SingleAnd(x, m);
    MaskNonzero(i);
    MaskNonzero(i + k);
    Shr64Zero(k);
    TestAnd(x, m);
    TestAnd(Shr64(x, k), Shr64(MLB, i + k));
  }

  lemma LowMaskStart()
    ensures Low32(Shr64(MLB, 32)) == MLB32 && Short(Shr64(MLB, 32))
  {
    MaskValues();
  }

  lemma {:induction false} LowMask(j: nat)
    ensures Low32(Shr64(MLB, 32 + j)) == Shr32(MLB32, j) && Short(Shr64(MLB, 32 + j))
  {
    hide Half64, Half32, Low32, Short;
    LowMaskStart();
    if j > 0 {
      LowMask(j - 1);
      LowHalf(Shr64(MLB, 32 + j - 1));
    }
  }

  lemma Bit32Low(x: bv64, j: nat)
    ensures Bit32(Low32(x), j) <==> Bit64(x, 32 + j)
  {
    hide Shr64, Shr32, Low32, Test32, Test64, Short;
    LowMask(j);
    LowTest(x, Shr64(MLB, 32 + j));
  }

  /** A left shift moves bit i + k to bit i. */
  lemma {:induction false} Bit32Shl(x: bv32, k: nat, i: nat)
    ensures Bit32(Shl32(x, k), i) <==> Bit32(x, i + k)
    decreases k
  {
    hide Half32, Double32, Test32;
    if k > 0 {
      DoubleTest(Shl32(x, k - 1), Shr32(MLB32, i));
      Bit32Shl(x, k - 1, i + 1);
    }
  }

  /** Bits beyond the word are not there. */
  lemma {:induction false} NoBit64(x: bv64, i: nat)
    requires i >= 64
    ensures !Bit64(x, i)
  {
    hide Half64, Test64;
    MaskValues();
    ZeroWord(x);
    Shr64Add(MLB, 63, i - 63);
    Shr64Add(1, 1, i - 64);
    assert Shr64(1, 1) == Half64(Shr64(1, 0));
    Shr64Zero(i - 64);
  }

  /** Both forms of a tuple agree, and the 32-bit form has nothing behind the nd dimensions. */
  lemma GroupbyBits(x: bv64, nd: nat, i: nat)
    requires nd <= 32
    ensures Bit32(Groupby(x, nd), i) <==> i < nd && Bit64(x, i)
  {
    hide Bit32, Bit64, Shl32, Shr64, Low32;
    var y := Shr64(x, 64 - nd);
    Bit32Shl(Low32(y), 32 - nd, i);
    Bit32Low(y, i + 32 - nd);
    if i < nd {
      Bit64Shr(x, 64 - nd, i);
    } else {
      NoBit64(y, i + 64 - nd);
    }
  }

  lemma GroupbyTuple(x: bv64, nd: nat)
    requires nd <= 32
    ensures Tuple32(Groupby(x, nd), nd) == Tuple64(x, nd)
  {
    hide Bit32, Bit64, Groupby;
    forall i | 0 <= i < nd ensures Tuple32(Groupby(x, nd), nd)[i] == Tuple64(x, nd)[i] { GroupbyBits(x, nd, i); }
  }

  /** The programs' test for a superset. */
  lemma SubsetTest(g: bv32, t: bv32, nd: nat)
    requires g & t == g
    ensures Subset(Tuple32(g, nd), Tuple32(t, nd))
  {
    hide Test32, Shr32;
    forall i | 0 <= i < nd && Bit32(g, i) ensures Bit32(t, i) { SubsetBit(g, t, Shr32(MLB32, i)); }
  }

  // ---- Loops over bits ----------------------------------------------------------------------------------

  method NumberOfOnes(s: bv64) returns (nOnes: nat)
    ensures nOnes == Count(Tuple64(s, 64))
  {
    hide Half64, Test64;
    var ob := MLB;
    nOnes := 0;
    for i := 0 to 64
      invariant ob == Shr64(MLB, i) && nOnes == Count(Tuple64(s, i))
    {
      Tuple64Next(s, i);
      if Test64(s, ob) { nOnes := nOnes + 1; }
      ob := Half64(ob);
    }
  }

  lemma Tuple64Next(x: bv64, i: nat)
    ensures Tuple64(x, i + 1) == Tuple64(x, i) + [Bit64(x, i)] && Tuple64(x, i + 1)[..i] == Tuple64(x, i)
  {
  }

  lemma Tuple32Next(x: bv32, i: nat)
    ensures Tuple32(x, i + 1) == Tuple32(x, i) + [Bit32(x, i)] && Tuple32(x, i + 1)[..i] == Tuple32(x, i)
  {
  }

  /** GetRegTupleFromBin64: the column numbers of the dimensions in the tuple. */
  method GetRegTupleFromBin64(binRepTuple: bv64, numDims: nat) returns (selTuple: seq<int>, numOfUnits: nat)
    ensures selTuple == Selected(Tuple64(binRepTuple, numDims)) && numOfUnits == |selTuple|
  {
    hide Half64, Test64, Selected;
    var oc := MLB;
    SelectedNone(Tuple64(binRepTuple, 0));
    selTuple, numOfUnits := [], 0;
    for i := 0 to numDims
      invariant oc == Shr64(MLB, i) && selTuple == Selected(Tuple64(binRepTuple, i)) && numOfUnits == |selTuple|
    {
      Tuple64Next(binRepTuple, i);
      SelectedNext(Tuple64(binRepTuple, i), Bit64(binRepTuple, i));
      if Test64(binRepTuple, oc) {
        selTuple := selTuple + [i + 1];
        numOfUnits := numOfUnits + 1;
      }
      oc := Half64(oc);
    }
  }

  /** GetRegTupleFromParent: the column numbers of the tuple's dimensions among those of the parent. */
  method GetRegTupleFromParent(bin64RepTuple: bv64, bin32RepTuple: bv32, nd: nat) returns (selTuple: seq<int>)
    requires nd <= 32
    ensures selTuple == FromParent(Tuple64(bin64RepTuple, nd), Tuple32(bin32RepTuple, nd))
  {
    hide Groupby, Half32, Test32;
    var ut32 := Groupby(bin64RepTuple, nd);
    GroupbyTuple(bin64RepTuple, nd);
    var oc := MLB32;
    var k := 0;
    selTuple := [];
    for i := 0 to nd
      invariant oc == Shr32(MLB32, i) && k == Count(Tuple32(bin32RepTuple, i))
      invariant selTuple == FromParent(Tuple32(ut32, i), Tuple32(bin32RepTuple, i))
    {
      Tuple32Next(bin32RepTuple, i);
      Tuple32Next(ut32, i);
      if Test32(bin32RepTuple, oc) { k := k + 1; }
      if Test32(bin32RepTuple, oc) && Test32(ut32, oc) { selTuple := selTuple + [k]; }
      oc := Half32(oc);
    }
  }

  // The number of ones of the 32-bit form, counted as a 64-bit word, is the number of dimensions.

  lemma {:induction false} CountFalse(t: Tuple, n: nat)
    requires n <= |t| && forall i :: n <= i < |t| ==> !t[i]
    ensures Count(t) == Count(t[..n])
    decreases |t|
  {
    if n < |t| {
      var m := |t| - 1;
      CountFalse(t[..m], n);
      assert t[..m][..n] == t[..n];
    } else {
      assert t[..n] == t;
    }
  }

  lemma {:induction false} CountShifted(s: Tuple, t: Tuple)
    requires |s| >= |t| && (forall i :: 0 <= i < |s| - |t| ==> !s[i]) &&
             forall i :: 0 <= i < |t| ==> s[|s| - |t| + i] == t[i]
    ensures Count(s) == Count(t)
    decreases |t|
  {
    if t == [] {
      CountFalse(s, 0);
    } else {
      var n, m := |t| - 1, |s| - 1;
      assert s[m] == t[n];
      CountShifted(s[..m], t[..n]);
    }
  }

  lemma {:induction false} HighMask(i: nat)
    requires i < 32
    ensures Tall(Shr64(MLB, i))
  {
    hide Half64, Single, Tall;
    MaskValues();
    MaskSingle(i);
    Shr64Add(MLB, i, 32 - i);
    if !Tall(Shr64(MLB, i)) {
      SingleTall(Shr64(MLB, i));
      ShrinksBelow(Shr64(MLB, i), 32 - i);
    }
  }

  lemma {:induction false} ShrinksBelow(m: bv64, k: nat)
    requires m <= 0x8000_0000 && k > 0
    ensures Shr64(m, k) <= 0x4000_0000
  {
    hide Half64;
    assert Shr64(m, k) == Half64(Shr64(m, k - 1));
    if k > 1 { ShrinksBelow(m, k - 1); }
    HalfBelow(Shr64(m, k - 1));
  }

  lemma GroupbyCount(x: bv64, nd: nat)
    requires nd <= 32
    ensures Count(Tuple64(Wide(Groupby(x, nd)), 64)) == Count(Tuple64(x, nd))
  {
    hide Wide, Test64, Test32, Groupby, Low32, Tall, Shr64, Shr32, Count;
    var g := Groupby(x, nd);
    var s, t := Tuple64(Wide(g), 64), Tuple32(g, 32);
    forall i | 0 <= i < 32 ensures !s[i] { HighMask(i); WideTall(g, Shr64(MLB, i)); }
    forall i | 0 <= i < 32 ensures s[32 + i] == t[i] { WideLow(g); Bit32Low(Wide(g), i); }
    CountShifted(s, t);
    forall i | nd <= i < 32 ensures !t[i] { GroupbyBits(x, nd, i); }
    CountFalse(t, nd);
    assert t[..nd] == Tuple32(g, nd);
    GroupbyTuple(x, nd);
  }

  // ---- The superset test is complete ----------------------------------------------------------------------

  /** x has no bit above the bit m. */
  predicate UpTo(x: bv32, m: bv32) { x <= (m | (m - 1)) }
  predicate Single32(m: bv32) { m & (m - 1) == 0 && m != 0 }

  lemma UpToHalf(x: bv32, m: bv32)
    requires Single32(m) && m != 1 && UpTo(x, m) && !Test32(x, m)
    ensures UpTo(x, Half32(m)) && Single32(Half32(m))
  {
  }

  lemma UpToOne(x: bv32)
    requires UpTo(x, 1) && !Test32(x, 1)
    ensures x == 0
  {
  }

  lemma Mask32Values()
    ensures Shr32(MLB32, 31) == 1
  {
    LowMask(31);
    MaskValues();
    assert Low32(1) == 1;
  }

  lemma {:induction false} NoBitsNothing(x: bv32, i: nat)
    requires i <= 31 && UpTo(x, Shr32(MLB32, i)) && Single32(Shr32(MLB32, i)) &&
             forall j :: i <= j < 32 ==> !Bit32(x, j)
    ensures x == 0
    decreases 31 - i
  {
    hide UpTo, Single32, Test32, Half32;
    assert !Bit32(x, i);
    Mask32Values();
    if i == 31 {
      UpToOne(x);
    } else {
      if Shr32(MLB32, i) == 1 { UpToOne(x); } else { UpToHalf(x, Shr32(MLB32, i)); NoBitsNothing(x, i + 1); }
    }
  }

  lemma Missing(g: bv32, t: bv32, m: bv32)
    ensures Test32(g & !t, m) ==> Test32(g, m)
  {
  }

  lemma MissingSingle(g: bv32, t: bv32, m: bv32)
    requires Single32(m) && Test32(g & !t, m)
    ensures !Test32(t, m)
  {
  }

  lemma MissingNone(g: bv32, t: bv32)
    requires g & !t == 0
    ensures g & t == g
  {
  }

  lemma {:induction false} Mask32Single(i: nat)
    requires i <= 31
    ensures Single32(Shr32(MLB32, i))
  {
    hide Half32;
    Mask32Values();
    if i > 0 {
      Mask32Single(i - 1);
      if Shr32(MLB32, i - 1) == 1 { OneEarly(i - 1); }
      HalfSingle(Shr32(MLB32, i - 1));
    } else {
      assert Single32(MLB32);
    }
  }

  lemma HalfSingle(m: bv32)
    requires Single32(m) && m != 1
    ensures Single32(Half32(m))
  {
  }

  lemma {:induction false} Shr32Add(x: bv32, a: nat, b: nat)
    ensures Shr32(x, a + b) == Shr32(Shr32(x, a), b)
  {
    hide Half32;
    if b > 0 { Shr32Add(x, a, b - 1); }
  }

  lemma {:induction false} Shr32Zero(k: nat)
    ensures Shr32(0, k) == 0
  {
    if k > 0 { Shr32Zero(k - 1); }
  }

  lemma OneEarly(i: nat)
    requires i < 31
    ensures Shr32(MLB32, i) != 1
  {
    hide Half32;
    Mask32Values();
    Shr32Add(MLB32, i, 31 - i);
    Shr32Add(1, 1, 30 - i);
    assert Shr32(1, 1) == Half32(Shr32(1, 0)) == 0 by { HalfOne(); }
    Shr32Zero(30 - i);
  }

  lemma HalfOne()
    ensures Half32(1) == 0
  {
  }

  /** If the dimensions are among those of t, the programs' test finds so. */
  lemma SubsetTestComplete(g: bv32, t: bv32, nd: nat)
    requires nd <= 32 && Subset(Tuple32(g, nd), Tuple32(t, nd)) && forall i :: nd <= i < 32 ==> !Bit32(g, i)
    ensures g & t == g
  {
    hide Test32, Half32, Single32, Shr32;
    var x := g & !t;
    forall j | 0 <= j < 32 ensures !Bit32(x, j) {
      var m := Shr32(MLB32, j);
      Mask32Single(j);
      Missing(g, t, m);
      assert Bit32(g, j) ==> j < nd && Bit32(t, j) by { if j < nd { assert Tuple32(g, nd)[j] ==> Tuple32(t, nd)[j]; } }
      if Test32(x, m) { MissingSingle(g, t, m); }
    }
    assert Shr32(MLB32, 0) == MLB32 by { Shr32None(); }
    Mask32Single(0);
    assert UpTo(x, MLB32);
    NoBitsNothing(x, 0);
    MissingNone(g, t);
  }

  lemma Shr32None()
    ensures Shr32(MLB32, 0) == MLB32
  {
  }

  // ---- Right-aligned tuples ----------------------------------------------------------------------------------

  function Double64(x: bv64): bv64 { x << 1 }
  function Shl64(x: bv64, k: nat): bv64 { if k == 0 then x else Double64(Shl64(x, k - 1)) }

  lemma DoubleTest64(x: bv64, m: bv64)
    ensures Test64(Double64(x), m) <==> Test64(x, Half64(m))
  {
  }

  lemma {:induction false} Bit64Shl(x: bv64, k: nat, i: nat)
    ensures Bit64(Shl64(x, k), i) <==> Bit64(x, i + k)
    decreases k
  {
    hide Half64, Double64, Test64;
    if k > 0 {
      DoubleTest64(Shl64(x, k - 1), Shr64(MLB, i));
      Bit64Shl(x, k - 1, i + 1);
    }
  }

  /** Moving a tuple to the bottom of the word and back to the top keeps its dimensions. */
  lemma ThereAndBack(x: bv64, nd: nat)
    requires nd <= 64
    ensures Tuple64(Shl64(Shr64(x, 64 - nd), 64 - nd), nd) == Tuple64(x, nd)
  {
    hide Bit64, Shr64, Shl64;
    forall i | 0 <= i < nd ensures Bit64(Shl64(Shr64(x, 64 - nd), 64 - nd), i) <==> Bit64(x, i) {
      Bit64Shl(Shr64(x, 64 - nd), 64 - nd, i);
      Bit64Shr(x, 64 - nd, i);
    }
  }

  lemma DoubleHalf(m: bv64)
    requires Single(m) && Half64(m) != 0
    ensures Double64(Half64(m)) == m
  {
  }

  lemma Shr64Next(x: bv64, k: nat)
    requires k > 0
    ensures Shr64(x, k) == Half64(Shr64(x, k - 1))
  {
  }

  lemma Shl64Next(x: bv64, k: nat)
    requires k > 0
    ensures Shl64(x, k) == Double64(Shl64(x, k - 1))
  {
  }

  /** Masks from the right and masks from the left. */
  lemma {:induction false} MaskFromRight(j: nat)
    requires j <= 63
    ensures Shl64(1, j) == Shr64(MLB, 63 - j)
  {
    if j == 0 {
      MaskValues();
    } else {
      hide Half64, Double64, Single, Shr64, Shl64;
      MaskFromRight(j - 1);
      MaskSingle(63 - j);
      MaskNonzero(64 - j);
      Shr64Next(MLB, 64 - j);
      Shl64Next(1, j);
      DoubleHalf(Shr64(MLB, 63 - j));
    }
  }

  lemma {:induction false} CountFirst(b: bool, t: Tuple)
    ensures Count([b] + t) == Count(t) + if b then 1 else 0
  {
    if t == [] {
      assert [b] + t == [b] && [b][..0] == [];
    } else {
      var n := |t| - 1;
      CountFirst(b, t[..n]);
      assert ([b] + t)[..n + 1] == [b] + t[..n];
    }
  }

  /** The tuple whose dimensions stand in the lowest bits of the word. */
  function RightTuple(x: bv64, nd: nat): (t: Tuple)
    requires nd <= 64
    ensures |t| == nd
  {
    seq(nd, i requires 0 <= i < nd => Bit64(x, 64 - nd + i))
  }

  /** countTupleOnes: counts the lowest numDims bits. */
  method CountTupleOnes(binRepTuple: bv64, numDims: nat) returns (cnt: nat)
    requires numDims <= 64
    ensures cnt == Count(RightTuple(binRepTuple, numDims))
  {
    hide Test64, Double64, Shr64, Count;
    var ob := 1;
    cnt := 0;
    CountNone(RightTuple(binRepTuple, 0));
    OneMask();
    for i := 0 to numDims
      invariant ob == Shl64(1, i) && cnt == Count(RightTuple(binRepTuple, i))
    {
      MaskFromRight(i);
      assert RightTuple(binRepTuple, i + 1) == [Bit64(binRepTuple, 63 - i)] + RightTuple(binRepTuple, i);
      CountFirst(Bit64(binRepTuple, 63 - i), RightTuple(binRepTuple, i));
      if Test64(binRepTuple, ob) { cnt := cnt + 1; }
      ob := Double64(ob);
    }
  }

  lemma OneMask()
    ensures Shl64(1, 0) == 1
  {
  }

  lemma CountNone(t: Tuple)
    requires t == []
    ensures Count(t) == 0
  {
  }

  lemma RightIsLeft(x: bv64, nd: nat)
    requires nd <= 64
    ensures Tuple64(Shl64(x, 64 - nd), nd) == RightTuple(x, nd)
  {
    hide Bit64, Shl64;
    forall i | 0 <= i < nd
      ensures Tuple64(Shl64(x, 64 - nd), nd)[i] == RightTuple(x, nd)[i]
    {
      Bit64Shl(x, 64 - nd, i);
    }
  }

  // ---- Tuples from column numbers -----------------------------------------------------------------

  function Or64(x: bv64, m: bv64): bv64 { x | m }

  lemma OrKeeps(x: bv64, y: bv64, m: bv64)
    requires And64(x, m) == m
    ensures And64(Or64(x, y), m) == m
  {
  }

  lemma OrSwap(x: bv64, y: bv64)
    ensures Or64(x, y) == Or64(y, x)
  {
  }

  lemma OrNone(x: bv64, y: bv64, m: bv64)
    requires And64(x, m) == 0 && And64(y, m) == 0
    ensures And64(Or64(x, y), m) == 0
  {
  }

  lemma OrTest(x: bv64, y: bv64, m: bv64)
    requires Single(m) && m != 0
    ensures Test64(Or64(x, y), m) <==> Test64(x, m) || Test64(y, m)
  {
    hide Test64, Or64, And64, Single;
    SingleAnd(x, m);
    SingleAnd(y, m);
    TestAnd(x, m);
    TestAnd(y, m);
    TestAnd(Or64(x, y), m);
    if And64(x, m) == m {
      OrKeeps(x, y, m);
    } else if And64(y, m) == m {
      OrSwap(x, y);
      OrKeeps(y, x, m);
    } else {
      OrNone(x, y, m);
    }
  }

  lemma OneGone(k: nat)
    requires k > 0
    ensures Shr64(1, k) == 0
  {
    hide Half64;
    Shr64Add(1, 1, k - 1);
    assert Shr64(1, 1) == Half64(Shr64(1, 0)) == 0 by { ZeroWord(0); }
    Shr64Zero(k - 1);
  }

  /** Masks of different bits are different. */
  lemma MasksDiffer(i: nat, j: nat)
    requires i < j <= 63
    ensures Shr64(MLB, i) != Shr64(MLB, j)
  {
    hide Shr64;
    MaskValues();
    Shr64Add(MLB, i, 63 - i);
    Shr64Add(MLB, j, 63 - j);
    Shr64Add(Shr64(MLB, i), 63 - j, j - i);
    OneGone(j - i);
  }

  lemma AndSwap(x: bv64, y: bv64)
    ensures And64(x, y) == And64(y, x) && And64(x, x) == x
  {
  }

  /** A mask has its own bit set and no other. */
  lemma MaskBit(p: nat, i: nat)
    requires p <= 63 && i <= 63
    ensures Bit64(Shr64(MLB, p), i) <==> i == p
  {
    hide Shr64, And64, Test64, Single;
    var a, b := Shr64(MLB, p), Shr64(MLB, i);
    MaskSingle(p);
    MaskSingle(i);
    MaskNonzero(p);
    SingleAnd(a, b);
    SingleAnd(b, a);
    AndSwap(a, b);
    AndSwap(a, a);
    TestAnd(a, b);
    if i < p { MasksDiffer(i, p); } else if p < i { MasksDiffer(p, i); }
  }

  /** The word whose bits are the columns selected, the first column at the top. */
  function BinTuple(sel: seq<int>): bv64 {
    if sel == [] then 0
    else
      var n := |sel| - 1;
      if 1 <= sel[n] <= 64 then Or64(BinTuple(sel[..n]), Shr64(MLB, sel[n] - 1)) else BinTuple(sel[..n])
  }

  /** The dimensions with the given column numbers. */
  ghost function Selecting(sel: seq<int>, nd: nat): (t: Tuple)
    ensures |t| == nd && forall i :: 0 <= i < nd ==> (t[i] <==> i + 1 in sel)
  {
    seq(nd, i requires 0 <= i < nd => i + 1 in sel)
  }

  lemma {:induction false} BinTupleBit(sel: seq<int>, i: nat)
    requires Columns(sel, 64) && i <= 63
    ensures Bit64(BinTuple(sel), i) <==> i + 1 in sel
  {
    if sel == [] {
      ZeroWord(0);
      assert !Test64(0, Shr64(MLB, i));
    } else {
      hide Test64, Or64, Shr64, Single;
      var n := |sel| - 1;
      BinTupleBit(sel[..n], i);
      MaskBit(sel[n] - 1, i);
      MaskSingle(i);
      MaskNonzero(i);
      OrTest(BinTuple(sel[..n]), Shr64(MLB, sel[n] - 1), Shr64(MLB, i));
      assert sel == sel[..n] + [sel[n]];
    }
  }

  /** CreateBinTuple: sets one bit per column. The word's tuple has exactly the dimensions selected. */
  method CreateBinTuple(selTuple: seq<int>) returns (binRepTuple: bv64)
    requires Columns(selTuple, 64)
    ensures binRepTuple == BinTuple(selTuple)
    ensures forall nd: nat :: nd <= 64 ==> Tuple64(binRepTuple, nd) == Selecting(selTuple, nd)
  {
    hide Or64, Shr64;
    binRepTuple := 0;
    for i := 0 to |selTuple|
      invariant binRepTuple == BinTuple(selTuple[..i])
    {
      assert selTuple[..i + 1][..i] == selTuple[..i];
      binRepTuple := Or64(binRepTuple, Shr64(MLB, selTuple[i] - 1));
    }
    assert selTuple[..|selTuple|] == selTuple;
    forall nd: nat | nd <= 64 ensures Tuple64(binRepTuple, nd) == Selecting(selTuple, nd) { BinTupleIs(selTuple, nd); }
  }

  lemma BinTupleIs(sel: seq<int>, nd: nat)
    requires Columns(sel, 64) && nd <= 64
    ensures Tuple64(BinTuple(sel), nd) == Selecting(sel, nd)
  {
    hide Bit64, BinTuple;
    forall i | 0 <= i < nd ensures Tuple64(BinTuple(sel), nd)[i] == Selecting(sel, nd)[i] { BinTupleBit(sel, i); }
  }

  /** Column numbers and back: the tuple's column numbers select the tuple. */
  lemma {:induction false} SelectedSelects(t: Tuple)
    ensures Selecting(Selected(t), |t|) == t
  {
    if t != [] {
      var n := |t| - 1;
      SelectedSelects(t[..n]);
      SelectedColumns(t[..n]);
      var s, s' := Selected(t[..n]), Selected(t);
      assert s' == s + if t[n] then [n + 1] else [];
      forall i | 0 <= i < |t| ensures Selecting(s', |t|)[i] == t[i] {
        if i < n { assert Selecting(s, n)[i] == t[..n][i]; }
      }
    }
  }

  lemma {:induction false} SomeSelected(t: Tuple, i: nat)
    requires i < |t| && t[i]
    ensures Count(t) > 0
  {
    if i < |t| - 1 { SomeSelected(t[..|t| - 1], i); }
  }
}
