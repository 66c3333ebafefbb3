/** Which views suit as parents of a view: the tests by masks, and what they mean for the dimensions. */
module ParentKinds {
  import opened Tuples

  datatype ParentKind = SmallestParent | PrefixedParent | SharedSortParent | NoneParent

  function FirstOne(x: bv32, i: nat): nat
    requires i <= 32
    decreases 32 - i
  {
    if i == 32 || Bit32(x, i) then i else FirstOne(x, i + 1)
  }

  function BehindLastOne(x: bv32, k: nat): nat {
    if k == 0 || Bit32(x, k - 1) then k else BehindLastOne(x, k - 1)
  }

  function LeadingOnes(n: nat): bv32 {
    if n == 0 then 0 else Or32(LeadingOnes(n - 1), Shr32(MLB32, n - 1))
  }

  function And32(x: bv32, y: bv32): bv32 { x & y }
  function Or32(x: bv32, y: bv32): bv32 { x | y }

  predicate Super(groupby: bv32, grpb: bv32) { And32(groupby, grpb) == groupby }
  predicate Prefixed(groupby: bv32, grpb: bv32) {
    Super(groupby, grpb) && And32(grpb, LeadingOnes(BehindLastOne(groupby, 32))) == groupby
  }
  predicate SharedSort(groupby: bv32, grpb: bv32) {
    Super(groupby, grpb) && Test32(grpb, Shr32(MLB32, FirstOne(groupby, 0))) &&
    !Test32(grpb, LeadingOnes(FirstOne(groupby, 0)))
  }

  predicate Suits(kind: ParentKind, groupby: bv32, grpb: bv32) {
    match kind
    case SmallestParent => Super(groupby, grpb)
    case PrefixedParent => Prefixed(groupby, grpb)
    case SharedSortParent => SharedSort(groupby, grpb)
    case NoneParent => false
  }

  // ---- What the tests mean --------------------------------------------------------------------------

  /** The parent agrees with the child on every dimension up to the child's last one. */
  ghost predicate PrefixOf(c: Tuple, p: Tuple) {
    |c| == |p| && forall i, j :: 0 <= i <= j < |c| && c[j] ==> p[i] == c[i]
  }

  /** The parent has the child's first dimension and none before it. */
  ghost predicate FirstShared(c: Tuple, p: Tuple) {
    |c| == |p| && exists j :: 0 <= j < |c| && c[j] && p[j] && forall i :: 0 <= i < j ==> !c[i] && !p[i]
  }

  ghost predicate Kin(kind: ParentKind, c: Tuple, p: Tuple) {
    match kind
    case SmallestParent => Subset(c, p)
    case PrefixedParent => PrefixOf(c, p)
    case SharedSortParent => Subset(c, p) && FirstShared(c, p)
    case NoneParent => false
  }

  lemma AndBit(a: bv32, b: bv32, i: nat)
    requires i < 32
    ensures Bit32(And32(a, b), i) <==> Bit32(a, i) && Bit32(b, i)
  {
    hide Shr32, And32, Test32, Single32;
    Mask32Single(i);
    AndSingle(a, b, Shr32(MLB32, i));
  }

  lemma AndSingle(a: bv32, b: bv32, m: bv32)
    requires Single32(m)
    ensures Test32(And32(a, b), m) <==> Test32(a, m) && Test32(b, m)
  {
    SingleMask(a, m);
    SingleMask(b, m);
    SingleMask(a & b, m);
    assert (a & b) & m == (a & m) & (b & m);
  }

  /** Masked with one bit, a word is zero or the mask. */
  lemma SingleMask(a: bv32, m: bv32)
    requires Single32(m)
    ensures a & m == 0 || a & m == m
  {
  }

  lemma OrBit(a: bv32, b: bv32, m: bv32)
    ensures Test32(Or32(a, b), m) <==> Test32(a, m) || Test32(b, m)
  {
    hide Test32, And32, Or32;
    TestIs(a, m);
    TestIs(b, m);
    TestIs(Or32(a, b), m);
    OrAnd(a, b, m);
    OrNothing(And32(a, m), And32(b, m));
  }

  lemma OrAnd(a: bv32, b: bv32, m: bv32)
    ensures And32(Or32(a, b), m) == Or32(And32(a, m), And32(b, m))
  {
  }

  lemma OrNothing(a: bv32, b: bv32)
    ensures Or32(a, b) == 0 <==> a == 0 && b == 0
  {
  }

  lemma NoBit(m: bv32)
    ensures !Test32(0, m)
  {
  }

  /** A mask has its own bit and no other. */
  lemma MaskBit32(p: nat, i: nat)
    requires p < 32 && i < 32
    ensures Bit32(Shr32(MLB32, p), i) <==> i == p
  {
    hide Shr32, Shr64, Test32, Test64, Low32, Short;
    LowMask(p);
    Bit32Low(Shr64(MLB, 32 + p), i);
    MaskBit(32 + p, 32 + i);
  }

  lemma {:induction false} LeadingBit(n: nat, i: nat)
    requires n <= 32 && i < 32
    ensures Bit32(LeadingOnes(n), i) <==> i < n
  {
    hide Test32, Shr32, Or32;
    if n == 0 {
      NoBit(Shr32(MLB32, i));
    } else {
      LeadingBit(n - 1, i);
      MaskBit32(n - 1, i);
      OrBit(LeadingOnes(n - 1), Shr32(MLB32, n - 1), Shr32(MLB32, i));
    }
  }

  /** Words with the same bits are the same. */
  lemma SameWord(a: bv32, b: bv32)
    requires forall i :: 0 <= i < 32 ==> Bit32(a, i) == Bit32(b, i)
    ensures a == b
  {
    hide Bit32, And32;
    AndComplete(a, b, 32);
    AndComplete(b, a, 32);
    AndCommutes(a, b);
  }

  lemma AndComplete(g: bv32, t: bv32, nd: nat)
    requires nd <= 32 && Subset(Tuple32(g, nd), Tuple32(t, nd)) && forall i :: nd <= i < 32 ==> !Bit32(g, i)
    ensures And32(g, t) == g
  {
    hide Bit32;
    SubsetTestComplete(g, t, nd);
  }

  lemma AndCommutes(a: bv32, b: bv32)
    ensures And32(a, b) == And32(b, a)
  {
  }

  lemma {:induction false} FirstOneIs(x: bv32, i: nat)
    requires i <= 32
    ensures i <= FirstOne(x, i) <= 32 && (FirstOne(x, i) < 32 ==> Bit32(x, FirstOne(x, i)))
    ensures forall k :: i <= k < FirstOne(x, i) ==> !Bit32(x, k)
    decreases 32 - i
  {
    hide Bit32;
    if i < 32 && !Bit32(x, i) { FirstOneIs(x, i + 1); }
  }

  lemma {:induction false} BehindLastOneIs(x: bv32, k: nat)
    requires k <= 32
    ensures BehindLastOne(x, k) <= k && (BehindLastOne(x, k) > 0 ==> Bit32(x, BehindLastOne(x, k) - 1))
    ensures forall i :: BehindLastOne(x, k) <= i < k ==> !Bit32(x, i)
  {
    hide Bit32;
    if k > 0 && !Bit32(x, k - 1) { BehindLastOneIs(x, k - 1); }
  }

  lemma SuperBits(g: bv32, t: bv32)
    ensures Super(g, t) <==> forall i :: 0 <= i < 32 && Bit32(g, i) ==> Bit32(t, i)
  {
    hide Bit32, And32;
    if Super(g, t) { forall i | 0 <= i < 32 && Bit32(g, i) ensures Bit32(t, i) { AndBit(g, t, i); } }
    if forall i :: 0 <= i < 32 && Bit32(g, i) ==> Bit32(t, i) { AndComplete(g, t, 32); }
  }

  lemma SuperIs(g: bv32, t: bv32, nd: nat)
    requires nd <= 32 && forall i :: nd <= i < 32 ==> !Bit32(g, i)
    ensures Super(g, t) <==> Subset(Tuple32(g, nd), Tuple32(t, nd))
  {
    hide Bit32, And32;
    SuperBits(g, t);
    if Subset(Tuple32(g, nd), Tuple32(t, nd)) {
      forall i | 0 <= i < 32 && Bit32(g, i) ensures Bit32(t, i) { assert Tuple32(g, nd)[i] ==> Tuple32(t, nd)[i]; }
    }
    if Super(g, t) { assert Subset(Tuple32(g, nd), Tuple32(t, nd)); }
  }

  /** The bits of a word up to some place are those of another. */
  lemma MaskedIs(g: bv32, t: bv32, k: nat)
    requires k <= 32 && forall i :: k <= i < 32 ==> !Bit32(g, i)
    ensures And32(t, LeadingOnes(k)) == g <==> forall i :: 0 <= i < k ==> Bit32(t, i) == Bit32(g, i)
  {
    hide Bit32, LeadingOnes, And32;
    forall i | 0 <= i < 32 ensures Bit32(And32(t, LeadingOnes(k)), i) <==> Bit32(t, i) && i < k {
      AndBit(t, LeadingOnes(k), i);
      LeadingBit(k, i);
    }
    if forall i :: 0 <= i < k ==> Bit32(t, i) == Bit32(g, i) { SameWord(And32(t, LeadingOnes(k)), g); }
  }

  lemma PrefixedIs(g: bv32, t: bv32, nd: nat)
    requires nd <= 32 && forall i :: nd <= i < 32 ==> !Bit32(g, i)
    ensures Prefixed(g, t) <==> PrefixOf(Tuple32(g, nd), Tuple32(t, nd))
  {
    hide Bit32, LeadingOnes, BehindLastOne, Super, And32;
    var k, c, p := BehindLastOne(g, 32), Tuple32(g, nd), Tuple32(t, nd);
    BehindLastOneIs(g, 32);
    MaskedIs(g, t, k);
    SuperBits(g, t);
    if Prefixed(g, t) {
      forall i, j | 0 <= i <= j < nd && c[j] ensures p[i] == c[i] { assert j < k; }
    }
    if PrefixOf(c, p) {
      forall i | 0 <= i < k ensures Bit32(t, i) == Bit32(g, i) { assert c[k - 1] && p[i] == c[i]; }
    }
  }

  lemma SharedSortIs(g: bv32, t: bv32, nd: nat)
    requires nd <= 32 && forall i :: nd <= i < 32 ==> !Bit32(g, i)
    ensures SharedSort(g, t) <==> Subset(Tuple32(g, nd), Tuple32(t, nd)) && FirstShared(Tuple32(g, nd), Tuple32(t, nd))
  {
    hide Bit32, LeadingOnes, FirstOne, Super, Shr32, Test32;
    var k, c, p := FirstOne(g, 0), Tuple32(g, nd), Tuple32(t, nd);
    FirstOneIs(g, 0);
    SuperIs(g, t, nd);
    FirstTests(t, k);
    if SharedSort(g, t) { assert c[k] && p[k]; }
    if j :| 0 <= j < nd && c[j] && p[j] && forall i :: 0 <= i < j ==> !c[i] && !p[i] {
      assert k == j;
    }
  }

  lemma FirstTests(t: bv32, k: nat)
    requires k <= 32
    ensures Test32(t, Shr32(MLB32, k)) <==> k < 32 && Bit32(t, k)
    ensures !Test32(t, LeadingOnes(k)) <==> forall i :: 0 <= i < k ==> !Bit32(t, i)
  {
    hide LeadingOnes, Shr32, Test32, And32;
    if k == 32 { BehindMask(); NoMask(t); }
    NoBits();
    MaskedIs(0, t, k);
    TestIs(t, LeadingOnes(k));
  }

  lemma NoMask(t: bv32)
    ensures !Test32(t, 0)
  {
  }

  lemma TestIs(t: bv32, m: bv32)
    ensures !Test32(t, m) <==> And32(t, m) == 0
  {
  }

  lemma BehindMask()
    ensures Shr32(MLB32, 32) == 0
  {
    Mask32Values();
    hide Half32;
    assert Shr32(MLB32, 32) == Half32(Shr32(MLB32, 31));
    HalfOne();
  }

  lemma NoBits()
    ensures forall i :: 0 <= i < 32 ==> !Bit32(0, i)
  {
    forall i | 0 <= i < 32 ensures !Bit32(0, i) { NoBit(Shr32(MLB32, i)); }
  }

  /** The tests tell exactly the kinds of parents. */
  lemma SuitsIs(kind: ParentKind, g: bv32, t: bv32, nd: nat)
    requires nd <= 32 && forall i :: nd <= i < 32 ==> !Bit32(g, i)
    ensures Suits(kind, g, t) <==> Kin(kind, Tuple32(g, nd), Tuple32(t, nd))
  {
    hide Super, Prefixed, SharedSort, Subset, PrefixOf, FirstShared, Bit32;
    match kind {
      case SmallestParent => SuperIs(g, t, nd);
      case PrefixedParent => PrefixedIs(g, t, nd);
      case SharedSortParent => SharedSortIs(g, t, nd);
      case NoneParent =>
    }
  }
}
