/** The layers of the job pool: one slot for every combination of dimensions, ordered by the number of dimensions. */
module Layers {
  import opened Tuples
  import opened Binomials
  import opened Arith
  import opened SeqEdit

  lemma ExactStep(l: nat, next: nat, product: nat)
    requires l > 0 && l * next == product
    ensures product / l == next
  {
    DivIs(product, l, next, 0);
  }

  /** NumOfCombsFromNbyK: product and quotient, factor by factor, in 32-bit arithmetic. */
  method NumOfCombsFromNbyK(n: nat, k: nat) returns (combsNbyK: nat)
    requires n <= 28
    ensures combsNbyK == Binomial(n, k)
  {
    hide Binomial;
    if k > n {
      BinomialAbove(n, k);
      return 0;
    }
    combsNbyK := 1;
    BinomialNone(n);
    for l := 1 to k + 1
      invariant combsNbyK == Binomial(n, l - 1)
    {
      Absorption(n, l);
      StepFits(n, l);
      ExactStep(l, Binomial(n, l), (n - l + 1) * combsNbyK);
      combsNbyK := ((n - l + 1) * combsNbyK) % 0x1_0000_0000 / l;
    }
  }

  // ---- Layers --------------------------------------------------------------------------------------------

  datatype Layer = Layer(layerIndex: nat, layerQuantityLimit: nat, layerCurrentPopulation: nat)

  /** The first slot of layer l. Slot 0 is not used. */
  ghost function Start(n: nat, l: nat): nat {
    if l == 0 then 0 else Start(n, l - 1) + Binomial(n, l - 1)
  }

  lemma StartNext(n: nat, l: nat)
    ensures Start(n, l + 1) == Start(n, l) + Binomial(n, l)
  {
  }

  lemma {:induction false} StartPascal(n: nat, l: nat)
    requires n > 0
    ensures Start(n, l + 1) == Start(n - 1, l) + Start(n - 1, l + 1)
  {
    if l > 0 { StartPascal(n, l - 1); }
  }

  lemma {:induction false} StartBeyond(n: nat, l: nat)
    requires l > n
    ensures Start(n, l) == Start(n, n + 1)
  {
    if l > n + 1 {
      BinomialAbove(n, l - 1);
      StartBeyond(n, l - 1);
    }
  }

  /** The layers end where the job pool ends: they fill slots 1 to 2^n - 1. */
  lemma {:induction false} LayersTile(n: nat)
    ensures Start(n, 1) == 1 && Start(n, n + 1) == Pow2(n)
  {
    assert Start(n, 1) == Start(n, 0) + Binomial(n, 0);
    if n > 0 {
      LayersTile(n - 1);
      StartPascal(n, n);
      StartBeyond(n - 1, n + 1);
    }
  }

  lemma {:induction false} StartGrows(n: nat, l: nat, m: nat)
    requires l <= m
    ensures Start(n, l) <= Start(n, m)
  {
    if l < m { StartGrows(n, l, m - 1); }
  }

  /** Slots of different layers are different, and all of them are in the pool. */
  lemma SlotsApart(n: nat, l: nat, i: nat, m: nat, j: nat)
    requires 1 <= l <= n && 1 <= m <= n && i < Binomial(n, l) && j < Binomial(n, m)
    ensures 1 <= Start(n, l) + i < Pow2(n) && (Start(n, l) + i == Start(n, m) + j <==> l == m && i == j)
  {
    StartNext(n, l);
    StartNext(n, m);
    hide Binomial, Start, Pow2;
    LayersTile(n);
    StartGrows(n, 1, l);
    StartGrows(n, l + 1, n + 1);
    if l < m { StartGrows(n, l + 1, m); }
    if m < l { StartGrows(n, m + 1, l); }
  }

  /** The layer table; entry 0 is not set up by the program. */
  method SetUpLayers(nd: nat) returns (lpp: seq<Layer>)
    requires nd <= 28
    ensures |lpp| == nd + 1 && forall l :: 1 <= l <= nd ==> lpp[l] == Layer(Start(nd, l), Binomial(nd, l), 0)
  {
    lpp := [Layer(0, 0, 0)];
    LayersTile(nd);
    var j := 1;
    for i := 1 to nd + 1
      invariant |lpp| == i && j == Start(nd, i) &&
                forall l :: 1 <= l < i ==> lpp[l] == Layer(Start(nd, l), Binomial(nd, l), 0)
    {
      var k := NumOfCombsFromNbyK(nd, i);
      lpp := lpp + [Layer(j, k, 0)];
      j := j + k;
    }
  }

  // ---- A layer has room for all its tuples --------------------------------------------------------------------

  /** The position of a tuple among the tuples with as many dimensions. */
  ghost function Rank(t: Tuple): nat {
    if t == [] then 0
    else
      var u := t[..|t| - 1];
      Rank(u) + if t[|t| - 1] then Binomial(|u|, Count(t)) else 0
  }

  lemma RankNext(t: Tuple, b: bool)
    ensures Rank(t + [b]) == Rank(t) + if b then Binomial(|t|, Count(t) + 1) else 0
  {
    hide Binomial, Count;
    assert (t + [b])[..|t|] == t;
    CountNext(t, b);
  }

  lemma {:induction false} RankBelow(t: Tuple)
    ensures Rank(t) < Binomial(|t|, Count(t))
  {
    if t != [] {
      hide Binomial, Rank, Count;
      var u, b := t[..|t| - 1], t[|t| - 1];
      assert t == u + [b];
      RankBelow(u);
      RankNext(u, b);
      CountNext(u, b);
      if b {
        Pascal(|t|, Count(t));
      } else if Count(u) > 0 {
        Pascal(|t|, Count(u));
      } else {
        BinomialNone(|t|);
        BinomialNone(|u|);
      }
    } else {
      assert Count(t) == 0;
    }
  }

  /** Different tuples with as many dimensions have different ranks. */
  lemma {:induction false} RankInjective(s: Tuple, t: Tuple)
    requires |s| == |t| && Count(s) == Count(t) && Rank(s) == Rank(t)
    ensures s == t
  {
    if s != [] {
      hide Binomial, Rank, Count;
      var u, b, v, c := s[..|s| - 1], s[|s| - 1], t[..|t| - 1], t[|t| - 1];
      assert s == u + [b] && t == v + [c];
      RankNext(u, b);
      RankNext(v, c);
      CountNext(u, b);
      CountNext(v, c);
      RankBelow(u);
      RankBelow(v);
      if b == c { RankInjective(u, v); }
    }
  }

  /** Different tuples with k dimensions are at most as many as the slots of layer k. */
  lemma LayerRoom(ts: seq<Tuple>, n: nat, k: nat)
    requires AllDistinct(ts) && forall i :: 0 <= i < |ts| ==> |ts[i]| == n && Count(ts[i]) == k
    ensures |ts| <= Binomial(n, k)
  {
    hide Binomial, Rank, Count;
    var r := seq(|ts|, i requires 0 <= i < |ts| => Rank(ts[i]));
    forall i | 0 <= i < |r| ensures 0 <= r[i] < Binomial(n, k) { RankBelow(ts[i]); }
    forall i, j | 0 <= i < j < |r| ensures r[i] != r[j] { if r[i] == r[j] { RankInjective(ts[i], ts[j]); } }
    Pigeonhole(r, Binomial(n, k));
  }
}
