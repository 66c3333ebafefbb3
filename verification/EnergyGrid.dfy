/** Cross-section lookup: the interval of a nuclide's energy grid for a given energy, found by binary search in the
    nuclide's own grid or through an index over the union of all grids. */
module EnergyGrid {
  import opened SeqEdit

  ghost predicate Ascending(a: seq<real>) { forall i, j :: 0 <= i < j < |a| ==> a[i] <= a[j] }
  ghost predicate Increasing(a: seq<real>) { forall i, j :: 0 <= i < j < |a| ==> a[i] < a[j] }

  /** The interval for an energy: the last grid point not above it, except that below the grid it is the first interval
      and above the grid the last. */
  ghost predicate IsInterval(a: seq<real>, energy: real, r: int) {
    0 <= r && (r == 0 || r <= |a| - 2) && (r > 0 ==> a[r] <= energy) && forall j :: r < j <= |a| - 2 ==> energy < a[j]
  }

  lemma IntervalUnique(a: seq<real>, energy: real, r: int, s: int)
    requires IsInterval(a, energy, r) && IsInterval(a, energy, s)
    ensures r == s
  {
  }

  /** grid_search and grid_search_nuclide */
  method GridSearch(a: seq<real>, quarry: real, low: int, high: int) returns (lower: int)
    requires Ascending(a) && low == 0 && high == |a| - 1 && |a| > 0
    ensures IsInterval(a, quarry, lower)
  {
    lower := low;
    var upper := high;
    var length := upper - lower;
    while length > 1
      invariant 0 <= lower <= upper <= high && length == upper - lower && (lower == upper ==> high == 0)
      invariant (lower > 0 ==> a[lower] <= quarry) && (upper < high ==> quarry < a[upper])
    {
      var examinationPoint := lower + length / 2;
      if a[examinationPoint] > quarry { upper := examinationPoint; } else { lower := examinationPoint; }
      length := upper - lower;
    }
    forall j | lower < j <= |a| - 2 ensures quarry < a[j] { assert upper < high && (upper == j || a[upper] <= a[j]); }
  }

  // ---- The union of all grids -------------------------------------------------------------------

  ghost predicate Grids(nuclides: seq<seq<real>>, n_gridpoints: int) {
    n_gridpoints >= 2 && forall i :: 0 <= i < |nuclides| ==> |nuclides[i]| == n_gridpoints && Increasing(nuclides[i])
  }

  ghost predicate Occurs(x: real, s: seq<real>) { exists k :: 0 <= k < |s| && s[k] == x }

  /** The union holds every grid point of every nuclide and nothing else, in ascending order. */
  ghost predicate Union(union: seq<real>, nuclides: seq<seq<real>>) {
    Ascending(union) &&
    (forall i, j :: 0 <= i < |nuclides| && 0 <= j < |nuclides[i]| ==> Occurs(nuclides[i][j], union)) &&
    forall e :: 0 <= e < |union| ==> exists i :: 0 <= i < |nuclides| && Occurs(union[e], nuclides[i])
  }

  ghost function Flat(nuclides: seq<seq<real>>): seq<real> {
    if nuclides == [] then [] else Flat(nuclides[..|nuclides| - 1]) + nuclides[|nuclides| - 1]
  }

  lemma {:induction false} FlatOccurs(nuclides: seq<seq<real>>, x: real)
    ensures Occurs(x, Flat(nuclides)) <==> exists i :: 0 <= i < |nuclides| && Occurs(x, nuclides[i])
  {
    if nuclides != [] {
      var n := |nuclides| - 1;
      var init := nuclides[..n];
      FlatOccurs(init, x);
      OccursConcat(x, Flat(init), nuclides[n]);
      assert forall i :: 0 <= i < n ==> init[i] == nuclides[i];
    }
  }

  lemma OccursConcat(x: real, a: seq<real>, b: seq<real>)
    ensures Occurs(x, a + b) <==> Occurs(x, a) || Occurs(x, b)
  {
    if Occurs(x, a) { var k :| 0 <= k < |a| && a[k] == x; assert (a + b)[k] == x; }
    if Occurs(x, b) { var k :| 0 <= k < |b| && b[k] == x; assert (a + b)[|a| + k] == x; }
    if Occurs(x, a + b) {
      var k :| 0 <= k < |a + b| && (a + b)[k] == x;
      if k < |a| { assert a[k] == x; } else { assert b[k - |a|] == x; }
    }
  }

  lemma OccursPermutation(x: real, a: seq<real>, b: seq<real>)
    requires multiset(a) == multiset(b) && Occurs(x, a)
    ensures Occurs(x, b)
  {
    var k :| 0 <= k < |a| && a[k] == x;
    assert a[k] in multiset(a);
    var m := FindIn(b, x);
    assert b[m] == x;
  }

  /** Sorting all grid points together gives the union. */
  lemma SortedUnion(union: seq<real>, nuclides: seq<seq<real>>)
    requires Ascending(union) && multiset(union) == multiset(Flat(nuclides))
    ensures Union(union, nuclides)
  {
    forall i, j | 0 <= i < |nuclides| && 0 <= j < |nuclides[i]| ensures Occurs(nuclides[i][j], union) {
      assert Occurs(nuclides[i][j], nuclides[i]);
      FlatOccurs(nuclides, nuclides[i][j]);
      OccursPermutation(nuclides[i][j], Flat(nuclides), union);
    }
    forall e | 0 <= e < |union| ensures exists i :: 0 <= i < |nuclides| && Occurs(union[e], nuclides[i]) {
      assert Occurs(union[e], union);
      OccursPermutation(union[e], union, Flat(nuclides));
      FlatOccurs(nuclides, union[e]);
    }
  }

  // ---- The index --------------------------------------------------------------------------------

  /** When the next union point reaches the upper end of the current interval, it is that grid point: the following one
      is larger. */
  lemma AdvanceOnce(union: seq<real>, nuclides: seq<seq<real>>, n_gridpoints: int, e: int, i: int, idx: int)
    requires Grids(nuclides, n_gridpoints) && Union(union, nuclides) && 0 <= i < |nuclides| && 0 <= e < |union| &&
             0 <= idx <= n_gridpoints - 2
    requires if e == 0 then idx == 0 else IsInterval(nuclides[i], union[e - 1], idx)
    ensures var a := nuclides[i];
      if union[e] < a[idx + 1] || idx == n_gridpoints - 2 then IsInterval(a, union[e], idx)
      else IsInterval(a, union[e], idx + 1)
  {
    var a := nuclides[i];
    assert |a| == n_gridpoints && Increasing(a);
    if e > 0 { assert union[e - 1] <= union[e]; }
    if union[e] < a[idx + 1] {
      forall j | idx < j <= |a| - 2 ensures union[e] < a[j] { assert a[idx + 1] <= a[j]; }
    } else if idx < n_gridpoints - 2 {
      assert Occurs(a[idx + 1], union);
      var k :| 0 <= k < |union| && union[k] == a[idx + 1];
      assert e > 0 ==> union[e - 1] < a[idx + 1];
      assert k >= e;
      assert union[e] == a[idx + 1] by { assert e == k || union[e] <= union[k]; }
      forall j | idx + 1 < j <= |a| - 2 ensures union[e] < a[j] { assert a[idx + 1] < a[j]; }
    }
  }

  ghost predicate IndexedTo(index_grid: array2<int>, union: seq<real>, nuclides: seq<seq<real>>, e: int)
    requires index_grid.Length0 == |union| && index_grid.Length1 == |nuclides|
    reads index_grid
  {
    forall d, i :: 0 <= d < e <= |union| && 0 <= i < |nuclides| ==> IsInterval(nuclides[i], union[d], index_grid[d, i])
  }

  /** One row of the index: for every nuclide the interval stays or moves up by one. */
  method IndexRow(nuclides: seq<seq<real>>, union: seq<real>, n_gridpoints: int, e: int, idx_low: array<int>,
      energy_high: array<real>, index_grid: array2<int>)
    requires Grids(nuclides, n_gridpoints) && Union(union, nuclides) && 0 <= e < |union| &&
             idx_low.Length == energy_high.Length == |nuclides|
    requires index_grid.Length0 == |union| && index_grid.Length1 == |nuclides|
    requires forall i ::
               0 <= i < |nuclides| ==>
                 0 <= idx_low[i] <= n_gridpoints - 2 && energy_high[i] == nuclides[i][idx_low[i] + 1]
    requires forall i ::
               0 <= i < |nuclides| ==>
                 if e == 0 then idx_low[i] == 0 else IsInterval(nuclides[i], union[e - 1], idx_low[i])
    requires IndexedTo(index_grid, union, nuclides, e)
    modifies idx_low, energy_high, index_grid
    ensures forall i ::
              0 <= i < |nuclides| ==>
                0 <= idx_low[i] <= n_gridpoints - 2 && energy_high[i] == nuclides[i][idx_low[i] + 1]
    ensures forall i :: 0 <= i < |nuclides| ==> IsInterval(nuclides[i], union[e], idx_low[i])
    ensures IndexedTo(index_grid, union, nuclides, e + 1)
  {
    hide IsInterval, Union, Increasing;
    var unionized_energy := union[e];
    for i := 0 to |nuclides|
      invariant forall k ::
                  0 <= k < |nuclides| ==>
                    0 <= idx_low[k] <= n_gridpoints - 2 && energy_high[k] == nuclides[k][idx_low[k] + 1]
      invariant forall k ::
                  0 <= k < i ==> IsInterval(nuclides[k], union[e], idx_low[k]) && index_grid[e, k] == idx_low[k]
      invariant forall k ::
                  i <= k < |nuclides| ==>
                    if e == 0 then idx_low[k] == 0 else IsInterval(nuclides[k], union[e - 1], idx_low[k])
      invariant forall d, k :: 0 <= d < e && 0 <= k < |nuclides| ==> index_grid[d, k] == old(index_grid[d, k])
    {
      AdvanceOnce(union, nuclides, n_gridpoints, e, i, idx_low[i]);
      if unionized_energy < energy_high[i] {
        index_grid[e, i] := idx_low[i];
      } else if idx_low[i] == n_gridpoints - 2 {
        index_grid[e, i] := idx_low[i];
      } else {
        idx_low[i] := idx_low[i] + 1;
        index_grid[e, i] := idx_low[i];
        energy_high[i] := nuclides[i][idx_low[i] + 1];
      }
    }
  }

  /** The index holds, for every union point and nuclide, the nuclide's interval at that point. */
  method BuildIndexGrid(nuclides: seq<seq<real>>, union: seq<real>, n_gridpoints: int) returns (index_grid: array2<int>)
    requires Grids(nuclides, n_gridpoints) && Union(union, nuclides)
    ensures index_grid.Length0 == |union| && index_grid.Length1 == |nuclides|
    ensures forall e, i ::
              0 <= e < |union| && 0 <= i < |nuclides| ==> IsInterval(nuclides[i], union[e], index_grid[e, i])
  {
    hide IsInterval, Union, Increasing;
    index_grid := new int[|union|, |nuclides|];
    var idx_low := new int[|nuclides|](_ => 0);
    var energy_high := new real[|nuclides|];
    for i := 0 to |nuclides|
      invariant forall k :: 0 <= k < i ==> energy_high[k] == nuclides[k][1]
      invariant forall k :: 0 <= k < |nuclides| ==> idx_low[k] == 0
    {
      energy_high[i] := nuclides[i][1];
    }
    for e := 0 to |union|
      invariant forall i ::
                  0 <= i < |nuclides| ==>
                    0 <= idx_low[i] <= n_gridpoints - 2 && energy_high[i] == nuclides[i][idx_low[i] + 1]
      invariant forall i ::
                  0 <= i < |nuclides| ==>
                    if e == 0 then idx_low[i] == 0 else IsInterval(nuclides[i], union[e - 1], idx_low[i])
      invariant IndexedTo(index_grid, union, nuclides, e)
    {
      IndexRow(nuclides, union, n_gridpoints, e, idx_low, energy_high, index_grid);
    }
  }

  // ---- Lookup -----------------------------------------------------------------------------------

  /** Between a union point and the next, and also below and above all of them, the intervals do not change. */
  lemma SameInterval(union: seq<real>, nuclides: seq<seq<real>>, n_gridpoints: int, energy: real, e: int, i: int,
      r: int)
    requires Grids(nuclides, n_gridpoints) && Union(union, nuclides) && 0 <= i < |nuclides| && |union| >= 2
    requires IsInterval(union, energy, e) && IsInterval(nuclides[i], union[e], r)
    ensures IsInterval(nuclides[i], energy, r)
  {
    var a := nuclides[i];
    assert |a| == n_gridpoints && Increasing(a);
    if r > 0 { NotBelow(union, a, energy, e, r) by { assert Occurs(a[0], union); } }
    forall j | r < j <= |a| - 2 ensures energy < a[j] {
      assert Occurs(a[j], union) && Occurs(a[j + 1], union);
      NotReached(union, a, energy, e, j);
    }
  }

  lemma NotBelow(union: seq<real>, a: seq<real>, energy: real, e: int, r: int)
    requires Ascending(union) && Increasing(a) && 0 < r < |a| && Occurs(a[0], union) && IsInterval(union, energy, e) &&
             e < |union| && a[r] <= union[e]
    ensures a[r] <= energy
  {
    var z :| 0 <= z < |union| && union[z] == a[0];
    assert z > 0 ==> union[0] <= union[z];
    assert a[0] < a[r];
  }

  lemma NotReached(union: seq<real>, a: seq<real>, energy: real, e: int, j: int)
    requires Ascending(union) && Increasing(a) && 0 <= j < |a| - 1 && Occurs(a[j], union) && Occurs(a[j + 1], union)
    requires IsInterval(union, energy, e) && e < |union| && union[e] < a[j]
    ensures energy < a[j]
  {
    var k :| 0 <= k < |union| && union[k] == a[j];
    var m :| 0 <= m < |union| && union[m] == a[j + 1];
    assert a[j] < a[j + 1];
    assert e < k < m <= |union| - 1;
  }

  /** The lookup through the index selects the same interval of every nuclide as the binary search in the nuclide's own
      grid. */
  method Lookup(nuclides: seq<seq<real>>, union: seq<real>, n_gridpoints: int, index_grid: array2<int>, energy: real,
      nuc: int) returns (viaIndex: int, direct: int)
    requires Grids(nuclides, n_gridpoints) && Union(union, nuclides) && 0 <= nuc < |nuclides|
    requires index_grid.Length0 == |union| && index_grid.Length1 == |nuclides|
    requires forall e, i ::
               0 <= e < |union| && 0 <= i < |nuclides| ==> IsInterval(nuclides[i], union[e], index_grid[e, i])
    ensures viaIndex == direct && 0 <= direct <= n_gridpoints - 2 && IsInterval(nuclides[nuc], energy, direct)
  {
    UnionSize(union, nuclides, n_gridpoints, nuc);
    var e := GridSearch(union, energy, 0, |union| - 1);
    viaIndex := if index_grid[e, nuc] == n_gridpoints - 1 then index_grid[e, nuc] - 1 else index_grid[e, nuc];
    SameInterval(union, nuclides, n_gridpoints, energy, e, nuc, index_grid[e, nuc]);
    IncreasingAscending(nuclides[nuc]);
    var idx := GridSearch(nuclides[nuc], energy, 0, n_gridpoints - 1);
    direct := if idx == n_gridpoints - 1 then idx - 1 else idx;
    IntervalUnique(nuclides[nuc], energy, index_grid[e, nuc], idx);
  }

  lemma IncreasingAscending(a: seq<real>)
    requires Increasing(a)
    ensures Ascending(a)
  {
  }

  lemma UnionSize(union: seq<real>, nuclides: seq<seq<real>>, n_gridpoints: int, nuc: int)
    requires Grids(nuclides, n_gridpoints) && Union(union, nuclides) && 0 <= nuc < |nuclides|
    ensures |union| >= 2
  {
    var a := nuclides[nuc];
    assert Occurs(a[0], union) && Occurs(a[1], union);
    var k :| 0 <= k < |union| && union[k] == a[0];
    var m :| 0 <= m < |union| && union[m] == a[1];
    assert a[0] < a[1];
  }
}
