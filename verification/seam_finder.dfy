/** The seam finder: a layered shortest-path dynamic program over an
    oriented energy matrix `m[x][y]` with `Width(m)` columns and
    `Height(m)` rows.  Row 0 starts at the constant 195075, every later cell
    at +infinity; each cell is relaxed into its (up to) three neighbours in
    the next row; the cheapest cell of the last row is then traced back
    through the recorded predecessors.  The result is a minimum-cost seam,
    where the cost of a seam is 195075 plus the energies of its cells in
    rows 1 and below. */
module SeamFinder {

  /** The cost of the cheapest cell of row 0, the starting value of the
      program (the largest squared colour difference, 3 * 255 * 255). */
  const StartCost: real := 195075.0

  /** A cumulative cost: a real number, or +infinity for a cell no
      relaxation has reached yet. */
  datatype Cost = Finite(value: real) | Infinite

  /** `c + e` with infinity absorbing. */
  function Plus(c: Cost, e: real): (r: Cost)
    ensures r.Finite? <==> c.Finite?
    ensures r.Finite? ==> r.value == c.value + e
  {
    match c
    case Finite(v) => Finite(v + e)
    case Infinite => Infinite
  }

  /** `a > b` on extended reals: infinity is above every real and not
      above itself. */
  predicate Greater(a: Cost, b: Cost) {
    match (a, b)
    case (Infinite, Finite(_)) => true
    case (Finite(u), Finite(v)) => u > v
    case _ => false
  }

  /** An energy matrix: at least one column, at least one row, rectangular. */
  predicate IsEnergyMatrix(m: seq<seq<real>>) {
    |m| >= 1 && |m[0]| >= 1 && forall x :: 0 <= x < |m| ==> |m[x]| == |m[0]|
  }

  function Width(m: seq<seq<real>>): nat {
    |m|
  }

  function Height(m: seq<seq<real>>): nat
    requires |m| >= 1
  {
    |m[0]|
  }

  /** Columns `a` and `b` are at most one apart. */
  predicate Adjacent(a: int, b: int) {
    a - 1 <= b <= a + 1
  }

  /** `p` is an 8-connected path down the first `|p|` rows: `p[y]` is the
      column taken in row `y`. */
  predicate IsPath(m: seq<seq<real>>, p: seq<int>)
    requires IsEnergyMatrix(m)
  {
    && |p| <= Height(m)
    && (forall y :: 0 <= y < |p| ==> 0 <= p[y] < Width(m))
    && (forall y :: 0 <= y < |p| - 1 ==> Adjacent(p[y], p[y + 1]))
  }

  /** A seam: a path through every row. */
  predicate IsSeam(m: seq<seq<real>>, s: seq<int>)
    requires IsEnergyMatrix(m)
  {
    IsPath(m, s) && |s| == Height(m)
  }

  /** The cost of a path: the starting constant (row 0's own energy is not
      counted) plus the energies of its cells in rows 1 to |p| - 1. */
  function PathCost(m: seq<seq<real>>, p: seq<int>): real
    requires IsEnergyMatrix(m) && IsPath(m, p) && |p| >= 1
    decreases |p|
  {
    if |p| == 1 then StartCost
    else PathCost(m, p[..|p| - 1]) + m[p[|p| - 1]][|p| - 1]
  }

  function Min(a: real, b: real): real {
    if a <= b then a else b
  }

  /** The least cumulative cost of cell (x, y): the reference definition the
      dynamic program is measured against. */
  function MinCost(m: seq<seq<real>>, x: int, y: int): real
    requires IsEnergyMatrix(m) && 0 <= x < Width(m) && 0 <= y < Height(m)
    decreases y, 0
  {
    if y == 0 then StartCost else BestPredecessorCost(m, x, y - 1) + m[x][y]
  }

  /** The least `MinCost` among the in-range cells of row `y` adjacent to
      column `x`. */
  function BestPredecessorCost(m: seq<seq<real>>, x: int, y: int): real
    requires IsEnergyMatrix(m) && 0 <= x < Width(m) && 0 <= y < Height(m)
    decreases y, 1
  {
    var here := MinCost(m, x, y);
    var withLeft := if x > 0 then Min(here, MinCost(m, x - 1, y)) else here;
    if x + 1 < Width(m) then Min(withLeft, MinCost(m, x + 1, y)) else withLeft
  }

  /** `BestPredecessorCost` is a lower bound of the candidates and is
      attained by one of them. */
  lemma BestPredecessorIsMin(m: seq<seq<real>>, x: int, y: int) returns (best: int)
    requires IsEnergyMatrix(m) && 0 <= x < Width(m) && 0 <= y < Height(m)
    ensures 0 <= best < Width(m) && Adjacent(x, best)
    ensures BestPredecessorCost(m, x, y) == MinCost(m, best, y)
    ensures forall k :: 0 <= k < Width(m) && Adjacent(x, k) ==> BestPredecessorCost(m, x, y) <= MinCost(m, k, y)
  {
    var v := BestPredecessorCost(m, x, y);
    if v == MinCost(m, x, y) {
      best := x;
    } else if x > 0 && v == MinCost(m, x - 1, y) {
      best := x - 1;
    } else {
      best := x + 1;
    }
  }

  /** A value that some adjacent candidate attains and that no adjacent
      candidate undercuts is the best predecessor cost. */
  lemma BestPredecessorUnique(m: seq<seq<real>>, x: int, y: int, p: int, v: real)
    requires IsEnergyMatrix(m) && 0 <= x < Width(m) && 0 <= y < Height(m)
    requires 0 <= p < Width(m) && Adjacent(x, p) && v == MinCost(m, p, y)
    requires forall k :: 0 <= k < Width(m) && Adjacent(x, k) ==> v <= MinCost(m, k, y)
    ensures v == BestPredecessorCost(m, x, y)
  {
  }

  /** No path to (x, y) is cheaper than `MinCost(m, x, y)`. */
  lemma {:induction false} PathCostAtLeastMinCost(m: seq<seq<real>>, p: seq<int>)
    requires IsEnergyMatrix(m) && IsPath(m, p) && |p| >= 1
    ensures MinCost(m, p[|p| - 1], |p| - 1) <= PathCost(m, p)
    decreases |p|
  {
    if |p| > 1 {
      var n := |p| - 1;
      var q := p[..n];
      assert IsPath(m, q);
      PathCostAtLeastMinCost(m, q);
      assert q[n - 1] == p[n - 1];
      var _ := BestPredecessorIsMin(m, p[n], n - 1);
    }
  }

  /** Some path to (x, y) costs exactly `MinCost(m, x, y)`: together with
      `PathCostAtLeastMinCost`, `MinCost` is the least cost of the
      8-connected paths from row 0 to the cell. */
  lemma {:induction false} MinCostAttained(m: seq<seq<real>>, x: int, y: int) returns (p: seq<int>)
    requires IsEnergyMatrix(m) && 0 <= x < Width(m) && 0 <= y < Height(m)
    ensures IsPath(m, p) && |p| == y + 1 && p[y] == x
    ensures PathCost(m, p) == MinCost(m, x, y)
    decreases y
  {
    if y == 0 {
      p := [x];
    } else {
      var best := BestPredecessorIsMin(m, x, y - 1);
      var q := MinCostAttained(m, best, y - 1);
      p := q + [x];
      assert p[..y] == q;
    }
  }

  /** The 1-D index of cell (x, y) recorded as a predecessor; `% Width(m)`
      recovers the column and `/ Width(m)` the row. */
  function XyTo1D(x: int, y: int, m: seq<seq<real>>): (i: int)
    requires 0 <= x < Width(m) && 0 <= y
    ensures 0 <= i
    ensures i % Width(m) == x && i / Width(m) == y
  {
    var w := Width(m);
    DivModUnique(y * w + x, w, y, x);
    y * w + x
  }

  /** Division with remainder has only one answer. */
  lemma DivModUnique(n: int, w: int, q: int, r: int)
    requires 0 < w && 0 <= r < w && n == q * w + r
    ensures n / w == q && n % w == r
  {
    var q', r' := n / w, n % w;
    assert n == q' * w + r';
    var d := q - q';
    assert d * w == q * w - q' * w;
    assert d * w == r' - r;
  }

  /** The state of cell `k` of row `y + 1` once the cells of row `y` in
      columns below `bound` have been relaxed into it: it is finite as soon
      as one of its neighbours has been relaxed, and then its cost is that of
      its recorded predecessor plus its own energy and no relaxed neighbour
      offers less. */
  predicate PartiallyRelaxed(m: seq<seq<real>>, y: int, cur: seq<Cost>, c: Cost, e: int, k: int, bound: int)
    requires IsEnergyMatrix(m) && 0 <= y && y + 1 < Height(m) && |cur| == Width(m) && 0 <= k < Width(m)
  {
    && (0 < bound && k <= bound ==> c.Finite?)
    && (c.Finite? ==>
          && 0 <= e
          && e / Width(m) == y
          && 0 <= e % Width(m) < bound
          && Adjacent(k, e % Width(m))
          && cur[e % Width(m)].Finite?
          && c.value == cur[e % Width(m)].value + m[k][y + 1]
          && forall x :: 0 <= x < bound && x < Width(m) && Adjacent(k, x) ==>
               cur[x].Finite? && c.value <= cur[x].value + m[k][y + 1])
  }

  /** One pass of the relaxation: every cell `x` of row `y` is relaxed into
      the cells `x - 1`, `x`, `x + 1` of row `y + 1` that are in range.  A
      cell is updated, with its predecessor recorded as a 1-D index, only
      when the new cost is strictly lower. */
  method RelaxRow(m: seq<seq<real>>, y: int, cur: seq<Cost>, next: seq<Cost>, edges: seq<int>)
    returns (next': seq<Cost>, edges': seq<int>)
    requires IsEnergyMatrix(m) && 0 <= y && y + 1 < Height(m)
    requires |cur| == Width(m) && |next| == Width(m) && |edges| == Width(m)
    requires forall x :: 0 <= x < |cur| ==> cur[x].Finite?
    requires forall k :: 0 <= k < |next| ==> next[k] == Infinite
    ensures |next'| == Width(m) && |edges'| == Width(m)
    ensures forall k :: 0 <= k < Width(m) ==> PartiallyRelaxed(m, y, cur, next'[k], edges'[k], k, Width(m))
  {
    var w := Width(m);
    next', edges' := next, edges;
    var x := 0;
    while x < w
      invariant 0 <= x <= w
      invariant |next'| == w && |edges'| == w
      invariant forall j :: 0 <= j < w ==> PartiallyRelaxed(m, y, cur, next'[j], edges'[j], j, x)
    {
      var k := x - 1;
      while k <= x + 1
        invariant x - 1 <= k <= x + 2
        invariant |next'| == w && |edges'| == w
        invariant forall j :: 0 <= j < w ==>
                    PartiallyRelaxed(m, y, cur, next'[j], edges'[j], j, if x - 1 <= j < k then x + 1 else x)
      {
        if 0 <= k < w {
          var candidate := Plus(cur[x], m[k][y + 1]);
          if Greater(next'[k], candidate) {
            next' := next'[k := candidate];
            edges' := edges'[k := XyTo1D(x, y, m)];
          }
        }
        k := k + 1;
      }
      x := x + 1;
    }
  }

  /** A recorded predecessor of cell (x, y), y >= 1: an adjacent column of
      row y - 1 through which the least cost of (x, y) is reached. */
  predicate ValidEdge(m: seq<seq<real>>, e: int, x: int, y: int)
    requires IsEnergyMatrix(m) && 0 <= x < Width(m) && 1 <= y < Height(m)
  {
    && 0 <= e
    && e / Width(m) == y - 1
    && Adjacent(x, e % Width(m))
    && 0 <= e % Width(m) < Width(m)
    && MinCost(m, x, y) == MinCost(m, e % Width(m), y - 1) + m[x][y]
  }

  /** A fully relaxed cell of row y + 1 whose row y holds the least costs
      holds its own least cost and a predecessor that attains it. */
  lemma RelaxedIsMinCost(m: seq<seq<real>>, y: int, cur: seq<Cost>, c: Cost, e: int, k: int)
    requires IsEnergyMatrix(m) && 0 <= y && y + 1 < Height(m) && |cur| == Width(m) && 0 <= k < Width(m)
    requires forall x :: 0 <= x < Width(m) ==> cur[x] == Finite(MinCost(m, x, y))
    requires PartiallyRelaxed(m, y, cur, c, e, k, Width(m))
    ensures c == Finite(MinCost(m, k, y + 1))
    ensures ValidEdge(m, e, k, y + 1)
  {
    var p := e % Width(m);
    BestPredecessorUnique(m, k, y, p, c.value - m[k][y + 1]);
  }

  /** The relaxation pass over all rows.  The cost grid is kept row by row
      (`energyTo[y][x]`), and so is the predecessor grid.  Afterwards every
      cell holds its least cumulative cost, finite everywhere, and every cell
      below row 0 a predecessor that attains it. */
  method Relax(m: seq<seq<real>>) returns (energyTo: seq<seq<Cost>>, edgeTo: seq<seq<int>>)
    requires IsEnergyMatrix(m)
    ensures |energyTo| == Height(m) && |edgeTo| == Height(m)
    ensures forall y :: 0 <= y < Height(m) ==> |energyTo[y]| == Width(m) && |edgeTo[y]| == Width(m)
    ensures forall y, x :: 0 <= y < Height(m) && 0 <= x < Width(m) ==> energyTo[y][x] == Finite(MinCost(m, x, y))
    ensures forall y, x :: 1 <= y < Height(m) && 0 <= x < Width(m) ==> ValidEdge(m, edgeTo[y][x], x, y)
  {
    var w, h := Width(m), Height(m);
    energyTo := seq(h, y => seq(w, x => if y == 0 then Finite(StartCost) else Infinite));
    edgeTo := seq(h, y => seq(w, x => 0));
    var y := 0;
    while y < h - 1
      invariant 0 <= y <= h - 1
      invariant |energyTo| == h && |edgeTo| == h
      invariant forall i :: 0 <= i < h ==> |energyTo[i]| == w && |edgeTo[i]| == w
      invariant forall i, x :: 0 <= i <= y && 0 <= x < w ==> energyTo[i][x] == Finite(MinCost(m, x, i))
      invariant forall i, x :: y < i < h && 0 <= x < w ==> energyTo[i][x] == Infinite
      invariant forall i, x :: 1 <= i <= y && 0 <= x < w ==> ValidEdge(m, edgeTo[i][x], x, i)
    {
      var row, edges := RelaxRow(m, y, energyTo[y], energyTo[y + 1], edgeTo[y + 1]);
      forall k | 0 <= k < w
        ensures row[k] == Finite(MinCost(m, k, y + 1)) && ValidEdge(m, edges[k], k, y + 1)
      {
        RelaxedIsMinCost(m, y, energyTo[y], row[k], edges[k], k);
      }
      energyTo := energyTo[y + 1 := row];
      edgeTo := edgeTo[y + 1 := edges];
      y := y + 1;
    }
  }

  /** An index of a least finite cost in a row. */
  method MinIndex(costs: seq<Cost>) returns (i: int)
    requires |costs| >= 1
    requires forall x :: 0 <= x < |costs| ==> costs[x].Finite?
    ensures 0 <= i < |costs|
    ensures forall x :: 0 <= x < |costs| ==> costs[i].value <= costs[x].value
  {
    i := 0;
    var x := 1;
    while x < |costs|
      invariant 0 <= i < x <= |costs|
      invariant forall j :: 0 <= j < x ==> costs[i].value <= costs[j].value
    {
      if costs[x].value < costs[i].value {
        i := x;
      }
      x := x + 1;
    }
  }

  /** A path each of whose steps attains the least cost of the cell it
      enters costs exactly the least cost of its last cell. */
  lemma {:induction false} TightPathCost(m: seq<seq<real>>, p: seq<int>)
    requires IsEnergyMatrix(m) && IsPath(m, p) && |p| >= 1
    requires forall y :: 0 <= y < |p| - 1 ==> MinCost(m, p[y + 1], y + 1) == MinCost(m, p[y], y) + m[p[y + 1]][y + 1]
    ensures PathCost(m, p) == MinCost(m, p[|p| - 1], |p| - 1)
    decreases |p|
  {
    if |p| > 1 {
      var q := p[..|p| - 1];
      assert IsPath(m, q);
      TightPathCost(m, q);
    }
  }

  /** The back-tracking step: starting from column `last` of the bottom
      row, each earlier entry is the column decoded (`% Width(m)`) from the
      predecessor recorded for the entry below it. */
  method Backtrack(m: seq<seq<real>>, edgeTo: seq<seq<int>>, last: int) returns (seam: seq<int>)
    requires IsEnergyMatrix(m) && 0 <= last < Width(m)
    requires |edgeTo| == Height(m)
    requires forall y :: 0 <= y < Height(m) ==> |edgeTo[y]| == Width(m)
    requires forall y, x :: 1 <= y < Height(m) && 0 <= x < Width(m) ==> ValidEdge(m, edgeTo[y][x], x, y)
    ensures IsSeam(m, seam) && seam[Height(m) - 1] == last
    ensures PathCost(m, seam) == MinCost(m, last, Height(m) - 1)
  {
    var w, h := Width(m), Height(m);
    seam := seq(h, _ => 0);
    seam := seam[h - 1 := last];
    var y := h - 1;
    while y > 0
      invariant 0 <= y <= h - 1
      invariant |seam| == h && seam[h - 1] == last
      invariant forall i :: y <= i < h ==> 0 <= seam[i] < w
      invariant forall i :: y <= i < h - 1 ==> Adjacent(seam[i], seam[i + 1])
      invariant forall i :: y <= i < h - 1 ==>
                  MinCost(m, seam[i + 1], i + 1) == MinCost(m, seam[i], i) + m[seam[i + 1]][i + 1]
    {
      seam := seam[y - 1 := edgeTo[y][seam[y]] % w];
      y := y - 1;
    }
    TightPathCost(m, seam);
  }

  /** Column `x` has the least cumulative cost of row `y`. */
  predicate IsLeastInRow(m: seq<seq<real>>, x: int, y: int)
    requires IsEnergyMatrix(m) && 0 <= x < Width(m) && 0 <= y < Height(m)
  {
    forall k :: 0 <= k < Width(m) ==> MinCost(m, x, y) <= MinCost(m, k, y)
  }

  /** `s` is a seam no other seam undercuts. */
  ghost predicate IsLeastSeam(m: seq<seq<real>>, s: seq<int>)
    requires IsEnergyMatrix(m)
  {
    IsSeam(m, s) && forall t :: IsSeam(m, t) ==> PathCost(m, s) <= PathCost(m, t)
  }

  /** The seam finder: a seam, one column per row, whose cost no other seam
      undercuts, ending in a column of least cumulative cost. */
  method FindSeam(m: seq<seq<real>>) returns (seam: seq<int>)
    requires IsEnergyMatrix(m)
    ensures IsSeam(m, seam)
    ensures IsLeastInRow(m, seam[Height(m) - 1], Height(m) - 1)
    ensures IsLeastSeam(m, seam)
  {
    var h := Height(m);
    var energyTo, edgeTo := Relax(m);
    var last := MinIndex(energyTo[h - 1]);
    seam := Backtrack(m, edgeTo, last);
    forall t | IsSeam(m, t)
      ensures PathCost(m, seam) <= PathCost(m, t)
    {
      PathCostAtLeastMinCost(m, t);
      assert energyTo[h - 1][t[h - 1]] == Finite(MinCost(m, t[h - 1], h - 1));
    }
  }

  /** The total energy of a path: the energies of all its cells, row 0
      included. */
  function PathEnergy(m: seq<seq<real>>, p: seq<int>): real
    requires IsEnergyMatrix(m) && IsPath(m, p)
    decreases |p|
  {
    if |p| == 0 then 0.0
    else PathEnergy(m, p[..|p| - 1]) + m[p[|p| - 1]][|p| - 1]
  }

  /** `s` is a seam whose total energy no other seam undercuts. */
  ghost predicate IsLeastEnergySeam(m: seq<seq<real>>, s: seq<int>)
    requires IsEnergyMatrix(m)
  {
    IsSeam(m, s) && forall t :: IsSeam(m, t) ==> PathEnergy(m, s) <= PathEnergy(m, t)
  }

  /** The cost of a path is its total energy with row 0's energy traded for
      the starting constant. */
  lemma {:induction false} PathCostIsEnergy(m: seq<seq<real>>, p: seq<int>)
    requires IsEnergyMatrix(m) && IsPath(m, p) && |p| >= 1
    ensures PathCost(m, p) == StartCost - m[p[0]][0] + PathEnergy(m, p)
    decreases |p|
  {
    if |p| == 1 {
      assert p[..0] == [];
    } else {
      var q := p[..|p| - 1];
      assert IsPath(m, q);
      PathCostIsEnergy(m, q);
      assert q[0] == p[0];
    }
  }

  /** When every cell of row 0 has the same energy, as on a picture whose
      top row is all border, a seam of least cost is a seam of least total
      energy. */
  lemma LeastCostIsLeastEnergy(m: seq<seq<real>>, s: seq<int>)
    requires IsEnergyMatrix(m) && IsLeastSeam(m, s)
    requires forall x :: 0 <= x < Width(m) ==> m[x][0] == m[0][0]
    ensures IsLeastEnergySeam(m, s)
  {
    PathCostIsEnergy(m, s);
    forall t | IsSeam(m, t)
      ensures PathEnergy(m, s) <= PathEnergy(m, t)
    {
      PathCostIsEnergy(m, t);
    }
  }
}
