/**
 * The 2-opt route optimiser.
 *
 * ScanRow, ScanPass and Optimize describe, as functions, exactly the scan
 * the optimiser performs: for each i from 1 up to len-3 and each j from
 * i+1 up to len-1 it applies an improving swap at once (the pair j = i+1
 * is skipped) and keeps scanning the changed route; a pass that swapped
 * is followed by another pass. The functions return only the route: the
 * source's "optimized" flag is proved to be raised exactly when the pass
 * changed the route. The method OptimizedRoute does the same in place on
 * an array, flag included, and is proved to produce Optimize of its input.
 */
module TwoOpt {
  import opened Packages
  import opened Distances

  /** What the optimiser needs: a symmetric matrix and a route over its locations. */
  predicate WellFormed(dist: Matrix, route: seq<Location>) {
    IsSquare(dist) && IsSymmetric(dist) && OnMatrix(dist, route)
  }

  /** The final stop of a route. */
  function Last(route: seq<Location>): (l: Location)
    requires route != []
    ensures l in route
  {
    route[|route| - 1]
  }

  /** Reversing route[i..j) would make the route strictly shorter. */
  predicate Improves(dist: Matrix, route: seq<Location>, i: nat, j: nat)
    requires IsSquare(dist) && OnMatrix(dist, route)
    requires 1 <= i < j < |route|
  {
    DiffDistance(dist, route[i - 1], route[i], route[j - 1], route[j]) < 0
  }

  /** A 2-opt local optimum: no pair the optimiser examines has a negative delta. */
  predicate TwoOptOptimal(dist: Matrix, route: seq<Location>)
    requires IsSquare(dist) && OnMatrix(dist, route)
  {
    forall i, j :: 1 <= i < |route| - 2 && i + 1 < j < |route| ==> !Improves(dist, route, i, j)
  }

  /**
   * One examination of the pair (i, j): route[i..j) is reversed when j is
   * not i+1 and the swap has a negative delta; otherwise nothing changes.
   */
  function Step(dist: Matrix, route: seq<Location>, i: nat, j: nat): (next: seq<Location>)
    requires WellFormed(dist, route)
    requires 1 <= i < j < |route|
    ensures |next| == |route| && OnMatrix(dist, next)
  {
    if j - i != 1 && Improves(dist, route, i, j) then
      TwoOptSwapDelta(dist, route, i, j);
      TwoOptSwap(route, i, j)
    else
      route
  }

  /** What one examination does to the route. */
  lemma StepFacts(dist: Matrix, route: seq<Location>, i: nat, j: nat)
    requires WellFormed(dist, route)
    requires 1 <= i < j < |route|
    // A permutation of the stops with the first and the last stop kept.
    ensures multiset(Step(dist, route, i, j)) == multiset(route)
    ensures Step(dist, route, i, j)[0] == route[0] && Last(Step(dist, route, i, j)) == Last(route)
    // The route changes exactly when the pair is examined and improving, and then gets shorter.
    ensures Step(dist, route, i, j) != route <==> j - i != 1 && Improves(dist, route, i, j)
    ensures Step(dist, route, i, j) != route ==> PathLength(dist, Step(dist, route, i, j)) < PathLength(dist, route)
  {
    if j - i != 1 && Improves(dist, route, i, j) {
      TwoOptSwapDelta(dist, route, i, j);
      TwoOptSwapPermutes(route, i, j);
      TwoOptSwapAt(route, i, j, 0);
      TwoOptSwapAt(route, i, j, |route| - 1);
    }
  }

  /** The inner scan for one i, from j up to the end of the route. */
  function ScanRow(dist: Matrix, route: seq<Location>, i: nat, j: nat): (r: seq<Location>)
    requires WellFormed(dist, route)
    requires 1 <= i < j <= |route|
    decreases |route| - j
    ensures |r| == |route| && OnMatrix(dist, r)
  {
    if j == |route| then route
    else ScanRow(dist, Step(dist, route, i, j), i, j + 1)
  }

  /** A row scan only reorders the stops, and keeps the first and the last one. */
  lemma {:induction false} ScanRowPermutes(dist: Matrix, route: seq<Location>, i: nat, j: nat)
    requires WellFormed(dist, route)
    requires 1 <= i < j <= |route|
    decreases |route| - j
    ensures multiset(ScanRow(dist, route, i, j)) == multiset(route)
    ensures ScanRow(dist, route, i, j)[0] == route[0] && Last(ScanRow(dist, route, i, j)) == Last(route)
  {
    if j < |route| {
      var next := Step(dist, route, i, j);
      StepFacts(dist, route, i, j);
      ScanRowPermutes(dist, next, i, j + 1);
    }
  }

  /** Every swap shortens the route, so a row scan changed the route only if it got shorter. */
  lemma {:induction false} ScanRowShortens(dist: Matrix, route: seq<Location>, i: nat, j: nat)
    requires WellFormed(dist, route)
    requires 1 <= i < j <= |route|
    decreases |route| - j
    ensures ScanRow(dist, route, i, j) == route
            || PathLength(dist, ScanRow(dist, route, i, j)) < PathLength(dist, route)
  {
    if j < |route| {
      var next := Step(dist, route, i, j);
      StepFacts(dist, route, i, j);
      ScanRowShortens(dist, next, i, j + 1);
    }
  }

  /** A row scan that changed nothing found no improving j. */
  lemma {:induction false} ScanRowUnchanged(dist: Matrix, route: seq<Location>, i: nat, j: nat)
    requires WellFormed(dist, route)
    requires 1 <= i < j <= |route|
    decreases |route| - j
    ensures ScanRow(dist, route, i, j) == route ==>
              forall j' :: j <= j' < |route| && i + 1 < j' ==> !Improves(dist, route, i, j')
  {
    if j < |route| {
      var next := Step(dist, route, i, j);
      StepFacts(dist, route, i, j);
      if next == route {
        ScanRowUnchanged(dist, route, i, j + 1);
      } else {
        ScanRowShortens(dist, next, i, j + 1);
      }
    }
  }

  /** One pass of the outer scan, from i up to len-3. */
  function ScanPass(dist: Matrix, route: seq<Location>, i: nat): (r: seq<Location>)
    requires WellFormed(dist, route)
    requires 1 <= i
    decreases |route| - i
    ensures |r| == |route| && OnMatrix(dist, r)
  {
    if i + 2 >= |route| then route
    else ScanPass(dist, ScanRow(dist, route, i, i + 1), i + 1)
  }

  /** A pass only reorders the stops, and keeps the first and the last one. */
  lemma {:induction false} ScanPassPermutes(dist: Matrix, route: seq<Location>, i: nat)
    requires WellFormed(dist, route)
    requires 1 <= i
    decreases |route| - i
    ensures multiset(ScanPass(dist, route, i)) == multiset(route)
    ensures |route| > 0 ==> (ScanPass(dist, route, i)[0] == route[0] && Last(ScanPass(dist, route, i)) == Last(route))
  {
    if i + 2 < |route| {
      var row := ScanRow(dist, route, i, i + 1);
      ScanRowPermutes(dist, route, i, i + 1);
      ScanPassPermutes(dist, row, i + 1);
    }
  }

  /** A pass changed the route only if it got shorter. */
  lemma {:induction false} ScanPassShortens(dist: Matrix, route: seq<Location>, i: nat)
    requires WellFormed(dist, route)
    requires 1 <= i
    decreases |route| - i
    ensures ScanPass(dist, route, i) == route || PathLength(dist, ScanPass(dist, route, i)) < PathLength(dist, route)
  {
    if i + 2 < |route| {
      var row := ScanRow(dist, route, i, i + 1);
      ScanRowShortens(dist, route, i, i + 1);
      ScanPassShortens(dist, row, i + 1);
    }
  }

  /** A pass that changed nothing found no improving pair from row i on. */
  lemma {:induction false} ScanPassUnchanged(dist: Matrix, route: seq<Location>, i: nat)
    requires WellFormed(dist, route)
    requires 1 <= i
    decreases |route| - i
    ensures ScanPass(dist, route, i) == route ==>
              forall i', j' :: i <= i' < |route| - 2 && i' + 1 < j' < |route| ==> !Improves(dist, route, i', j')
  {
    if i + 2 < |route| {
      var row := ScanRow(dist, route, i, i + 1);
      if row == route {
        ScanRowUnchanged(dist, route, i, i + 1);
        ScanPassUnchanged(dist, route, i + 1);
      } else {
        ScanRowShortens(dist, route, i, i + 1);
        ScanPassShortens(dist, row, i + 1);
      }
    }
  }

  /**
   * The optimiser's result: passes are repeated until one makes no swap.
   * Each pass that swaps shortens the route, which bounds the passes.
   */
  function Optimize(dist: Matrix, route: seq<Location>): (r: seq<Location>)
    requires WellFormed(dist, route)
    decreases PathLength(dist, route)
    // A permutation of the stops with the first and the last stop kept.
    ensures |r| == |route| && multiset(r) == multiset(route) && OnMatrix(dist, r)
    ensures |route| > 0 ==> r[0] == route[0] && r[|r| - 1] == route[|route| - 1]
    // Never longer, and strictly shorter whenever it differs from the input.
    ensures PathLength(dist, r) <= PathLength(dist, route)
    ensures r != route ==> PathLength(dist, r) < PathLength(dist, route)
    // A 2-opt local optimum.
    ensures TwoOptOptimal(dist, r)
    // A route of at most three stops comes back as it was.
    ensures |route| <= 3 ==> r == route
  {
    var next := ScanPass(dist, route, 1);
    ScanPassPermutes(dist, route, 1);
    ScanPassShortens(dist, route, 1);
    ScanPassUnchanged(dist, route, 1);
    if next != route then Optimize(dist, next) else route
  }

  /** A row scan over a row with no improving j changes nothing. */
  lemma {:induction false} ScanRowAtOptimum(dist: Matrix, route: seq<Location>, i: nat, j: nat)
    requires WellFormed(dist, route)
    requires 1 <= i < j <= |route|
    requires forall j' :: j <= j' < |route| && i + 1 < j' ==> !Improves(dist, route, i, j')
    ensures ScanRow(dist, route, i, j) == route
    decreases |route| - j
  {
    if j < |route| {
      ScanRowAtOptimum(dist, route, i, j + 1);
    }
  }

  /** A pass over a 2-opt local optimum changes nothing. */
  lemma {:induction false} ScanPassAtOptimum(dist: Matrix, route: seq<Location>, i: nat)
    requires WellFormed(dist, route)
    requires 1 <= i
    requires forall i', j' :: i <= i' < |route| - 2 && i' + 1 < j' < |route| ==> !Improves(dist, route, i', j')
    ensures ScanPass(dist, route, i) == route
    decreases |route| - i
  {
    if i + 2 < |route| {
      ScanRowAtOptimum(dist, route, i, i + 1);
      ScanPassAtOptimum(dist, route, i + 1);
    }
  }

  /** The routes the optimiser returns unchanged are exactly the 2-opt local optima. */
  lemma OptimizeFixedPoints(dist: Matrix, route: seq<Location>)
    requires WellFormed(dist, route)
    ensures Optimize(dist, route) == route <==> TwoOptOptimal(dist, route)
  {
    if TwoOptOptimal(dist, route) {
      ScanPassAtOptimum(dist, route, 1);
    }
  }

  /** Optimising an optimised route changes nothing. */
  lemma OptimizeIdempotent(dist: Matrix, route: seq<Location>)
    requires WellFormed(dist, route)
    ensures WellFormed(dist, Optimize(dist, route))
    ensures Optimize(dist, Optimize(dist, route)) == Optimize(dist, route)
  {
    OptimizeFixedPoints(dist, Optimize(dist, route));
  }

  /** `opt_route[i:j] = opt_route[j-1:i-1:-1]`: reverses route[i..j) in place. */
  method ReverseSlice(route: array<Location>, i: nat, j: nat)
    requires i <= j <= route.Length
    modifies route
    ensures route[..] == TwoOptSwap(old(route[..]), i, j)
  {
    var slice := route[i..j];
    forall k | i <= k < j {
      route[k] := slice[j - 1 - k];
    }
    forall k | 0 <= k < route.Length
      ensures route[..][k] == TwoOptSwap(old(route[..]), i, j)[k]
    {
      TwoOptSwapAt(old(route[..]), i, j, k);
    }
  }

  /** The body of the `for j` loop: the in-place counterpart of Step. */
  method StepInPlace(dist: Matrix, route: array<Location>, i: nat, j: nat) returns (swapped: bool)
    requires WellFormed(dist, route[..])
    requires 1 <= i < j < route.Length
    modifies route
    ensures route[..] == Step(dist, old(route[..]), i, j)
    ensures swapped == (j - i != 1 && Improves(dist, old(route[..]), i, j))
  {
    swapped := false;
    if j - i != 1 {
      if DiffDistance(dist, route[i - 1], route[i], route[j - 1], route[j]) < 0 {
        ReverseSlice(route, i, j);
        swapped := true;
      }
    }
  }

  /**
   * The `for j` loop for one i: the in-place counterpart of ScanRow. The
   * flag comes back raised exactly when it went in raised or the route changed.
   */
  method ScanRowInPlace(dist: Matrix, route: array<Location>, i: nat, optimized: bool) returns (flag: bool)
    requires WellFormed(dist, route[..])
    requires 1 <= i && i + 2 < route.Length
    modifies route
    ensures route[..] == ScanRow(dist, old(route[..]), i, i + 1)
    ensures flag == (optimized || route[..] != old(route[..]))
  {
    ghost var start := route[..];
    var n := route.Length;
    flag := optimized;
    var j := i + 1;
    while j < n
      invariant i + 1 <= j <= n
      invariant OnMatrix(dist, route[..])
      invariant ScanRow(dist, route[..], i, j) == ScanRow(dist, start, i, i + 1)
      invariant route[..] == start || PathLength(dist, route[..]) < PathLength(dist, start)
      invariant flag == (optimized || route[..] != start)
    {
      ghost var before := route[..];
      StepFacts(dist, before, i, j);
      var swapped := StepInPlace(dist, route, i, j);
      flag := flag || swapped;
      j := j + 1;
    }
  }

  /** The `for i` loop: one pass, the in-place counterpart of ScanPass. */
  method ScanPassInPlace(dist: Matrix, route: array<Location>) returns (optimized: bool)
    requires WellFormed(dist, route[..])
    modifies route
    ensures route[..] == ScanPass(dist, old(route[..]), 1)
    ensures optimized == (route[..] != old(route[..]))
  {
    ghost var start := route[..];
    var n := route.Length;
    optimized := false;
    var i := 1;
    while i < n - 2
      invariant 1 <= i
      invariant OnMatrix(dist, route[..])
      invariant ScanPass(dist, route[..], i) == ScanPass(dist, start, 1)
      invariant route[..] == start || PathLength(dist, route[..]) < PathLength(dist, start)
      invariant optimized == (route[..] != start)
    {
      ghost var before := route[..];
      ScanRowShortens(dist, before, i, i + 1);
      optimized := ScanRowInPlace(dist, route, i, optimized);
      i := i + 1;
    }
  }

  /**
   * The optimiser, in place on the caller's route; what it returns is that
   * same array. The result is Optimize of the input, hence a permutation
   * with both ends kept, no longer than the input and a 2-opt local optimum.
   */
  method OptimizedRoute(dist: Matrix, route: array<Location>) returns (optRoute: array<Location>)
    requires WellFormed(dist, route[..])
    modifies route
    ensures optRoute == route
    ensures route[..] == Optimize(dist, old(route[..]))
    ensures multiset(route[..]) == multiset(old(route[..]))
    ensures route.Length > 0 ==> route[0] == old(route[0]) && route[route.Length - 1] == old(route[route.Length - 1])
    ensures PathLength(dist, route[..]) <= PathLength(dist, old(route[..]))
    ensures TwoOptOptimal(dist, route[..])
  {
    var optimized := true;
    while optimized
      invariant OnMatrix(dist, route[..])
      invariant optimized ==> Optimize(dist, route[..]) == Optimize(dist, old(route[..]))
      invariant !optimized ==> route[..] == Optimize(dist, old(route[..]))
      decreases PathLength(dist, route[..]), if optimized then 1 else 0
    {
      ScanPassShortens(dist, route[..], 1);
      optimized := ScanPassInPlace(dist, route);
    }
    optRoute := route;
  }
}

/** A worked example: the optimiser removes the crossing from a route around a unit square. */
module TwoOptExample {
  import opened Distances
  import opened TwoOpt

  /** Four corners 0, 1, 2, 3 of a unit square, in order; diagonals have length 2. */
  const UnitSquare: Matrix := [[0, 1, 2, 1], [1, 0, 1, 2], [2, 1, 0, 1], [1, 2, 1, 0]]

  lemma UnitSquareWellFormed()
    ensures WellFormed(UnitSquare, [0, 2, 1, 3]) && WellFormed(UnitSquare, [0, 1, 2, 3])
  {
  }

  lemma ReverseTwoOne()
    ensures Reverse([2, 1]) == [1, 2]
  {
    assert Reverse([2, 1]) == Reverse([1]) + [2];
  }

  /** Reversing the stretch [2, 1] of the crossed route. */
  lemma UnitSquareSwap()
    ensures TwoOptSwap([0, 2, 1, 3], 1, 3) == [0, 1, 2, 3]
  {
    ReverseTwoOne();
    var crossed := [0, 2, 1, 3];
    assert crossed[..1] == [0] && crossed[1..3] == [2, 1] && crossed[3..] == [3];
    assert TwoOptSwap(crossed, 1, 3) == [0] + Reverse([2, 1]) + [3];
  }

  /** The first pass reverses the crossing stretch [2, 1]. */
  lemma UnitSquareFirstPass()
    requires WellFormed(UnitSquare, [0, 2, 1, 3])
    ensures ScanPass(UnitSquare, [0, 2, 1, 3], 1) == [0, 1, 2, 3]
  {
    var crossed, uncrossed := [0, 2, 1, 3], [0, 1, 2, 3];
    UnitSquareSwap();
    assert Improves(UnitSquare, crossed, 1, 3);
    assert ScanRow(UnitSquare, uncrossed, 1, 4) == uncrossed;
    assert ScanRow(UnitSquare, crossed, 1, 3) == uncrossed;
    assert ScanRow(UnitSquare, crossed, 1, 2) == uncrossed;
  }

  /** The second pass finds no improving swap. */
  lemma UnitSquareSecondPass()
    requires WellFormed(UnitSquare, [0, 1, 2, 3])
    ensures ScanPass(UnitSquare, [0, 1, 2, 3], 1) == [0, 1, 2, 3]
  {
    var uncrossed := [0, 1, 2, 3];
    assert !Improves(UnitSquare, uncrossed, 1, 3);
    assert ScanRow(UnitSquare, uncrossed, 1, 3) == uncrossed;
    assert ScanRow(UnitSquare, uncrossed, 1, 2) == uncrossed;
  }

  /** The perimeter order is already a 2-opt local optimum. */
  lemma UnitSquarePerimeter()
    ensures WellFormed(UnitSquare, [0, 1, 2, 3])
    ensures Optimize(UnitSquare, [0, 1, 2, 3]) == [0, 1, 2, 3]
  {
    UnitSquareWellFormed();
    UnitSquareSecondPass();
  }

  /** The crossed route is 5 long, the perimeter order 3. */
  lemma UnitSquareLengths()
    ensures WellFormed(UnitSquare, [0, 2, 1, 3]) && WellFormed(UnitSquare, [0, 1, 2, 3])
    ensures PathLength(UnitSquare, [0, 2, 1, 3]) == 5 && PathLength(UnitSquare, [0, 1, 2, 3]) == 3
  {
    UnitSquareWellFormed();
  }

  /** Optimising the crossed route [0, 2, 1, 3] gives the square's perimeter order. */
  lemma UnitSquareUncrossed()
    ensures WellFormed(UnitSquare, [0, 2, 1, 3])
    ensures Optimize(UnitSquare, [0, 2, 1, 3]) == [0, 1, 2, 3]
  {
    UnitSquareWellFormed();
    UnitSquareFirstPass();
    UnitSquarePerimeter();
  }
}
