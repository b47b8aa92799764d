/**
 * The distance matrix, the length of a route over it, and the 2-opt edge
 * swap: reversing one stretch of a route and what that does to its length.
 * Distances are exact naturals in place of the source's floating-point miles.
 */
module Distances {
  import opened Packages

  type Matrix = seq<seq<nat>>

  /** Every row has one entry per location. */
  predicate IsSquare(dist: Matrix) {
    forall a :: 0 <= a < |dist| ==> |dist[a]| == |dist|
  }

  /** Travelling from a to b is as far as from b to a. */
  predicate IsSymmetric(dist: Matrix)
    requires IsSquare(dist)
  {
    forall a, b :: 0 <= a < |dist| && 0 <= b < |dist| ==> dist[a][b] == dist[b][a]
  }

  /** Every stop of the route is a location of the matrix. */
  predicate OnMatrix(dist: Matrix, route: seq<Location>) {
    forall k :: 0 <= k < |route| ==> route[k] < |dist|
  }

  /**
   * How much longer a route gets when its edges (v1, v2) and (v3, v4) are
   * replaced by (v1, v3) and (v2, v4); negative when the swap is shorter.
   */
  function DiffDistance(dist: Matrix, v1: Location, v2: Location, v3: Location, v4: Location): (d: int)
    requires IsSquare(dist)
    requires v1 < |dist| && v2 < |dist| && v3 < |dist| && v4 < |dist|
    // Negative exactly when the two new edges are shorter together than the two old ones.
    ensures d < 0 <==> dist[v1][v3] + dist[v2][v4] < dist[v1][v2] + dist[v3][v4]
    // A swap saves at most the length of the two edges it removes.
    ensures d >= -((dist[v1][v2] + dist[v3][v4]) as int)
    // Cutting around a single stop (v2 == v3) gives back the same edges.
    ensures v2 == v3 ==> d == 0
  {
    (dist[v1][v3] + dist[v2][v4]) as int - (dist[v1][v2] + dist[v3][v4]) as int
  }

  /** The total distance of driving the stops of `route` in order. */
  function PathLength(dist: Matrix, route: seq<Location>): (n: nat)
    requires IsSquare(dist) && OnMatrix(dist, route)
    decreases |route|
  {
    if |route| < 2 then 0 else dist[route[0]][route[1]] + PathLength(dist, route[1..])
  }

  /** The stops of `s` in the opposite order. */
  function Reverse(s: seq<Location>): (r: seq<Location>)
    ensures |r| == |s| && multiset(r) == multiset(s)
    decreases |s|
  {
    if s == [] then []
    else
      assert s == [s[0]] + s[1..];
      Reverse(s[1..]) + [s[0]]
  }

  /** Position k of the reversed sequence holds position |s|-1-k of the original. */
  lemma {:induction false} ReverseAt(s: seq<Location>, k: nat)
    requires k < |s|
    ensures Reverse(s)[k] == s[|s| - 1 - k]
    decreases |s|
  {
    if k < |s| - 1 {
      ReverseAt(s[1..], k);
    }
  }

  /**
   * The 2-opt edge swap: the stretch route[i..j) is driven backwards, the
   * stops before and after it stay where they are. Reversing a stretch
   * exchanges its two ends and then reverses what lies between them.
   */
  function TwoOptSwap(route: seq<Location>, i: nat, j: nat): (r: seq<Location>)
    requires i <= j <= |route|
    ensures |r| == |route|
    decreases j - i
  {
    if j - i < 2 then route
    else TwoOptSwap(route[i := route[j - 1]][j - 1 := route[i]], i + 1, j - 1)
  }

  /** What the swap puts at position k: the mirror image inside [i, j), the old stop outside. */
  lemma {:induction false} TwoOptSwapAt(route: seq<Location>, i: nat, j: nat, k: nat)
    requires i <= j <= |route| && k < |route|
    ensures TwoOptSwap(route, i, j)[k] == if i <= k < j then route[i + j - 1 - k] else route[k]
    decreases j - i
  {
    if j - i >= 2 {
      var inner := route[i := route[j - 1]][j - 1 := route[i]];
      TwoOptSwapAt(inner, i + 1, j - 1, k);
    }
  }

  /** The swap is the stops before i, the stretch reversed, and the stops from j on. */
  lemma TwoOptSwapSplit(route: seq<Location>, i: nat, j: nat)
    requires i <= j <= |route|
    ensures TwoOptSwap(route, i, j) == route[..i] + Reverse(route[i..j]) + route[j..]
  {
    var r, s := TwoOptSwap(route, i, j), route[..i] + Reverse(route[i..j]) + route[j..];
    forall k | 0 <= k < |route|
      ensures r[k] == s[k]
    {
      TwoOptSwapAt(route, i, j, k);
      if i <= k < j {
        ReverseAt(route[i..j], k - i);
      }
    }
  }

  /** The swap only reorders the stops. */
  lemma TwoOptSwapPermutes(route: seq<Location>, i: nat, j: nat)
    requires i <= j <= |route|
    ensures multiset(TwoOptSwap(route, i, j)) == multiset(route)
  {
    TwoOptSwapSplit(route, i, j);
    assert route == route[..i] + route[i..j] + route[j..];
  }

  lemma OnMatrixPermutation(dist: Matrix, route: seq<Location>, r: seq<Location>)
    requires OnMatrix(dist, route) && multiset(r) == multiset(route)
    ensures OnMatrix(dist, r)
  {
    forall k | 0 <= k < |r| ensures r[k] < |dist| {
      assert r[k] in multiset(route);
    }
  }

  /** Driving x and then y costs both parts plus the edge that joins them. */
  lemma {:induction false} PathLengthAppend(dist: Matrix, x: seq<Location>, y: seq<Location>)
    requires IsSquare(dist) && OnMatrix(dist, x) && OnMatrix(dist, y)
    ensures OnMatrix(dist, x + y)
    ensures PathLength(dist, x + y)
            == PathLength(dist, x) + PathLength(dist, y) + (if x != [] && y != [] then dist[x[|x| - 1]][y[0]] else 0)
    decreases |x|
  {
    if |x| >= 2 {
      PathLengthAppend(dist, x[1..], y);
      assert (x + y)[1..] == x[1..] + y;
    } else if |x| == 1 && y != [] {
      assert (x + y)[1..] == y;
    } else if x == [] {
      assert x + y == y;
    }
  }

  /** On a symmetric matrix a route is as long backwards as forwards. */
  lemma {:induction false} PathLengthReverse(dist: Matrix, s: seq<Location>)
    requires IsSquare(dist) && IsSymmetric(dist) && OnMatrix(dist, s)
    ensures OnMatrix(dist, Reverse(s))
    ensures PathLength(dist, Reverse(s)) == PathLength(dist, s)
    decreases |s|
  {
    OnMatrixPermutation(dist, s, Reverse(s));
    if s != [] {
      var rest := Reverse(s[1..]);
      PathLengthReverse(dist, s[1..]);
      PathLengthAppend(dist, rest, [s[0]]);
      if |s| >= 2 {
        ReverseAt(s[1..], |s| - 2);
      }
    }
  }

  /** The length of a route cut into three non-empty stretches. */
  lemma PathLengthThree(dist: Matrix, x: seq<Location>, y: seq<Location>, z: seq<Location>)
    requires IsSquare(dist) && OnMatrix(dist, x) && OnMatrix(dist, y) && OnMatrix(dist, z)
    requires x != [] && y != [] && z != []
    ensures OnMatrix(dist, x + y + z)
    ensures PathLength(dist, x + y + z)
            == PathLength(dist, x) + dist[x[|x| - 1]][y[0]] + PathLength(dist, y)
               + dist[y[|y| - 1]][z[0]] + PathLength(dist, z)
  {
    PathLengthAppend(dist, x, y);
    PathLengthAppend(dist, x + y, z);
    assert (x + y)[|x + y| - 1] == y[|y| - 1];
  }

  /**
   * On a symmetric matrix, reversing route[i..j) changes the route's length
   * by exactly the 2-opt delta of the four stops around the two cut edges.
   */
  lemma TwoOptSwapDelta(dist: Matrix, route: seq<Location>, i: nat, j: nat)
    requires IsSquare(dist) && IsSymmetric(dist) && OnMatrix(dist, route)
    requires 1 <= i < j < |route|
    ensures OnMatrix(dist, TwoOptSwap(route, i, j))
    ensures PathLength(dist, TwoOptSwap(route, i, j)) as int
            == PathLength(dist, route) + DiffDistance(dist, route[i - 1], route[i], route[j - 1], route[j])
  {
    var head, mid, tail := route[..i], route[i..j], route[j..];
    assert OnMatrix(dist, head) && OnMatrix(dist, mid) && OnMatrix(dist, tail);
    var rev := Reverse(mid);
    assert route == head + mid + tail;
    TwoOptSwapSplit(route, i, j);
    PathLengthReverse(dist, mid);
    PathLengthThree(dist, head, mid, tail);
    PathLengthThree(dist, head, rev, tail);
    assert head[|head| - 1] == route[i - 1] && tail[0] == route[j];
    ReverseAt(mid, 0);
    ReverseAt(mid, |mid| - 1);
    assert mid[0] == route[i] == rev[|rev| - 1] && mid[|mid| - 1] == route[j - 1] == rev[0];
  }
}
