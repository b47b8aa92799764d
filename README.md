# WGU-C950 delivery planning: a Dafny model

This project models the planning logic of a package-delivery program. It
covers four parts:
- A package's priority class (which truck group it belongs to) is decided
  by a chain of rules over its deadline, its id and its special notes.
- Loading a package onto a truck updates that truck's manifest, its
  free-slot counter and its route.
- An edge-swap delta compares two ways of connecting four stops.
- A 2-opt optimiser repeatedly reverses stretches of a route while this
  makes the route shorter.

Modules, one file each:
- `Packages` (packages.dfy): the package record, the package store as a
  map from id to package, and substring search on the notes.
- `Policy` (policy.dfy): `assigned_truck`. It is written as the source's
  chain of overwrites and also as a table of rules evaluated last-match-wins.
  A lemma shows the two agree.
- `Loader` (loader.dfy): `load`, as a method of a `Fleet` class. The class
  holds the three per-truck collections as fields.
- `Distances` (distances.dfy): the distance matrix, the length of a route,
  `diff_distance`, and the stretch reversal. The module proves what a
  reversal does to a route's length.
- `TwoOpt` (two_opt.dfy): `optimized_route`. The functions `Step`,
  `ScanRow`, `ScanPass` and `Optimize` follow the optimiser's scan order
  exactly, and lemmas prove its properties. The methods `StepInPlace`,
  `ScanRowInPlace`, `ScanPassInPlace` and `OptimizedRoute` do the same work
  in place on an array, `optimized` flag included. Each method is proved to
  compute its function. `TwoOptExample` works the optimiser through one
  crossed route around a unit square.

Distances are natural numbers, and the optimiser is specified for a
symmetric square matrix. With those two conditions each reversal the
optimiser makes strictly shortens the route, so the loop `while optimized`
terminates.

## Model

| member | source | states |
|---|---|---|
| Packages.GetPackage | functions.py:6-14 | The package returned for an id is the one the store holds under that id, and no other package is held under it. |
| Packages.ContainsIffOccursAt | functions.py:30-35 | Python's `marker in notes` holds exactly when the marker occurs in the notes at some position, in both directions. |
| Policy.AssignedTruck | functions.py:17-36 | The class is 1, 2 or 3. A "Wrong address listed" note gives 3 whatever else holds. Otherwise a "Can only be on truck 2" or "Delayed on flight" note gives 2. Otherwise a deadline other than the end of day, or an id in 13, 14, 15, 16, 19, 20, gives 1. Otherwise the default 3 stays. |
| Policy.LastMatch | functions.py:25-35 | Evaluating a rule list gives either the starting class or the class of a rule that matches. When some rule matches, the result is the class of a matching rule after which no rule matches, so the last match wins. A final rule that matches decides the result. If no rule matches, the starting class is returned. |
| Policy.LastMatchLaterRuleWins | functions.py:25-35 | With two matching rules followed by one that does not match, the later matching rule decides the class. |
| Policy.AssignedTruckFollowsRules | functions.py:25-36 | The hard-coded chain equals the five-rule table evaluated last-match-wins from the default class 3. |
| Loader.WithStop | functions.py:49-50 | The old route stays a prefix and at most one stop is added. Afterwards the location is a stop. A stop is added exactly when the location was absent. A route without duplicates stays without duplicates. |
| Loader.WithStopTwice | functions.py:49-50 | Adding the same location twice adds at most one stop. |
| Loader.Fleet.Load | functions.py:39-50 | On truck t, the package id is appended to the manifest, the free-slot counter drops by one and the route becomes WithStop of the old route. Every other truck's manifest, counter and route stay as they were. The destination is then on the route, and a route without duplicates keeps none. |
| Loader.LoadSameAddressTwice | functions.py:47-50 | Loading two packages for one address onto one truck appends both ids, uses two slots and adds at most one stop. Every other truck's manifest, counter and route stay as they were. |
| Distances.DiffDistance | functions.py:53-64 | The delta is negative exactly when the two new edges (v1, v3), (v2, v4) are shorter together than the old edges (v1, v2), (v3, v4). It never saves more than the two old edges' length, and it is zero when v2 and v3 are the same stop. TwoOptSwapDelta ties it to the change in route length. |
| Distances.Reverse | functions.py:84 | A reversed stretch has the same length and the same stops. |
| Distances.ReverseAt | functions.py:84 | Position k of a reversed stretch holds position len-1-k of the original. |
| Distances.TwoOptSwap | functions.py:84 | The slice assignment keeps the route's length. |
| Distances.TwoOptSwapAt | functions.py:84 | After the slice assignment, position k holds route[i+j-1-k] inside [i, j) and route[k] outside it. |
| Distances.TwoOptSwapSplit | functions.py:84 | The result is the stops before i, then route[i..j) reversed, then the stops from j on. |
| Distances.TwoOptSwapPermutes | functions.py:84 | The slice assignment is a permutation of the route. |
| Distances.PathLengthReverse | functions.py:83-84 | On a symmetric matrix a stretch is as long backwards as forwards. |
| Distances.TwoOptSwapDelta | functions.py:53-64 | On a symmetric matrix, reversing route[i..j) with 1 <= i < j < len changes the route's length by exactly diff_distance(route[i-1], route[i], route[j-1], route[j]). |
| TwoOpt.Step | functions.py:81-85 | One examination of (i, j) keeps the route's length and keeps every stop a matrix location. StepFacts states what it does to the stops and the length. |
| TwoOpt.StepFacts | functions.py:81-85 | One examination of (i, j) permutes the route and keeps its first and last stop. It changes the route exactly when j is not i+1 and the delta is negative, and then the route gets strictly shorter. |
| TwoOpt.ScanRow | functions.py:80-85 | The `for j` scan, applying Step for j up to len-1 to the route as it changes, keeps the route's length and its stops on the matrix. The ScanRow lemmas below state the rest. |
| TwoOpt.ScanRowPermutes | functions.py:80-85 | The `for j` scan permutes the route and keeps its first and last stop. |
| TwoOpt.ScanRowShortens | functions.py:80-85 | The `for j` scan either leaves the route as it was or makes it strictly shorter. |
| TwoOpt.ScanRowUnchanged | functions.py:80-85 | If the `for j` scan left the route unchanged, no j it examined has a negative delta. |
| TwoOpt.ScanPass | functions.py:79-85 | One pass, running the row scan for i up to len-3 on the route as it changes, keeps the route's length and its stops on the matrix. The ScanPass lemmas below state the rest. |
| TwoOpt.ScanPassPermutes | functions.py:79-85 | One pass permutes the route and keeps its first and last stop. |
| TwoOpt.ScanPassShortens | functions.py:79-85 | One pass either leaves the route as it was or makes it strictly shorter. |
| TwoOpt.ScanPassUnchanged | functions.py:79-85 | If a pass left the route unchanged, no pair 1 <= i < len-2, i+1 < j < len has a negative delta. |
| TwoOpt.ScanRowAtOptimum | functions.py:80-85 | A `for j` scan over a row with no improving j leaves the route unchanged. |
| TwoOpt.ScanPassAtOptimum | functions.py:79-85 | A pass over a 2-opt local optimum leaves the route unchanged. |
| TwoOpt.Optimize | functions.py:67-87 | The optimised route is a permutation of the input with the first and last stop kept. It is never longer than the input, and strictly shorter whenever it differs. It is a 2-opt local optimum. A route of at most three stops comes back unchanged. |
| TwoOpt.OptimizeFixedPoints | functions.py:77-86 | The routes the optimiser returns unchanged are exactly the 2-opt local optima. |
| TwoOpt.OptimizeIdempotent | functions.py:67-87 | Optimising an optimised route changes nothing. |
| TwoOpt.ReverseSlice | functions.py:84 | The in-place slice assignment leaves the array holding TwoOptSwap of its old contents. |
| TwoOpt.StepInPlace | functions.py:81-85 | The loop body leaves the array holding Step of its old contents. It reports a swap exactly when j is not i+1 and the delta of the old route is negative. |
| TwoOpt.ScanRowInPlace | functions.py:80-85 | The `for j` loop leaves the array holding ScanRow of its old contents. The flag comes back raised exactly when it was raised before or the route changed. |
| TwoOpt.ScanPassInPlace | functions.py:78-85 | One pass of the `for i` loop leaves the array holding ScanPass of its old contents. `optimized` is true exactly when the pass changed the route. |
| TwoOpt.OptimizedRoute | functions.py:67-87 | The array the caller passed is returned. It then holds Optimize of its old contents: the same stops, the same first and last stop, a length no greater than before, and a 2-opt local optimum. |
| TwoOptExample.UnitSquareFirstPass | functions.py:78-85 | On a unit square, the first pass over the crossed route 0, 2, 1, 3 reverses the stretch 2, 1. |
| TwoOptExample.UnitSquareSecondPass | functions.py:78-85 | The second pass over 0, 1, 2, 3 finds no improving pair. |
| TwoOptExample.UnitSquareUncrossed | functions.py:67-87 | Optimising 0, 2, 1, 3 on the unit square gives the perimeter order 0, 1, 2, 3. |
| TwoOptExample.UnitSquareLengths | functions.py:53-64 | On the unit square, the crossed route is 5 long and the perimeter order is 3. |

## Left out

- `blockPrint`, `enablePrint`, `print_truck_header` and `print_package_header` (functions.py:90-125) are left out. They redirect or format console output, which is I/O.
- The `init` module is not part of this model. That covers the package hash table's internals, the loading of the data files, and how the global lists, the counter, the distance table and `end_time` are first built. The store is a map. The globals are explicit parameters (`store`, `endTime`, `dist`) or fields of `Loader.Fleet`. The `Fleet` constructor is a starting state of this model's own choosing: no packages, the same number of free slots on every truck, and every route holding one given start location. How the source fills these lists is not part of this model.
- Packages.GetPackage: the model calls it only for ids in the store (`requires pkgId in store`). What the source's hash table returns for a missing id is not part of this model, because the hash table is defined in `init`.
- Loader.Fleet.Load: requires the id to be in the store, so the model does not cover a missing id. In the source, `load` appends the id to the manifest and decrements `available[t]` (functions.py:47-48) before it looks the package up (functions.py:49). So if that lookup fails, those two changes have already been made.
- Distances are exact natural numbers, not the source's floating-point miles. So `diff_distance` is exact integer arithmetic, with no rounding.
- TwoOpt.OptimizedRoute: requires a square, symmetric matrix and a route whose stops are all matrix indices. The source states no such condition. On an asymmetric matrix, the delta the source tests no longer equals the change in route length, and this model does not cover that case, including whether the loop terminates.
- TwoOpt.ScanRow, TwoOpt.ScanPass and TwoOpt.Optimize: the flag is not part of what these functions return. The flag lives only in the in-place methods. Those methods prove the flag is raised exactly when the route changed, which is what the source's flag records.
- The statement `route = opt_route` (functions.py:86) is not modelled. It rebinds a name to the list that is already being changed in place, so it has no effect.
- Deadlines and `end_time` are plain integers. The policy only compares them for equality.
- The delivery simulation, the clock and package status updates are not part of this model. None of them is in the modelled file.
