/**
 * The loader: the per-truck manifests, free-slot counters and routes, and
 * the operation that loads one package onto one truck.
 */
module Loader {
  import opened Packages

  /** No location occurs twice in a route. */
  predicate Distinct(route: seq<Location>) {
    forall a, b :: 0 <= a < b < |route| ==> route[a] != route[b]
  }

  /**
   * The route after visiting `loc` is requested: `loc` is added at the end
   * unless it is already a stop, so packages for the same address share a stop.
   */
  function WithStop(route: seq<Location>, loc: Location): (r: seq<Location>)
    // The old stops keep their order and the new stop, if any, comes last.
    ensures route <= r && |r| <= |route| + 1
    // Afterwards the location is a stop.
    ensures loc in r
    // A stop is added exactly when the location was absent.
    ensures |r| == |route| + 1 <==> loc !in route
    // No stop is duplicated by the addition.
    ensures Distinct(route) ==> Distinct(r)
  {
    if loc !in route then route + [loc] else route
  }

  /** Offering the same location twice adds at most one stop. */
  lemma WithStopTwice(route: seq<Location>, loc: Location)
    ensures WithStop(WithStop(route, loc), loc) == WithStop(route, loc)
    ensures |WithStop(WithStop(route, loc), loc)| == |route| + (if loc in route then 0 else 1)
  {
  }

  /**
   * The three per-truck collections, indexed by truck number: the ids of
   * the packages loaded, the number of free slots (which nothing stops
   * from going negative) and the distinct delivery locations in the order
   * they were first loaded.
   */
  class Fleet {
    var packagesOnTruck: seq<seq<int>>
    var available: seq<int>
    var routeForTruck: seq<seq<Location>>

    ghost predicate Valid()
      reads this
    {
      |packagesOnTruck| == |available| == |routeForTruck|
    }

    /** Truck numbers are the valid indices of the three collections. */
    function TruckCount(): (n: nat)
      reads this
      requires Valid()
      ensures n == |available|
    {
      |packagesOnTruck|
    }

    /** A fleet of `trucks` empty trucks with `capacity` free slots each; each route starts at `hub`. */
    constructor (trucks: nat, capacity: int, hub: Location)
      ensures Valid() && TruckCount() == trucks
      ensures forall t :: 0 <= t < trucks ==> packagesOnTruck[t] == []
      ensures forall t :: 0 <= t < trucks ==> available[t] == capacity
      ensures forall t :: 0 <= t < trucks ==> routeForTruck[t] == [hub]
    {
      packagesOnTruck := seq(trucks, _ => []);
      available := seq(trucks, _ => capacity);
      routeForTruck := seq(trucks, _ => [hub]);
    }

    /**
     * Loads package `pkgId` onto truck `t`: the package joins the manifest,
     * one slot is used up and its destination joins the route if absent.
     * Every other truck is left as it was.
     */
    method Load(store: Store, pkgId: int, t: nat)
      requires Valid() && t < TruckCount()
      requires pkgId in store
      modifies this
      ensures Valid() && TruckCount() == old(TruckCount())
      ensures packagesOnTruck == old(packagesOnTruck)[t := old(packagesOnTruck[t]) + [pkgId]]
      ensures available == old(available)[t := old(available[t]) - 1]
      ensures routeForTruck == old(routeForTruck)[t := WithStop(old(routeForTruck[t]), store[pkgId].locationId)]
      ensures store[pkgId].locationId in routeForTruck[t]
      ensures old(Distinct(routeForTruck[t])) ==> Distinct(routeForTruck[t])
    {
      packagesOnTruck := packagesOnTruck[t := packagesOnTruck[t] + [pkgId]];
      available := available[t := available[t] - 1];
      if GetPackage(store, pkgId).locationId !in routeForTruck[t] {
        routeForTruck := routeForTruck[t := routeForTruck[t] + [GetPackage(store, pkgId).locationId]];
      }
    }
  }

  /** Two packages for one address, loaded onto one truck, add one stop between them. */
  method LoadSameAddressTwice(fleet: Fleet, store: Store, first: int, second: int, t: nat)
    requires fleet.Valid() && t < fleet.TruckCount()
    requires first in store && second in store && first != second
    requires store[first].locationId == store[second].locationId
    modifies fleet
    ensures fleet.Valid() && fleet.TruckCount() == old(fleet.TruckCount())
    ensures fleet.packagesOnTruck == old(fleet.packagesOnTruck)[t := old(fleet.packagesOnTruck[t]) + [first, second]]
    ensures fleet.available == old(fleet.available)[t := old(fleet.available[t]) - 2]
    ensures fleet.routeForTruck == old(fleet.routeForTruck)[t := WithStop(old(fleet.routeForTruck[t]), store[first].locationId)]
  {
    fleet.Load(store, first, t);
    fleet.Load(store, second, t);
    assert old(fleet.packagesOnTruck[t]) + [first] + [second] == old(fleet.packagesOnTruck[t]) + [first, second];
    WithStopTwice(old(fleet.routeForTruck[t]), store[first].locationId);
  }
}
