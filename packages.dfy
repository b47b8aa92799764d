/**
 * Packages and the package store.
 *
 * A package carries the three attributes the planning logic reads: its
 * deadline, its free-text special notes and the destination location.
 * The hash table that holds the packages is modelled by a finite map from
 * package id to package record; its internals are not part of this model.
 */
module Packages {

  /** A time of day; the planning logic only compares deadlines for equality. */
  type Time = int

  /** A location id: a row/column index of the distance matrix. */
  type Location = nat

  datatype Package = Package(deadline: Time, notes: string, locationId: Location)

  /** The package hash table, keyed by package id. */
  type Store = map<int, Package>

  /** Looking a package up by its id: the one package the store holds under that id. */
  function GetPackage(store: Store, pkgId: int): (p: Package)
    requires pkgId in store
    ensures (pkgId, p) in store.Items
    ensures forall q :: (pkgId, q) in store.Items ==> q == p
  {
    store[pkgId]
  }

  /** Python's `sub in s` on strings: `sub` occurs in `s` as a contiguous piece. */
  predicate Contains(s: string, sub: string)
    decreases |s|
  {
    sub <= s || (s != [] && Contains(s[1..], sub))
  }

  /** `sub` occurs in `s` starting at position `k`. */
  predicate OccursAt(s: string, sub: string, k: int) {
    0 <= k <= |s| - |sub| && s[k..k + |sub|] == sub
  }

  /** Contains agrees with the positional definition of a substring occurrence. */
  lemma {:induction false} ContainsIffOccursAt(s: string, sub: string)
    ensures Contains(s, sub) <==> exists k :: OccursAt(s, sub, k)
    decreases |s|
  {
    if sub <= s {
      assert OccursAt(s, sub, 0);
    } else if s == [] {
      assert forall k :: !OccursAt(s, sub, k);
    } else {
      ContainsIffOccursAt(s[1..], sub);
      if k :| OccursAt(s, sub, k) {
        assert k != 0;
        assert s[1..][k - 1..k - 1 + |sub|] == s[k..k + |sub|];
        assert OccursAt(s[1..], sub, k - 1);
      }
      if k :| OccursAt(s[1..], sub, k) {
        assert s[k + 1..k + 1 + |sub|] == s[1..][k..k + |sub|];
        assert OccursAt(s, sub, k + 1);
      }
    }
  }
}
