/**
 * The truck-priority policy: a package's priority class in {1, 2, 3},
 * decided by a chain of rules where the last rule that matches wins.
 */
module Policy {
  import opened Packages

  /** Ids of the packages whose notes say they must be delivered together. */
  const MustShipTogether: seq<int> := [13, 14, 15, 16, 19, 20]

  const TruckTwoOnly: string := "Can only be on truck 2"
  const DelayedOnFlight: string := "Delayed on flight"
  const WrongAddress: string := "Wrong address listed"

  /**
   * The priority class of package `pkgId`. `endTime` is the end-of-day
   * sentinel that stands for "no special deadline". Each rule overwrites
   * the class chosen so far, in the order the source applies them.
   */
  function AssignedTruck(store: Store, endTime: Time, pkgId: int): (t: int)
    requires pkgId in store
    ensures t == 1 || t == 2 || t == 3
    // The wrong-address rule overrides everything else.
    ensures Contains(store[pkgId].notes, WrongAddress) ==> t == 3
    // Otherwise the truck-2 and delayed-flight notes give class 2.
    ensures !Contains(store[pkgId].notes, WrongAddress)
            && (Contains(store[pkgId].notes, TruckTwoOnly) || Contains(store[pkgId].notes, DelayedOnFlight))
            ==> t == 2
    // Otherwise a concrete deadline or a must-ship-together id gives class 1.
    ensures !Contains(store[pkgId].notes, WrongAddress)
            && !Contains(store[pkgId].notes, TruckTwoOnly) && !Contains(store[pkgId].notes, DelayedOnFlight)
            && (store[pkgId].deadline != endTime || pkgId in MustShipTogether)
            ==> t == 1
    // With no rule matching, the default class 3 stays.
    ensures !Contains(store[pkgId].notes, WrongAddress)
            && !Contains(store[pkgId].notes, TruckTwoOnly) && !Contains(store[pkgId].notes, DelayedOnFlight)
            && store[pkgId].deadline == endTime && pkgId !in MustShipTogether
            ==> t == 3
  {
    var p := GetPackage(store, pkgId);
    var t0 := 3;
    var t1 := if p.deadline != endTime then 1 else t0;
    var t2 := if pkgId in MustShipTogether then 1 else t1;
    var t3 := if Contains(p.notes, TruckTwoOnly) then 2 else t2;
    var t4 := if Contains(p.notes, DelayedOnFlight) then 2 else t3;
    var t5 := if Contains(p.notes, WrongAddress) then 3 else t4;
    t5
  }

  /** The policy written as data: a condition on a package and the class it sets. */
  datatype Condition = HasDeadline | IdIn(ids: seq<int>) | NotesContain(marker: string)
  datatype Rule = Rule(when: Condition, priority: int)

  const PriorityRules: seq<Rule> := [
    Rule(HasDeadline, 1),
    Rule(IdIn(MustShipTogether), 1),
    Rule(NotesContain(TruckTwoOnly), 2),
    Rule(NotesContain(DelayedOnFlight), 2),
    Rule(NotesContain(WrongAddress), 3)
  ]

  predicate Holds(c: Condition, endTime: Time, pkgId: int, p: Package) {
    match c
    case HasDeadline => p.deadline != endTime
    case IdIn(ids) => pkgId in ids
    case NotesContain(marker) => Contains(p.notes, marker)
  }

  /** Rule k matches the package and no later rule does. */
  predicate IsLastHolding(rules: seq<Rule>, endTime: Time, pkgId: int, p: Package, k: int)
    requires 0 <= k < |rules|
  {
    Holds(rules[k].when, endTime, pkgId, p)
    && forall m :: k < m < |rules| ==> !Holds(rules[m].when, endTime, pkgId, p)
  }

  /** Applies `rules` in order, starting from class `current`; the last match wins. */
  function LastMatch(rules: seq<Rule>, endTime: Time, pkgId: int, p: Package, current: int): (t: int)
    // The result is the starting class or the class of a rule that matches.
    ensures t == current || exists k :: 0 <= k < |rules| && Holds(rules[k].when, endTime, pkgId, p) && t == rules[k].priority
    // Some rule matches: the last matching rule decides the result.
    ensures (exists k :: 0 <= k < |rules| && Holds(rules[k].when, endTime, pkgId, p))
            ==> exists k :: 0 <= k < |rules| && IsLastHolding(rules, endTime, pkgId, p, k) && t == rules[k].priority
    // A final rule that matches decides the result.
    ensures rules != [] && Holds(rules[|rules| - 1].when, endTime, pkgId, p) ==> t == rules[|rules| - 1].priority
    // No matching rule leaves the starting class unchanged.
    ensures (forall k :: 0 <= k < |rules| ==> !Holds(rules[k].when, endTime, pkgId, p)) ==> t == current
    decreases |rules|
  {
    if rules == [] then current
    else
      var next := if Holds(rules[0].when, endTime, pkgId, p) then rules[0].priority else current;
      var t := LastMatch(rules[1..], endTime, pkgId, p, next);
      assert forall k :: 0 <= k < |rules| - 1 ==> rules[1..][k] == rules[k + 1];
      assert Holds(rules[0].when, endTime, pkgId, p)
             && (forall k :: 0 <= k < |rules| - 1 ==> !Holds(rules[1..][k].when, endTime, pkgId, p))
             ==> IsLastHolding(rules, endTime, pkgId, p, 0);
      t
  }

  /** Two matching rules: the later one decides, even when a non-matching rule follows. */
  lemma LastMatchLaterRuleWins(endTime: Time, pkgId: int, p: Package)
    requires p.deadline != endTime
    ensures LastMatch([Rule(HasDeadline, 1), Rule(HasDeadline, 2), Rule(IdIn([]), 3)], endTime, pkgId, p, 3) == 2
  {
  }

  /** The hard-coded policy is the rule table evaluated from the default class 3. */
  lemma AssignedTruckFollowsRules(store: Store, endTime: Time, pkgId: int)
    requires pkgId in store
    ensures AssignedTruck(store, endTime, pkgId) == LastMatch(PriorityRules, endTime, pkgId, store[pkgId], 3)
  {
    var p := store[pkgId];
    var rs := PriorityRules;
    var t1 := if Holds(rs[0].when, endTime, pkgId, p) then 1 else 3;
    var t2 := if Holds(rs[1].when, endTime, pkgId, p) then 1 else t1;
    var t3 := if Holds(rs[2].when, endTime, pkgId, p) then 2 else t2;
    var t4 := if Holds(rs[3].when, endTime, pkgId, p) then 2 else t3;
    assert LastMatch(rs, endTime, pkgId, p, 3) == LastMatch(rs[1..], endTime, pkgId, p, t1);
    assert LastMatch(rs[1..], endTime, pkgId, p, t1) == LastMatch(rs[2..], endTime, pkgId, p, t2);
    assert LastMatch(rs[2..], endTime, pkgId, p, t2) == LastMatch(rs[3..], endTime, pkgId, p, t3);
    assert LastMatch(rs[3..], endTime, pkgId, p, t3) == LastMatch(rs[4..], endTime, pkgId, p, t4);
  }
}
