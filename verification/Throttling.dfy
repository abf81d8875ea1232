/** What a speed limit means: laws about what was let through, second by second. */
module Throttling {
  import opened Basics

  datatype Grant = Grant(second: nat, size: nat)

  /** How much was let through in one second. */
  function GrantedIn(grants: seq<Grant>, second: nat): nat {
    if grants == [] then 0
    else (if grants[0].second == second then grants[0].size else 0) + GrantedIn(grants[1..], second)
  }

  function Total(grants: seq<Grant>): nat {
    if grants == [] then 0 else grants[0].size + Total(grants[1..])
  }

  function Seconds(grants: seq<Grant>): set<nat> {
    set g | g in grants :: g.second
  }

  ghost predicate WithinLimit(grants: seq<Grant>, limit: nat) {
    forall second: nat :: GrantedIn(grants, second) <= limit
  }

  /** Progress callbacks leave the limit alone. */
  ghost predicate SteadyLimit(limitAfterProgress: (nat, nat) -> nat) {
    forall k: nat, l: nat :: limitAfterProgress(k, l) == l
  }

  /** The clock never goes back and never shows 0, the value that stands for no second yet. */
  ghost predicate ClockRuns(second: nat -> nat) {
    && (forall j: nat, k: nat | j <= k :: second(j) <= second(k))
    && forall k: nat :: second(k) > 0
  }

  /** After every reading of the clock some later one shows another second for good. */
  ghost predicate ClockAdvances(second: nat -> nat, next: nat -> nat) {
    forall j: nat, k: nat | k >= next(j) :: second(k) > second(j)
  }

  lemma {:induction false} GrantedInSnoc(grants: seq<Grant>, g: Grant, second: nat)
    ensures GrantedIn(grants + [g], second) == GrantedIn(grants, second) + (if g.second == second then g.size else 0)
    ensures Total(grants + [g]) == Total(grants) + g.size
  {
    if grants == [] {
      assert [g][1..] == [];
    } else {
      assert (grants + [g])[1..] == grants[1..] + [g];
      GrantedInSnoc(grants[1..], g, second);
    }
  }

  lemma {:induction false} NothingGrantedYet(grants: seq<Grant>, second: nat, last: nat)
    requires last < second && forall i | 0 <= i < |grants| :: grants[i].second <= last
    ensures GrantedIn(grants, second) == 0
  {
    if grants != [] {
      NothingGrantedYet(grants[1..], second, last);
    }
  }

  /** A grant that keeps its own second within the limit keeps all of them. */
  lemma GrantMore(grants: seq<Grant>, limit: nat, second: nat, size: nat)
    ensures GrantedIn(grants + [Grant(second, size)], second) == GrantedIn(grants, second) + size
    ensures Total(grants + [Grant(second, size)]) == Total(grants) + size
    ensures WithinLimit(grants, limit) && GrantedIn(grants, second) + size <= limit
            ==> WithinLimit(grants + [Grant(second, size)], limit)
  {
    forall s: nat
      ensures GrantedIn(grants + [Grant(second, size)], s) == GrantedIn(grants, s) + (if s == second then size else 0)
    {
      GrantedInSnoc(grants, Grant(second, size), s);
    }
    GrantedInSnoc(grants, Grant(second, size), second);
  }

  // ----- Many bytes need many seconds -----

  /** The grants of one second taken out. */
  function Without(grants: seq<Grant>, second: nat): seq<Grant> {
    if grants == [] then []
    else (if grants[0].second == second then [] else [grants[0]]) + Without(grants[1..], second)
  }

  lemma {:induction false} WithoutSecond(grants: seq<Grant>, second: nat, other: nat)
    ensures Total(grants) == GrantedIn(grants, second) + Total(Without(grants, second))
    ensures other != second ==> GrantedIn(Without(grants, second), other) == GrantedIn(grants, other)
    ensures GrantedIn(Without(grants, second), second) == 0
    ensures forall g | g in Without(grants, second) :: g in grants && g.second != second
  {
    if grants != [] {
      WithoutSecond(grants[1..], second, other);
      var rest := Without(grants[1..], second);
      if grants[0].second == second {
        assert Without(grants, second) == rest;
      } else {
        assert Without(grants, second) == [grants[0]] + rest;
        assert ([grants[0]] + rest)[1..] == rest;
      }
    }
  }

  /** Without the grants of one second, the limit is kept and that second is gone. */
  lemma WithoutKeeps(grants: seq<Grant>, limit: nat, second: nat, seconds: set<nat>)
    requires WithinLimit(grants, limit) && Seconds(grants) <= seconds
    ensures WithinLimit(Without(grants, second), limit) && Seconds(Without(grants, second)) <= seconds - {second}
    ensures Total(grants) <= limit + Total(Without(grants, second))
  {
    var rest := Without(grants, second);
    forall t: nat
      ensures GrantedIn(rest, t) <= limit
    {
      WithoutSecond(grants, second, t);
    }
    WithoutSecond(grants, second, second);
    forall g | g in rest
      ensures g.second in seconds - {second}
    {
      assert g in grants && g.second in Seconds(grants);
    }
  }

  lemma OneSecondLess(limit: nat, seconds: set<nat>, second: nat)
    requires second in seconds
    ensures limit * |seconds| == limit + limit * |seconds - {second}|
  {
    assert |seconds| == 1 + |seconds - {second}|;
  }

  lemma {:induction false} TotalWithinSeconds(grants: seq<Grant>, limit: nat, seconds: set<nat>)
    requires WithinLimit(grants, limit) && Seconds(grants) <= seconds
    ensures Total(grants) <= limit * |seconds|
    decreases seconds
  {
    if grants != [] {
      var s := grants[0].second;
      assert s in Seconds(grants);
      WithoutKeeps(grants, limit, s, seconds);
      TotalWithinSeconds(Without(grants, s), limit, seconds - {s});
      OneSecondLess(limit, seconds, s);
    }
  }

  /** ceil(total / limit) */
  function SecondsNeeded(total: nat, limit: nat): nat
    requires limit > 0
  {
    (total + limit - 1) / limit
  }

  /** Under a limit, letting a total through takes at least its share of distinct seconds. */
  lemma ManySeconds(grants: seq<Grant>, limit: nat)
    requires limit > 0 && WithinLimit(grants, limit)
    ensures |Seconds(grants)| >= SecondsNeeded(Total(grants), limit)
  {
    TotalWithinSeconds(grants, limit, Seconds(grants));
    CeilingAtMost(Total(grants), |Seconds(grants)|, limit);
  }

  lemma CeilingAtMost(total: nat, n: nat, limit: nat)
    requires limit > 0 && total <= limit * n
    ensures SecondsNeeded(total, limit) <= n
  {
    var q := SecondsNeeded(total, limit);
    MulMonotonic(n + 1, q, limit);
    assert (n + 1) * limit == limit * n + limit;
  }
}
