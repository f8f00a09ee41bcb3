/** Assigning receive queues to the cores next to the network card. */
module Planner {
  import opened Common

  datatype Cpu = Cpu(id: nat, node: int)

  datatype Selection = Auto | Explicit(count: nat)

  datatype Assignment = Assignment(queueId: nat, cpu: nat)

  datatype Plan = Plan(node: int, rxQueues: nat, txQueues: nat, assignments: seq<Assignment>)

  datatype Result<T> = Ok(value: T) | Err

  // ---- Sorting ----

  function Insert(x: nat, s: seq<nat>): seq<nat> {
    if s == [] || x <= s[0] then [x] + s else [s[0]] + Insert(x, s[1..])
  }

  function Sort(s: seq<nat>): seq<nat> {
    if s == [] then [] else Insert(s[0], Sort(s[1..]))
  }

  ghost predicate Ascending(s: seq<nat>) {
    forall i, j :: 0 <= i < j < |s| ==> s[i] <= s[j]
  }

  ghost predicate Distinct(s: seq<nat>) {
    forall i, j :: 0 <= i < j < |s| ==> s[i] != s[j]
  }

  lemma {:induction false} InsertSame(x: nat, s: seq<nat>)
    ensures multiset(Insert(x, s)) == multiset(s) + multiset{x}
    ensures forall y :: y in Insert(x, s) ==> y == x || y in s
  {
    if s != [] && x > s[0] {
      InsertSame(x, s[1..]);
      assert s == [s[0]] + s[1..];
    }
  }

  lemma ConsAscends(x: nat, s: seq<nat>)
    requires Ascending(s) && forall y :: y in s ==> x <= y
    ensures Ascending([x] + s)
  {
    var all := [x] + s;
    assert forall k :: 0 < k < |all| ==> all[k] == s[k - 1] && s[k - 1] in s;
  }

  lemma {:induction false} InsertSorts(x: nat, s: seq<nat>)
    requires Ascending(s)
    ensures Ascending(Insert(x, s))
  {
    if s == [] || x <= s[0] {
      ConsAscends(x, s);
    } else {
      InsertSorts(x, s[1..]);
      InsertSame(x, s[1..]);
      ConsAscends(s[0], Insert(x, s[1..]));
    }
  }

  lemma {:induction false} SortSorts(s: seq<nat>)
    ensures Ascending(Sort(s)) && multiset(Sort(s)) == multiset(s)
  {
    if s != [] {
      SortSorts(s[1..]);
      InsertSorts(s[0], Sort(s[1..]));
      InsertSame(s[0], Sort(s[1..]));
      assert s == [s[0]] + s[1..];
    }
  }

  /** Two equal neighbours. */
  predicate HasTwins(s: seq<nat>) {
    exists i :: 0 <= i < |s| - 1 && s[i] == s[i + 1]
  }

  lemma TwinsIff(s: seq<nat>)
    requires Ascending(s)
    ensures HasTwins(s) <==> !Distinct(s)
  {
    if HasTwins(s) {
      var i :| 0 <= i < |s| - 1 && s[i] == s[i + 1];
      assert !(s[i] != s[i + 1]);
    }
    if !Distinct(s) {
      var i, j :| 0 <= i < j < |s| && s[i] == s[j];
      assert s[i] <= s[i + 1] <= s[j];
    }
  }

  ghost predicate EachOnce(s: seq<nat>) {
    forall x :: x in s ==> multiset(s)[x] == 1
  }

  lemma {:induction false} DistinctIsOnce(s: seq<nat>)
    ensures Distinct(s) <==> EachOnce(s)
  {
    if s != [] {
      var t := s[1..];
      assert s == [s[0]] + t;
      DistinctIsOnce(t);
      assert multiset(s) == multiset{s[0]} + multiset(t);
      assert Distinct(s) <==> Distinct(t) && s[0] !in t by {
        assert forall i :: 0 <= i < |t| ==> t[i] == s[i + 1];
      }
      if EachOnce(s) {
        assert multiset(s)[s[0]] == 1;
        assert s[0] !in multiset(t);
        forall x | x in t ensures multiset(t)[x] == 1 {
          assert x in s && x in multiset(t);
        }
      }
    }
  }

  lemma SameDistinct(s: seq<nat>, t: seq<nat>)
    requires multiset(s) == multiset(t)
    ensures Distinct(s) <==> Distinct(t)
  {
    DistinctIsOnce(s);
    DistinctIsOnce(t);
    assert forall x :: x in s <==> x in multiset(s);
    assert forall x :: x in t <==> x in multiset(t);
  }

  // ---- The plan ----

  function Local(cpus: seq<Cpu>, node: int): seq<nat> {
    if cpus == [] then [] else (if cpus[0].node == node then [cpus[0].id] else []) + Local(cpus[1..], node)
  }

  function Owners(assignments: seq<Assignment>): (s: seq<nat>)
    ensures |s| == |assignments| && forall i :: 0 <= i < |s| ==> s[i] == assignments[i].cpu
  {
    if assignments == [] then [] else [assignments[0].cpu] + Owners(assignments[1..])
  }

  /** `QueuePlan::validate` */
  predicate Validate(plan: Plan) {
    && plan.rxQueues != 0 && plan.txQueues != 0 && |plan.assignments| == plan.rxQueues
    && !HasTwins(Sort(Owners(plan.assignments)))
    && forall i :: 0 <= i < |plan.assignments| ==> plan.assignments[i].queueId == i
  }

  function Assign(cpus: seq<nat>): (a: seq<Assignment>)
    ensures |a| == |cpus| && forall i :: 0 <= i < |cpus| ==> a[i] == Assignment(i, cpus[i])
  {
    if cpus == [] then [] else Assign(cpus[..|cpus| - 1]) + [Assignment(|cpus| - 1, cpus[|cpus| - 1])]
  }

  function Requested(receive: nat, maximum: nat, local: nat, selection: Selection): nat {
    if selection.Auto? then Min(Min(receive, local), maximum) else selection.count
  }

  /** `plan_queues` */
  function PlanQueues(
      node: int, receive: nat, transmit: nat, cpus: seq<Cpu>, maximum: nat, selection: Selection): Result<Plan>
  {
    if receive == 0 || transmit == 0 || maximum == 0 then Err
    else
      var local := Sort(Local(cpus, node));
      if HasTwins(local) then Err
      else
        var requested := Requested(receive, maximum, |local|, selection);
        if requested == 0 || requested > receive || requested > maximum || requested > |local| then Err
        else
          var plan := Plan(node, requested, Min(requested, transmit), Assign(local[..requested]));
          if Validate(plan) then Ok(plan) else Err
  }

  /** The owners are distinct cores of the node, in ascending order, and every core left over is above
      them all. */
  ghost predicate SmallestFirst(owners: seq<nat>, local: seq<nat>) {
    && (forall i, j :: 0 <= i < j < |owners| ==> owners[i] < owners[j])
    && (forall x :: x in owners ==> x in local)
    && (forall x, y :: x in owners && y in local && y !in owners ==> x < y)
  }

  lemma SortedFacts(local: seq<nat>)
    ensures var sorted := Sort(local);
            && Ascending(sorted) && |sorted| == |local|
            && (HasTwins(sorted) <==> !Distinct(local))
            && forall x :: x in sorted <==> x in local
  {
    var sorted := Sort(local);
    SortSorts(local);
    TwinsIff(sorted);
    SameDistinct(sorted, local);
    assert |multiset(sorted)| == |multiset(local)|;
    assert forall x :: x in sorted <==> x in multiset(sorted);
    assert forall x :: x in local <==> x in multiset(local);
  }

  lemma PrefixFacts(sorted: seq<nat>, n: nat, local: seq<nat>)
    requires n <= |sorted| && Ascending(sorted) && Distinct(sorted) && forall x :: x in sorted <==> x in local
    ensures SmallestFirst(sorted[..n], local) && Distinct(sorted[..n])
  {
    var owners := sorted[..n];
    assert forall k :: 0 <= k < n ==> owners[k] == sorted[k];
    forall x, y | x in owners && y in local && y !in owners ensures x < y {
      var i :| 0 <= i < n && owners[i] == x;
      assert y in sorted;
      var j :| 0 <= j < |sorted| && sorted[j] == y;
      assert sorted[i] <= sorted[j] && sorted[i] != sorted[j];
    }
  }

  lemma OwnersOfAssigned(cpus: seq<nat>)
    ensures Owners(Assign(cpus)) == cpus
  {}

  /** The closing validation of a plan for distinct cores never fails. */
  lemma ValidateNeverFails(node: int, cpus: seq<nat>, transmit: nat)
    requires cpus != [] && Distinct(cpus) && transmit > 0
    ensures Validate(Plan(node, |cpus|, Min(|cpus|, transmit), Assign(cpus)))
  {
    OwnersOfAssigned(cpus);
    NoTwins(cpus);
  }

  lemma NoTwins(cpus: seq<nat>)
    requires Distinct(cpus)
    ensures !HasTwins(Sort(cpus))
  {
    SortedFacts(cpus);
  }

  /** Queue i belongs to the i-th smallest core of the node. */
  ghost predicate Right(plan: Plan, node: int, requested: nat, transmit: nat, local: seq<nat>) {
    && plan.node == node && plan.rxQueues == requested && plan.txQueues == Min(requested, transmit)
    && |plan.assignments| == requested && SmallestFirst(Owners(plan.assignments), local)
    && forall i :: 0 <= i < requested ==> plan.assignments[i].queueId == i
  }

  lemma PlanFor(node: int, sorted: seq<nat>, requested: nat, transmit: nat, local: seq<nat>)
    requires 1 <= requested <= |sorted| && transmit > 0
    requires Ascending(sorted) && Distinct(sorted) && forall x :: x in sorted <==> x in local
    ensures var plan := Plan(node, requested, Min(requested, transmit), Assign(sorted[..requested]));
            Validate(plan) && Right(plan, node, requested, transmit, local)
  {
    PrefixFacts(sorted, requested, local);
    OwnersOfAssigned(sorted[..requested]);
    ValidateNeverFails(node, sorted[..requested], transmit);
  }

  /** A plan exists exactly when the capacities, the cores and the request allow it; it then gives
      queue i to the i-th smallest core of the node. */
  lemma PlanIff(node: int, receive: nat, transmit: nat, cpus: seq<Cpu>, maximum: nat, selection: Selection)
    ensures var local := Local(cpus, node);
            var requested := Requested(receive, maximum, |local|, selection);
            var r := PlanQueues(node, receive, transmit, cpus, maximum, selection);
            && (r.Ok? <==> receive > 0 && transmit > 0 && maximum > 0 && Distinct(local)
                           && 1 <= requested <= Min(Min(receive, maximum), |local|))
            && (r.Ok? ==> Right(r.value, node, requested, transmit, local))
  {
    var local := Local(cpus, node);
    var sorted := Sort(local);
    var requested := Requested(receive, maximum, |local|, selection);
    SortedFacts(local);
    if transmit > 0 && 1 <= requested <= |sorted| && Distinct(local) {
      TwinsIff(sorted);
      PlanFor(node, sorted, requested, transmit, local);
    }
  }
}
