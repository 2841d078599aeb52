/** How often a queued job can be overtaken. */
module QueueFairness {
  import opened DefenseQueue
  import opened QueueInvariant
  import opened QueueHistory

  /** Leases job `i` can still be granted. */
  ghost function Remaining(s: State, i: nat): int
    requires i < |s.jobs|
  {
    s.jobs[i].maxRetries + 1 - LeaseCount(s.leases, i)
  }

  /** The summed remaining leases of the jobs created before job `j`. */
  ghost function Budget(s: State, j: nat): int
    requires j <= |s.jobs|
  {
    if j == 0 then 0 else Budget(s, j - 1) + Remaining(s, j - 1)
  }

  /** Leases granted by the run. */
  function Grants(run: seq<Timed>): nat {
    if run == [] then 0
    else (if run[0].event.Acquire? && run[0].event.pick.Some? then 1 else 0) + Grants(run[1..])
  }

  /** Job `j` waits in the queue during the whole run. */
  ghost predicate Waits(s: State, run: seq<Timed>, j: nat)
    decreases |run|
  {
    j < |s.jobs| && s.jobs[j].state == Queued && (run == [] || Waits(Step(s, run[0]), run[1..], j))
  }

  /** All jobs have one priority and were created at distinct times. */
  ghost predicate FirstComeFirstServed(s: State) {
    forall a, b :: 0 <= a < b < |s.jobs| ==>
      s.jobs[a].priority == s.jobs[b].priority && s.jobs[a].createdAt < s.jobs[b].createdAt
  }

  lemma ServedEarlier(s: State, t: State)
    requires Later(s, t) && FirstComeFirstServed(t)
    ensures FirstComeFirstServed(s)
  {
    forall a, b | 0 <= a < b < |s.jobs|
      ensures s.jobs[a].priority == s.jobs[b].priority && s.jobs[a].createdAt < s.jobs[b].createdAt {
      assert JobKept(s.jobs[a], t.jobs[a]) && JobKept(s.jobs[b], t.jobs[b]);
    }
  }

  lemma {:induction false} BudgetIsNatural(s: State, j: nat)
    requires Inv(s) && j <= |s.jobs|
    ensures Budget(s, j) >= 0
  {
    hide PrepareCoupled; hide CheckCoupled; hide LeaseCount;
    if j > 0 {
      BudgetIsNatural(s, j - 1);
      assert JobOk(s, s.jobs[j - 1]);
      LeaseCounts(s, j - 1);
    }
  }

  lemma {:induction false} BudgetFrame(s: State, t: State, j: nat, p: nat, granted: int)
    requires j <= |s.jobs| <= |t.jobs|
    requires forall i :: 0 <= i < j ==> t.jobs[i].maxRetries == s.jobs[i].maxRetries
    requires forall i :: 0 <= i < j ==>
                           LeaseCount(t.leases, i) == LeaseCount(s.leases, i) + (if i == p then granted else 0)
    ensures Budget(t, j) == Budget(s, j) - (if p < j then granted else 0)
  {
    hide LeaseCount;
    if j > 0 {
      BudgetFrame(s, t, j - 1, p, granted);
    }
  }

  /** Transactions that grant nothing leave every job's lease count alone. */
  lemma CountsStay(s: State, t: Timed, i: nat)
    requires Inv(s) && Enabled(s, t) && i < |s.jobs| && !(t.event.Acquire? && t.event.pick.Some?)
    ensures LeaseCount(Step(s, t).leases, i) == LeaseCount(s.leases, i)
  {
    hide Inv; hide FindDefense; hide MaxNo; hide RefusesAttempt; hide PreparationDies; hide CheckDies; hide LeaseCount;
    hide Prepared;
    SameCount(s.leases, Step(s, t).leases, i);
  }

  lemma GrantCounts(s: State, t: Timed, i: nat)
    requires Inv(s) && Enabled(s, t) && i < |s.jobs| && t.event.Acquire? && t.event.pick.Some?
    ensures LeaseCount(Step(s, t).leases, i) == LeaseCount(s.leases, i) + (if i == t.event.pick.value then 1 else 0)
  {
    hide Inv; hide LeaseCount; hide PreparationDies; hide CheckDies;
    var lapsed := LapseLeases(s.(now := t.at));
    SameCount(s.leases, lapsed.leases, i);
    var row := Step(s, t).leases[|s.leases|];
    CountAppend(lapsed.leases, row, i);
  }

  /** A grant made while `j` waits goes to a job created before it. */
  lemma GrantGoesFirst(s: State, t: Timed, j: nat)
    requires Inv(s) && Enabled(s, t) && t.event.Acquire? && t.event.pick.Some?
    requires j < |s.jobs| && s.jobs[j].state == Queued && Step(s, t).jobs[j].state == Queued
    requires FirstComeFirstServed(s)
    ensures t.event.pick.value < j
  {
    hide PrepareCoupled; hide CheckCoupled; hide LeasesOk; hide LeaseCount; hide PreparationDies; hide CheckDies;
    var lapsed := LapseLeases(s.(now := t.at));
    assert JobOk(s, s.jobs[j]);
    var p := t.event.pick.value;
    assert IsAvailable(lapsed.jobs[j], t.at);
    assert GoesFirst(lapsed.jobs[p], lapsed.jobs[j]);
  }

  /** Each grant made while `j` waits is paid for by the budget, and nothing refills it. */
  lemma BudgetPays(s: State, t: Timed, j: nat)
    requires Inv(s) && Enabled(s, t) && FirstComeFirstServed(s)
    requires j < |s.jobs| && s.jobs[j].state == Queued && j < |Step(s, t).jobs| && Step(s, t).jobs[j].state == Queued
    ensures Budget(Step(s, t), j) == Budget(s, j) - Grants([t])
  {
    hide Inv; hide Step; hide Enabled; hide LeaseCount; hide FirstComeFirstServed;
    var u := Step(s, t);
    StepLater(s, t);
    var grants := t.event.Acquire? && t.event.pick.Some?;
    var p := if grants then t.event.pick.value else j;
    forall i | 0 <= i < j
      ensures LeaseCount(u.leases, i) == LeaseCount(s.leases, i) + (if i == p then 1 else 0) &&
              u.jobs[i].maxRetries == s.jobs[i].maxRetries {
      assert JobKept(s.jobs[i], u.jobs[i]);
      if grants {
        GrantCounts(s, t, i);
      } else {
        CountsStay(s, t, i);
      }
    }
    if grants {
      GrantGoesFirst(s, t, j);
    }
    BudgetFrame(s, u, j, p, 1);
    assert [t][1..] == [];
  }

  lemma {:induction false} GrantsPaid(s: State, run: seq<Timed>, j: nat)
    requires Inv(s) && IsRun(s, run) && Waits(s, run, j) && FirstComeFirstServed(After(s, run))
    ensures j < |After(s, run).jobs| && Grants(run) == Budget(s, j) - Budget(After(s, run), j)
    decreases |run|
  {
    hide Inv; hide Step; hide Enabled; hide Later; hide FirstComeFirstServed;
    if run != [] {
      var u := Step(s, run[0]);
      RunLater(s, run);
      ServedEarlier(s, After(s, run));
      StepKeepsInv(s, run[0]);
      GrantsPaid(u, run[1..], j);
      BudgetPays(s, run[0], j);
      assert [run[0]][1..] == [];
    }
  }

  /** With one priority and distinct creation times, while a job waits in the queue the
      number of leases granted to others is at most what the earlier jobs could still
      be granted when it began to wait. */
  lemma BoundedOvertaking(before: seq<Timed>, run: seq<Timed>, j: nat)
    requires IsRun(EMPTY, before) && IsRun(After(EMPTY, before), run)
    requires Waits(After(EMPTY, before), run, j) && FirstComeFirstServed(After(After(EMPTY, before), run))
    ensures Grants(run) <= Budget(After(EMPTY, before), j)
  {
    hide Inv; hide After; hide IsRun; hide FirstComeFirstServed;
    var s := After(EMPTY, before);
    ReachableInv(before);
    GrantsPaid(s, run, j);
    RunLater(s, run);
    BudgetIsNatural(After(s, run), j);
  }
}
