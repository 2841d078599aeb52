/** Which rows the transactions of the defense queue touch, and how attempts are numbered. */
module QueueRows {
  import opened Common
  import opened DefenseQueue
  import opened QueueInvariant
  import opened QueueHistory

  // ------------------------------------------------------------------
  // A transaction about one defense leaves the rows of all others alone
  // ------------------------------------------------------------------

  predicate LapsesFor(jobs: seq<Job>, now: int, d: nat) {
    exists i :: 0 <= i < |jobs| && HasLapsed(jobs[i], now) && jobs[i].defense == d
  }

  predicate IsJobOf(jobs: seq<Job>, i: nat, d: nat) {
    i < |jobs| && jobs[i].defense == d
  }

  /** The event is about defense `d`: it names it, its submission or one of its jobs, or a lease
      of one of its jobs has lapsed when the queue is asked for work. */
  predicate Concerns(s: State, t: Timed, d: nat)
    requires d < |s.defenses|
  {
    match t.event
    case Create(_, submission, _, _) => s.defenses[d].submission == submission
    case Get(id) => id == d
    case Configure(_, id, _, _, _) => id == d
    case ConfigureHide(_, id, _, _, _) => id == d
    case Cancel(_, id) => id == d
    case Submit(_, id, _, _) => id == d
    case Acquire(pick, _) => LapsesFor(s.jobs, t.at, d) || (pick.Some? && IsJobOf(s.jobs, pick.value, d))
    case Heartbeat(id, _) => IsJobOf(s.jobs, id, d)
    case Complete(id, _, _) => IsJobOf(s.jobs, id, d)
  }

  /** Defense `d` and its jobs, attempts and leases are as before, and there are no new ones. */
  ghost predicate Untouched(s: State, u: State, d: nat) {
    d < |s.defenses| <= |u.defenses| && u.defenses[d] == s.defenses[d] &&
    SameJobs(s.jobs, u.jobs, d) && SameAttempts(s.attempts, u.attempts, d) && SameLeases(s, u, d)
  }

  ghost predicate SameJobs(jobs: seq<Job>, later: seq<Job>, d: nat) {
    |jobs| <= |later| &&
    (forall i :: 0 <= i < |jobs| && jobs[i].defense == d ==> later[i] == jobs[i]) &&
    (forall i :: 0 <= i < |later| && later[i].defense == d ==> i < |jobs| && jobs[i].defense == d)
  }

  ghost predicate SameAttempts(attempts: seq<Attempt>, later: seq<Attempt>, d: nat) {
    |attempts| <= |later| &&
    (forall a :: 0 <= a < |attempts| && attempts[a].defense == d ==> later[a] == attempts[a]) &&
    (forall a :: 0 <= a < |later| && later[a].defense == d ==> a < |attempts| && attempts[a].defense == d)
  }

  ghost predicate SameLeases(s: State, u: State, d: nat) {
    |s.leases| <= |u.leases| &&
    (forall k :: 0 <= k < |s.leases| && IsJobOf(s.jobs, s.leases[k].job, d) ==> u.leases[k] == s.leases[k]) &&
    (forall k :: |s.leases| <= k < |u.leases| ==> !IsJobOf(s.jobs, u.leases[k].job, d))
  }

  lemma CreateIsLocal(s: State, allowed: bool, submission: nat, key: nat, settings: JobSettings, d: nat)
    requires Inv(s) && d < |s.defenses| && s.defenses[d].submission != submission
    ensures Untouched(s, CreateDefense(s, allowed, submission, key, settings), d)
  {
    JobsBelong(s);
    hide Inv; hide FindDefense;
  }

  lemma JobsBelong(s: State)
    requires Inv(s)
    ensures forall i :: 0 <= i < |s.jobs| ==> s.jobs[i].defense < |s.defenses|
    ensures forall i :: 0 <= i < |s.jobs| && s.jobs[i].attempt.Some? ==>
              s.jobs[i].attempt.value < |s.attempts| && s.attempts[s.jobs[i].attempt.value].defense == s.jobs[i].defense
    ensures forall a :: 0 <= a < |s.attempts| ==> s.attempts[a].defense < |s.defenses|
  {
    assert forall i :: 0 <= i < |s.jobs| ==> JobOk(s, s.jobs[i]);
    assert forall a :: 0 <= a < |s.attempts| ==> Accepted(s, s.attempts[a]);
  }

  lemma CancelIsLocal(s: State, allowed: bool, id: nat, d: nat)
    requires d < |s.defenses| && id != d
    ensures Untouched(s, CancelDefense(s, allowed, id), d)
  {
  }

  lemma SubmitIsLocal(s: State, allowed: bool, id: nat, key: nat, settings: JobSettings, d: nat)
    requires d < |s.defenses| && id != d
    ensures Untouched(s, SubmitAttempt(s, allowed, id, key, settings), d)
  {
    hide MaxNo; hide RefusesAttempt;
  }

  lemma LapseIsLocal(s: State, d: nat)
    requires Inv(s) && d < |s.defenses| && !LapsesFor(s.jobs, s.now, d)
    ensures Untouched(s, LapseLeases(s), d)
  {
    JobsBelong(s);
    hide Inv;
    var u := LapseLeases(s);
    assert u.defenses[d] == s.defenses[d];
    forall a | 0 <= a < |s.attempts| && s.attempts[a].defense == d ensures u.attempts[a] == s.attempts[a] {
      assert !CheckDies(s.jobs, s.now, a);
    }
    forall k | 0 <= k < |s.leases| && IsJobOf(s.jobs, s.leases[k].job, d) ensures u.leases[k] == s.leases[k] {
      assert !HasLapsed(s.jobs[s.leases[k].job], s.now);
    }
  }

  lemma AcquireIsLocal(s: State, pick: Option<nat>, token: nat, d: nat)
    requires Inv(s) && d < |s.defenses| && !LapsesFor(s.jobs, s.now, d) &&
             (pick.Some? ==> !IsJobOf(s.jobs, pick.value, d))
    ensures Untouched(s, AcquireLease(s, pick, token), d)
  {
    LapseIsLocal(s, d);
    hide Inv; hide PreparationDies; hide CheckDies; hide LeaseCount;
    assert forall i :: 0 <= i < |s.jobs| ==> LapseLeases(s).jobs[i].defense == s.jobs[i].defense;
  }

  lemma CompleteIsLocal(s: State, id: nat, token: nat, report: Report, d: nat)
    requires Inv(s) && d < |s.defenses| && !IsJobOf(s.jobs, id, d)
    ensures Untouched(s, CompleteJob(s, id, token, report), d)
  {
    JobsBelong(s);
    hide Inv; hide Prepared;
  }

  /** No transaction touches the rows of a defense it is not about. */
  lemma StepIsLocal(s: State, t: Timed, d: nat)
    requires Inv(s) && Enabled(s, t) && d < |s.defenses| && !Concerns(s, t, d)
    ensures Untouched(s, Step(s, t), d)
  {
    hide Inv; hide Untouched;
    var u := s.(now := t.at);
    ClockKeepsInv(s, t.at);
    match t.event {
      case Create(allowed, submission, key, job) => CreateIsLocal(u, allowed, submission, key, job, d);
      case Get(id) => OtherRow(u, Step(s, t), d);
      case Configure(_, _, _, _, _) => OtherRow(u, Step(s, t), d);
      case ConfigureHide(_, _, _, _, _) => OtherRow(u, Step(s, t), d);
      case Cancel(allowed, id) => CancelIsLocal(u, allowed, id, d);
      case Submit(allowed, id, key, job) => SubmitIsLocal(u, allowed, id, key, job, d);
      case Acquire(pick, token) => AcquireIsLocal(u, pick, token, d);
      case Heartbeat(id, token) => OtherRow(u, Step(s, t), d);
      case Complete(id, token, report) => CompleteIsLocal(u, id, token, report, d);
    }
    SameTables(s, u, Step(s, t), d);
  }

  lemma OtherRow(u: State, v: State, d: nat)
    requires d < |u.defenses| && |v.defenses| == |u.defenses| && v.defenses[d] == u.defenses[d]
    requires v.attempts == u.attempts && v.leases == u.leases && SameJobs(u.jobs, v.jobs, d)
    ensures Untouched(u, v, d)
  {
  }

  lemma SameTables(s: State, u: State, v: State, d: nat)
    requires u == s.(now := u.now)
    ensures Untouched(u, v, d) ==> Untouched(s, v, d)
  {
  }

  // ------------------------------------------------------------------
  // Attempts are numbered 1, 2, 3 ...
  // ------------------------------------------------------------------

  function AttemptCount(attempts: seq<Attempt>, d: nat): nat {
    if attempts == [] then 0
    else AttemptCount(attempts[..|attempts| - 1], d) + (if attempts[|attempts| - 1].defense == d then 1 else 0)
  }

  /** Every attempt got the number after the earlier ones of its defense. */
  ghost predicate WellNumbered(attempts: seq<Attempt>) {
    forall a :: 0 <= a < |attempts| ==> attempts[a].no == AttemptCount(attempts[..a], attempts[a].defense) + 1
  }

  lemma {:induction false} MaxNoIsCount(attempts: seq<Attempt>, d: nat)
    requires WellNumbered(attempts)
    ensures MaxNo(attempts, d) == AttemptCount(attempts, d)
  {
    if attempts != [] {
      var n := |attempts| - 1;
      assert attempts[..n][..n] == attempts[..n];
      assert forall a :: 0 <= a < n ==> attempts[..n][..a] == attempts[..a];
      MaxNoIsCount(attempts[..n], d);
    }
  }

  lemma {:induction false} SameCount(a: seq<Attempt>, b: seq<Attempt>, d: nat)
    requires |a| == |b| && forall i :: 0 <= i < |a| ==> a[i].defense == b[i].defense
    ensures AttemptCount(a, d) == AttemptCount(b, d)
  {
    if a != [] {
      var n := |a| - 1;
      SameCount(a[..n], b[..n], d);
    }
  }

  lemma SameNumbers(a: seq<Attempt>, b: seq<Attempt>)
    requires WellNumbered(a) && |a| == |b| && forall i :: 0 <= i < |a| ==>
                                                            a[i].defense == b[i].defense && a[i].no == b[i].no
    ensures WellNumbered(b)
  {
    hide AttemptCount;
    forall i | 0 <= i < |b| ensures b[i].no == AttemptCount(b[..i], b[i].defense) + 1 {
      SameCount(a[..i], b[..i], b[i].defense);
    }
  }

  lemma AppendNumbered(attempts: seq<Attempt>, a: Attempt)
    requires WellNumbered(attempts) && a.no == MaxNo(attempts, a.defense) + 1
    ensures WellNumbered(attempts + [a])
  {
    hide AttemptCount; hide MaxNo;
    MaxNoIsCount(attempts, a.defense);
    var all := attempts + [a];
    assert all[..|attempts|] == attempts;
    assert forall i :: 0 <= i < |attempts| ==> all[..i] == attempts[..i];
  }

  lemma StepKeepsNumbers(s: State, t: Timed)
    requires Inv(s) && Enabled(s, t) && WellNumbered(s.attempts)
    ensures WellNumbered(Step(s, t).attempts)
  {
    hide Inv; hide WellNumbered; hide MaxNo; hide RefusesAttempt;
    var u := Step(s, t);
    StepLater(s, t);
    if |u.attempts| == |s.attempts| {
      SameNumbers(s.attempts, u.attempts);
    } else {
      OnlySubmitAppends(s, t);
      AppendNumbered(s.attempts, u.attempts[|s.attempts|]);
      assert u.attempts == s.attempts + [u.attempts[|s.attempts|]];
    }
  }

  lemma OnlySubmitAppends(s: State, t: Timed)
    requires |Step(s, t).attempts| != |s.attempts|
    ensures t.event.Submit?
    ensures Step(s, t).attempts ==
              s.attempts + [Attempt(t.event.id, MaxNo(s.attempts, t.event.id) + 1, t.event.key, Pending, t.at)]
  {
    hide MaxNo; hide RefusesAttempt; hide PreparationDies; hide CheckDies; hide Prepared; hide FindDefense;
  }

  lemma {:induction false} RunKeepsNumbers(s: State, run: seq<Timed>)
    requires Inv(s) && IsRun(s, run) && WellNumbered(s.attempts)
    ensures WellNumbered(After(s, run).attempts)
    decreases |run|
  {
    hide Inv; hide Enabled; hide Step; hide WellNumbered;
    if run != [] {
      StepKeepsInv(s, run[0]);
      StepKeepsNumbers(s, run[0]);
      RunKeepsNumbers(Step(s, run[0]), run[1..]);
    }
  }

  lemma {:induction false} CountIsSize(attempts: seq<Attempt>, d: nat)
    ensures AttemptCount(attempts, d) == |set a | 0 <= a < |attempts| && attempts[a].defense == d|
  {
    if attempts != [] {
      var n := |attempts| - 1;
      CountIsSize(attempts[..n], d);
      assert (set a | 0 <= a < |attempts| && attempts[a].defense == d) ==
             (set a | 0 <= a < n && attempts[..n][a].defense == d) + if attempts[n].defense == d then {n} else {};
    }
  }

  ghost predicate HasAttempt(attempts: seq<Attempt>, d: nat, no: int) {
    exists a :: 0 <= a < |attempts| && attempts[a].defense == d && attempts[a].no == no
  }

  lemma {:induction false} CountGrows(attempts: seq<Attempt>, d: nat, i: nat, j: nat)
    requires i <= j <= |attempts|
    ensures AttemptCount(attempts[..i], d) <= AttemptCount(attempts[..j], d)
    ensures i < j && attempts[i].defense == d ==> AttemptCount(attempts[..i], d) < AttemptCount(attempts[..j], d)
    decreases j - i
  {
    if i < j {
      CountGrows(attempts, d, i, j - 1);
      assert attempts[..j][..j - 1] == attempts[..j - 1];
    }
  }

  lemma {:induction false} FindNumber(attempts: seq<Attempt>, d: nat, n: nat, no: int) returns (a: nat)
    requires WellNumbered(attempts) && n <= |attempts| && 1 <= no <= AttemptCount(attempts[..n], d)
    ensures a < n && attempts[a].defense == d && attempts[a].no == no
  {
    assert attempts[..n][..n - 1] == attempts[..n - 1];
    if no <= AttemptCount(attempts[..n - 1], d) {
      a := FindNumber(attempts, d, n - 1, no);
    } else {
      a := n - 1;
    }
  }

  /** After every run the attempts of a defense are numbered exactly 1 up to their count, in order
      of acceptance. */
  lemma AttemptsOnEveryRun(run: seq<Timed>, d: nat)
    requires IsRun(EMPTY, run)
    ensures var attempts := After(EMPTY, run).attempts;
            (forall no :: HasAttempt(attempts, d, no) <==>
                            1 <= no <= |set a | 0 <= a < |attempts| && attempts[a].defense == d|) &&
            (forall a, b :: 0 <= a < b < |attempts| && attempts[a].defense == d == attempts[b].defense ==>
                              attempts[a].no < attempts[b].no)
  {
    ReachableInv([]);
    RunKeepsNumbers(EMPTY, run);
    hide After; hide IsRun; hide AttemptCount; hide Inv;
    var attempts := After(EMPTY, run).attempts;
    CountIsSize(attempts, d);
    assert attempts[..|attempts|] == attempts;
    forall no ensures HasAttempt(attempts, d, no) <==> 1 <= no <= AttemptCount(attempts, d) {
      if HasAttempt(attempts, d, no) {
        var a :| 0 <= a < |attempts| && attempts[a].defense == d && attempts[a].no == no;
        CountGrows(attempts, d, a, |attempts|);
      }
      if 1 <= no <= AttemptCount(attempts, d) {
        var a := FindNumber(attempts, d, |attempts|, no);
      }
    }
    forall a, b | 0 <= a < b < |attempts| && attempts[a].defense == d == attempts[b].defense
      ensures attempts[a].no < attempts[b].no {
      CountGrows(attempts, d, a, b);
    }
  }
}
