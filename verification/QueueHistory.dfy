/** Properties of whole runs of the defense queue. */
module QueueHistory {
  import opened Common
  import opened DefenseQueue
  import opened QueueInvariant

  // ------------------------------------------------------------------
  // What later states keep
  // ------------------------------------------------------------------

  ghost predicate DefenseKept(d: Defense, e: Defense) {
    e.submission == d.submission && e.key == d.key && d.catalogues <= e.catalogues &&
    (IsTerminal(d) ==> e == d) &&
    (d.started.Some? ==> e.started == d.started && e.deadline == d.deadline && e.limit == d.limit &&
                         e.catalogues == d.catalogues)
  }

  ghost predicate AttemptKept(a: Attempt, b: Attempt) {
    b.defense == a.defense && b.no == a.no && b.key == a.key && b.acceptedAt == a.acceptedAt &&
    (a.outcome != Pending ==> b == a)
  }

  predicate IsFinished(j: Job) {
    j.state == Completed || j.state == Dead || j.state == JobCancelled
  }

  ghost predicate JobKept(j: Job, k: Job) {
    k.kind == j.kind && k.defense == j.defense && k.attempt == j.attempt && k.priority == j.priority &&
    k.createdAt == j.createdAt && k.availableAt == j.availableAt && k.maxRetries == j.maxRetries &&
    j.retries <= k.retries && (IsFinished(j) ==> k == j)
  }

  ghost predicate LeaseKept(l: Lease, m: Lease) {
    m.job == l.job && m.no == l.no && m.token == l.token && (l.released.Some? ==> m == l)
  }

  /** `t` may come after `s`: rows stay, and what is decided stays decided. */
  ghost predicate Later(s: State, t: State) {
    s.now <= t.now &&
    |s.defenses| <= |t.defenses| && |s.jobs| <= |t.jobs| && |s.attempts| <= |t.attempts| && |s.leases| <= |t.leases| &&
    (forall d :: 0 <= d < |s.defenses| ==> DefenseKept(s.defenses[d], t.defenses[d])) &&
    (forall a :: 0 <= a < |s.attempts| ==> AttemptKept(s.attempts[a], t.attempts[a])) &&
    (forall i :: 0 <= i < |s.jobs| ==> JobKept(s.jobs[i], t.jobs[i])) &&
    (forall k :: 0 <= k < |s.leases| ==> LeaseKept(s.leases[k], t.leases[k]))
  }

  lemma LaterTransitive(s: State, t: State, u: State)
    requires Later(s, t) && Later(t, u)
    ensures Later(s, u)
  {
    forall d | 0 <= d < |s.defenses| ensures DefenseKept(s.defenses[d], u.defenses[d]) {
      assert DefenseKept(s.defenses[d], t.defenses[d]) && DefenseKept(t.defenses[d], u.defenses[d]);
    }
    forall a | 0 <= a < |s.attempts| ensures AttemptKept(s.attempts[a], u.attempts[a]) {
      assert AttemptKept(s.attempts[a], t.attempts[a]) && AttemptKept(t.attempts[a], u.attempts[a]);
    }
    forall i | 0 <= i < |s.jobs| ensures JobKept(s.jobs[i], u.jobs[i]) {
      assert JobKept(s.jobs[i], t.jobs[i]) && JobKept(t.jobs[i], u.jobs[i]);
    }
    forall k | 0 <= k < |s.leases| ensures LeaseKept(s.leases[k], u.leases[k]) {
      assert LeaseKept(s.leases[k], t.leases[k]) && LeaseKept(t.leases[k], u.leases[k]);
    }
  }

  /** Facts about single rows that every transaction relies on. */
  lemma RowFacts(s: State)
    requires Inv(s)
    ensures forall d :: 0 <= d < |s.defenses| ==> DefenseOk(s.defenses[d], s.now)
    ensures forall i :: 0 <= i < |s.jobs| ==> JobOk(s, s.jobs[i])
    ensures forall i: nat, d: nat :: IsLivePrepare(s.jobs, i, d) && d < |s.defenses| ==>
                                       s.defenses[d].status == Preparing
    ensures forall i: nat, a: nat :: IsLiveCheck(s.jobs, i, a) && a < |s.attempts| ==> s.attempts[a].outcome == Pending
  {
  }

  lemma LapseLater(s: State)
    requires Inv(s)
    ensures Later(s, LapseLeases(s))
  {
    RowFacts(s);
    hide Inv; hide PreparationDies; hide CheckDies;
  }

  lemma CompleteLater(s: State, id: nat, token: nat, report: Report)
    requires Inv(s)
    ensures Later(s, CompleteJob(s, id, token, report))
  {
    RowFacts(s);
    hide Inv;
    if HoldsLease(s, id, token) {
      var j := s.jobs[id];
      assert JobOk(s, j);
      if j.kind == Prepare {
        assert IsLivePrepare(s.jobs, id, j.defense);
        assert DefenseOk(s.defenses[j.defense], s.now);
      } else {
        assert IsLiveCheck(s.jobs, id, j.attempt.value);
        assert DefenseOk(s.defenses[j.defense], s.now);
      }
    }
  }

  lemma GetLater(s: State, id: nat)
    requires Inv(s)
    ensures Later(s, GetDefense(s, id))
  {
    RowFacts(s);
    hide Inv;
  }

  lemma CreateLater(s: State, allowed: bool, submission: nat, key: nat, settings: JobSettings)
    requires Inv(s)
    ensures Later(s, CreateDefense(s, allowed, submission, key, settings))
  {
    hide Inv;
    var same := FindDefense(s.defenses, (d: Defense) => SameStart(d, submission, key), 0);
    var open := FindDefense(s.defenses, (d: Defense) => d.submission == submission && IsOpen(d), 0);
    hide FindDefense;
    if same.Some? {
      GetLater(s, same.value);
    } else if open.Some? {
      GetLater(s, open.value);
    }
  }

  lemma ConfigureLater(s: State, allowed: bool, id: nat, wheel: Option<nat>, mutations: nat, seconds: int,
                       settings: JobSettings)
    requires Inv(s)
    ensures Later(s, ConfigureDefense(s, allowed, id, wheel, seconds, settings))
    ensures Later(s, ConfigureHideSeek(s, allowed, id, mutations, seconds, settings))
  {
    RowFacts(s);
    hide Inv;
    if id < |s.defenses| {
      assert DefenseOk(s.defenses[id], s.now);
    }
  }

  lemma CancelLater(s: State, allowed: bool, id: nat)
    requires Inv(s)
    ensures Later(s, CancelDefense(s, allowed, id))
  {
    hide Inv;
  }

  lemma SubmitLater(s: State, allowed: bool, id: nat, key: nat, settings: JobSettings)
    requires Inv(s)
    ensures Later(s, SubmitAttempt(s, allowed, id, key, settings))
  {
    hide Inv; hide MaxNo; hide RefusesAttempt;
  }

  lemma UserLater(s: State, e: Event)
    requires Inv(s) && !e.Acquire? && !e.Complete?
    ensures Later(s, Apply(s, e))
  {
    match e
    case Create(allowed, submission, key, job) => CreateLater(s, allowed, submission, key, job);
    case Get(id) => GetLater(s, id);
    case Configure(allowed, id, wheel, seconds, job) => ConfigureLater(s, allowed, id, wheel, 0, seconds, job);
    case ConfigureHide(allowed, id, mutations, seconds, job) =>
      ConfigureLater(s, allowed, id, None, mutations, seconds, job);
    case Cancel(allowed, id) => CancelLater(s, allowed, id);
    case Submit(allowed, id, key, job) => SubmitLater(s, allowed, id, key, job);
    case Heartbeat(id, token) =>
      hide Inv;
  }

  lemma StepLater(s: State, t: Timed)
    requires Inv(s) && Enabled(s, t)
    ensures Later(s, Step(s, t))
  {
    hide Inv; hide Later;
    var u := s.(now := t.at);
    ClockKeepsInv(s, t.at);
    ClockLater(s, t.at);
    match t.event {
      case Acquire(pick, token) =>
        LapseLater(u);
        RowsQueued(u, pick, token);
        LaterTransitive(u, LapseLeases(u), AcquireLease(u, pick, token));
      case Complete(id, token, report) =>
        CompleteLater(u, id, token, report);
      case _ =>
        UserLater(u, t.event);
    }
    LaterTransitive(s, u, Step(s, t));
  }

  lemma ClockLater(s: State, at: int)
    requires s.now <= at
    ensures Later(s, s.(now := at))
  {
  }

  lemma RowsQueued(u: State, pick: Option<nat>, token: nat)
    requires Inv(u) && IsPick(LapseLeases(u).jobs, u.now, pick)
    ensures Later(LapseLeases(u), AcquireLease(u, pick, token))
  {
    hide Inv; hide PreparationDies; hide CheckDies; hide LeaseCount;
  }

  lemma {:induction false} RunLater(s: State, run: seq<Timed>)
    requires Inv(s) && IsRun(s, run)
    ensures Later(s, After(s, run)) && Inv(After(s, run))
    decreases |run|
  {
    hide Inv; hide Enabled; hide Step;
    if run == [] {
      LaterReflexive(s);
    } else {
      StepLater(s, run[0]);
      StepKeepsInv(s, run[0]);
      RunLater(Step(s, run[0]), run[1..]);
      hide Later;
      LaterTransitive(s, Step(s, run[0]), After(s, run));
    }
  }

  lemma LaterReflexive(s: State)
    ensures Later(s, s)
  {
  }

  // ------------------------------------------------------------------
  // Coupling
  // ------------------------------------------------------------------

  ghost function LivePrepares(s: State, d: nat): set<nat> {
    set i | 0 <= i < |s.jobs| && IsLivePrepare(s.jobs, i, d)
  }

  ghost function LiveChecks(s: State, a: nat): set<nat> {
    set i | 0 <= i < |s.jobs| && IsLiveCheck(s.jobs, i, a)
  }

  lemma SingletonOrEmpty(live: set<nat>, wanted: bool)
    requires forall i, k :: i in live && k in live ==> i == k
    requires wanted <==> exists i :: i in live
    ensures |live| == if wanted then 1 else 0
  {
    if wanted {
      var i :| i in live;
      assert live == {i};
    } else {
      assert live == {};
    }
  }

  /** In every reachable state a defense is preparing iff it has exactly one live
      prepare job (and otherwise has none), an attempt is pending iff it has exactly
      one live check job (and otherwise has none), and two open defenses never share
      a submission version. */
  lemma CouplingOnEveryRun(run: seq<Timed>)
    requires IsRun(EMPTY, run)
    ensures var s := After(EMPTY, run);
            (forall d :: 0 <= d < |s.defenses| ==>
                           |LivePrepares(s, d)| == if s.defenses[d].status == Preparing then 1 else 0) &&
            (forall a :: 0 <= a < |s.attempts| ==>
                           |LiveChecks(s, a)| == if s.attempts[a].outcome == Pending then 1 else 0) &&
            OneOpen(s.defenses) && OnePending(s.attempts)
  {
    ReachableInv(run);
    var s := After(EMPTY, run);
    hide LeasesOk; hide After;
    forall d | 0 <= d < |s.defenses|
      ensures |LivePrepares(s, d)| == if s.defenses[d].status == Preparing then 1 else 0 {
      if s.defenses[d].status == Preparing {
        var i: nat :| IsLivePrepare(s.jobs, i, d);
        assert i in LivePrepares(s, d);
      }
      SingletonOrEmpty(LivePrepares(s, d), s.defenses[d].status == Preparing);
    }
    forall a | 0 <= a < |s.attempts| ensures |LiveChecks(s, a)| == if s.attempts[a].outcome == Pending then 1 else 0 {
      if s.attempts[a].outcome == Pending {
        var i: nat :| IsLiveCheck(s.jobs, i, a);
        assert i in LiveChecks(s, a);
      }
      SingletonOrEmpty(LiveChecks(s, a), s.attempts[a].outcome == Pending);
    }
  }

  // ------------------------------------------------------------------
  // Lifecycle
  // ------------------------------------------------------------------

  /** Over every run and every continuation of it: terminal defenses never change, a defense
      that was active stays active or becomes terminal and so is active only once, the start,
      deadline and limit of a defense are set at most once, with a deadline of start plus a limit
      of 60 to 1800 seconds, the catalogue is inserted at most once, and a passed defense has a
      passed attempt accepted between start and deadline. */
  lemma LifecycleOnEveryRun(run: seq<Timed>, more: seq<Timed>, d: nat)
    requires IsRun(EMPTY, run) && IsRun(After(EMPTY, run), more) && d < |After(EMPTY, run).defenses|
    ensures var s, t := After(EMPTY, run), After(After(EMPTY, run), more);
            d < |t.defenses| && DefenseKept(s.defenses[d], t.defenses[d]) && t.defenses[d].catalogues <= 1 &&
            (t.defenses[d].status == Active ==> t.defenses[d].started.Some?) &&
            (s.defenses[d].started.Some? ==> t.defenses[d].status == Active || IsTerminal(t.defenses[d])) &&
            (t.defenses[d].started.Some? ==>
              60 <= t.defenses[d].limit <= 1800 &&
              t.defenses[d].deadline == Some(t.defenses[d].started.value + t.defenses[d].limit * SECOND)) &&
            (t.defenses[d].status == Passed ==>
              exists a :: 0 <= a < |t.attempts| && t.attempts[a].defense == d &&
                          t.attempts[a].outcome == AttemptPassed &&
                t.defenses[d].started.Some? && t.defenses[d].deadline.Some? &&
                t.defenses[d].started.value <= t.attempts[a].acceptedAt < t.defenses[d].deadline.value)
  {
    hide LeasesOk; hide PrepareCoupled; hide CheckCoupled; hide After; hide IsRun;
    ReachableInv(run);
    RunLater(After(EMPTY, run), more);
    var t := After(After(EMPTY, run), more);
    assert DefenseOk(t.defenses[d], t.now);
    if t.defenses[d].status == Passed {
      var a :| 0 <= a < |t.attempts| && t.attempts[a].defense == d && t.attempts[a].outcome == AttemptPassed;
      assert Accepted(t, t.attempts[a]);
    }
  }

  // ------------------------------------------------------------------
  // Leases
  // ------------------------------------------------------------------

  lemma {:induction false} RowsBelow(leases: seq<Lease>, job: nat, k: nat, m: nat)
    requires k <= m <= |leases|
    ensures LeaseCount(leases[..k], job) <= LeaseCount(leases[..m], job)
    ensures k < m && leases[k].job == job ==> LeaseCount(leases[..k], job) < LeaseCount(leases[..m], job)
    decreases m - k
  {
    if k < m {
      assert leases[..k + 1][..k] == leases[..k];
      RowsBelow(leases, job, k + 1, m);
    }
  }

  lemma {:induction false} RowNumbered(leases: seq<Lease>, job: nat, n: nat, m: nat) returns (k: nat)
    requires m <= |leases| && 1 <= n <= LeaseCount(leases[..m], job)
    ensures k < m && leases[k].job == job && LeaseCount(leases[..k], job) + 1 == n
    decreases m
  {
    assert m > 0;
    assert leases[..m][..m - 1] == leases[..m - 1];
    if n <= LeaseCount(leases[..m - 1], job) {
      k := RowNumbered(leases, job, n, m - 1);
    } else {
      k := m - 1;
    }
  }

  ghost predicate HasNumber(leases: seq<Lease>, i: nat, no: int) {
    exists k :: 0 <= k < |leases| && leases[k].job == i && leases[k].no == no
  }

  /** In every reachable state, a job's leases are numbered 1 to n in order without gaps,
      at most one of them is unreleased, and n never exceeds the job's retries plus one;
      a dead job has used them all. */
  lemma LeasesOnEveryRun(run: seq<Timed>, i: nat)
    requires IsRun(EMPTY, run) && i < |After(EMPTY, run).jobs|
    ensures var s := After(EMPTY, run); var n := LeaseCount(s.leases, i);
            n <= s.jobs[i].maxRetries + 1 && (s.jobs[i].state == Dead ==> n == s.jobs[i].maxRetries + 1) &&
            (forall m :: 1 <= m <= n ==> HasNumber(s.leases, i, m)) &&
            (forall k, m :: 0 <= k < m < |s.leases| && s.leases[k].job == i == s.leases[m].job ==>
                              s.leases[k].no < s.leases[m].no <= n) &&
            (forall k, m :: 0 <= k < m < |s.leases| && s.leases[k].job == i == s.leases[m].job ==>
              s.leases[k].released.Some? || s.leases[m].released.Some?)
  {
    ReachableInv(run);
    var s := After(EMPTY, run);
    hide After; hide IsRun; hide PrepareCoupled; hide CheckCoupled; hide LeaseCount;
    assert JobOk(s, s.jobs[i]);
    assert s.leases[..|s.leases|] == s.leases;
    LeaseCounts(s, i);
    forall m | 1 <= m <= LeaseCount(s.leases, i) ensures HasNumber(s.leases, i, m) {
      var k := RowNumbered(s.leases, i, m, |s.leases|);
      assert LeaseOk(s, k);
    }
    forall k, m | 0 <= k < m < |s.leases| && s.leases[k].job == i == s.leases[m].job
      ensures s.leases[k].no < s.leases[m].no <= LeaseCount(s.leases, i) &&
              (s.leases[k].released.Some? || s.leases[m].released.Some?) {
      assert LeaseOk(s, k) && LeaseOk(s, m);
      RowsBelow(s.leases, i, k, m);
      RowsBelow(s.leases, i, m, |s.leases|);
    }
  }

  /** A token is live only through the last, unreleased lease that issued it. */
  lemma HolderRow(s: State, id: nat, token: nat) returns (k: nat)
    requires Inv(s) && HoldsLease(s, id, token)
    ensures IsHolder(s, k, id, token) && s.leases[k].released.None?
  {
    hide PrepareCoupled; hide CheckCoupled; hide LeaseCount;
    assert JobOk(s, s.jobs[id]);
    k :| IsHolder(s, k, id, token);
    assert LeaseOk(s, k);
  }

  lemma ReleasedIsNotHeld(t: State, k: nat, id: nat)
    requires Inv(t) && k < |t.leases| && t.leases[k].released.Some?
    ensures !HoldsLease(t, id, t.leases[k].token)
  {
    hide JobsOk; hide PrepareCoupled; hide CheckCoupled; hide LeaseCount; hide HoldsLease;
    if HoldsLease(t, id, t.leases[k].token) {
      var m := HolderRow(t, id, t.leases[k].token);
    }
  }

  /** Once a lease is released by expiry, cancellation or completion, its token has no
      effect in any later state: no heartbeat and no completion under it changes anything. */
  lemma ReleasedTokenIsDead(run: seq<Timed>, more: seq<Timed>, k: nat, id: nat, report: Report)
    requires IsRun(EMPTY, run) && IsRun(After(EMPTY, run), more)
    requires k < |After(EMPTY, run).leases| && After(EMPTY, run).leases[k].released.Some?
    ensures var s, t := After(EMPTY, run), After(After(EMPTY, run), more);
            var token := s.leases[k].token;
            RenewLease(t, id, token) == t && CompleteJob(t, id, token, report) == t
  {
    hide After; hide IsRun; hide JobsOk; hide PrepareCoupled; hide CheckCoupled; hide LeaseCount; hide HoldsLease;
    var s := After(EMPTY, run);
    ReachableInv(run);
    RunLater(s, more);
    var t := After(s, more);
    assert LeaseKept(s.leases[k], t.leases[k]);
    ReleasedIsNotHeld(t, k, id);
  }

  /** A completion takes effect at most once per job. After one that did, the job's token
      is recognised forever, and no token makes any heartbeat or completion of that job
      change anything again. */
  lemma CompletionIsOnce(run: seq<Timed>, at: int, id: nat, token: nat, report: Report, more: seq<Timed>, token': nat,
                         report': Report)
    requires IsRun(EMPTY, run) && After(EMPTY, run).now <= at
    requires var s := After(EMPTY, run).(now := at); HoldsLease(s, id, token) && CompleteJob(s, id, token, report) != s
    requires IsRun(CompleteJob(After(EMPTY, run).(now := at), id, token, report), more)
    ensures var t := After(CompleteJob(After(EMPTY, run).(now := at), id, token, report), more);
            id < |t.jobs| && t.jobs[id].state == Completed && t.jobs[id].token == Some(token) &&
            RenewLease(t, id, token') == t && CompleteJob(t, id, token', report') == t
  {
    hide After; hide IsRun; hide Inv;
    ReachableInv(run);
    ClockKeepsInv(After(EMPTY, run), at);
    var s := After(EMPTY, run).(now := at);
    CompleteKeepsInv(s, id, token, report);
    var u := CompleteJob(s, id, token, report);
    assert u.jobs[id].state == Completed && u.jobs[id].token == Some(token);
    RunLater(u, more);
    assert JobKept(u.jobs[id], After(u, more).jobs[id]);
  }
}
