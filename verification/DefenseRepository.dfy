/** The repository as it runs: each method is one transaction that executes its statements in
    order, row by row. A transaction that aborts leaves the tables as they were. */
module DefenseRepository {
  import opened Common
  import opened DefenseQueue
  import opened QueueInvariant

  // ------------------------------------------------------------------
  // Statements
  // ------------------------------------------------------------------

  /** `update ... set ... where ...`: row by row, and how many rows it affected. */
  method Update<T>(rows: seq<T>, where: (nat, T) -> bool, change: T -> T) returns (r: seq<T>, affected: nat)
    ensures |r| == |rows|
    ensures forall i :: 0 <= i < |rows| ==> r[i] == if where(i, rows[i]) then change(rows[i]) else rows[i]
    ensures affected == 0 <==> forall i :: 0 <= i < |rows| ==> !where(i, rows[i])
  {
    r, affected := [], 0;
    var n := 0;
    while n < |rows|
      invariant 0 <= n <= |rows| && |r| == n
      invariant forall i :: 0 <= i < n ==> r[i] == if where(i, rows[i]) then change(rows[i]) else rows[i]
      invariant affected == 0 <==> forall i :: 0 <= i < n ==> !where(i, rows[i])
    {
      if where(n, rows[n]) {
        r, affected := r + [change(rows[n])], affected + 1;
      } else {
        r := r + [rows[n]];
      }
      n := n + 1;
    }
  }

  /** `select id from defenses where ...`. */
  method SelectDefense(defenses: seq<Defense>, where: Defense -> bool) returns (r: Option<nat>)
    ensures r == FindDefense(defenses, where, 0)
  {
    var n := 0;
    while n < |defenses|
      invariant 0 <= n <= |defenses| && FindDefense(defenses, where, 0) == FindDefense(defenses, where, n)
    {
      if where(defenses[n]) {
        return Some(n);
      }
      n := n + 1;
    }
    return None;
  }

  /** The key is taken, or the unique index on pending attempts would refuse the insert. */
  method SelectConflict(attempts: seq<Attempt>, id: nat, key: nat) returns (found: bool)
    ensures found <==> RefusesAttempt(attempts, id, key)
  {
    var n := 0;
    while n < |attempts|
      invariant 0 <= n <= |attempts|
      invariant forall a :: 0 <= a < n ==>
                              !(attempts[a].defense == id && (attempts[a].key == key || attempts[a].outcome == Pending))
    {
      if attempts[n].defense == id && (attempts[n].key == key || attempts[n].outcome == Pending) {
        return true;
      }
      n := n + 1;
    }
    return false;
  }

  /** `select coalesce(max(attempt_no), 0) ...`. */
  method SelectMaxNo(attempts: seq<Attempt>, id: nat) returns (max: nat)
    ensures max == MaxNo(attempts, id)
  {
    max := 0;
    var n := 0;
    while n < |attempts|
      invariant 0 <= n <= |attempts| && max == MaxNo(attempts[..n], id)
    {
      assert attempts[..n + 1][..n] == attempts[..n];
      if attempts[n].defense == id && attempts[n].no > max {
        max := attempts[n].no;
      }
      n := n + 1;
    }
    assert attempts[..n] == attempts;
  }

  /** `select count(*) from job_leases where job_id = ...`. */
  method SelectLeaseCount(leases: seq<Lease>, job: nat) returns (count: nat)
    ensures count == LeaseCount(leases, job)
  {
    count := 0;
    var n := 0;
    while n < |leases|
      invariant 0 <= n <= |leases| && count == LeaseCount(leases[..n], job)
    {
      assert leases[..n + 1][..n] == leases[..n];
      if leases[n].job == job {
        count := count + 1;
      }
      n := n + 1;
    }
    assert leases[..n] == leases;
  }

  /** `update job_leases set released_at ... where job_id in ... and released_at is null`. */
  method Release(leases: seq<Lease>, jobs: set<nat>, reason: ReleaseReason) returns (r: seq<Lease>)
    ensures r == ReleaseIf(leases, jobs, reason)
  {
    var affected;
    r, affected := Update(leases, (i: nat, l: Lease) => l.job in jobs && l.released.None?,
                          (l: Lease) => l.(released := Some(reason)));
    assert r == ReleaseIf(leases, jobs, reason);
  }

  method CancelJobRows(jobs: seq<Job>, id: nat) returns (r: seq<Job>)
    ensures r == CancelJobs(jobs, id)
  {
    var affected;
    r, affected := Update(jobs, (i: nat, j: Job) => j.defense == id && (j.state == Queued || IsHeld(j)),
                          (j: Job) => j.(state := JobCancelled, token := None, expires := None));
    assert r == CancelJobs(jobs, id);
  }

  method FailPendingRows(attempts: seq<Attempt>, id: nat) returns (r: seq<Attempt>)
    ensures r == FailPending(attempts, id)
  {
    var affected;
    r, affected := Update(attempts, (i: nat, a: Attempt) => a.defense == id && a.outcome == Pending,
                          (a: Attempt) => a.(outcome := AttemptError));
    assert r == FailPending(attempts, id);
  }

  lemma PickIsRow(jobs: seq<Job>, now: int, pick: Option<nat>)
    requires IsPick(jobs, now, pick) && pick.Some?
    ensures pick.value < |jobs|
  {
  }

  /** Cancelling jobs does not change whose jobs they are. */
  lemma SameOwners(jobs: seq<Job>, id: nat)
    ensures JobsOf(CancelJobs(jobs, id), id) == JobsOf(jobs, id)
  {
  }

  /** A held job runs and is then completed. */
  method CompleteRow(jobs: seq<Job>, id: nat) returns (r: seq<Job>)
    requires id < |jobs| && IsHeld(jobs[id])
    ensures r == jobs[id := jobs[id].(state := Completed)]
  {
    var affected;
    r, affected := Update(jobs, (i: nat, j: Job) => i == id && j.state == Leased, (j: Job) => j.(state := Running));
    assert r[id].state == Running;
    r, affected := Update(r, (i: nat, j: Job) => i == id, (j: Job) => j.(state := Completed));
    assert r == jobs[id := jobs[id].(state := Completed)];
  }

  // ------------------------------------------------------------------
  // Expired leases, handled one at a time
  // ------------------------------------------------------------------

  /** The lapsed jobs among the first `n`, in table order. */
  function LapsedIds(jobs: seq<Job>, now: int, n: nat): (ids: seq<nat>)
    requires n <= |jobs|
    ensures forall i :: i in ids <==> 0 <= i < n && HasLapsed(jobs[i], now)
  {
    if n == 0 then []
    else if HasLapsed(jobs[n - 1], now) then LapsedIds(jobs, now, n - 1) + [n - 1]
    else LapsedIds(jobs, now, n - 1)
  }

  ghost function Ids(items: seq<nat>): set<nat> {
    set i | i in items
  }

  ghost predicate KilledPreparation(jobs: seq<Job>, now: int, items: seq<nat>, d: nat) {
    exists i :: i in items && i < |jobs| && Dies(jobs[i], now) && jobs[i].kind == Prepare && jobs[i].defense == d
  }

  ghost predicate KilledCheck(jobs: seq<Job>, now: int, items: seq<nat>, a: nat) {
    exists i :: i in items && i < |jobs| && Dies(jobs[i], now) && jobs[i].attempt == Some(a)
  }

  ghost predicate DefensesFailed(jobs: seq<Job>, now: int, items: seq<nat>, before: seq<Defense>, after: seq<Defense>) {
    |after| == |before| &&
    forall d :: 0 <= d < |before| ==>
      after[d] == if KilledPreparation(jobs, now, items, d) && before[d].status == Preparing
                  then before[d].(status := Errored) else before[d]
  }

  ghost predicate AttemptsFailed(jobs: seq<Job>, now: int, items: seq<nat>, before: seq<Attempt>, after: seq<Attempt>) {
    |after| == |before| &&
    forall a :: 0 <= a < |before| ==>
      after[a] == if KilledCheck(jobs, now, items, a) && before[a].outcome == Pending
                  then before[a].(outcome := AttemptError) else before[a]
  }

  lemma ReleaseOneMore(leases: seq<Lease>, items: seq<nat>, i: nat)
    ensures ReleaseIf(ReleaseIf(leases, Ids(items), ByExpiry), {i}, ByExpiry) ==
              ReleaseIf(leases, Ids(items + [i]), ByExpiry)
  {
    assert Ids(items + [i]) == Ids(items) + {i};
  }

  lemma KilledOneMore(jobs: seq<Job>, now: int, items: seq<nat>, i: nat)
    requires i < |jobs|
    ensures forall d: nat :: KilledPreparation(jobs, now, items + [i], d) <==>
              KilledPreparation(jobs, now, items, d) ||
              (Dies(jobs[i], now) && jobs[i].kind == Prepare && jobs[i].defense == d)
    ensures forall a: nat :: KilledCheck(jobs, now, items + [i], a) <==>
              KilledCheck(jobs, now, items, a) || (Dies(jobs[i], now) && jobs[i].attempt == Some(a))
  {
    forall d: nat
      ensures KilledPreparation(jobs, now, items + [i], d) <==>
              KilledPreparation(jobs, now, items, d) ||
              (Dies(jobs[i], now) && jobs[i].kind == Prepare && jobs[i].defense == d) {
      assert i in items + [i];
      assert forall k :: k in items ==> k in items + [i];
    }
    forall a: nat
      ensures KilledCheck(jobs, now, items + [i], a) <==>
              KilledCheck(jobs, now, items, a) || (Dies(jobs[i], now) && jobs[i].attempt == Some(a)) {
      assert i in items + [i];
      assert forall k :: k in items ==> k in items + [i];
    }
  }

  /** Handling every lapsed job one by one is the whole expiry. */
  lemma AllHandled(s: State, items: seq<nat>, defenses: seq<Defense>, attempts: seq<Attempt>)
    requires items == LapsedIds(s.jobs, s.now, |s.jobs|)
    requires DefensesFailed(s.jobs, s.now, items, s.defenses, defenses)
    requires AttemptsFailed(s.jobs, s.now, items, s.attempts, attempts)
    ensures Ids(items) == LapsedJobs(s.jobs, s.now)
    ensures defenses == LapseDefenses(s.defenses, s.jobs, s.now) && attempts == LapseAttempts(s.attempts, s.jobs, s.now)
  {
    hide LapsedIds;
    forall d: nat ensures KilledPreparation(s.jobs, s.now, items, d) <==> PreparationDies(s.jobs, s.now, d) {
      if PreparationDies(s.jobs, s.now, d) {
        var i :| 0 <= i < |s.jobs| && Dies(s.jobs[i], s.now) && s.jobs[i].kind == Prepare && s.jobs[i].defense == d;
        assert i in items;
      }
    }
    forall a: nat ensures KilledCheck(s.jobs, s.now, items, a) <==> CheckDies(s.jobs, s.now, a) {
      if CheckDies(s.jobs, s.now, a) {
        var i :| 0 <= i < |s.jobs| && Dies(s.jobs[i], s.now) && s.jobs[i].attempt == Some(a);
        assert i in items;
      }
    }
  }

  class Repository {
    var now: int
    var defenses: seq<Defense>
    var jobs: seq<Job>
    var attempts: seq<Attempt>
    var leases: seq<Lease>

    ghost function Model(): State
      reads this
    {
      State(now, defenses, jobs, attempts, leases)
    }

    constructor ()
      ensures Model() == EMPTY && Inv(Model())
    {
      now, defenses, jobs, attempts, leases := 0, [], [], [], [];
    }

    /** Time passes between transactions. */
    method Tick(at: int)
      requires now <= at
      modifies this
      ensures Model() == old(Model()).(now := at)
      ensures old(Inv(Model())) ==> Inv(Model())
    {
      ghost var before := Model();
      now := at;
      if Inv(before) {
        ClockKeepsInv(before, at);
      }
    }

    method ReadDefense(id: nat)
      modifies this
      ensures Model() == GetDefense(old(Model()), id)
      ensures old(Inv(Model())) ==> Inv(Model())
    {
      ghost var before := Model();
      if Inv(before) {
        GetKeepsInv(before, id);
      }
      hide Inv;
      var clock := now;
      var rows, affected := Update(defenses,
                                   (i: nat, d: Defense) => i == id && d.status == Active && d.deadline.Some? &&
                                   d.deadline.value <= clock,
                                   (d: Defense) => d.(status := Expired));
      defenses := rows;
      assert defenses == GetDefense(before, id).defenses;
    }

    method StartDefense(allowed: bool, submission: nat, key: nat, settings: JobSettings)
      modifies this
      ensures Model() == CreateDefense(old(Model()), allowed, submission, key, settings)
      ensures old(Inv(Model())) ==> Inv(Model())
    {
      ghost var before := Model();
      if Inv(before) {
        CreateKeepsInv(before, allowed, submission, key, settings);
      }
      hide Inv; hide FindDefense;
      if !allowed {
        return;
      }
      var existing := SelectDefense(defenses, (d: Defense) => SameStart(d, submission, key));
      if existing.Some? {
        ReadDefense(existing.value);
        return;
      }
      existing := SelectDefense(defenses, (d: Defense) => d.submission == submission && IsOpen(d));
      if existing.Some? {
        ReadDefense(existing.value);
        return;
      }
      var id := |defenses|;
      var inserted := defenses + [Defense(submission, key, Ready, Restore, 60, None, None, None, 0)];
      var rows, affected := Update(inserted, (i: nat, d: Defense) => i == id, (d: Defense) => d.(status := Preparing));
      assert rows == defenses + [NewDefense(submission, key)];
      defenses := rows;
      jobs := jobs + [NewJob(Prepare, id, None, settings, now)];
      ReadDefense(id);
    }

    method ConfigureRestore(allowed: bool, id: nat, wheel: Option<nat>, seconds: int, settings: JobSettings)
      modifies this
      ensures Model() == ConfigureDefense(old(Model()), allowed, id, wheel, seconds, settings)
      ensures old(Inv(Model())) ==> Inv(Model())
    {
      ghost var before := Model();
      if Inv(before) {
        ConfigureKeepsInv(before, allowed, id, wheel, seconds, settings);
      }
      hide Inv;
      if seconds < 60 || seconds > 1800 {
        return;
      }
      if id >= |defenses| || defenses[id].status != Ready || !allowed {
        return;
      }
      if wheel.None? {
        return;
      }
      var rows, affected := Update(defenses, (i: nat, d: Defense) => i == id && d.status == Ready,
        (d: Defense) => d.(mode := Restore, selected := wheel, limit := seconds, status := Preparing));
      defenses := rows;
      jobs := jobs + [NewJob(Prepare, id, None, settings, now)];
      assert Model() == ConfigureDefense(before, allowed, id, wheel, seconds, settings);
    }

    method ConfigureHiding(allowed: bool, id: nat, mutations: nat, seconds: int, settings: JobSettings)
      modifies this
      ensures Model() == ConfigureHideSeek(old(Model()), allowed, id, mutations, seconds, settings)
      ensures old(Inv(Model())) ==> Inv(Model())
    {
      ghost var before := Model();
      if Inv(before) {
        ConfigureHideKeepsInv(before, allowed, id, mutations, seconds, settings);
      }
      hide Inv;
      if seconds < 60 || seconds > 1800 || mutations < 1 || mutations > 5 {
        return;
      }
      if id >= |defenses| || defenses[id].status != Ready || !allowed {
        return;
      }
      var rows, affected := Update(defenses, (i: nat, d: Defense) => i == id,
        (d: Defense) => d.(mode := HideSeek, selected := None, limit := seconds, status := Preparing));
      defenses := rows;
      jobs := jobs + [NewJob(Prepare, id, None, settings, now)];
      assert Model() == ConfigureHideSeek(before, allowed, id, mutations, seconds, settings);
    }

    /** Four statements, the last of which looks up the jobs that the third has just changed. */
    method CancelByUser(allowed: bool, id: nat)
      modifies this
      ensures Model() == CancelDefense(old(Model()), allowed, id)
      ensures old(Inv(Model())) ==> Inv(Model())
    {
      ghost var before := Model();
      if Inv(before) {
        CancelKeepsInv(before, allowed, id);
      }
      hide Inv;
      if id >= |defenses| || !IsOpen(defenses[id]) || !allowed {
        return;
      }
      var newDefenses, affected := Update(defenses, (i: nat, d: Defense) => i == id && IsOpen(d),
                                          (d: Defense) => d.(status := Cancelled));
      assert newDefenses == defenses[id := defenses[id].(status := Cancelled)];
      var newAttempts := FailPendingRows(attempts, id);
      var newJobs := CancelJobRows(jobs, id);
      SameOwners(jobs, id);
      hide CancelJobs; hide FailPending; hide JobsOf; hide ReleaseIf;
      var newLeases := Release(leases, JobsOf(newJobs, id), ByCancel);
      defenses, attempts, jobs, leases := newDefenses, newAttempts, newJobs, newLeases;
    }

    method SubmitAnswer(allowed: bool, id: nat, key: nat, settings: JobSettings)
      modifies this
      ensures Model() == SubmitAttempt(old(Model()), allowed, id, key, settings)
      ensures old(Inv(Model())) ==> Inv(Model())
    {
      ghost var before := Model();
      if Inv(before) {
        SubmitKeepsInv(before, allowed, id, key, settings);
      }
      hide Inv; hide MaxNo; hide RefusesAttempt;
      if id >= |defenses| || !allowed || defenses[id].status != Active || defenses[id].deadline.None? ||
         defenses[id].deadline.value <= now {
        return;
      }
      var conflict := SelectConflict(attempts, id, key);
      if conflict {
        return;
      }
      var max := SelectMaxNo(attempts, id);
      var attempt := |attempts|;
      attempts := attempts + [Attempt(id, max + 1, key, Pending, now)];
      jobs := jobs + [NewJob(Check, id, Some(attempt), settings, now)];
    }

    /** Returns every lapsed lease to the queue, or fails what waited for its job: one statement
        for the jobs, then up to three for each job it returned. */
    method ExpireLeases()
      modifies this
      ensures Model() == LapseLeases(old(Model()))
    {
      ghost var s := Model();
      var clock := now;
      var expired := SelectLapsed();
      var rows, _ := Update(jobs, (i: nat, j: Job) => HasLapsed(j, clock), (j: Job) => Lapsed(j));
      assert rows == LapseJobs(jobs, now);
      jobs := rows;
      var n := 0;
      assert ReleaseIf(leases, Ids([]), ByExpiry) == leases;
      while n < |expired|
        invariant 0 <= n <= |expired| && now == s.now && jobs == LapseJobs(s.jobs, s.now)
        invariant leases == ReleaseIf(s.leases, Ids(expired[..n]), ByExpiry)
        invariant DefensesFailed(s.jobs, s.now, expired[..n], s.defenses, defenses)
        invariant AttemptsFailed(s.jobs, s.now, expired[..n], s.attempts, attempts)
      {
        var item := expired[n];
        assert item in expired;
        assert expired[..n + 1] == expired[..n] + [item];
        HandleExpired(item, expired[..n], s);
        n := n + 1;
      }
      assert expired[..n] == expired;
      AllHandled(s, expired, defenses, attempts);
    }

    method SelectLapsed() returns (ids: seq<nat>)
      ensures ids == LapsedIds(jobs, now, |jobs|)
    {
      ids := [];
      var n := 0;
      while n < |jobs|
        invariant 0 <= n <= |jobs| && ids == LapsedIds(jobs, now, n)
      {
        if HasLapsed(jobs[n], now) {
          ids := ids + [n];
        }
        n := n + 1;
      }
    }

    /** One job that the expiry returned; `handled` are those before it. */
    method HandleExpired(item: nat, ghost handled: seq<nat>, ghost s: State)
      requires item < |s.jobs| && HasLapsed(s.jobs[item], s.now) && now == s.now && jobs == LapseJobs(s.jobs, s.now)
      requires leases == ReleaseIf(s.leases, Ids(handled), ByExpiry)
      requires DefensesFailed(s.jobs, s.now, handled, s.defenses, defenses)
      requires AttemptsFailed(s.jobs, s.now, handled, s.attempts, attempts)
      modifies this`defenses, this`attempts, this`leases
      ensures leases == ReleaseIf(s.leases, Ids(handled + [item]), ByExpiry)
      ensures DefensesFailed(s.jobs, s.now, handled + [item], s.defenses, defenses)
      ensures AttemptsFailed(s.jobs, s.now, handled + [item], s.attempts, attempts)
    {
      hide KilledPreparation; hide KilledCheck;
      ReleaseOneMore(s.leases, handled, item);
      KilledOneMore(s.jobs, s.now, handled, item);
      leases := Release(leases, {item}, ByExpiry);
      var job := jobs[item];
      if job.state == Dead && job.kind == Prepare {
        var rows, _ := Update(defenses, (i: nat, d: Defense) => i == job.defense && d.status == Preparing,
                              (d: Defense) => d.(status := Errored));
        defenses := rows;
      }
      if job.state == Dead && job.attempt.Some? {
        var rows, _ := Update(attempts, (i: nat, a: Attempt) => i == job.attempt.value && a.outcome == Pending,
                              (a: Attempt) => a.(outcome := AttemptError));
        attempts := rows;
      }
    }

    /** `pick` is the row the ordered, locking query returned. */
    method LeaseNext(pick: Option<nat>, token: nat)
      requires IsPick(LapseLeases(Model()).jobs, now, pick)
      requires forall k :: 0 <= k < |leases| ==> leases[k].token != token
      modifies this
      ensures Model() == AcquireLease(old(Model()), pick, token)
      ensures old(Inv(Model())) ==> Inv(Model())
    {
      ghost var before := Model();
      if Inv(before) {
        AcquireKeepsInv(before, pick, token);
      }
      hide Inv; hide LapseLeases; hide Grant;
      ExpireLeases();
      if pick.None? {
        return;
      }
      PickIsRow(LapseLeases(before).jobs, now, pick);
      GrantLease(pick.value, token);
    }

    method GrantLease(i: nat, token: nat)
      requires i < |jobs|
      modifies this`jobs, this`leases
      ensures Model() == Grant(old(Model()), i, token)
    {
      hide LeaseCount;
      var until := now + LEASE_TIME;
      var rows, _ := Update(jobs, (k: nat, j: Job) => k == i,
                            (j: Job) => j.(state := Leased, token := Some(token), expires := Some(until)));
      assert rows == jobs[i := jobs[i].(state := Leased, token := Some(token), expires := Some(until))];
      jobs := rows;
      var count := SelectLeaseCount(leases, i);
      leases := leases + [Lease(i, count + 1, token, None)];
    }

    method Beat(id: nat, token: nat) returns (accepted: bool)
      modifies this
      ensures accepted <==> HoldsLease(old(Model()), id, token)
      ensures Model() == RenewLease(old(Model()), id, token)
      ensures old(Inv(Model())) ==> Inv(Model())
    {
      ghost var before := Model();
      if Inv(before) {
        RenewKeepsInv(before, id, token);
      }
      hide Inv;
      var clock := now;
      var rows, affected := Update(jobs,
                                   (i: nat, j: Job) => i == id && IsHeld(j) && j.token == Some(token) &&
                                   j.expires.Some? && j.expires.value > clock,
                                   (j: Job) => j.(expires := Some(clock + LEASE_TIME)));
      jobs := rows;
      accepted := affected != 0;
      assert jobs == RenewLease(before, id, token).jobs;
    }

    /** The defense row of a prepare report; none when the transaction aborts. */
    method PrepareRows(d: nat, report: Report) returns (rows: Option<seq<Defense>>)
      ensures rows.Some? <==> d < |defenses| && Prepared(defenses[d], report, now).Some?
      ensures rows.Some? ==> rows.value == defenses[d := Prepared(defenses[d], report, now).value]
    {
      if !report.timingsValid || d >= |defenses| {
        return None;
      }
      var clock := now;
      var r: seq<Defense>;
      var affected;
      if defenses[d].mode == HideSeek {
        if report.hideValid && report.outcome != AttemptError {
          r, affected := Update(defenses, (i: nat, v: Defense) => i == d && v.status == Preparing,
                                (v: Defense) => Activated(v, clock));
        } else {
          r, affected := Update(defenses, (i: nat, v: Defense) => i == d && v.status == Preparing,
                                (v: Defense) => v.(status := Ready));
        }
      } else if report.outcome == AttemptError {
        r, affected := Update(defenses, (i: nat, v: Defense) => i == d && v.status == Preparing,
                              (v: Defense) => v.(status := Errored));
      } else if !report.candidatesValid {
        return None;
      } else if defenses[d].selected.None? {
        r, affected := Update(defenses, (i: nat, v: Defense) => i == d,
                              (v: Defense) => v.(catalogues := v.catalogues + 1));
        r, affected := Update(r, (i: nat, v: Defense) => i == d && v.status == Preparing,
                              (v: Defense) => v.(status := Ready));
      } else if !report.masked {
        return None;
      } else {
        r, affected := Update(defenses, (i: nat, v: Defense) => i == d && v.status == Preparing,
                              (v: Defense) => Activated(v, clock));
      }
      assert r == defenses[d := Prepared(defenses[d], report, now).value];
      return Some(r);
    }

    /** The job passes through `running`, which no other transaction ever sees. */
    method ReportCompletion(id: nat, token: nat, report: Report)
      modifies this
      ensures Model() == CompleteJob(old(Model()), id, token, report)
      ensures old(Inv(Model())) ==> Inv(Model())
    {
      ghost var before := Model();
      if Inv(before) {
        CompleteKeepsInv(before, id, token, report);
      }
      hide Inv; hide ReleaseIf; hide Prepared;
      if !(id < |jobs| && jobs[id].token == Some(token)) {
        return;
      }
      var job := jobs[id];
      if job.state == Completed {
        return;
      }
      if !IsHeld(job) || job.expires.None? || job.expires.value <= now {
        return;
      }
      var newDefenses, newAttempts := defenses, attempts;
      if job.kind == Prepare {
        var prepared := PrepareRows(job.defense, report);
        if prepared.None? {
          return;
        }
        newDefenses := prepared.value;
      } else {
        var d := job.defense;
        if job.attempt.None? || !AcceptsCheck(report) || job.attempt.value >= |attempts| || d >= |defenses| {
          return;
        }
        var a := job.attempt.value;
        newAttempts, newDefenses := DecideRows(a, d, report.outcome);
      }
      var newJobs := CompleteRow(jobs, id);
      var newLeases := Release(leases, {id}, ByCompletion);
      defenses, attempts, jobs, leases := newDefenses, newAttempts, newJobs, newLeases;
    }

    /** The outcome of a check, and the end of the defense when it passed. */
    method DecideRows(a: nat, d: nat, outcome: Outcome) returns (newAttempts: seq<Attempt>, newDefenses: seq<Defense>)
      requires a < |attempts| && d < |defenses|
      ensures var decided := Decide(Model(), a, d, outcome);
              newAttempts == decided.attempts && newDefenses == decided.defenses
    {
      newDefenses := defenses;
      var affected;
      newAttempts, affected := Update(attempts, (i: nat, v: Attempt) => i == a && v.outcome == Pending,
                                      (v: Attempt) => v.(outcome := outcome));
      if outcome == AttemptPassed {
        newDefenses, affected := Update(defenses, (i: nat, v: Defense) => i == d && v.status == Active,
                                        (v: Defense) => v.(status := Passed));
      }
      assert newAttempts == Decide(Model(), a, d, outcome).attempts;
      assert newDefenses == Decide(Model(), a, d, outcome).defenses;
    }
  }
}
