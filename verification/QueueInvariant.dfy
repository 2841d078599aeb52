/** What every transaction over the defense and job tables preserves. */
module QueueInvariant {
  import opened Common
  import opened DefenseQueue

  // ------------------------------------------------------------------
  // The invariant
  // ------------------------------------------------------------------

  predicate IsTerminal(d: Defense) {
    d.status == Passed || d.status == Expired || d.status == Cancelled || d.status == Errored
  }

  predicate IsLivePrepare(jobs: seq<Job>, i: nat, d: nat) {
    i < |jobs| && IsLive(jobs[i]) && jobs[i].kind == Prepare && jobs[i].defense == d
  }

  predicate IsLiveCheck(jobs: seq<Job>, i: nat, a: nat) {
    i < |jobs| && IsLive(jobs[i]) && jobs[i].attempt == Some(a)
  }

  ghost predicate JobOk(s: State, j: Job) {
    j.defense < |s.defenses| &&
    (j.kind == Prepare <==> j.attempt.None?) &&
    (j.attempt.Some? ==> j.attempt.value < |s.attempts| && s.attempts[j.attempt.value].defense == j.defense) &&
    (j.state == Queued || j.state == Leased || j.state == Completed || j.state == Dead || j.state == JobCancelled) &&
    (j.token.Some? <==> j.state == Leased || j.state == Completed) &&
    (j.expires.Some? <==> j.token.Some?) &&
    (if j.state == Dead then j.retries == j.maxRetries + 1 else j.retries <= j.maxRetries) &&
    j.availableAt <= j.createdAt <= s.now
  }

  /** A defense is preparing exactly while it has a live prepare job, and then one. */
  ghost predicate PrepareCoupled(jobs: seq<Job>, defenses: seq<Defense>) {
    (forall i: nat, d: nat :: IsLivePrepare(jobs, i, d) && d < |defenses| ==> defenses[d].status == Preparing) &&
    (forall d :: 0 <= d < |defenses| && defenses[d].status == Preparing ==>
                   exists i: nat :: IsLivePrepare(jobs, i, d)) &&
    (forall i: nat, k: nat, d: nat :: IsLivePrepare(jobs, i, d) && IsLivePrepare(jobs, k, d) ==> i == k)
  }

  /** An attempt is pending exactly while it has a live check job, and then one. */
  ghost predicate CheckCoupled(jobs: seq<Job>, attempts: seq<Attempt>) {
    (forall i: nat, a: nat :: IsLiveCheck(jobs, i, a) && a < |attempts| ==> attempts[a].outcome == Pending) &&
    (forall a :: 0 <= a < |attempts| && attempts[a].outcome == Pending ==> exists i: nat :: IsLiveCheck(jobs, i, a)) &&
    (forall i: nat, k: nat, a: nat :: IsLiveCheck(jobs, i, a) && IsLiveCheck(jobs, k, a) ==> i == k)
  }

  ghost predicate Accepted(s: State, a: Attempt) {
    a.defense < |s.defenses| && s.defenses[a.defense].started.Some? && s.defenses[a.defense].deadline.Some? &&
    s.defenses[a.defense].started.value <= a.acceptedAt < s.defenses[a.defense].deadline.value
  }

  ghost predicate DefenseOk(d: Defense, now: int) {
    (d.started.Some? <==> d.deadline.Some?) &&
    (d.started.Some? ==> d.deadline == Some(d.started.value + d.limit * SECOND) && 60 <= d.limit <= 1800 &&
                         d.started.value <= now) &&
    (d.started.Some? ==> d.status == Active || d.status == Passed || d.status == Expired || d.status == Cancelled) &&
    (d.status == Active || d.status == Passed || d.status == Expired ==> d.started.Some?) &&
    d.status != Failed &&
    d.catalogues <= 1 &&
    (d.status == Ready ==> d.catalogues == 1) &&
    (d.status == Preparing && d.mode == Restore && d.selected.None? ==> d.catalogues == 0) &&
    (d.status == Preparing && !(d.mode == Restore && d.selected.None?) ==> d.catalogues == 1 && 60 <= d.limit <= 1800)
  }

  ghost predicate DefensesOk(s: State) {
    forall d :: 0 <= d < |s.defenses| ==> DefenseOk(s.defenses[d], s.now)
  }

  ghost predicate AttemptsOk(s: State) {
    forall a :: 0 <= a < |s.attempts| ==> Accepted(s, s.attempts[a])
  }

  ghost predicate PassesOk(defenses: seq<Defense>, attempts: seq<Attempt>) {
    forall d :: 0 <= d < |defenses| && defenses[d].status == Passed ==> HasPassedAttempt(attempts, d)
  }

  ghost predicate HasPassedAttempt(attempts: seq<Attempt>, d: nat) {
    exists a :: 0 <= a < |attempts| && attempts[a].defense == d && attempts[a].outcome == AttemptPassed
  }

  ghost predicate OneOpen(defenses: seq<Defense>) {
    forall d, e :: 0 <= d < e < |defenses| && IsOpen(defenses[d]) && IsOpen(defenses[e]) ==>
      defenses[d].submission != defenses[e].submission
  }

  ghost predicate OnePending(attempts: seq<Attempt>) {
    forall a, b :: 0 <= a < b < |attempts| && attempts[a].outcome == Pending && attempts[b].outcome == Pending ==>
      attempts[a].defense != attempts[b].defense
  }

  /** How many leases a job has had, from its state and retries. */
  predicate CountOk(j: Job, n: nat) {
    match j.state
    case Queued => n == j.retries
    case Leased => n == j.retries + 1
    case Completed => n == j.retries + 1
    case Dead => n == j.retries
    case _ => n == j.retries || n == j.retries + 1
  }

  /** Row `k` is numbered next after its job's earlier rows, and is unreleased only
      while its job is leased under its token. */
  ghost predicate LeaseOk(s: State, k: nat)
    requires k < |s.leases|
  {
    var l := s.leases[k];
    l.job < |s.jobs| && l.no == LeaseCount(s.leases[..k], l.job) + 1 &&
    (l.released.None? ==> s.jobs[l.job].state == Leased && s.jobs[l.job].token == Some(l.token)) &&
    (l.released.Some? && s.jobs[l.job].token == Some(l.token) ==> s.jobs[l.job].state == Completed)
  }

  ghost predicate IsHolder(s: State, k: nat, i: nat, token: nat) {
    k < |s.leases| && s.leases[k].job == i && s.leases[k].token == token && s.leases[k].no == LeaseCount(s.leases, i)
  }

  ghost predicate LeasesOk(s: State) {
    (forall k :: 0 <= k < |s.leases| ==> LeaseOk(s, k)) &&
    (forall k, m :: 0 <= k < m < |s.leases| ==> s.leases[k].token != s.leases[m].token) &&
    (forall i :: 0 <= i < |s.jobs| ==> CountOk(s.jobs[i], LeaseCount(s.leases, i))) &&
    (forall i :: 0 <= i < |s.jobs| && s.jobs[i].token.Some? ==>
                   exists k: nat :: IsHolder(s, k, i, s.jobs[i].token.value))
  }

  ghost predicate JobsOk(s: State) {
    forall i :: 0 <= i < |s.jobs| ==> JobOk(s, s.jobs[i])
  }

  ghost predicate Inv(s: State) {
    JobsOk(s) && PrepareCoupled(s.jobs, s.defenses) && CheckCoupled(s.jobs, s.attempts) &&
    DefensesOk(s) && AttemptsOk(s) && PassesOk(s.defenses, s.attempts) &&
    OneOpen(s.defenses) && OnePending(s.attempts) && LeasesOk(s)
  }

  // ------------------------------------------------------------------
  // Frames
  // ------------------------------------------------------------------

  /** Lease facts depend only on the leases and the jobs. */
  lemma LeasesFrame(s: State, t: State)
    requires LeasesOk(s) && t.leases == s.leases && t.jobs == s.jobs
    ensures LeasesOk(t)
  {
    forall k | 0 <= k < |t.leases| ensures LeaseOk(t, k) {
      assert LeaseOk(s, k);
    }
    forall i | 0 <= i < |t.jobs| && t.jobs[i].token.Some?
      ensures exists k: nat :: IsHolder(t, k, i, t.jobs[i].token.value) {
      var k: nat :| IsHolder(s, k, i, s.jobs[i].token.value);
      assert IsHolder(t, k, i, t.jobs[i].token.value);
    }
  }

  /** A defense's recorded start and deadline are never lost. */
  ghost predicate KeepsDates(s: seq<Defense>, t: seq<Defense>) {
    |s| <= |t| &&
    forall d :: 0 <= d < |s| && s[d].started.Some? ==> t[d].started == s[d].started && t[d].deadline == s[d].deadline
  }

  lemma AttemptsFrame(s: State, t: State)
    requires AttemptsOk(s) && |t.attempts| == |s.attempts| && KeepsDates(s.defenses, t.defenses)
    requires forall a :: 0 <= a < |s.attempts| ==>
               t.attempts[a].defense == s.attempts[a].defense && t.attempts[a].acceptedAt == s.attempts[a].acceptedAt
    ensures AttemptsOk(t)
  {
    forall a | 0 <= a < |t.attempts| ensures Accepted(t, t.attempts[a]) {
      assert Accepted(s, s.attempts[a]);
    }
  }

  lemma PassesFrame(defenses: seq<Defense>, attempts: seq<Attempt>, defenses': seq<Defense>, attempts': seq<Attempt>)
    requires PassesOk(defenses, attempts) && |attempts| <= |attempts'|
    requires forall d :: 0 <= d < |defenses'| && defenses'[d].status == Passed ==>
                           d < |defenses| && defenses[d].status == Passed
    requires forall a :: 0 <= a < |attempts| && attempts[a].outcome == AttemptPassed ==>
               attempts'[a].outcome == AttemptPassed && attempts'[a].defense == attempts[a].defense
    ensures PassesOk(defenses', attempts')
  {
    forall d | 0 <= d < |defenses'| && defenses'[d].status == Passed ensures HasPassedAttempt(attempts', d) {
      var a :| 0 <= a < |attempts| && attempts[a].defense == d && attempts[a].outcome == AttemptPassed;
      assert attempts'[a].defense == d;
    }
  }

  lemma ClockKeepsInv(s: State, at: int)
    requires Inv(s) && s.now <= at
    ensures Inv(s.(now := at))
  {
    hide LeasesOk; hide AttemptsOk; hide PrepareCoupled; hide CheckCoupled; hide PassesOk; hide OneOpen;
    hide OnePending;
    var t := s.(now := at);
    LeasesFrame(s, t);
    AttemptsFrame(s, t);
  }

  /** Outside the live jobs, preparing defenses follow the defenses' statuses. */
  lemma PrepareFrame(jobs: seq<Job>, defenses: seq<Defense>, defenses': seq<Defense>)
    requires PrepareCoupled(jobs, defenses) && |defenses| == |defenses'|
    requires forall d :: 0 <= d < |defenses| ==> (defenses'[d].status == Preparing <==> defenses[d].status == Preparing)
    ensures PrepareCoupled(jobs, defenses')
  {
    forall d | 0 <= d < |defenses'| && defenses'[d].status == Preparing
      ensures exists i: nat :: IsLivePrepare(jobs, i, d) {
      assert defenses[d].status == Preparing;
    }
  }

  // ------------------------------------------------------------------
  // Inserting a job
  // ------------------------------------------------------------------

  lemma {:induction false} NoLeaseYet(leases: seq<Lease>, job: nat)
    requires forall k :: 0 <= k < |leases| ==> leases[k].job < job
    ensures LeaseCount(leases, job) == 0
  {
    if leases != [] {
      NoLeaseYet(leases[..|leases| - 1], job);
    }
  }

  /** A new queued job has no lease. */
  lemma LeasesAfterInsert(s: State, t: State, j: Job)
    requires LeasesOk(s) && t.leases == s.leases && t.jobs == s.jobs + [j]
    requires j.state == Queued && j.retries == 0 && j.token.None?
    ensures LeasesOk(t)
  {
    forall k | 0 <= k < |t.leases| ensures LeaseOk(t, k) && s.leases[k].job < |s.jobs| {
      assert LeaseOk(s, k);
    }
    NoLeaseYet(s.leases, |s.jobs|);
    forall i | 0 <= i < |t.jobs| && t.jobs[i].token.Some?
      ensures exists k: nat :: IsHolder(t, k, i, t.jobs[i].token.value) {
      var k: nat :| IsHolder(s, k, i, s.jobs[i].token.value);
      assert IsHolder(t, k, i, t.jobs[i].token.value);
    }
  }

  lemma JobsAfterInsert(s: State, t: State, j: Job)
    requires JobsOk(s) && t.jobs == s.jobs + [j] && t.now == s.now && JobOk(t, j)
    requires |s.defenses| <= |t.defenses| && |s.attempts| <= |t.attempts|
    requires forall a :: 0 <= a < |s.attempts| ==> t.attempts[a].defense == s.attempts[a].defense
    ensures JobsOk(t)
  {
    forall i | 0 <= i < |t.jobs| ensures JobOk(t, t.jobs[i]) {
      if i < |s.jobs| {
        assert JobOk(s, s.jobs[i]);
      }
    }
  }

  lemma PrepareAfterInsert(jobs: seq<Job>, defenses: seq<Defense>, j: Job, defenses': seq<Defense>)
    requires PrepareCoupled(jobs, defenses) && IsLive(j) && j.kind == Prepare
    requires |defenses| <= |defenses'| && j.defense < |defenses'| && defenses'[j.defense].status == Preparing
    requires forall i :: 0 <= i < |jobs| ==> jobs[i].defense < |defenses|
    requires j.defense < |defenses| ==> defenses[j.defense].status != Preparing
    requires forall d :: 0 <= d < |defenses'| && d != j.defense ==>
               d < |defenses| && (defenses'[d].status == Preparing <==> defenses[d].status == Preparing)
    ensures PrepareCoupled(jobs + [j], defenses')
  {
    var jobs' := jobs + [j];
    forall i: nat, d: nat
      ensures IsLivePrepare(jobs', i, d) <==> IsLivePrepare(jobs, i, d) || (i == |jobs| && d == j.defense) {
    }
    forall d | 0 <= d < |defenses'| && defenses'[d].status == Preparing
      ensures exists i: nat :: IsLivePrepare(jobs', i, d) {
      if d == j.defense {
        assert IsLivePrepare(jobs', |jobs|, d);
      } else {
        var i: nat :| IsLivePrepare(jobs, i, d);
        assert IsLivePrepare(jobs', i, d);
      }
    }
  }

  /** A prepare job does not touch the checks. */
  lemma CheckAfterPrepareInsert(jobs: seq<Job>, attempts: seq<Attempt>, j: Job)
    requires CheckCoupled(jobs, attempts) && j.attempt.None?
    ensures CheckCoupled(jobs + [j], attempts)
  {
    var jobs' := jobs + [j];
    forall i: nat, a: nat ensures IsLiveCheck(jobs', i, a) <==> IsLiveCheck(jobs, i, a) {
    }
    forall a | 0 <= a < |attempts| && attempts[a].outcome == Pending ensures exists i: nat :: IsLiveCheck(jobs', i, a) {
      var i: nat :| IsLiveCheck(jobs, i, a);
      assert IsLiveCheck(jobs', i, a);
    }
  }

  // ------------------------------------------------------------------
  // Users' transactions
  // ------------------------------------------------------------------

  lemma GetKeepsInv(s: State, id: nat)
    requires Inv(s)
    ensures Inv(GetDefense(s, id))
  {
    hide LeasesOk; hide AttemptsOk; hide PrepareCoupled; hide CheckCoupled; hide PassesOk; hide OnePending;
    var t := GetDefense(s, id);
    if t != s {
      LeasesFrame(s, t);
      AttemptsFrame(s, t);
      PassesFrame(s.defenses, s.attempts, t.defenses, t.attempts);
      PrepareFrame(s.jobs, s.defenses, t.defenses);
    }
  }

  lemma CreateKeepsInv(s: State, allowed: bool, submission: nat, key: nat, settings: JobSettings)
    requires Inv(s)
    ensures Inv(CreateDefense(s, allowed, submission, key, settings))
  {
    var same := FindDefense(s.defenses, (d: Defense) => SameStart(d, submission, key), 0);
    var open := FindDefense(s.defenses, (d: Defense) => d.submission == submission && IsOpen(d), 0);
    var t := CreateDefense(s, allowed, submission, key, settings);
    if !allowed {
    } else if same.Some? {
      GetKeepsInv(s, same.value);
    } else if open.Some? {
      GetKeepsInv(s, open.value);
    } else {
      hide FindDefense;
      DefenseInserted(s, t, submission, key, settings);
    }
  }

  lemma DefenseInserted(s: State, t: State, submission: nat, key: nat, settings: JobSettings)
    requires Inv(s) && forall d :: 0 <= d < |s.defenses| ==>
                                     s.defenses[d].submission != submission || !IsOpen(s.defenses[d])
    requires var j := NewJob(Prepare, |s.defenses|, None, settings, s.now);
             t == s.(defenses := s.defenses + [NewDefense(submission, key)], jobs := s.jobs + [j])
    ensures Inv(t)
  {
    hide LeasesOk; hide AttemptsOk; hide PrepareCoupled; hide CheckCoupled; hide PassesOk; hide OnePending;
    var j := NewJob(Prepare, |s.defenses|, None, settings, s.now);
    LeasesAfterInsert(s, t, j);
    JobsAfterInsert(s, t, j);
    PrepareAfterInsert(s.jobs, s.defenses, j, t.defenses);
    CheckAfterPrepareInsert(s.jobs, s.attempts, j);
    AttemptsFrame(s, t);
    PassesFrame(s.defenses, s.attempts, t.defenses, t.attempts);
  }

  /** Both ways of configuring a ready defense. */
  lemma ReadyConfigured(s: State, t: State, id: nat, d: Defense, settings: JobSettings)
    requires Inv(s) && id < |s.defenses| && s.defenses[id].status == Ready
    requires d.submission == s.defenses[id].submission && d.catalogues == s.defenses[id].catalogues
    requires d.started == s.defenses[id].started && d.deadline == s.defenses[id].deadline
    requires d.status == Preparing && 60 <= d.limit <= 1800 && !(d.mode == Restore && d.selected.None?)
    requires t == s.(defenses := s.defenses[id := d], jobs := s.jobs + [NewJob(Prepare, id, None, settings, s.now)])
    ensures Inv(t)
  {
    hide LeasesOk; hide AttemptsOk; hide PrepareCoupled; hide CheckCoupled; hide PassesOk; hide OnePending;
    var j := NewJob(Prepare, id, None, settings, s.now);
    assert DefenseOk(s.defenses[id], s.now);
    LeasesAfterInsert(s, t, j);
    JobsAfterInsert(s, t, j);
    PrepareAfterInsert(s.jobs, s.defenses, j, t.defenses);
    CheckAfterPrepareInsert(s.jobs, s.attempts, j);
    AttemptsFrame(s, t);
    PassesFrame(s.defenses, s.attempts, t.defenses, t.attempts);
  }

  lemma ConfigureKeepsInv(s: State, allowed: bool, id: nat, wheel: Option<nat>, seconds: int, settings: JobSettings)
    requires Inv(s)
    ensures Inv(ConfigureDefense(s, allowed, id, wheel, seconds, settings))
  {
    hide Inv;
    var t := ConfigureDefense(s, allowed, id, wheel, seconds, settings);
    if t != s {
      ReadyConfigured(s, t, id, t.defenses[id], settings);
    }
  }

  lemma ConfigureHideKeepsInv(s: State, allowed: bool, id: nat, mutations: nat, seconds: int, settings: JobSettings)
    requires Inv(s)
    ensures Inv(ConfigureHideSeek(s, allowed, id, mutations, seconds, settings))
  {
    hide Inv;
    var t := ConfigureHideSeek(s, allowed, id, mutations, seconds, settings);
    if t != s {
      ReadyConfigured(s, t, id, t.defenses[id], settings);
    }
  }

  // ------------------------------------------------------------------
  // Jobs that stop being live together with what waits for them
  // ------------------------------------------------------------------

  ghost predicate SameRows(jobs: seq<Job>, jobs': seq<Job>) {
    |jobs'| == |jobs| &&
    forall i :: 0 <= i < |jobs| ==>
      jobs'[i].kind == jobs[i].kind && jobs'[i].defense == jobs[i].defense && jobs'[i].attempt == jobs[i].attempt &&
      (IsLive(jobs'[i]) ==> IsLive(jobs[i]))
  }

  lemma PrepareRelabel(jobs: seq<Job>, defenses: seq<Defense>, jobs': seq<Job>, defenses': seq<Defense>)
    requires PrepareCoupled(jobs, defenses) && SameRows(jobs, jobs') && |defenses'| == |defenses|
    requires forall d :: 0 <= d < |defenses| && defenses'[d].status == Preparing ==> defenses[d].status == Preparing
    requires forall i: nat, d: nat :: IsLivePrepare(jobs, i, d) && d < |defenses| ==>
               (IsLive(jobs'[i]) <==> defenses'[d].status == Preparing)
    ensures PrepareCoupled(jobs', defenses')
  {
    forall i: nat, d: nat ensures IsLivePrepare(jobs', i, d) ==> IsLivePrepare(jobs, i, d) {
    }
    forall d | 0 <= d < |defenses'| && defenses'[d].status == Preparing
      ensures exists i: nat :: IsLivePrepare(jobs', i, d) {
      var i: nat :| IsLivePrepare(jobs, i, d);
      assert IsLivePrepare(jobs', i, d);
    }
  }

  lemma CheckRelabel(jobs: seq<Job>, attempts: seq<Attempt>, jobs': seq<Job>, attempts': seq<Attempt>)
    requires CheckCoupled(jobs, attempts) && SameRows(jobs, jobs') && |attempts'| == |attempts|
    requires forall a :: 0 <= a < |attempts| && attempts'[a].outcome == Pending ==> attempts[a].outcome == Pending
    requires forall i: nat, a: nat :: IsLiveCheck(jobs, i, a) && a < |attempts| ==>
               (IsLive(jobs'[i]) <==> attempts'[a].outcome == Pending)
    ensures CheckCoupled(jobs', attempts')
  {
    forall i: nat, a: nat ensures IsLiveCheck(jobs', i, a) ==> IsLiveCheck(jobs, i, a) {
    }
    forall a | 0 <= a < |attempts'| && attempts'[a].outcome == Pending
      ensures exists i: nat :: IsLiveCheck(jobs', i, a) {
      var i: nat :| IsLiveCheck(jobs, i, a);
      assert IsLiveCheck(jobs', i, a);
    }
  }

  // ------------------------------------------------------------------
  // The lease table
  // ------------------------------------------------------------------

  lemma {:induction false} SameCount(leases: seq<Lease>, leases': seq<Lease>, job: nat)
    requires |leases| == |leases'| && forall k :: 0 <= k < |leases| ==> leases'[k].job == leases[k].job
    ensures LeaseCount(leases', job) == LeaseCount(leases, job)
  {
    if leases != [] {
      SameCount(leases[..|leases| - 1], leases'[..|leases| - 1], job);
    }
  }

  /** Releasing the leases of `jobs`, none of which stays leased. */
  lemma LeasesAfterRelease(s: State, t: State, jobs: set<nat>, reason: ReleaseReason)
    requires LeasesOk(s) && t.leases == ReleaseIf(s.leases, jobs, reason) && |t.jobs| == |s.jobs|
    requires forall i :: 0 <= i < |s.jobs| && i !in jobs ==>
               t.jobs[i].state == s.jobs[i].state && t.jobs[i].token == s.jobs[i].token &&
               t.jobs[i].retries == s.jobs[i].retries
    requires forall i :: 0 <= i < |s.jobs| && i in jobs ==>
               (t.jobs[i].token.None? || t.jobs[i].token == s.jobs[i].token) && t.jobs[i].state != Leased &&
               (t.jobs[i].token.Some? ==> t.jobs[i].state == Completed)
    requires forall i :: 0 <= i < |s.jobs| && i in jobs ==> CountOk(t.jobs[i], LeaseCount(s.leases, i))
    ensures LeasesOk(t)
  {
    forall k | 0 <= k < |t.leases| ensures LeaseOk(t, k) {
      assert LeaseOk(s, k);
      SameCount(s.leases[..k], t.leases[..k], s.leases[k].job);
    }
    forall i | 0 <= i < |t.jobs| ensures CountOk(t.jobs[i], LeaseCount(t.leases, i)) {
      SameCount(s.leases, t.leases, i);
    }
    forall i | 0 <= i < |t.jobs| && t.jobs[i].token.Some?
      ensures exists k: nat :: IsHolder(t, k, i, t.jobs[i].token.value) {
      var k: nat :| IsHolder(s, k, i, s.jobs[i].token.value);
      SameCount(s.leases, t.leases, i);
      assert IsHolder(t, k, i, t.jobs[i].token.value);
    }
  }

  lemma CountAppend(leases: seq<Lease>, l: Lease, job: nat)
    ensures LeaseCount(leases + [l], job) == LeaseCount(leases, job) + (if l.job == job then 1 else 0)
  {
    assert (leases + [l])[..|leases|] == leases;
  }

  /** A queued job is leased under a new token. */
  lemma LeasesAfterGrant(s: State, i: nat, token: nat)
    requires LeasesOk(s) && i < |s.jobs| && s.jobs[i].state == Queued && s.jobs[i].token.None?
    requires forall k :: 0 <= k < |s.leases| ==> s.leases[k].token != token
    ensures LeasesOk(Grant(s, i, token))
  {
    var t := Grant(s, i, token);
    forall k | 0 <= k < |t.leases| ensures LeaseOk(t, k) {
      GrantedRow(s, i, token, k);
    }
    forall m | 0 <= m < |t.jobs| ensures CountOk(t.jobs[m], LeaseCount(t.leases, m)) {
      CountAppend(s.leases, t.leases[|s.leases|], m);
    }
    forall m | 0 <= m < |t.jobs| && t.jobs[m].token.Some?
      ensures exists k: nat :: IsHolder(t, k, m, t.jobs[m].token.value) {
      GrantedHolder(s, i, token, m);
    }
  }

  lemma GrantedRow(s: State, i: nat, token: nat, k: nat)
    requires LeasesOk(s) && i < |s.jobs| && s.jobs[i].state == Queued && k <= |s.leases|
    requires forall m :: 0 <= m < |s.leases| ==> s.leases[m].token != token
    ensures LeaseOk(Grant(s, i, token), k)
  {
    hide LeaseCount;
    var t := Grant(s, i, token);
    if k < |s.leases| {
      assert LeaseOk(s, k);
      assert t.leases[..k] == s.leases[..k];
    } else {
      assert t.leases[..k] == s.leases;
    }
  }

  lemma GrantedHolder(s: State, i: nat, token: nat, m: nat)
    requires LeasesOk(s) && i < |s.jobs| && m < |s.jobs| && (m == i || s.jobs[m].token.Some?)
    ensures var t := Grant(s, i, token); t.jobs[m].token.Some? &&
                                         exists k: nat :: IsHolder(t, k, m, t.jobs[m].token.value)
  {
    hide LeaseCount;
    var t := Grant(s, i, token);
    CountAppend(s.leases, t.leases[|s.leases|], m);
    if m == i {
      assert IsHolder(t, |s.leases|, m, token);
    } else {
      var k: nat :| IsHolder(s, k, m, s.jobs[m].token.value);
      assert IsHolder(t, k, m, t.jobs[m].token.value);
    }
  }

  // ------------------------------------------------------------------
  // Cancel and Submit
  // ------------------------------------------------------------------

  lemma CancelKeepsInv(s: State, allowed: bool, id: nat)
    requires Inv(s)
    ensures Inv(CancelDefense(s, allowed, id))
  {
    var t := CancelDefense(s, allowed, id);
    if allowed && id < |s.defenses| && IsOpen(s.defenses[id]) {
      CancelKeepsJobs(s, t, id);
      CancelKeepsCoupling(s, t, id);
      hide PrepareCoupled; hide CheckCoupled; hide LeasesOk; hide JobsOk; hide AttemptsOk; hide PassesOk;
      AttemptsFrame(s, t);
      PassesFrame(s.defenses, s.attempts, t.defenses, t.attempts);
    }
  }

  lemma CancelKeepsJobs(s: State, t: State, id: nat)
    requires Inv(s) && id < |s.defenses| && IsOpen(s.defenses[id]) && t == CancelDefense(s, true, id)
    ensures JobsOk(t) && LeasesOk(t)
  {
    hide LeasesOk; hide PrepareCoupled; hide CheckCoupled;
    forall i | 0 <= i < |t.jobs| ensures JobOk(t, t.jobs[i]) {
      assert JobOk(s, s.jobs[i]);
    }
    forall i | 0 <= i < |s.jobs| && i in JobsOf(s.jobs, id) ensures CountOk(t.jobs[i], LeaseCount(s.leases, i)) {
      assert JobOk(s, s.jobs[i]);
      LeaseCounts(s, i);
    }
    LeasesAfterRelease(s, t, JobsOf(s.jobs, id), ByCancel);
  }

  lemma LeaseCounts(s: State, i: nat)
    requires LeasesOk(s) && i < |s.jobs|
    ensures CountOk(s.jobs[i], LeaseCount(s.leases, i))
  {
  }

  lemma CancelKeepsCoupling(s: State, t: State, id: nat)
    requires Inv(s) && id < |s.defenses| && IsOpen(s.defenses[id]) && t == CancelDefense(s, true, id)
    ensures PrepareCoupled(t.jobs, t.defenses) && CheckCoupled(t.jobs, t.attempts)
  {
    hide LeasesOk;
    forall i | 0 <= i < |s.jobs| ensures JobOk(s, s.jobs[i]) {
    }
    hide JobsOk;
    PrepareRelabel(s.jobs, s.defenses, t.jobs, t.defenses);
    CheckRelabel(s.jobs, s.attempts, t.jobs, t.attempts);
  }

  lemma CheckAfterInsert(jobs: seq<Job>, attempts: seq<Attempt>, j: Job, a: Attempt)
    requires CheckCoupled(jobs, attempts) && IsLive(j) && j.attempt == Some(|attempts|) && a.outcome == Pending
    requires forall i :: 0 <= i < |jobs| && jobs[i].attempt.Some? ==> jobs[i].attempt.value < |attempts|
    ensures CheckCoupled(jobs + [j], attempts + [a])
  {
    var jobs', attempts' := jobs + [j], attempts + [a];
    forall i: nat, b: nat
      ensures IsLiveCheck(jobs', i, b) <==> IsLiveCheck(jobs, i, b) || (i == |jobs| && b == |attempts|) {
    }
    forall b | 0 <= b < |attempts'| && attempts'[b].outcome == Pending
      ensures exists i: nat :: IsLiveCheck(jobs', i, b) {
      if b == |attempts| {
        assert IsLiveCheck(jobs', |jobs|, b);
      } else {
        var i: nat :| IsLiveCheck(jobs, i, b);
        assert IsLiveCheck(jobs', i, b);
      }
    }
  }

  lemma PrepareAfterCheckInsert(jobs: seq<Job>, defenses: seq<Defense>, j: Job)
    requires PrepareCoupled(jobs, defenses) && j.kind == Check
    ensures PrepareCoupled(jobs + [j], defenses)
  {
    var jobs' := jobs + [j];
    forall i: nat, d: nat ensures IsLivePrepare(jobs', i, d) <==> IsLivePrepare(jobs, i, d) {
    }
    forall d | 0 <= d < |defenses| && defenses[d].status == Preparing
      ensures exists i: nat :: IsLivePrepare(jobs', i, d) {
      var i: nat :| IsLivePrepare(jobs, i, d);
      assert IsLivePrepare(jobs', i, d);
    }
  }

  lemma SubmitKeepsInv(s: State, allowed: bool, id: nat, key: nat, settings: JobSettings)
    requires Inv(s)
    ensures Inv(SubmitAttempt(s, allowed, id, key, settings))
  {
    var t := SubmitAttempt(s, allowed, id, key, settings);
    if t != s {
      hide LeasesOk; hide PrepareCoupled; hide CheckCoupled; hide PassesOk; hide MaxNo;
      var j, a := t.jobs[|s.jobs|], t.attempts[|s.attempts|];
      assert DefenseOk(s.defenses[id], s.now);
      forall i | 0 <= i < |s.jobs| ensures JobOk(s, s.jobs[i]) {
      }
      LeasesAfterInsert(s, t, j);
      JobsAfterInsert(s, t, j);
      PrepareAfterCheckInsert(s.jobs, s.defenses, j);
      CheckAfterInsert(s.jobs, s.attempts, j, a);
      PassesFrame(s.defenses, s.attempts, t.defenses, t.attempts);
      forall b | 0 <= b < |t.attempts| ensures Accepted(t, t.attempts[b]) {
        if b < |s.attempts| {
          assert Accepted(s, s.attempts[b]);
        }
      }
    }
  }

  // ------------------------------------------------------------------
  // Acquire
  // ------------------------------------------------------------------

  lemma LapseKeepsJobs(s: State, t: State)
    requires Inv(s) && t == LapseLeases(s)
    ensures JobsOk(t) && LeasesOk(t)
  {
    hide LeasesOk; hide PrepareCoupled; hide CheckCoupled; hide LeaseCount; hide PreparationDies; hide CheckDies;
    forall i | 0 <= i < |t.jobs| ensures JobOk(t, t.jobs[i]) {
      assert JobOk(s, s.jobs[i]);
    }
    forall i | 0 <= i < |s.jobs| && i in LapsedJobs(s.jobs, s.now) ensures CountOk(t.jobs[i], LeaseCount(s.leases, i)) {
      LeaseCounts(s, i);
    }
    LeasesAfterRelease(s, t, LapsedJobs(s.jobs, s.now), ByExpiry);
  }

  lemma LapseKeepsPreparing(s: State, t: State)
    requires Inv(s) && t == LapseLeases(s)
    ensures PrepareCoupled(t.jobs, t.defenses)
  {
    hide LeasesOk; hide CheckCoupled;
    forall i: nat, d: nat | IsLivePrepare(s.jobs, i, d) && d < |s.defenses|
      ensures IsLive(t.jobs[i]) <==> t.defenses[d].status == Preparing {
      if PreparationDies(s.jobs, s.now, d) {
        var k :| 0 <= k < |s.jobs| && Dies(s.jobs[k], s.now) && s.jobs[k].kind == Prepare && s.jobs[k].defense == d;
        assert IsLivePrepare(s.jobs, k, d);
      }
    }
    PrepareRelabel(s.jobs, s.defenses, t.jobs, t.defenses);
  }

  lemma LapseKeepsChecks(s: State, t: State)
    requires Inv(s) && t == LapseLeases(s)
    ensures CheckCoupled(t.jobs, t.attempts)
  {
    hide LeasesOk; hide PrepareCoupled;
    forall i: nat, a: nat | IsLiveCheck(s.jobs, i, a) && a < |s.attempts|
      ensures IsLive(t.jobs[i]) <==> t.attempts[a].outcome == Pending {
      if CheckDies(s.jobs, s.now, a) {
        var k :| 0 <= k < |s.jobs| && Dies(s.jobs[k], s.now) && s.jobs[k].attempt == Some(a);
        assert IsLiveCheck(s.jobs, k, a);
      }
    }
    CheckRelabel(s.jobs, s.attempts, t.jobs, t.attempts);
  }

  lemma LapseKeepsInv(s: State)
    requires Inv(s)
    ensures Inv(LapseLeases(s))
  {
    var t := LapseLeases(s);
    LapseKeepsJobs(s, t);
    LapseKeepsPreparing(s, t);
    LapseKeepsChecks(s, t);
    hide LeasesOk; hide JobsOk; hide PrepareCoupled; hide CheckCoupled; hide AttemptsOk; hide PassesOk;
    hide PreparationDies; hide CheckDies;
    AttemptsFrame(s, t);
    PassesFrame(s.defenses, s.attempts, t.defenses, t.attempts);
  }

  /** Changing a live job to another live state couples it to the same things. */
  lemma LiveStaysCoupled(s: State, i: nat, j: Job)
    requires PrepareCoupled(s.jobs, s.defenses) && CheckCoupled(s.jobs, s.attempts) && i < |s.jobs|
    requires IsLive(s.jobs[i]) && IsLive(j)
    requires j.kind == s.jobs[i].kind && j.defense == s.jobs[i].defense && j.attempt == s.jobs[i].attempt
    ensures PrepareCoupled(s.jobs[i := j], s.defenses) && CheckCoupled(s.jobs[i := j], s.attempts)
  {
    PrepareRelabel(s.jobs, s.defenses, s.jobs[i := j], s.defenses);
    CheckRelabel(s.jobs, s.attempts, s.jobs[i := j], s.attempts);
  }

  lemma GrantKeepsInv(s: State, i: nat, token: nat)
    requires Inv(s) && i < |s.jobs| && s.jobs[i].state == Queued
    requires forall k :: 0 <= k < |s.leases| ==> s.leases[k].token != token
    ensures Inv(Grant(s, i, token))
  {
    var t := Grant(s, i, token);
    assert JobOk(s, s.jobs[i]);
    LeasesAfterGrant(s, i, token);
    LiveStaysCoupled(s, i, t.jobs[i]);
    hide LeasesOk; hide PrepareCoupled; hide CheckCoupled; hide AttemptsOk; hide PassesOk; hide LeaseCount;
    forall m | 0 <= m < |t.jobs| ensures JobOk(t, t.jobs[m]) {
      assert JobOk(s, s.jobs[m]);
    }
    AttemptsFrame(s, t);
  }

  lemma AcquireKeepsInv(s: State, pick: Option<nat>, token: nat)
    requires Inv(s) && IsPick(LapseLeases(s).jobs, s.now, pick)
    requires forall k :: 0 <= k < |s.leases| ==> s.leases[k].token != token
    ensures Inv(AcquireLease(s, pick, token))
  {
    var lapsed := LapseLeases(s);
    LapseKeepsInv(s);
    if pick.Some? {
      assert JobOk(lapsed, lapsed.jobs[pick.value]);
      hide Inv;
      GrantKeepsInv(lapsed, pick.value, token);
    }
  }

  // ------------------------------------------------------------------
  // Heartbeat and Complete
  // ------------------------------------------------------------------

  lemma RenewKeepsInv(s: State, id: nat, token: nat)
    requires Inv(s)
    ensures Inv(RenewLease(s, id, token))
  {
    var t := RenewLease(s, id, token);
    if HoldsLease(s, id, token) {
      LiveStaysCoupled(s, id, t.jobs[id]);
      LeasesAfterRelease(s, t.(leases := ReleaseIf(s.leases, {}, ByExpiry)), {}, ByExpiry);
      assert ReleaseIf(s.leases, {}, ByExpiry) == s.leases;
      hide LeasesOk; hide PrepareCoupled; hide CheckCoupled; hide AttemptsOk; hide PassesOk;
      forall m | 0 <= m < |t.jobs| ensures JobOk(t, t.jobs[m]) {
        assert JobOk(s, s.jobs[m]);
      }
      AttemptsFrame(s, t);
    }
  }

  /** Finishing a held job whose defense and attempt were decided beforehand. */
  lemma FinishKeepsJobs(s: State, u: State, id: nat)
    requires JobsOk(s) && LeasesOk(s) && id < |s.jobs| && s.jobs[id].state == Leased
    requires u.jobs == s.jobs && u.leases == s.leases && u.now == s.now
    requires |u.defenses| == |s.defenses| && |u.attempts| == |s.attempts|
    requires forall a :: 0 <= a < |s.attempts| ==> u.attempts[a].defense == s.attempts[a].defense
    ensures JobsOk(FinishJob(u, id)) && LeasesOk(FinishJob(u, id))
  {
    var t := FinishJob(u, id);
    hide LeasesOk; hide LeaseCount;
    forall m | 0 <= m < |t.jobs| ensures JobOk(t, t.jobs[m]) {
      assert JobOk(s, s.jobs[m]);
    }
    LeaseCounts(s, id);
    LeasesAfterRelease(s, t, {id}, ByCompletion);
  }

  lemma CompletePrepareKeepsInv(s: State, id: nat, report: Report)
    requires Inv(s) && id < |s.jobs| && s.jobs[id].state == Leased && s.jobs[id].kind == Prepare
    ensures Inv(CompletePrepare(s, id, report))
  {
    var d := s.jobs[id].defense;
    assert JobOk(s, s.jobs[id]);
    var p := Prepared(s.defenses[d], report, s.now);
    if p.Some? {
      var u := s.(defenses := s.defenses[d := p.value]);
      var t := FinishJob(u, id);
      assert IsLivePrepare(s.jobs, id, d);
      FinishKeepsJobs(s, u, id);
      FinishKeepsPrepare(s, id, p.value);
      assert DefenseOk(s.defenses[d], s.now);
      hide LeasesOk; hide JobsOk; hide PrepareCoupled; hide CheckCoupled; hide AttemptsOk; hide PassesOk;
      PreparedIsOk(s.defenses[d], report, s.now);
      hide Prepared; hide DefenseOk;
      AttemptsFrame(s, t);
      PassesFrame(s.defenses, s.attempts, t.defenses, t.attempts);
    }
  }

  lemma PreparedIsOk(d: Defense, report: Report, now: int)
    requires DefenseOk(d, now) && d.status == Preparing && Prepared(d, report, now).Some?
    ensures var p := Prepared(d, report, now).value;
            DefenseOk(p, now) && p.submission == d.submission && d.started.None? &&
            (p.status == Ready || p.status == Active || p.status == Errored)
  {
  }

  lemma FinishKeepsPrepare(s: State, id: nat, p: Defense)
    requires Inv(s) && id < |s.jobs| && s.jobs[id].state == Leased && s.jobs[id].kind == Prepare
    requires p.status != Preparing && s.jobs[id].defense < |s.defenses|
    ensures var jobs := s.jobs[id := s.jobs[id].(state := Completed)];
            PrepareCoupled(jobs, s.defenses[s.jobs[id].defense := p]) && CheckCoupled(jobs, s.attempts)
  {
    hide LeasesOk;
    var d := s.jobs[id].defense;
    var jobs := s.jobs[id := s.jobs[id].(state := Completed)];
    assert JobOk(s, s.jobs[id]);
    assert IsLivePrepare(s.jobs, id, d);
    PrepareRelabel(s.jobs, s.defenses, jobs, s.defenses[d := p]);
    CheckRelabel(s.jobs, s.attempts, jobs, s.attempts);
  }

  lemma CompleteCheckKeepsInv(s: State, id: nat, report: Report)
    requires Inv(s) && id < |s.jobs| && s.jobs[id].state == Leased && s.jobs[id].kind == Check
    ensures Inv(CompleteCheck(s, id, report))
  {
    var a, d := s.jobs[id].attempt, s.jobs[id].defense;
    assert JobOk(s, s.jobs[id]);
    if AcceptsCheck(report) {
      assert IsLiveCheck(s.jobs, id, a.value);
      var u := Decide(s, a.value, d, report.outcome);
      var t := FinishJob(u, id);
      FinishKeepsJobs(s, u, id);
      FinishKeepsCheck(s, id, report.outcome);
      DecideKeepsPasses(s, a.value, d, report.outcome);
      hide LeasesOk; hide JobsOk; hide PrepareCoupled; hide CheckCoupled; hide AttemptsOk; hide PassesOk;
      AttemptsFrame(s, t);
    }
  }

  lemma DecideKeepsPasses(s: State, a: nat, d: nat, outcome: Outcome)
    requires Inv(s) && a < |s.attempts| && d < |s.defenses|
    requires s.attempts[a].defense == d && s.attempts[a].outcome == Pending && outcome != Pending
    ensures var u := Decide(s, a, d, outcome); PassesOk(u.defenses, u.attempts) && DefensesOk(u)
  {
    hide LeasesOk; hide JobsOk; hide PrepareCoupled; hide CheckCoupled; hide AttemptsOk;
    var u := Decide(s, a, d, outcome);
    forall e | 0 <= e < |u.defenses| && u.defenses[e].status == Passed ensures HasPassedAttempt(u.attempts, e) {
      if s.defenses[e].status == Passed {
        var b :| 0 <= b < |s.attempts| && s.attempts[b].defense == e && s.attempts[b].outcome == AttemptPassed;
        assert u.attempts[b] == s.attempts[b];
      } else {
        assert u.attempts[a].defense == e && u.attempts[a].outcome == AttemptPassed;
      }
    }
  }

  lemma FinishKeepsCheck(s: State, id: nat, outcome: Outcome)
    requires Inv(s) && id < |s.jobs| && s.jobs[id].state == Leased && s.jobs[id].kind == Check && outcome != Pending
    requires JobOk(s, s.jobs[id])
    ensures var jobs := s.jobs[id := s.jobs[id].(state := Completed)];
            var u := Decide(s, s.jobs[id].attempt.value, s.jobs[id].defense, outcome);
            PrepareCoupled(jobs, u.defenses) && CheckCoupled(jobs, u.attempts)
  {
    hide LeasesOk;
    var a, d := s.jobs[id].attempt.value, s.jobs[id].defense;
    var jobs := s.jobs[id := s.jobs[id].(state := Completed)];
    var u := Decide(s, a, d, outcome);
    assert IsLiveCheck(s.jobs, id, a);
    PrepareRelabel(s.jobs, s.defenses, jobs, u.defenses);
    CheckRelabel(s.jobs, s.attempts, jobs, u.attempts);
  }

  lemma CompleteKeepsInv(s: State, id: nat, token: nat, report: Report)
    requires Inv(s)
    ensures Inv(CompleteJob(s, id, token, report))
  {
    if HoldsLease(s, id, token) {
      assert JobOk(s, s.jobs[id]);
      hide Inv;
      if s.jobs[id].kind == Prepare {
        CompletePrepareKeepsInv(s, id, report);
      } else {
        CompleteCheckKeepsInv(s, id, report);
      }
    }
  }

  // ------------------------------------------------------------------
  // Every step, every run
  // ------------------------------------------------------------------

  lemma StepKeepsInv(s: State, t: Timed)
    requires Inv(s) && Enabled(s, t)
    ensures Inv(Step(s, t))
  {
    hide Inv;
    var u := s.(now := t.at);
    ClockKeepsInv(s, t.at);
    match t.event
    case Create(allowed, submission, key, job) => CreateKeepsInv(u, allowed, submission, key, job);
    case Get(id) => GetKeepsInv(u, id);
    case Configure(allowed, id, wheel, seconds, job) => ConfigureKeepsInv(u, allowed, id, wheel, seconds, job);
    case ConfigureHide(allowed, id, mutations, seconds, job) =>
      ConfigureHideKeepsInv(u, allowed, id, mutations, seconds, job);
    case Cancel(allowed, id) => CancelKeepsInv(u, allowed, id);
    case Submit(allowed, id, key, job) => SubmitKeepsInv(u, allowed, id, key, job);
    case Acquire(pick, token) => AcquireKeepsInv(u, pick, token);
    case Heartbeat(id, token) => RenewKeepsInv(u, id, token);
    case Complete(id, token, report) => CompleteKeepsInv(u, id, token, report);
  }

  lemma {:induction false} RunKeepsInv(s: State, run: seq<Timed>)
    requires Inv(s) && IsRun(s, run)
    ensures Inv(After(s, run))
    decreases |run|
  {
    hide Inv; hide Enabled; hide Step;
    if run != [] {
      StepKeepsInv(s, run[0]);
      RunKeepsInv(Step(s, run[0]), run[1..]);
    }
  }

  /** Every state reachable from the empty tables satisfies the invariant. */
  lemma ReachableInv(run: seq<Timed>)
    requires IsRun(EMPTY, run)
    ensures Inv(After(EMPTY, run))
  {
    RunKeepsInv(EMPTY, run);
  }
}
