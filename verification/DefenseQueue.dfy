/** The defense and job tables, and the transactions over them. Rows are never
    deleted, so a table is the sequence of its rows and a row's index is its id.
    Times are microseconds of the database clock. */
module DefenseQueue {
  import opened Common

  const SECOND := 1_000_000
  const LEASE_TIME := 120 * SECOND

  datatype Status = Ready | Preparing | Active | Passed | Failed | Expired | Cancelled | Errored

  datatype DefenseMode = Restore | HideSeek

  datatype Defense = Defense(
    submission: nat, key: nat, status: Status, mode: DefenseMode, limit: int,
    started: Option<int>, deadline: Option<int>, selected: Option<nat>, catalogues: nat)

  datatype JobKind = Prepare | Check

  datatype JobState = Queued | Leased | Running | RetryWait | Completed | Dead | TimedOut | JobCancelled

  datatype Job = Job(
    kind: JobKind, defense: nat, attempt: Option<nat>, state: JobState,
    priority: int, availableAt: int, createdAt: int, retries: nat, maxRetries: nat,
    token: Option<nat>, expires: Option<int>)

  datatype Outcome = Pending | AttemptPassed | AttemptFailed | AttemptError

  datatype Attempt = Attempt(defense: nat, no: nat, key: nat, outcome: Outcome, acceptedAt: int)

  datatype ReleaseReason = ByExpiry | ByCancel | ByCompletion

  datatype Lease = Lease(job: nat, no: nat, token: nat, released: Option<ReleaseReason>)

  datatype State = State(
    now: int, defenses: seq<Defense>, jobs: seq<Job>, attempts: seq<Attempt>, leases: seq<Lease>)

  /** What a runner reports. The flags stand for checks on the report's contents that
      abort the transaction when they fail. */
  datatype Report = Report(
    outcome: Outcome, hideValid: bool, timingsValid: bool, candidatesValid: bool, masked: bool, referenceValid: bool)

  datatype JobSettings = JobSettings(priority: int, maxRetries: nat)

  datatype Event =
    | Create(allowed: bool, submission: nat, key: nat, job: JobSettings)
    | Get(id: nat)
    | Configure(allowed: bool, id: nat, wheel: Option<nat>, seconds: int, job: JobSettings)
    | ConfigureHide(allowed: bool, id: nat, mutations: nat, seconds: int, job: JobSettings)
    | Cancel(allowed: bool, id: nat)
    | Submit(allowed: bool, id: nat, key: nat, job: JobSettings)
    | Acquire(pick: Option<nat>, token: nat)
    | Heartbeat(id: nat, token: nat)
    | Complete(id: nat, token: nat, report: Report)

  // ------------------------------------------------------------------
  // Rows
  // ------------------------------------------------------------------

  predicate IsOpen(d: Defense) {
    d.status == Ready || d.status == Preparing || d.status == Active
  }

  predicate IsLive(j: Job) {
    j.state == Queued || j.state == Leased || j.state == Running || j.state == RetryWait
  }

  predicate IsHeld(j: Job) {
    j.state == Leased || j.state == Running
  }

  function NewDefense(submission: nat, key: nat): Defense {
    Defense(submission, key, Preparing, Restore, 60, None, None, None, 0)
  }

  function NewJob(kind: JobKind, defense: nat, attempt: Option<nat>, settings: JobSettings, now: int): Job {
    Job(kind, defense, attempt, Queued, settings.priority, now, now, 0, settings.maxRetries, None, None)
  }

  function Activated(d: Defense, now: int): Defense {
    d.(status := Active, started := Some(now), deadline := Some(now + d.limit * SECOND))
  }

  function ReleaseIf(leases: seq<Lease>, jobs: set<nat>, reason: ReleaseReason): (r: seq<Lease>)
    ensures |r| == |leases|
  {
    seq(|leases|, k requires 0 <= k < |leases| =>
      if leases[k].job in jobs && leases[k].released.None? then leases[k].(released := Some(reason)) else leases[k])
  }

  /** Rows of `leases` that belong to `job`. */
  function LeaseCount(leases: seq<Lease>, job: nat): nat {
    if leases == [] then 0
    else LeaseCount(leases[..|leases| - 1], job) + (if leases[|leases| - 1].job == job then 1 else 0)
  }

  // ------------------------------------------------------------------
  // Transactions started by users
  // ------------------------------------------------------------------

  /** Reading a defense expires it once its deadline is reached. */
  function GetDefense(s: State, id: nat): State {
    if id < |s.defenses| && s.defenses[id].status == Active &&
       s.defenses[id].deadline.Some? && s.defenses[id].deadline.value <= s.now
    then s.(defenses := s.defenses[id := s.defenses[id].(status := Expired)])
    else s
  }

  predicate SameStart(d: Defense, submission: nat, key: nat) {
    d.submission == submission && d.key == key
  }

  function FindDefense(defenses: seq<Defense>, p: Defense -> bool, from: nat): (r: Option<nat>)
    requires from <= |defenses|
    ensures r.Some? ==> r.value < |defenses| && p(defenses[r.value])
    ensures r.None? ==> forall i :: from <= i < |defenses| ==> !p(defenses[i])
    decreases |defenses| - from
  {
    if from == |defenses| then None
    else if p(defenses[from]) then Some(from)
    else FindDefense(defenses, p, from + 1)
  }

  function CreateDefense(s: State, allowed: bool, submission: nat, key: nat, settings: JobSettings): State {
    if !allowed then s
    else
      match FindDefense(s.defenses, (d: Defense) => SameStart(d, submission, key), 0)
      case Some(id) => GetDefense(s, id)
      case None =>
        match FindDefense(s.defenses, (d: Defense) => d.submission == submission && IsOpen(d), 0)
        case Some(id) => GetDefense(s, id)
        case None =>
          s.(defenses := s.defenses + [NewDefense(submission, key)],
             jobs := s.jobs + [NewJob(Prepare, |s.defenses|, None, settings, s.now)])
  }

  /** `wheel` is the candidate chosen by the wheel, none when it cannot be built. */
  function ConfigureDefense(s: State, allowed: bool, id: nat, wheel: Option<nat>, seconds: int,
                            settings: JobSettings): State {
    if seconds < 60 || seconds > 1800 || id >= |s.defenses| || s.defenses[id].status != Ready || !allowed || wheel.None?
    then s
    else
      var d := s.defenses[id].(mode := Restore, selected := wheel, limit := seconds, status := Preparing);
      s.(defenses := s.defenses[id := d],
         jobs := s.jobs + [NewJob(Prepare, id, None, settings, s.now)])
  }

  function ConfigureHideSeek(s: State, allowed: bool, id: nat, mutations: nat, seconds: int,
                             settings: JobSettings): State {
    if seconds < 60 || seconds > 1800 || mutations < 1 || mutations > 5 ||
       id >= |s.defenses| || s.defenses[id].status != Ready || !allowed
    then s
    else
      var d := s.defenses[id].(mode := HideSeek, selected := None, limit := seconds, status := Preparing);
      s.(defenses := s.defenses[id := d],
         jobs := s.jobs + [NewJob(Prepare, id, None, settings, s.now)])
  }

  function JobsOf(jobs: seq<Job>, id: nat): set<nat> {
    set i | 0 <= i < |jobs| && jobs[i].defense == id
  }

  function CancelJobs(jobs: seq<Job>, id: nat): (r: seq<Job>)
    ensures |r| == |jobs|
  {
    seq(|jobs|, i requires 0 <= i < |jobs| =>
      if jobs[i].defense == id && (jobs[i].state == Queued || IsHeld(jobs[i]))
      then jobs[i].(state := JobCancelled, token := None, expires := None) else jobs[i])
  }

  function FailPending(attempts: seq<Attempt>, id: nat): (r: seq<Attempt>)
    ensures |r| == |attempts|
  {
    seq(|attempts|, i requires 0 <= i < |attempts| =>
      if attempts[i].defense == id && attempts[i].outcome == Pending
      then attempts[i].(outcome := AttemptError) else attempts[i])
  }

  function CancelDefense(s: State, allowed: bool, id: nat): State {
    if !allowed || id >= |s.defenses| || !IsOpen(s.defenses[id]) then s
    else
      s.(defenses := s.defenses[id := s.defenses[id].(status := Cancelled)],
         attempts := FailPending(s.attempts, id),
         jobs := CancelJobs(s.jobs, id),
         leases := ReleaseIf(s.leases, JobsOf(s.jobs, id), ByCancel))
  }

  function MaxNo(attempts: seq<Attempt>, id: nat): nat {
    if attempts == [] then 0
    else
      var rest, last := MaxNo(attempts[..|attempts| - 1], id), attempts[|attempts| - 1];
      if last.defense == id && last.no > rest then last.no else rest
  }

  /** A repeated key returns the earlier attempt, and an attempt still pending makes
      the insert conflict; neither changes anything. */
  predicate RefusesAttempt(attempts: seq<Attempt>, id: nat, key: nat) {
    exists a :: 0 <= a < |attempts| && attempts[a].defense == id &&
                (attempts[a].key == key || attempts[a].outcome == Pending)
  }

  function SubmitAttempt(s: State, allowed: bool, id: nat, key: nat, settings: JobSettings): State {
    if !allowed || id >= |s.defenses| || s.defenses[id].status != Active || s.defenses[id].deadline.None? ||
       s.defenses[id].deadline.value <= s.now || RefusesAttempt(s.attempts, id, key)
    then s
    else
      s.(attempts := s.attempts + [Attempt(id, MaxNo(s.attempts, id) + 1, key, Pending, s.now)],
         jobs := s.jobs + [NewJob(Check, id, Some(|s.attempts|), settings, s.now)])
  }

  // ------------------------------------------------------------------
  // Transactions started by runners
  // ------------------------------------------------------------------

  predicate HasLapsed(j: Job, now: int) {
    j.state == Leased && j.expires.Some? && j.expires.value < now
  }

  function Lapsed(j: Job): Job {
    j.(state := if j.retries + 1 > j.maxRetries then Dead else Queued, retries := j.retries + 1,
       token := None, expires := None)
  }

  function LapsedJobs(jobs: seq<Job>, now: int): set<nat> {
    set i | 0 <= i < |jobs| && HasLapsed(jobs[i], now)
  }

  function LapseJobs(jobs: seq<Job>, now: int): (r: seq<Job>)
    ensures |r| == |jobs|
  {
    seq(|jobs|, i requires 0 <= i < |jobs| => if HasLapsed(jobs[i], now) then Lapsed(jobs[i]) else jobs[i])
  }

  /** A lapsed lease killed the job. */
  predicate Dies(j: Job, now: int) {
    HasLapsed(j, now) && j.retries + 1 > j.maxRetries
  }

  predicate PreparationDies(jobs: seq<Job>, now: int, id: nat) {
    exists i :: 0 <= i < |jobs| && Dies(jobs[i], now) && jobs[i].kind == Prepare && jobs[i].defense == id
  }

  predicate CheckDies(jobs: seq<Job>, now: int, a: nat) {
    exists i :: 0 <= i < |jobs| && Dies(jobs[i], now) && jobs[i].attempt == Some(a)
  }

  function LapseDefenses(defenses: seq<Defense>, jobs: seq<Job>, now: int): (r: seq<Defense>)
    ensures |r| == |defenses|
  {
    seq(|defenses|, d requires 0 <= d < |defenses| =>
      if PreparationDies(jobs, now, d) && defenses[d].status == Preparing
      then defenses[d].(status := Errored) else defenses[d])
  }

  function LapseAttempts(attempts: seq<Attempt>, jobs: seq<Job>, now: int): (r: seq<Attempt>)
    ensures |r| == |attempts|
  {
    seq(|attempts|, a requires 0 <= a < |attempts| =>
      if CheckDies(jobs, now, a) && attempts[a].outcome == Pending
      then attempts[a].(outcome := AttemptError) else attempts[a])
  }

  /** Every lapsed lease goes back to the queue or kills its job. */
  function LapseLeases(s: State): State {
    s.(jobs := LapseJobs(s.jobs, s.now),
       leases := ReleaseIf(s.leases, LapsedJobs(s.jobs, s.now), ByExpiry),
       defenses := LapseDefenses(s.defenses, s.jobs, s.now),
       attempts := LapseAttempts(s.attempts, s.jobs, s.now))
  }

  predicate IsAvailable(j: Job, now: int) {
    (j.state == Queued || j.state == RetryWait) && j.availableAt <= now
  }

  /** Ordered by descending priority, then by creation time. */
  predicate GoesFirst(a: Job, b: Job) {
    a.priority > b.priority || (a.priority == b.priority && a.createdAt <= b.createdAt)
  }

  /** A job the queue may hand out next; ties may be broken either way. */
  predicate IsNext(jobs: seq<Job>, now: int, i: nat) {
    i < |jobs| && IsAvailable(jobs[i], now) &&
    forall k :: 0 <= k < |jobs| && IsAvailable(jobs[k], now) ==> GoesFirst(jobs[i], jobs[k])
  }

  predicate IsPick(jobs: seq<Job>, now: int, pick: Option<nat>) {
    match pick
    case Some(i) => IsNext(jobs, now, i)
    case None => forall k :: 0 <= k < |jobs| ==> !IsAvailable(jobs[k], now)
  }

  function Grant(s: State, i: nat, token: nat): State
    requires i < |s.jobs|
  {
    s.(jobs := s.jobs[i := s.jobs[i].(state := Leased, token := Some(token), expires := Some(s.now + LEASE_TIME))],
       leases := s.leases + [Lease(i, LeaseCount(s.leases, i) + 1, token, None)])
  }

  function AcquireLease(s: State, pick: Option<nat>, token: nat): State {
    var lapsed := LapseLeases(s);
    if pick.Some? && pick.value < |lapsed.jobs| then Grant(lapsed, pick.value, token) else lapsed
  }

  predicate HoldsLease(s: State, id: nat, token: nat) {
    id < |s.jobs| && IsHeld(s.jobs[id]) && s.jobs[id].token == Some(token) &&
    s.jobs[id].expires.Some? && s.jobs[id].expires.value > s.now
  }

  function RenewLease(s: State, id: nat, token: nat): State {
    if HoldsLease(s, id, token)
    then s.(jobs := s.jobs[id := s.jobs[id].(expires := Some(s.now + LEASE_TIME))])
    else s
  }

  /** What a prepare report does to its defense; none when the transaction aborts. */
  function Prepared(d: Defense, report: Report, now: int): Option<Defense> {
    if !report.timingsValid then None
    else if d.mode == HideSeek then
      if d.status != Preparing then Some(d)
      else if report.hideValid && report.outcome != AttemptError then Some(Activated(d, now))
      else Some(d.(status := Ready))
    else if report.outcome == AttemptError then
      Some(if d.status == Preparing then d.(status := Errored) else d)
    else if !report.candidatesValid then None
    else if d.selected.None? then
      Some(d.(catalogues := d.catalogues + 1, status := if d.status == Preparing then Ready else d.status))
    else if !report.masked then None
    else Some(if d.status == Preparing then Activated(d, now) else d)
  }

  predicate AcceptsCheck(report: Report) {
    report.outcome != Pending && report.timingsValid && report.referenceValid
  }

  function FinishJob(s: State, id: nat): State
    requires id < |s.jobs|
  {
    s.(jobs := s.jobs[id := s.jobs[id].(state := Completed)],
       leases := ReleaseIf(s.leases, {id}, ByCompletion))
  }

  function CompletePrepare(s: State, id: nat, report: Report): State
    requires id < |s.jobs|
  {
    var d := s.jobs[id].defense;
    if d >= |s.defenses| || Prepared(s.defenses[d], report, s.now).None? then s
    else FinishJob(s.(defenses := s.defenses[d := Prepared(s.defenses[d], report, s.now).value]), id)
  }

  function Decide(s: State, a: nat, d: nat, outcome: Outcome): State
    requires a < |s.attempts| && d < |s.defenses|
  {
    var decided := s.(attempts := s.attempts[a :=
      if s.attempts[a].outcome == Pending then s.attempts[a].(outcome := outcome) else s.attempts[a]]);
    if outcome == AttemptPassed && s.defenses[d].status == Active
    then decided.(defenses := s.defenses[d := s.defenses[d].(status := Passed)])
    else decided
  }

  function CompleteCheck(s: State, id: nat, report: Report): State
    requires id < |s.jobs|
  {
    var a, d := s.jobs[id].attempt, s.jobs[id].defense;
    if a.None? || !AcceptsCheck(report) || a.value >= |s.attempts| || d >= |s.defenses| then s
    else FinishJob(Decide(s, a.value, d, report.outcome), id)
  }

  /** A completed job's own token is recognised again and changes nothing. */
  function CompleteJob(s: State, id: nat, token: nat, report: Report): State {
    if !HoldsLease(s, id, token) then s
    else if s.jobs[id].kind == Prepare then CompletePrepare(s, id, report)
    else CompleteCheck(s, id, report)
  }

  // ------------------------------------------------------------------
  // Runs
  // ------------------------------------------------------------------

  datatype Timed = Timed(at: int, event: Event)

  function Apply(s: State, e: Event): State {
    match e
    case Create(allowed, submission, key, job) => CreateDefense(s, allowed, submission, key, job)
    case Get(id) => GetDefense(s, id)
    case Configure(allowed, id, wheel, seconds, job) => ConfigureDefense(s, allowed, id, wheel, seconds, job)
    case ConfigureHide(allowed, id, mutations, seconds, job) =>
      ConfigureHideSeek(s, allowed, id, mutations, seconds, job)
    case Cancel(allowed, id) => CancelDefense(s, allowed, id)
    case Submit(allowed, id, key, job) => SubmitAttempt(s, allowed, id, key, job)
    case Acquire(pick, token) => AcquireLease(s, pick, token)
    case Heartbeat(id, token) => RenewLease(s, id, token)
    case Complete(id, token, report) => CompleteJob(s, id, token, report)
  }

  function Step(s: State, t: Timed): State {
    Apply(s.(now := t.at), t.event)
  }

  /** The clock does not run backwards, lease tokens are new, and the queue hands out
      a job that comes first. */
  ghost predicate Enabled(s: State, t: Timed) {
    s.now <= t.at &&
    (t.event.Acquire? ==>
      (forall k :: 0 <= k < |s.leases| ==> s.leases[k].token != t.event.token) &&
      IsPick(LapseLeases(s.(now := t.at)).jobs, t.at, t.event.pick))
  }

  ghost predicate IsRun(s: State, run: seq<Timed>)
    decreases |run|
  {
    run == [] || (Enabled(s, run[0]) && IsRun(Step(s, run[0]), run[1..]))
  }

  ghost function After(s: State, run: seq<Timed>): State
    decreases |run|
  {
    if run == [] then s else After(Step(s, run[0]), run[1..])
  }

  const EMPTY := State(0, [], [], [], [])
}
