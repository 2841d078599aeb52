/** What one event does to one row, read off the row, its job and the report alone; and which
    events of a run decide a defense. */
module QueueReports {
  import opened Common
  import opened DefenseQueue
  import opened QueueInvariant
  import opened QueueHistory

  // ------------------------------------------------------------------
  // Reports
  // ------------------------------------------------------------------

  /** The event completes job `i` under its running lease. */
  predicate Reports(s: State, t: Timed, i: nat) {
    t.event.Complete? && t.event.id == i && i < |s.jobs| && s.jobs[i].state == Leased &&
    s.jobs[i].token == Some(t.event.token) && s.jobs[i].expires.Some? && t.at < s.jobs[i].expires.value
  }

  /** A report on a check job that is taken. */
  predicate ReportsCheck(s: State, t: Timed, i: nat) {
    Reports(s, t, i) && s.jobs[i].kind == Check && t.event.report.outcome != Pending &&
    t.event.report.timingsValid && t.event.report.referenceValid
  }

  predicate ReportsPrepare(s: State, t: Timed, i: nat) {
    Reports(s, t, i) && s.jobs[i].kind == Prepare && t.event.report.timingsValid
  }

  /** A report that makes a preparing defense active: in hide and seek a valid one without an error,
      otherwise one with valid candidates and a masked source for the selected function. */
  predicate IsGood(d: Defense, r: Report) {
    r.outcome != AttemptError &&
    if d.mode == HideSeek then r.hideValid else d.selected.Some? && r.candidatesValid && r.masked
  }

  /** A report that makes it ready to be configured: in hide and seek one that is not good, otherwise
      the catalogue of a defense without a selection. */
  predicate IsCatalogue(d: Defense, r: Report) {
    if d.mode == HideSeek then !IsGood(d, r)
    else d.selected.None? && r.outcome != AttemptError && r.candidatesValid
  }

  predicate IsBad(d: Defense, r: Report) {
    d.mode == Restore && r.outcome == AttemptError
  }

  // ------------------------------------------------------------------
  // Causes
  // ------------------------------------------------------------------

  predicate PassesBy(s: State, t: Timed, d: nat) {
    t.event.Complete? && ReportsCheck(s, t, t.event.id) && s.jobs[t.event.id].defense == d &&
    t.event.report.outcome == AttemptPassed
  }

  predicate PreparesBy(s: State, t: Timed, d: nat) {
    t.event.Complete? && ReportsPrepare(s, t, t.event.id) && s.jobs[t.event.id].defense == d
  }

  predicate CancelsBy(t: Timed, d: nat) {
    t.event.Cancel? && t.event.allowed && t.event.id == d
  }

  /** The job is leased, its lease has run out, and so have its retries. */
  predicate IsLost(j: Job, at: int) {
    j.state == Leased && j.expires.Some? && j.expires.value < at && j.retries >= j.maxRetries
  }

  predicate LosesPrepare(s: State, t: Timed, d: nat) {
    t.event.Acquire? &&
    exists i :: 0 <= i < |s.jobs| && IsLost(s.jobs[i], t.at) && s.jobs[i].kind == Prepare && s.jobs[i].defense == d
  }

  predicate LosesCheck(s: State, t: Timed, a: nat) {
    t.event.Acquire? && exists i :: 0 <= i < |s.jobs| && IsLost(s.jobs[i], t.at) && s.jobs[i].attempt == Some(a)
  }

  predicate IsFirstLike(defenses: seq<Defense>, d: nat, submission: nat, key: nat) {
    d < |defenses| && defenses[d].submission == submission && defenses[d].key == key &&
    forall e :: 0 <= e < d ==> !(defenses[e].submission == submission && defenses[e].key == key)
  }

  /** The event reads defense `d`: by its number, or by starting a defense that exists already. */
  predicate Reads(s: State, t: Timed, d: nat) {
    d < |s.defenses| &&
    match t.event
    case Get(id) => id == d
    case Create(allowed, submission, key, _) =>
      allowed &&
      (IsFirstLike(s.defenses, d, submission, key) ||
       (s.defenses[d].submission == submission && IsOpen(s.defenses[d]) &&
        forall e :: 0 <= e < |s.defenses| ==> !(s.defenses[e].submission == submission && s.defenses[e].key == key)))
    case _ => false
  }

  predicate ExpiresBy(s: State, t: Timed, d: nat) {
    Reads(s, t, d) && s.defenses[d].deadline.Some? && s.defenses[d].deadline.value <= t.at
  }

  predicate ConfiguresBy(t: Timed, d: nat) {
    match t.event
    case Configure(allowed, id, wheel, seconds, _) => allowed && id == d && wheel.Some? && 60 <= seconds <= 1800
    case ConfigureHide(allowed, id, mutations, seconds, _) =>
      allowed && id == d && 1 <= mutations <= 5 && 60 <= seconds <= 1800
    case _ => false
  }

  // ------------------------------------------------------------------
  // One defense
  // ------------------------------------------------------------------

  function Configured(d: Defense, e: Event): Defense
    requires e.Configure? || e.ConfigureHide?
  {
    if e.Configure? then d.(status := Preparing, mode := Restore, selected := e.wheel, limit := e.seconds)
    else d.(status := Preparing, mode := HideSeek, selected := None, limit := e.seconds)
  }

  /** The row of defense `d` after the event. */
  function NextDefense(s: State, t: Timed, d: nat): Defense
    requires d < |s.defenses|
  {
    var row := s.defenses[d];
    match row.status
    case Ready =>
      if ConfiguresBy(t, d) then Configured(row, t.event)
      else if CancelsBy(t, d) then row.(status := Cancelled)
      else row
    case Preparing =>
      if PreparesBy(s, t, d) && IsGood(row, t.event.report) then
        row.(status := Active, started := Some(t.at), deadline := Some(t.at + row.limit * 1_000_000))
      else if PreparesBy(s, t, d) && IsCatalogue(row, t.event.report) then
        row.(status := Ready, catalogues := if row.mode == HideSeek then row.catalogues else row.catalogues + 1)
      else if (PreparesBy(s, t, d) && IsBad(row, t.event.report)) || LosesPrepare(s, t, d) then
        row.(status := Errored)
      else if CancelsBy(t, d) then row.(status := Cancelled)
      else row
    case Active =>
      if PassesBy(s, t, d) then row.(status := Passed)
      else if ExpiresBy(s, t, d) then row.(status := Expired)
      else if CancelsBy(t, d) then row.(status := Cancelled)
      else row
    case _ => row
  }

  lemma HeldIsReported(s: State, t: Timed, i: nat)
    requires Inv(s) && t.event.Complete? && t.event.id == i && s.now <= t.at
    ensures HoldsLease(s.(now := t.at), i, t.event.token) <==> Reports(s, t, i)
  {
    RowFacts(s);
    hide Inv;
    if i < |s.jobs| {
      assert JobOk(s, s.jobs[i]);
    }
  }

  lemma CompletePrepareRow(s: State, t: Timed, d: nat)
    requires Inv(s) && d < |s.defenses| && t.event.Complete? && Reports(s, t, t.event.id) &&
             s.jobs[t.event.id].kind == Prepare
    ensures var u := CompletePrepare(s.(now := t.at), t.event.id, t.event.report);
            d < |u.defenses| && u.defenses[d] == NextDefense(s, t, d)
  {
    var i := t.event.id;
    RowFacts(s);
    hide Inv; hide ReleaseIf;
    assert JobOk(s, s.jobs[i]);
    assert IsLivePrepare(s.jobs, i, s.jobs[i].defense);
  }

  lemma CompleteCheckRow(s: State, t: Timed, d: nat)
    requires Inv(s) && d < |s.defenses| && t.event.Complete? && Reports(s, t, t.event.id) &&
             s.jobs[t.event.id].kind == Check
    ensures var u := CompleteCheck(s.(now := t.at), t.event.id, t.event.report);
            d < |u.defenses| && u.defenses[d] == NextDefense(s, t, d)
  {
    var i := t.event.id;
    RowFacts(s);
    hide Inv; hide ReleaseIf;
    assert JobOk(s, s.jobs[i]);
  }

  lemma CompleteRow(s: State, t: Timed, d: nat)
    requires Inv(s) && s.now <= t.at && t.event.Complete? && d < |s.defenses|
    ensures d < |Step(s, t).defenses| && Step(s, t).defenses[d] == NextDefense(s, t, d)
  {
    hide Inv; hide HoldsLease; hide CompletePrepare; hide CompleteCheck;
    var i := t.event.id;
    HeldIsReported(s, t, i);
    if Reports(s, t, i) {
      if s.jobs[i].kind == Prepare {
        CompletePrepareRow(s, t, d);
      } else {
        CompleteCheckRow(s, t, d);
      }
    }
  }

  lemma AcquireRow(s: State, t: Timed, d: nat)
    requires Inv(s) && s.now <= t.at && t.event.Acquire? && d < |s.defenses|
    ensures d < |Step(s, t).defenses| && Step(s, t).defenses[d] == NextDefense(s, t, d)
  {
    hide Inv; hide ReleaseIf; hide LapseJobs; hide LapseAttempts; hide LeaseCount;
    assert PreparationDies(s.jobs, t.at, d) <==> LosesPrepare(s, t, d) by {
      forall i | 0 <= i < |s.jobs| ensures Dies(s.jobs[i], t.at) <==> IsLost(s.jobs[i], t.at) {
      }
      hide Dies; hide IsLost;
    }
  }

  lemma FoundLike(defenses: seq<Defense>, submission: nat, key: nat, from: nat)
    requires from <= |defenses|
    requires forall e :: 0 <= e < from ==> !(defenses[e].submission == submission && defenses[e].key == key)
    ensures var found := FindDefense(defenses, (d: Defense) => SameStart(d, submission, key), from);
            if found.Some? then IsFirstLike(defenses, found.value, submission, key)
            else forall e :: 0 <= e < |defenses| ==> !(defenses[e].submission == submission && defenses[e].key == key)
    decreases |defenses| - from
  {
    if from < |defenses| && !SameStart(defenses[from], submission, key) {
      FoundLike(defenses, submission, key, from + 1);
    }
  }

  lemma CreateRow(s: State, t: Timed, d: nat)
    requires Inv(s) && s.now <= t.at && t.event.Create? && d < |s.defenses|
    ensures d < |Step(s, t).defenses| && Step(s, t).defenses[d] == NextDefense(s, t, d)
  {
    hide Inv;
    var e := t.event;
    var same := FindDefense(s.defenses, (x: Defense) => SameStart(x, e.submission, e.key), 0);
    var open := FindDefense(s.defenses, (x: Defense) => x.submission == e.submission && IsOpen(x), 0);
    FoundLike(s.defenses, e.submission, e.key, 0);
    OneIsOpen(s);
    hide FindDefense;
  }

  lemma OneIsOpen(s: State)
    requires Inv(s)
    ensures forall d: nat, e: nat ::
              (d < |s.defenses| && e < |s.defenses| && IsOpen(s.defenses[d]) && IsOpen(s.defenses[e]) &&
               s.defenses[d].submission == s.defenses[e].submission) ==> d == e
  {
    hide LeasesOk; hide JobsOk; hide PrepareCoupled; hide CheckCoupled; hide AttemptsOk; hide PassesOk;
  }

  /** Every event does to every defense what its row, its job and the report say. */
  lemma DefenseAfter(s: State, t: Timed, d: nat)
    requires Inv(s) && Enabled(s, t) && d < |s.defenses|
    ensures d < |Step(s, t).defenses| && Step(s, t).defenses[d] == NextDefense(s, t, d)
  {
    hide Inv;
    match t.event {
      case Complete(_, _, _) => CompleteRow(s, t, d);
      case Acquire(_, _) => AcquireRow(s, t, d);
      case Create(_, _, _, _) => CreateRow(s, t, d);
      case _ => OtherRow(s, t, d);
    }
  }

  lemma OtherRow(s: State, t: Timed, d: nat)
    requires d < |s.defenses| && !t.event.Complete? && !t.event.Acquire? && !t.event.Create?
    ensures d < |Step(s, t).defenses| && Step(s, t).defenses[d] == NextDefense(s, t, d)
  {
    hide RefusesAttempt; hide FailPending; hide CancelJobs; hide ReleaseIf; hide MaxNo;
  }

  /** A new defense appears exactly when one may be started and there is none to return instead. */
  lemma NewDefenses(s: State, t: Timed)
    requires Inv(s) && Enabled(s, t)
    ensures |Step(s, t).defenses| <= |s.defenses| + 1
    ensures |Step(s, t).defenses| == |s.defenses| + 1 <==>
              t.event.Create? && t.event.allowed &&
              forall d :: 0 <= d < |s.defenses| && s.defenses[d].submission == t.event.submission ==>
                            s.defenses[d].key != t.event.key && !IsOpen(s.defenses[d])
    ensures |Step(s, t).defenses| == |s.defenses| + 1 ==>
              Step(s, t).defenses[|s.defenses|] ==
              Defense(t.event.submission, t.event.key, Preparing, Restore, 60, None, None, None, 0)
  {
    if t.event.Create? {
      hide Inv;
      var e := t.event;
      var same := FindDefense(s.defenses, (x: Defense) => SameStart(x, e.submission, e.key), 0);
      var open := FindDefense(s.defenses, (x: Defense) => x.submission == e.submission && IsOpen(x), 0);
      hide FindDefense;
    } else {
      SameDefenses(s, t);
    }
  }

  lemma SameDefenses(s: State, t: Timed)
    requires !t.event.Create?
    ensures |Step(s, t).defenses| == |s.defenses|
  {
    hide RefusesAttempt; hide ReleaseIf; hide MaxNo; hide LapseJobs; hide LapseAttempts; hide LeaseCount;
    hide FailPending; hide CancelJobs; hide Prepared;
  }

  // ------------------------------------------------------------------
  // One attempt
  // ------------------------------------------------------------------

  predicate CancelsOpen(s: State, t: Timed, d: nat) {
    CancelsBy(t, d) && d < |s.defenses| &&
    (s.defenses[d].status == Ready || s.defenses[d].status == Preparing || s.defenses[d].status == Active)
  }

  /** The row of attempt `a` after the event: a decided one stays, and a pending one takes the outcome
      of the report on it, or ends with an error when it is cancelled or its job is lost. */
  function NextAttempt(s: State, t: Timed, a: nat): Attempt
    requires a < |s.attempts|
  {
    var row := s.attempts[a];
    if row.outcome != Pending then row
    else if t.event.Complete? && ReportsCheck(s, t, t.event.id) && s.jobs[t.event.id].attempt == Some(a) then
      row.(outcome := t.event.report.outcome)
    else if CancelsOpen(s, t, row.defense) || LosesCheck(s, t, a) then row.(outcome := AttemptError)
    else row
  }

  lemma CompleteAttempt(s: State, t: Timed, a: nat)
    requires Inv(s) && s.now <= t.at && t.event.Complete? && a < |s.attempts|
    ensures a < |Step(s, t).attempts| && Step(s, t).attempts[a] == NextAttempt(s, t, a)
  {
    var i := t.event.id;
    HeldIsReported(s, t, i);
    RowFacts(s);
    hide Inv; hide HoldsLease; hide ReleaseIf; hide Prepared;
    if Reports(s, t, i) {
      assert JobOk(s, s.jobs[i]);
      if s.jobs[i].kind == Check {
        assert IsLiveCheck(s.jobs, i, s.jobs[i].attempt.value);
      }
    }
  }

  lemma AttemptAfter(s: State, t: Timed, a: nat)
    requires Inv(s) && Enabled(s, t) && a < |s.attempts|
    ensures a < |Step(s, t).attempts| && Step(s, t).attempts[a] == NextAttempt(s, t, a)
  {
    match t.event {
      case Complete(_, _, _) => CompleteAttempt(s, t, a);
      case Acquire(_, _) => AcquireAttempt(s, t, a);
      case Create(_, _, _, _) => CreateKeepsAttempts(s, t);
      case _ => OtherAttempt(s, t, a);
    }
  }

  lemma AcquireAttempt(s: State, t: Timed, a: nat)
    requires t.event.Acquire? && a < |s.attempts|
    ensures a < |Step(s, t).attempts| && Step(s, t).attempts[a] == NextAttempt(s, t, a)
  {
    hide ReleaseIf; hide LapseJobs; hide LapseDefenses; hide LeaseCount;
    assert CheckDies(s.jobs, t.at, a) <==> LosesCheck(s, t, a) by {
      forall i | 0 <= i < |s.jobs| ensures Dies(s.jobs[i], t.at) <==> IsLost(s.jobs[i], t.at) {
      }
      hide Dies; hide IsLost;
    }
  }

  lemma OtherAttempt(s: State, t: Timed, a: nat)
    requires a < |s.attempts| && !t.event.Complete? && !t.event.Acquire? && !t.event.Create?
    ensures a < |Step(s, t).attempts| && Step(s, t).attempts[a] == NextAttempt(s, t, a)
  {
    hide RefusesAttempt; hide CancelJobs; hide ReleaseIf; hide MaxNo; hide HoldsLease;
  }

  lemma CreateKeepsAttempts(s: State, t: Timed)
    requires t.event.Create?
    ensures Step(s, t).attempts == s.attempts
  {
    hide FindDefense;
  }

  /** An attempt is accepted exactly while its defense is active and in time, nothing of it is pending
      and its key is new. */
  lemma NewAttempts(s: State, t: Timed)
    requires Inv(s) && Enabled(s, t)
    ensures |Step(s, t).attempts| <= |s.attempts| + 1
    ensures |Step(s, t).attempts| == |s.attempts| + 1 <==>
              t.event.Submit? && t.event.allowed && t.event.id < |s.defenses| &&
              s.defenses[t.event.id].status == Active && s.defenses[t.event.id].deadline.Some? &&
              t.at < s.defenses[t.event.id].deadline.value &&
              forall a :: 0 <= a < |s.attempts| && s.attempts[a].defense == t.event.id ==>
                            s.attempts[a].outcome != Pending && s.attempts[a].key != t.event.key
    ensures |Step(s, t).attempts| == |s.attempts| + 1 ==>
              var row := Step(s, t).attempts[|s.attempts|];
              row.defense == t.event.id && row.key == t.event.key && row.outcome == Pending && row.acceptedAt == t.at
  {
    if t.event.Create? {
      CreateKeepsAttempts(s, t);
    } else if !t.event.Submit? {
      SameAttempts(s, t);
    } else {
      hide Inv; hide MaxNo;
    }
  }

  lemma SameAttempts(s: State, t: Timed)
    requires !t.event.Submit? && !t.event.Create?
    ensures |Step(s, t).attempts| == |s.attempts|
  {
    hide ReleaseIf; hide LapseJobs; hide LapseDefenses; hide LeaseCount; hide CancelJobs; hide Prepared;
  }

  // ------------------------------------------------------------------
  // One job
  // ------------------------------------------------------------------

  /** The report ends its job: a check report that is taken, or a prepare report that means something. */
  predicate Finishes(s: State, t: Timed, i: nat) {
    ReportsCheck(s, t, i) ||
    (ReportsPrepare(s, t, i) && s.jobs[i].defense < |s.defenses| &&
     var d := s.defenses[s.jobs[i].defense];
     IsGood(d, t.event.report) || IsCatalogue(d, t.event.report) || IsBad(d, t.event.report))
  }

  /** A job's lease has run out when the queue is asked for work. */
  predicate RunsOut(s: State, t: Timed, i: nat) {
    t.event.Acquire? && i < |s.jobs| && s.jobs[i].state == Leased && s.jobs[i].expires.Some? &&
    s.jobs[i].expires.value < t.at
  }

  predicate Renews(s: State, t: Timed, i: nat) {
    t.event.Heartbeat? && t.event.id == i && i < |s.jobs| && s.jobs[i].state == Leased &&
    s.jobs[i].token == Some(t.event.token) && s.jobs[i].expires.Some? && t.at < s.jobs[i].expires.value
  }

  /** The job when its lease has run out: queued again with one more retry, or dead for want of one. */
  function Returned(j: Job): Job {
    j.(state := if j.retries < j.maxRetries then Queued else Dead, retries := j.retries + 1, token := None,
       expires := None)
  }

  function NextJob(s: State, t: Timed, i: nat): Job
    requires i < |s.jobs|
  {
    var row := s.jobs[i];
    if Finishes(s, t, i) then row.(state := Completed)
    else if CancelsOpen(s, t, row.defense) && (row.state == Queued || row.state == Leased) then
      row.(state := JobCancelled, token := None, expires := None)
    else if Renews(s, t, i) then row.(expires := Some(t.at + 120_000_000))
    else if t.event.Acquire? then
      var back := if RunsOut(s, t, i) then Returned(row) else row;
      if t.event.pick == Some(i)
      then back.(state := Leased, token := Some(t.event.token), expires := Some(t.at + 120_000_000)) else back
    else row
  }

  lemma CompleteJobRow(s: State, t: Timed, i: nat)
    requires Inv(s) && s.now <= t.at && t.event.Complete? && i < |s.jobs|
    ensures i < |Step(s, t).jobs| && Step(s, t).jobs[i] == NextJob(s, t, i)
  {
    var k := t.event.id;
    HeldIsReported(s, t, k);
    RowFacts(s);
    hide Inv; hide HoldsLease; hide ReleaseIf;
    if Reports(s, t, k) {
      assert JobOk(s, s.jobs[k]);
      if s.jobs[k].kind == Prepare {
        assert IsLivePrepare(s.jobs, k, s.jobs[k].defense);
      } else {
        assert IsLiveCheck(s.jobs, k, s.jobs[k].attempt.value);
      }
    }
  }

  lemma CreateKeepsJobs(s: State, t: Timed, i: nat)
    requires t.event.Create? && i < |s.jobs|
    ensures i < |Step(s, t).jobs| && Step(s, t).jobs[i] == s.jobs[i]
  {
    hide FindDefense;
  }

  /** Every event does to every job what its row and the report say. */
  lemma JobAfter(s: State, t: Timed, i: nat)
    requires Inv(s) && Enabled(s, t) && i < |s.jobs|
    ensures i < |Step(s, t).jobs| && Step(s, t).jobs[i] == NextJob(s, t, i)
  {
    match t.event {
      case Complete(_, _, _) => CompleteJobRow(s, t, i);
      case Acquire(_, _) => AcquireJobRow(s, t, i);
      case Create(_, _, _, _) => CreateKeepsJobs(s, t, i);
      case _ => OtherJobRow(s, t, i);
    }
  }

  lemma AcquireJobRow(s: State, t: Timed, i: nat)
    requires t.event.Acquire? && i < |s.jobs|
    ensures i < |Step(s, t).jobs| && Step(s, t).jobs[i] == NextJob(s, t, i)
  {
    hide ReleaseIf; hide LapseDefenses; hide LapseAttempts; hide LeaseCount;
  }

  lemma OtherJobRow(s: State, t: Timed, i: nat)
    requires Inv(s) && i < |s.jobs| && !t.event.Complete? && !t.event.Acquire? && !t.event.Create?
    ensures i < |Step(s, t).jobs| && Step(s, t).jobs[i] == NextJob(s, t, i)
  {
    RowFacts(s);
    hide Inv; hide ReleaseIf; hide MaxNo; hide RefusesAttempt; hide FailPending;
    assert JobOk(s, s.jobs[i]);
  }

  /** A job is added exactly for a new defense, for one that is configured, and for a new attempt. */
  lemma NewJobs(s: State, t: Timed)
    requires Inv(s) && Enabled(s, t)
    ensures var u := Step(s, t);
            |u.jobs| ==
            |s.jobs| + (if |u.defenses| > |s.defenses| || |u.attempts| > |s.attempts| || ConfiguresReady(s, t)
                        then 1 else 0)
    ensures var u := Step(s, t);
            |u.jobs| > |s.jobs| ==>
              u.jobs[|s.jobs|] ==
              Job(if t.event.Submit? then Check else Prepare,
                  if t.event.Create? then |s.defenses| else t.event.id,
                  if t.event.Submit? then Some(|s.attempts|) else None,
                  Queued, t.event.job.priority, t.at, t.at, 0, t.event.job.maxRetries, None, None)
  {
    hide Inv; hide FindDefense; hide MaxNo; hide ConfiguresBy;
    if !t.event.Create? && !t.event.Submit? && !t.event.Configure? && !t.event.ConfigureHide? {
      SameJobs(s, t);
    } else {
      ConfiguresMeans(s, t);
    }
  }

  predicate ConfiguresReady(s: State, t: Timed) {
    (t.event.Configure? || t.event.ConfigureHide?) && t.event.id < |s.defenses| &&
    s.defenses[t.event.id].status == Ready && ConfiguresBy(t, t.event.id)
  }

  lemma ConfiguresMeans(s: State, t: Timed)
    ensures ConfiguresReady(s, t) <==>
            (t.event.Configure? && t.event.allowed && t.event.wheel.Some? && 60 <= t.event.seconds <= 1800 &&
             t.event.id < |s.defenses| && s.defenses[t.event.id].status == Ready) ||
            (t.event.ConfigureHide? && t.event.allowed && 1 <= t.event.mutations <= 5 &&
             60 <= t.event.seconds <= 1800 && t.event.id < |s.defenses| && s.defenses[t.event.id].status == Ready)
  {
  }

  lemma SameJobs(s: State, t: Timed)
    requires !t.event.Create? && !t.event.Submit? && !t.event.Configure? && !t.event.ConfigureHide?
    ensures var u := Step(s, t);
            |u.jobs| == |s.jobs| && |u.defenses| == |s.defenses| && |u.attempts| == |s.attempts|
  {
    hide ReleaseIf; hide LeaseCount; hide Prepared;
  }

  /** A job that can be handed out when the queue is asked: it waits, or its lease has run out and a
      retry is left. */
  predicate Waits(s: State, t: Timed, i: nat) {
    i < |s.jobs| && s.jobs[i].availableAt <= t.at &&
    (s.jobs[i].state == Queued || (RunsOut(s, t, i) && s.jobs[i].retries < s.jobs[i].maxRetries))
  }

  /** The job handed out waits, and none that waits has a higher priority, or the same and an earlier
      creation; nothing is handed out exactly when nothing waits. */
  lemma PickIsFirst(s: State, t: Timed)
    requires Inv(s) && Enabled(s, t) && t.event.Acquire?
    ensures t.event.pick.None? <==> forall k: nat :: !Waits(s, t, k)
    ensures t.event.pick.Some? ==>
              var i := t.event.pick.value;
              Waits(s, t, i) &&
              forall k: nat :: Waits(s, t, k) ==>
                s.jobs[k].priority < s.jobs[i].priority ||
                (s.jobs[k].priority == s.jobs[i].priority && s.jobs[i].createdAt <= s.jobs[k].createdAt)
  {
    RowFacts(s);
    hide Inv; hide ReleaseIf; hide LapseDefenses; hide LapseAttempts;
    var jobs := LapseLeases(s.(now := t.at)).jobs;
    forall k | 0 <= k < |s.jobs|
      ensures IsAvailable(jobs[k], t.at) <==> Waits(s, t, k)
      ensures jobs[k].priority == s.jobs[k].priority && jobs[k].createdAt == s.jobs[k].createdAt {
      assert JobOk(s, s.jobs[k]);
    }
    hide IsAvailable; hide Waits; hide LapseLeases;
    WaitsInside(s, t);
  }

  lemma WaitsInside(s: State, t: Timed)
    ensures forall k: nat :: Waits(s, t, k) ==> k < |s.jobs|
  {
  }

  // ------------------------------------------------------------------
  // One lease
  // ------------------------------------------------------------------

  /** The row of a lease after the event: an open one is released when its job is finished, cancelled
      or taken back. */
  function NextLease(s: State, t: Timed, k: nat): Lease
    requires k < |s.leases|
  {
    var row := s.leases[k];
    if row.released.Some? || row.job >= |s.jobs| then row
    else if Finishes(s, t, row.job) then row.(released := Some(ByCompletion))
    else if CancelsOpen(s, t, s.jobs[row.job].defense) then row.(released := Some(ByCancel))
    else if RunsOut(s, t, row.job) then row.(released := Some(ByExpiry))
    else row
  }

  lemma CompleteLeaseRow(s: State, t: Timed, k: nat)
    requires Inv(s) && s.now <= t.at && t.event.Complete? && k < |s.leases|
    ensures k < |Step(s, t).leases| && Step(s, t).leases[k] == NextLease(s, t, k)
  {
    var i := t.event.id;
    HeldIsReported(s, t, i);
    LeaseHasJob(s, k);
    RowFacts(s);
    hide Inv; hide HoldsLease;
    if Reports(s, t, i) {
      assert JobOk(s, s.jobs[i]);
      if s.jobs[i].kind == Prepare {
        assert IsLivePrepare(s.jobs, i, s.jobs[i].defense);
      }
    }
  }

  lemma LeaseHasJob(s: State, k: nat)
    requires Inv(s) && k < |s.leases|
    ensures s.leases[k].job < |s.jobs|
  {
    hide PrepareCoupled; hide CheckCoupled; hide JobsOk; hide LeaseCount;
    assert LeaseOk(s, k);
  }

  lemma LeaseAfter(s: State, t: Timed, k: nat)
    requires Inv(s) && Enabled(s, t) && k < |s.leases|
    ensures k < |Step(s, t).leases| && Step(s, t).leases[k] == NextLease(s, t, k)
  {
    LeaseHasJob(s, k);
    hide Inv; hide FindDefense; hide LeaseCount; hide LapseDefenses; hide LapseAttempts; hide LapseJobs; hide MaxNo;
    hide RefusesAttempt; hide CompleteJob; hide FailPending; hide CancelJobs;
    if t.event.Complete? {
      CompleteLeaseRow(s, t, k);
    }
  }

  // ------------------------------------------------------------------
  // Which event of a run decides
  // ------------------------------------------------------------------

  /** When event `k` of the run comes, defense `d` is active, and the event reports a pass under a held
      lease of one of its check jobs. */
  ghost predicate PassedAt(s: State, run: seq<Timed>, k: nat, d: nat) {
    k < |run| && var before := After(s, run[..k]);
    d < |before.defenses| && before.defenses[d].status == Active && PassesBy(before, run[k], d)
  }

  lemma LaterPass(s: State, run: seq<Timed>, k: nat, d: nat)
    requires run != []
    ensures PassedAt(Step(s, run[0]), run[1..], k, d) <==> PassedAt(s, run, k + 1, d)
  {
    hide Step; hide PassesBy;
    if k < |run| - 1 {
      var first := run[..k + 1];
      assert first[0] == run[0] && first[1..] == run[1..][..k];
    }
  }

  lemma {:induction false} PassedWithin(s: State, run: seq<Timed>, d: nat)
    requires Inv(s) && IsRun(s, run) && d < |After(s, run).defenses|
    ensures After(s, run).defenses[d].status == Passed <==>
            (d < |s.defenses| && s.defenses[d].status == Passed) || exists k: nat :: PassedAt(s, run, k, d)
    decreases |run|
  {
    hide Inv; hide Enabled; hide Step; hide PassesBy;
    if run != [] {
      var u := Step(s, run[0]);
      StepKeepsInv(s, run[0]);
      PassedWithin(u, run[1..], d);
      PassedNow(s, run, d);
      hide After; hide IsRun; hide PassedAt;
      forall k: nat ensures PassedAt(u, run[1..], k, d) <==> PassedAt(s, run, k + 1, d) {
        LaterPass(s, run, k, d);
      }
      if k: nat :| PassedAt(s, run, k, d) {
        if k > 0 {
          assert PassedAt(u, run[1..], k - 1, d);
        }
      }
    }
  }

  lemma PassedNow(s: State, run: seq<Timed>, d: nat)
    requires Inv(s) && run != [] && Enabled(s, run[0])
    ensures d < |Step(s, run[0]).defenses| && Step(s, run[0]).defenses[d].status == Passed <==>
            (d < |s.defenses| && s.defenses[d].status == Passed) || PassedAt(s, run, 0, d)
  {
    hide Inv; hide Enabled; hide Step; hide PassesBy;
    assert run[..0] == [];
    NewDefenses(s, run[0]);
    if d < |s.defenses| {
      DefenseAfter(s, run[0], d);
    }
  }

  /** A defense is passed at the end of a run exactly when it was active at some point of it and a
      completion under a held lease of one of its check jobs then reported a pass. */
  lemma PassedIsReported(run: seq<Timed>, d: nat)
    requires IsRun(EMPTY, run) && d < |After(EMPTY, run).defenses|
    ensures After(EMPTY, run).defenses[d].status == Passed <==> exists k: nat :: PassedAt(EMPTY, run, k, d)
  {
    EmptyIsOk();
    PassedWithin(EMPTY, run, d);
  }

  lemma EmptyIsOk()
    ensures Inv(EMPTY)
  {
  }

  /** When event `k` of the run comes, defense `d` is preparing, and the event is a good report under a
      held lease of its prepare job. */
  ghost predicate ActivatedAt(s: State, run: seq<Timed>, k: nat, d: nat) {
    k < |run| && var before := After(s, run[..k]);
    d < |before.defenses| && before.defenses[d].status == Preparing && PreparesBy(before, run[k], d) &&
    IsGood(before.defenses[d], run[k].event.report)
  }

  lemma LaterActivation(s: State, run: seq<Timed>, k: nat, d: nat)
    requires run != []
    ensures ActivatedAt(Step(s, run[0]), run[1..], k, d) <==> ActivatedAt(s, run, k + 1, d)
  {
    hide Step; hide PreparesBy; hide IsGood;
    if k < |run| - 1 {
      var first := run[..k + 1];
      assert first[0] == run[0] && first[1..] == run[1..][..k];
    }
  }

  lemma {:induction false} StartedWithin(s: State, run: seq<Timed>, d: nat, at: int)
    requires Inv(s) && IsRun(s, run) && d < |After(s, run).defenses|
    ensures After(s, run).defenses[d].started == Some(at) <==>
            (d < |s.defenses| && s.defenses[d].started == Some(at)) ||
            exists k: nat :: ActivatedAt(s, run, k, d) && run[k].at == at
    decreases |run|
  {
    hide Inv; hide Enabled; hide Step; hide PreparesBy; hide IsGood;
    if run != [] {
      var u := Step(s, run[0]);
      StepKeepsInv(s, run[0]);
      StartedWithin(u, run[1..], d, at);
      StartedNow(s, run, d, at);
      forall k: nat ensures ActivatedAt(u, run[1..], k, d) <==> ActivatedAt(s, run, k + 1, d) {
        LaterActivation(s, run, k, d);
      }
      hide After; hide IsRun;
      if k: nat :| ActivatedAt(s, run, k, d) && run[k].at == at {
        if k > 0 {
          assert ActivatedAt(u, run[1..], k - 1, d) && run[1..][k - 1].at == at;
        }
      }
      if k: nat :| ActivatedAt(u, run[1..], k, d) && run[1..][k].at == at {
        assert ActivatedAt(s, run, k + 1, d) && run[k + 1].at == at;
      }
    }
  }

  lemma StartedNow(s: State, run: seq<Timed>, d: nat, at: int)
    requires Inv(s) && run != [] && Enabled(s, run[0])
    ensures d < |Step(s, run[0]).defenses| && Step(s, run[0]).defenses[d].started == Some(at) <==>
            (d < |s.defenses| && s.defenses[d].started == Some(at)) || (ActivatedAt(s, run, 0, d) && run[0].at == at)
  {
    assert run[..0] == [];
    NewDefenses(s, run[0]);
    RowFacts(s);
    hide Inv; hide Enabled; hide Step; hide PreparesBy; hide IsGood;
    if d < |s.defenses| {
      DefenseAfter(s, run[0], d);
      assert DefenseOk(s.defenses[d], s.now);
    }
  }

  /** A defense was started at a time exactly when a good report on its prepare job came at that time. */
  lemma StartedIsReported(run: seq<Timed>, d: nat, at: int)
    requires IsRun(EMPTY, run) && d < |After(EMPTY, run).defenses|
    ensures After(EMPTY, run).defenses[d].started == Some(at) <==>
            exists k: nat :: ActivatedAt(EMPTY, run, k, d) && run[k].at == at
  {
    EmptyIsOk();
    StartedWithin(EMPTY, run, d, at);
  }
}
