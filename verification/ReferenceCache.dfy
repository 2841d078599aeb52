/** Verified references and build snapshots: the shortcut that reports an answer as passed
    without executing it. Digests are taken to be collision free, so a tree's digest is the
    stream that is hashed and a cache key is the list of its parts. */
module ReferenceCache {
  import opened Common
  import opened TreeEncoding

  const REFERENCE_TTL: int := 3_600_000_000_000
  const DEFAULT_CACHE_TTL: int := 86_400_000_000_000
  const REFERENCE_LIMIT: nat := 256

  /** The sandbox image and execution policy, as inspected at one moment. */
  datatype Environment = Environment(image: string, policy: string)

  /** What a job asks to be checked: a submission version and a session. */
  datatype Request = Request(version: string, session: string)

  datatype Identity = Identity(request: Request, stream: string, environment: Environment)

  datatype Proof = Proof(stream: string, environment: Environment, verifiedAt: int)

  /** A passing sandbox run. A whole run configures, builds and tests; otherwise the
      configure stage was taken from a stored snapshot. */
  datatype Pass = Pass(id: Identity, at: int, whole: bool)

  /** The three stage results of a sandbox run. */
  datatype Results = Results(configure: bool, build: bool, test: bool)

  predicate AllOk(r: Results) {
    r.configure && r.build && r.test
  }

  const FAILURE := Results(false, false, false)
  const REUSED := Results(true, true, true)

  /** Outcomes of the file operations around a snapshot. */
  datatype Disk = Disk(locked: bool, intact: bool, ready: bool, exported: bool, unpacked: bool, stored: bool)

  const ALL_WELL := Disk(true, true, true, true, true, true)

  /** References are private to the process; snapshots live on disk. */
  datatype World = World(references: map<Identity, Proof>, snapshots: map<Identity, Proof>, clock: int,
                         passes: set<Pass>)

  /** What one verification meets outside itself: the environment as seen for the snapshot and
      seen again for the references, the disk, the runs, and what other jobs do meanwhile. */
  datatype Probe = Probe(
    sight: Option<Environment>, disk: Disk, built: Results, during: World, tested: Results, later: World,
    again: Option<Environment>, readable: bool, run: Results, last: World, rehashed: bool)

  ghost predicate SoundProbe(p: Probe) {
    Sound(p.during) && Sound(p.later) && Sound(p.last)
  }

  function IdentityOf(request: Request, tree: seq<Entry>, environment: Environment): Identity {
    Identity(request, Encoding(tree), environment)
  }

  function ProofOf(id: Identity, at: int): Proof {
    Proof(id.stream, id.environment, at)
  }

  // ------------------------------------------------------------------
  // Soundness of the stores
  // ------------------------------------------------------------------

  predicate Passed(passes: set<Pass>, id: Identity, at: int) {
    Pass(id, at, true) in passes || Pass(id, at, false) in passes
  }

  /** A stored proof repeats its key and dates from a passing run of that key. */
  predicate Backed(passes: set<Pass>, id: Identity, proof: Proof) {
    proof == ProofOf(id, proof.verifiedAt) && Passed(passes, id, proof.verifiedAt)
  }

  ghost predicate AllBacked(passes: set<Pass>, store: map<Identity, Proof>) {
    forall id :: id in store ==> Backed(passes, id, store[id])
  }

  ghost predicate Configured(passes: set<Pass>, id: Identity, at: int) {
    exists t :: t <= at && Pass(id, t, true) in passes
  }

  /** Every pass rests on a whole run of the same identity. */
  ghost predicate Grounded(passes: set<Pass>) {
    forall p :: p in passes ==> Configured(passes, p.id, p.at)
  }

  ghost predicate Sound(w: World) {
    |w.references| <= REFERENCE_LIMIT && AllBacked(w.passes, w.references) && AllBacked(w.passes, w.snapshots) &&
    Grounded(w.passes) && forall p :: p in w.passes ==> p.at <= w.clock
  }

  /** What other jobs may do meanwhile: time goes on and passes are never taken back. */
  predicate Grown(before: World, after: World) {
    before.clock <= after.clock && before.passes <= after.passes
  }

  /** `id` has a passing run that is less than an hour old or was made since `start`, and it
      rests on a whole run of the same identity. */
  ghost predicate Vouched(w: World, id: Identity, start: int) {
    exists at :: Recent(w, id, start, at)
  }

  ghost predicate Recent(w: World, id: Identity, start: int, at: int) {
    Passed(w.passes, id, at) && Configured(w.passes, id, at) && at <= w.clock &&
    (w.clock - at < REFERENCE_TTL || start <= at)
  }

  /** A whole run of `id` that is less than an hour old or was made since `start`. */
  ghost predicate WholeRecent(w: World, id: Identity, start: int) {
    exists at :: WholeAt(w, id, start, at)
  }

  ghost predicate WholeAt(w: World, id: Identity, start: int, at: int) {
    Pass(id, at, true) in w.passes && at <= w.clock && (w.clock - at < REFERENCE_TTL || start <= at)
  }

  /** The proof itself is less than an hour old or was made since `start`. */
  predicate IsFresh(proof: Proof, now: int, start: int) {
    proof.verifiedAt <= now && (now - proof.verifiedAt < REFERENCE_TTL || start <= proof.verifiedAt)
  }

  /** A stored snapshot passes the acceptance test. */
  predicate Loads(w: World, cacheTtl: int, id: Identity, intact: bool) {
    id in w.snapshots && intact &&
    0 <= w.clock - w.snapshots[id].verifiedAt <= (if cacheTtl <= 0 then DEFAULT_CACHE_TTL else cacheTtl)
  }

  /** An accepted snapshot whose proof is too old to be used without a run. */
  predicate Refreshes(w: World, cacheTtl: int, id: Identity, refresh: bool, disk: Disk) {
    Loads(w, cacheTtl, id, disk.intact) && refresh && w.clock - w.snapshots[id].verifiedAt >= REFERENCE_TTL
  }

  predicate Reuses(w: World, cacheTtl: int, id: Identity, refresh: bool, disk: Disk) {
    Loads(w, cacheTtl, id, disk.intact) && !Refreshes(w, cacheTtl, id, refresh, disk)
  }

  /** The original is configured, built, exported and tested, all with success. */
  predicate BuildPasses(disk: Disk, first: Results, second: Results) {
    disk.ready && first.configure && first.build && disk.exported && disk.unpacked && second.test
  }

  /** The build ends with a storage error rather than a verdict. */
  predicate BuildFails(disk: Disk, first: Results, second: Results) {
    !disk.ready || (first.configure && first.build &&
                    (!disk.exported || !disk.unpacked || (second.test && !disk.stored)))
  }

  predicate RefreshFails(disk: Disk, run: Results) {
    !disk.ready || (AllOk(run) && !disk.stored)
  }

  /** What the stores, the clock and the passes of other jobs are at the end of a build, without
      what this call has done itself. */
  function BuildLeft(w: World, disk: Disk, first: Results, during: World, later: World): World {
    if !disk.ready then w
    else if !first.configure || !first.build || !disk.exported || !disk.unpacked then Merged(w, during)
    else Merged(Merged(w, during), later)
  }

  function RefreshLeft(w: World, disk: Disk, during: World): World {
    if !disk.ready then w else Merged(w, during)
  }

  /** Every pass in `after` was there before or is a pass of `id`. */
  ghost predicate OnlyAdds(before: set<Pass>, after: set<Pass>, id: Identity) {
    forall p :: p in after ==> p in before || p.id == id
  }

  lemma VouchesSnapshot(w: World, id: Identity, start: int)
    requires Sound(w) && id in w.snapshots && w.clock - w.snapshots[id].verifiedAt < REFERENCE_TTL
    ensures Vouched(w, id, start)
  {
    Vouches(w, id, start, w.snapshots[id]);
  }

  lemma VouchesReference(w: World, id: Identity, start: int)
    requires Sound(w) && id in w.references && w.clock - w.references[id].verifiedAt < REFERENCE_TTL
    ensures Vouched(w, id, start)
  {
    Vouches(w, id, start, w.references[id]);
  }

  lemma SnapshotIsBacked(w: World, id: Identity)
    requires Sound(w) && id in w.snapshots
    ensures Backed(w.passes, id, w.snapshots[id]) && Configured(w.passes, id, w.snapshots[id].verifiedAt) &&
            w.snapshots[id].verifiedAt <= w.clock
  {
  }

  lemma BackedGrows(before: set<Pass>, after: set<Pass>, store: map<Identity, Proof>)
    requires before <= after && AllBacked(before, store)
    ensures AllBacked(after, store)
  {
  }

  lemma PassKeepsGrounded(passes: set<Pass>, p: Pass)
    requires Grounded(passes) && (p.whole || Configured(passes, p.id, p.at))
    ensures Grounded(passes + {p})
  {
    var more := passes + {p};
    forall q | q in more ensures Configured(more, q.id, q.at) {
      if q == p && p.whole {
        assert Pass(q.id, q.at, true) in more;
      } else {
        var t :| t <= q.at && Pass(q.id, t, true) in passes;
        assert Pass(q.id, t, true) in more;
      }
    }
  }

  lemma Vouches(w: World, id: Identity, start: int, proof: Proof)
    requires Sound(w) && Backed(w.passes, id, proof)
    requires w.clock - proof.verifiedAt < REFERENCE_TTL || start <= proof.verifiedAt
    ensures Vouched(w, id, start)
  {
    assert Recent(w, id, start, proof.verifiedAt);
  }

  function Merged(w: World, others: World): World {
    World(others.references, others.snapshots, Max(w.clock, others.clock), w.passes + others.passes)
  }

  lemma MergedIsSound(w: World, others: World)
    requires Sound(w) && Sound(others)
    ensures Sound(Merged(w, others)) && Grown(w, Merged(w, others))
  {
    hide AllBacked; hide Grounded; hide Configured;
    var all := w.passes + others.passes;
    BothGrounded(w.passes, others.passes);
    BackedGrows(others.passes, all, others.references);
    BackedGrows(others.passes, all, others.snapshots);
  }

  function Recorded(w: World, id: Identity, whole: bool): World {
    w.(passes := w.passes + {Pass(id, w.clock, whole)})
  }

  lemma RecordedIsSound(w: World, id: Identity, whole: bool)
    requires Sound(w) && (whole || Configured(w.passes, id, w.clock))
    ensures var r := Recorded(w, id, whole); Sound(r) && Grown(w, r) && Passed(r.passes, id, r.clock)
  {
    hide AllBacked; hide Grounded; hide Configured;
    var p := Pass(id, w.clock, whole);
    PassKeepsGrounded(w.passes, p);
    BackedGrows(w.passes, w.passes + {p}, w.references);
    BackedGrows(w.passes, w.passes + {p}, w.snapshots);
  }

  lemma DroppedIsSound(w: World, id: Identity)
    requires Sound(w)
    ensures Sound(w.(snapshots := w.snapshots - {id}))
  {
  }

  lemma PublishedIsSound(w: World, id: Identity, start: int)
    requires Sound(w) && Passed(w.passes, id, w.clock) && start <= w.clock
    ensures var r := w.(snapshots := w.snapshots[id := ProofOf(id, w.clock)]);
            Sound(r) && Vouched(r, id, start)
  {
    var r := w.(snapshots := w.snapshots[id := ProofOf(id, w.clock)]);
    Vouches(r, id, start, ProofOf(id, w.clock));
  }

  /** Equal identities mean the same tree: the digest hides no difference. */
  lemma SameIdentitySameTree(r: Request, s: Request, a: seq<Entry>, b: seq<Entry>, e: Environment, f: Environment)
    requires Regular(a) && Regular(b)
    ensures IdentityOf(r, a, e) == IdentityOf(s, b, f) <==> r == s && a == b && e == f
  {
    UniquelyDecodable(a, b);
  }

  // ------------------------------------------------------------------
  // The runner
  // ------------------------------------------------------------------

  /** A sandbox run takes time, and other jobs of the process and of other processes go on
      meanwhile: parameters of type `World` are what they have left in the stores when it ends. */
  class Runner {
    const caching: bool
    const cacheTtl: int
    var references: map<Identity, Proof>
    var snapshots: map<Identity, Proof>
    var clock: int
    ghost var passes: set<Pass>

    ghost function Now(): World
      reads this
    {
      World(references, snapshots, clock, passes)
    }

    /** A process starts with the snapshots on disk and no references. */
    constructor (caching: bool, cacheTtl: int, w: World)
      requires Sound(w)
      ensures this.caching == caching && this.cacheTtl == cacheTtl
      ensures Now() == w.(references := map[]) && Sound(Now())
    {
      this.caching, this.cacheTtl := caching, cacheTtl;
      references, snapshots, clock := map[], w.snapshots, w.clock;
      passes := w.passes;
    }

    method Tick(now: int)
      requires Sound(Now()) && clock <= now
      modifies this`clock
      ensures clock == now && Sound(Now())
    {
      clock := now;
    }

    /** While a sandbox ran, other jobs have left the stores as in `others`. */
    method Meanwhile(others: World)
      requires Sound(Now()) && Sound(others)
      modifies this
      ensures Sound(Now()) && references == others.references && snapshots == others.snapshots
      ensures clock == Max(old(clock), others.clock) && passes == old(passes) + others.passes
    {
      hide Sound;
      MergedIsSound(Now(), others);
      references, snapshots, clock := others.references, others.snapshots, Max(clock, others.clock);
      passes := passes + others.passes;
    }

    /** Keep a proof; a full map is emptied first. */
    method Store(id: Identity, proof: Proof)
      requires Sound(Now())
      modifies this`references
      ensures id in references && references[id] == proof && |references| <= REFERENCE_LIMIT
      ensures references == old(references)[id := proof] ||
              (|old(references)| >= REFERENCE_LIMIT && references == map[id := proof])
      ensures Sound(Now()) <==> Backed(passes, id, proof)
    {
      if |references| >= REFERENCE_LIMIT {
        references := map[];
      }
      references := references[id := proof];
    }

    /** A sandbox run of `id` has passed. */
    ghost method Record(id: Identity, whole: bool)
      requires Sound(Now()) && (whole || Configured(passes, id, clock))
      modifies this`passes
      ensures passes == old(passes) + {Pass(id, clock, whole)} && Sound(Now()) && Passed(passes, id, clock)
    {
      hide Sound;
      RecordedIsSound(Now(), id, whole);
      passes := passes + {Pass(id, clock, whole)};
    }

    /** The acceptance test of a stored snapshot; `intact` is the comparison of its files. */
    method LoadSnapshot(id: Identity, intact: bool) returns (r: Option<Proof>)
      requires Sound(Now())
      ensures r.Some? <==> Loads(Now(), cacheTtl, id, intact)
      ensures r.Some? <==>
                id in snapshots && intact && snapshots[id].verifiedAt <= clock &&
                clock - snapshots[id].verifiedAt <= if cacheTtl > 0 then cacheTtl else 24 * REFERENCE_TTL
      ensures r.Some? ==> r.value == snapshots[id] && Configured(passes, id, r.value.verifiedAt)
    {
      if id !in snapshots {
        return None;
      }
      var v := snapshots[id];
      SnapshotIsBacked(Now(), id);
      var age := clock - v.verifiedAt;
      var ttl := if cacheTtl <= 0 then DEFAULT_CACHE_TTL else cacheTtl;
      if v.stream != id.stream || v.environment != id.environment || age < 0 || age > ttl || !intact {
        return None;
      }
      return Some(v);
    }

    /** Run the original again over its snapshot, and renew or drop the snapshot. The pass that
        is recorded takes its configure stage from the snapshot. */
    method RefreshSnapshot(id: Identity, disk: Disk, run: Results, during: World)
      returns (snapshot: Option<Proof>, results: Results, failed: bool)
      requires Sound(Now()) && Sound(during) && id in snapshots
      modifies this
      ensures Sound(Now()) && Grown(old(Now()), Now())
      ensures !disk.ready ==> clock == old(clock) && references == old(references) && passes == old(passes)
      ensures disk.ready ==> clock == Max(old(clock), during.clock) && references == during.references
      ensures disk.ready && !AllOk(run) ==> passes == old(passes) + during.passes
      ensures disk.ready && AllOk(run) ==> passes == old(passes) + during.passes + {Pass(id, clock, false)}
      ensures disk.ready && !AllOk(run) ==> id !in snapshots
      ensures snapshot.Some? ==> id in snapshots && snapshots[id] == snapshot.value
      ensures failed <==> RefreshFails(disk, run)
      ensures snapshot == if !failed && AllOk(run) then Some(ProofOf(id, clock)) else None
      ensures !failed ==> results == run
      ensures snapshot.Some? ==> Vouched(Now(), id, old(clock))
    {
      hide Sound; hide Vouched; hide Configured; hide Passed; hide Backed;
      if !disk.ready {
        return None, FAILURE, true;
      }
      ghost var before := Now();
      SnapshotIsBacked(before, id);
      Meanwhile(during);
      ConfiguredLater(before, Now(), id, before.snapshots[id].verifiedAt);
      if !AllOk(run) {
        DroppedIsSound(Now(), id);
        snapshots := snapshots - {id};
        return None, run, false;
      }
      snapshot := Certify(id, false, disk.stored, old(clock));
      return snapshot, run, !disk.stored;
    }

    /** Configure and build the original, store what was built, and test it. The pass that is
        recorded is whole. */
    method BuildSnapshot(id: Identity, disk: Disk, first: Results, during: World, second: Results, later: World)
      returns (snapshot: Option<Proof>, results: Results, failed: bool)
      requires Sound(Now()) && Sound(during) && Sound(later)
      modifies this
      ensures Sound(Now()) && Grown(old(Now()), Now())
      ensures clock == BuildLeft(old(Now()), disk, first, during, later).clock
      ensures references == BuildLeft(old(Now()), disk, first, during, later).references
      ensures BuildPasses(disk, first, second) ==>
                passes == BuildLeft(old(Now()), disk, first, during, later).passes + {Pass(id, clock, true)}
      ensures !BuildPasses(disk, first, second) ==> passes == BuildLeft(old(Now()), disk, first, during, later).passes
      ensures snapshot == if BuildPasses(disk, first, second) && disk.stored then Some(ProofOf(id, clock)) else None
      ensures snapshot.Some? ==> id in snapshots && snapshots[id] == snapshot.value && Vouched(Now(), id, old(clock))
      ensures failed <==> BuildFails(disk, first, second)
      ensures !failed ==> (snapshot.Some? <==> AllOk(results))
    {
      hide Sound; hide Vouched; hide Configured; hide Backed; hide Passed;
      DroppedIsSound(Now(), id);
      snapshots := snapshots - {id};
      if !disk.ready {
        return None, FAILURE, true;
      }
      Meanwhile(during);
      if !first.configure || !first.build {
        return None, first, false;
      }
      if !disk.exported || !disk.unpacked {
        return None, first, true;
      }
      Meanwhile(later);
      results := first.(test := second.test);
      if !AllOk(results) {
        return None, results, false;
      }
      snapshot := Certify(id, true, disk.stored, old(clock));
      return snapshot, results, !disk.stored;
    }

    /** Reuse, refresh or build the snapshot of `id`. A reuse runs nothing and takes no time; only
        one that was not asked to be fresh may rest on a pass more than an hour old. */
    method EnsureSnapshot(id: Identity, refresh: bool, disk: Disk, first: Results, during: World, second: Results,
                          later: World)
      returns (snapshot: Option<Proof>, results: Results, failed: bool)
      requires Sound(Now()) && Sound(during) && Sound(later)
      modifies this
      ensures Sound(Now()) && Grown(old(Now()), Now())
      ensures clock == SnapshotLeft(old(Now()), cacheTtl, id, refresh, disk, first, during, later).clock
      ensures references == SnapshotLeft(old(Now()), cacheTtl, id, refresh, disk, first, during, later).references
      ensures passes == SnapshotLeft(old(Now()), cacheTtl, id, refresh, disk, first, during, later).passes +
                        SnapshotPass(old(Now()), cacheTtl, id, refresh, disk, first, second, clock)
      ensures snapshot.Some? <==> Yields(old(Now()), cacheTtl, id, refresh, disk, first, second)
      ensures failed <==> Fails(old(Now()), cacheTtl, id, refresh, disk, first, second)
      ensures !failed ==> (snapshot.Some? <==> AllOk(results))
      ensures snapshot.Some? ==> !failed && id in snapshots && snapshots[id] == snapshot.value
      ensures snapshot.Some? && refresh ==> Vouched(Now(), id, old(clock)) && IsFresh(snapshot.value, clock, old(clock))
      ensures snapshot.Some? && !old(Reuses(Now(), cacheTtl, id, refresh, disk)) ==>
                snapshot.value == ProofOf(id, clock)
    {
      hide Sound; hide Vouched; hide Configured; hide Passed; hide Backed; hide BuildLeft;
      hide BuildFails; hide RefreshFails; hide BuildPasses;
      BuildVerdict(disk, first, second);
      if !disk.locked {
        return None, FAILURE, true;
      }
      var current := LoadSnapshot(id, disk.intact);
      if current.None? {
        snapshot, results, failed := BuildSnapshot(id, disk, first, during, second, later);
      } else if refresh && clock - current.value.verifiedAt >= REFERENCE_TTL {
        RefreshVerdict(disk, first);
        snapshot, results, failed := RefreshSnapshot(id, disk, first, during);
      } else {
        if refresh {
          VouchesSnapshot(Now(), id, clock);
        }
        return current, REUSED, false;
      }
    }

    /** A run of `id` has just passed: store its snapshot if the disk allows. */
    method Certify(id: Identity, ghost whole: bool, stored: bool, ghost start: int) returns (snapshot: Option<Proof>)
      requires Sound(Now()) && (whole || Configured(passes, id, clock)) && start <= clock
      modifies this`passes, this`snapshots
      ensures Sound(Now()) && passes == old(passes) + {Pass(id, clock, whole)}
      ensures snapshot == if stored then Some(ProofOf(id, clock)) else None
      ensures stored ==> id in snapshots && snapshots[id] == ProofOf(id, clock) && Vouched(Now(), id, start)
    {
      hide Sound; hide Vouched; hide Configured; hide Passed;
      Record(id, whole);
      if !stored {
        return None;
      }
      PublishedIsSound(Now(), id, start);
      snapshots := snapshots[id := ProofOf(id, clock)];
      return Some(ProofOf(id, clock));
    }

    /** Remember that `tree` has passed in `environment`; `rehashed` says whether the tree
        could be read again. The references stay sound exactly when it has. */
    method RememberReference(request: Request, tree: seq<Entry>, environment: Environment, rehashed: bool)
      returns (stored: bool)
      requires Sound(Now())
      modifies this`references
      ensures stored <==> Remembers(environment, tree, rehashed)
      ensures !stored ==> references == old(references)
      ensures stored ==>
                var id := IdentityOf(request, tree, environment);
                id in references && references[id] == ProofOf(id, clock)
      ensures Sound(Now()) <==> !stored || Passed(passes, IdentityOf(request, tree, environment), clock)
    {
      hide Sound; hide Encoding;
      var regular := ProjectStream(tree);
      if environment.image == "" || environment.policy == "" || regular.None? || !rehashed {
        return false;
      }
      var id := IdentityOf(request, tree, environment);
      Store(id, ProofOf(id, clock));
      return true;
    }

    /** The snapshot half: inspect the environment, then ensure the snapshot. */
    method VerifyBySnapshot(request: Request, tree: seq<Entry>, probe: Probe)
      returns (settled: bool, proof: Option<Proof>, results: Results)
      requires Sound(Now()) && SoundProbe(probe)
      modifies this
      ensures Sound(Now()) && Grown(old(Now()), Now())
      ensures settled <==> old(Settles(Now(), caching, cacheTtl, request, tree, probe))
      ensures settled ==> (proof.Some? <==> AllOk(results))
      ensures proof.Some? <==>
                Tries(caching, tree, probe) &&
                Yields(old(Now()), cacheTtl, SightOf(request, tree, probe), true, probe.disk, probe.built, probe.tested)
      ensures proof.Some? ==> settled && Regular(tree) && probe.sight.Some?
      ensures proof.Some? ==>
                var id := SightOf(request, tree, probe);
                Vouched(Now(), id, old(clock)) && Backed(passes, id, proof.value) &&
                IsFresh(proof.value, clock, old(clock))
      ensures clock == HalfLeft(old(Now()), caching, cacheTtl, request, tree, probe).clock
      ensures !settled ==> references == HalfLeft(old(Now()), caching, cacheTtl, request, tree, probe).references
      ensures passes == HalfLeft(old(Now()), caching, cacheTtl, request, tree, probe).passes +
                        HalfPass(old(Now()), caching, cacheTtl, request, tree, probe, clock)
    {
      hide Sound; hide Vouched; hide Encoding; hide Backed; hide Configured; hide Passed;
      hide Fails; hide Yields; hide SnapshotLeft; hide SnapshotPass;
      var stream := ProjectStream(tree);
      if !caching || probe.sight.None? || stream.None? {
        return false, None, FAILURE;
      }
      var id := IdentityOf(request, tree, probe.sight.value);
      var failed;
      proof, results, failed := EnsureSnapshot(id, true, probe.disk, probe.built, probe.during, probe.tested,
                                               probe.later);
      if failed {
        return false, None, FAILURE;
      }
      if proof.None? {
        return true, None, results;
      }
      SnapshotIsBacked(Now(), id);
      VouchedStays(Now(), id, old(clock));
      Store(id, proof.value);
      return true, proof, results;
    }

    /** The other half: a recent reference, or a whole run that is then remembered. When it is
        not remembered, the proof is whatever older one the map still holds. */
    method VerifyByReference(request: Request, tree: seq<Entry>, sight: Option<Environment>, readable: bool,
                             run: Results, during: World, rehashed: bool)
      returns (proof: Option<Proof>, results: Results)
      requires Sound(Now()) && Sound(during)
      modifies this
      ensures Sound(Now()) && Grown(old(Now()), Now())
      ensures proof.Some? ==> AllOk(results) && Regular(tree) && sight.Some?
      ensures proof.Some? <==> ReferenceYields(old(Now()), request, tree, sight, readable, run, during, rehashed)
      ensures proof.Some? ==>
                var id := IdentityOf(request, tree, sight.value);
                Vouched(Now(), id, old(clock)) && Backed(passes, id, proof.value) &&
                (IsFresh(proof.value, clock, old(clock)) ||
                 (Pass(id, clock, true) in passes && !Remembers(sight.value, tree, rehashed)))
      ensures clock == ReferenceLeft(old(Now()), request, tree, sight, readable, during).clock
      ensures passes == ReferenceLeft(old(Now()), request, tree, sight, readable, during).passes +
                        ReferencePass(old(Now()), request, tree, sight, readable, run, clock)
      ensures sight.Some? && Regular(tree) && readable && AllOk(run) && !Remembers(sight.value, tree, rehashed) &&
              !old(Known(Now(), IdentityOf(request, tree, sight.value))) ==>
                var id := IdentityOf(request, tree, sight.value);
                proof == if id in during.references then Some(during.references[id]) else None
    {
      hide Sound; hide Vouched; hide Encoding; hide Backed; hide Configured;
      var stream := ProjectStream(tree);
      if sight.Some? {
        if stream.None? {
          return None, FAILURE;
        }
        var id := IdentityOf(request, tree, sight.value);
        if id in references && 0 <= clock - references[id].verifiedAt < REFERENCE_TTL {
          VouchesReference(Now(), id, clock);
          ReferenceIsBacked(Now(), id);
          return Some(references[id]), REUSED;
        }
      }
      if !readable {
        return None, FAILURE;
      }
      Meanwhile(during);
      if !AllOk(run) || sight.None? {
        return None, run;
      }
      var id := IdentityOf(request, tree, sight.value);
      Record(id, true);
      JustRun(Now(), id, old(clock));
      VouchedStays(Now(), id, old(clock));
      var stored := RememberReference(request, tree, sight.value, rehashed);
      if id !in references {
        return None, run;
      }
      ReferenceIsBacked(Now(), id);
      return Some(references[id]), run;
    }

    /** A proof that the original passes: a snapshot, a reference or a run. `id` is the identity
        that was verified. Whatever the stores hold, there is a whole run of it that is less than an
        hour old or was made in this call if and only if this call configures, builds and tests
        it itself, or one is on record from earlier or from another job. */
    method VerifyOriginal(request: Request, tree: seq<Entry>, probe: Probe)
      returns (proof: Option<Proof>, results: Results, ghost id: Identity)
      requires Sound(Now()) && SoundProbe(probe)
      modifies this
      ensures Sound(Now()) && Grown(old(Now()), Now())
      ensures proof.Some? ==> AllOk(results) && Certified(Now(), request, tree, probe, old(clock))
      ensures proof.Some? <==> Proves(old(Now()), caching, cacheTtl, request, tree, probe)
      ensures proof.Some? ==> Seen(request, tree, probe, id) && Vouched(Now(), id, old(clock)) &&
                              Backed(passes, id, proof.value)
      ensures proof.Some? ==>
                IsFresh(proof.value, clock, old(clock)) ||
                (WholeRecent(Now(), id, old(clock)) && probe.again.Some? &&
                 !Remembers(probe.again.value, tree, probe.rehashed))
      ensures clock == Left(old(Now()), caching, cacheTtl, request, tree, probe).clock
      ensures forall p :: p in passes && p.whole ==>
                            p in Left(old(Now()), caching, cacheTtl, request, tree, probe).passes ||
                            Configures(old(Now()), caching, cacheTtl, request, tree, probe, p.id)
      ensures proof.Some? ==>
                (WholeRecent(Now(), id, old(clock)) <==>
                 Configures(old(Now()), caching, cacheTtl, request, tree, probe, id) ||
                 WholeRecent(Left(old(Now()), caching, cacheTtl, request, tree, probe), id, old(clock)))
    {
      hide Sound; hide Vouched; hide Encoding; hide Backed; hide WholeRecent; hide IsFresh; hide Remembers;
      hide Yields; hide HalfLeft; hide HalfPass; hide Settles; hide ReferenceLeft; hide ReferencePass; hide Known;
      hide ReferenceYields;
      var settled;
      ghost var before := Now();
      settled, proof, results := VerifyBySnapshot(request, tree, probe);
      id := SightOf(request, tree, probe);
      ghost var half, left := HalfLeft(before, caching, cacheTtl, request, tree, probe),
                              Left(before, caching, cacheTtl, request, tree, probe);
      ghost var own := HalfPass(before, caching, cacheTtl, request, tree, probe, half.clock);
      if settled {
        HalfOwn(before, caching, cacheTtl, request, tree, probe);
        if proof.Some? {
          WholeByOwn(Now(), left, own, id, before.clock,
                     Configures(before, caching, cacheTtl, request, tree, probe, id));
        }
        return;
      }
      ghost var middle := Now();
      proof, results := VerifyByReference(request, tree, probe.again, probe.readable, probe.run, probe.last,
                                          probe.rehashed);
      SameReferences(middle, half, own, request, tree, probe, clock);
      ghost var run := ReferencePass(half, request, tree, probe.again, probe.readable, probe.run, clock);
      HalfOwn(before, caching, cacheTtl, request, tree, probe);
      ReferenceOwn(half, request, tree, probe, clock);
      if proof.Some? {
        id := IdentityOf(request, tree, probe.again.value);
        VouchedEarlier(Now(), id, before.clock, middle.clock);
        FreshEarlier(proof.value, clock, before.clock, middle.clock);
        if Pass(id, clock, true) in passes {
          JustWhole(Now(), id, before.clock);
        }
        WholeByOwn(Now(), left, own + run, id, before.clock,
                   Configures(before, caching, cacheTtl, request, tree, probe, id));
      }
    }
  }

  // ------------------------------------------------------------------
  // What a call does, read off its inputs
  // ------------------------------------------------------------------

  function SnapshotLeft(w: World, cacheTtl: int, id: Identity, refresh: bool, disk: Disk, first: Results, during: World,
                        later: World): World {
    if !disk.locked || Reuses(w, cacheTtl, id, refresh, disk) then w
    else if Loads(w, cacheTtl, id, disk.intact) then RefreshLeft(w, disk, during)
    else BuildLeft(w, disk, first, during, later)
  }

  /** The pass that ensuring a snapshot records, at time `at`. */
  function SnapshotPass(w: World, cacheTtl: int, id: Identity, refresh: bool, disk: Disk, first: Results,
                        second: Results, at: int): set<Pass> {
    if !disk.locked || Reuses(w, cacheTtl, id, refresh, disk) then {}
    else if Loads(w, cacheTtl, id, disk.intact) then (if disk.ready && AllOk(first) then {Pass(id, at, false)} else {})
    else if BuildPasses(disk, first, second) then {Pass(id, at, true)} else {}
  }

  /** A snapshot is the result. */
  predicate Yields(w: World, cacheTtl: int, id: Identity, refresh: bool, disk: Disk, first: Results, second: Results) {
    disk.locked &&
    if Reuses(w, cacheTtl, id, refresh, disk) then true
    else if Loads(w, cacheTtl, id, disk.intact) then AllOk(first) && !RefreshFails(disk, first)
    else BuildPasses(disk, first, second) && disk.stored
  }

  /** An error of the store is the result. */
  predicate Fails(w: World, cacheTtl: int, id: Identity, refresh: bool, disk: Disk, first: Results, second: Results) {
    !disk.locked ||
    (!Reuses(w, cacheTtl, id, refresh, disk) &&
     if Loads(w, cacheTtl, id, disk.intact) then RefreshFails(disk, first) else BuildFails(disk, first, second))
  }

  lemma BuildVerdict(disk: Disk, first: Results, second: Results)
    ensures BuildPasses(disk, first, second) && disk.stored ==> !BuildFails(disk, first, second)
  {
  }

  lemma RefreshVerdict(disk: Disk, run: Results)
    ensures !RefreshFails(disk, run) ==> disk.ready && (AllOk(run) ==> disk.stored)
  {
  }

  /** The identity of the tree in the environment seen first. */
  function SightOf(request: Request, tree: seq<Entry>, probe: Probe): Identity {
    IdentityOf(request, tree, if probe.sight.Some? then probe.sight.value else Environment("", ""))
  }

  predicate Tries(caching: bool, tree: seq<Entry>, probe: Probe) {
    caching && probe.sight.Some? && Regular(tree)
  }

  /** The snapshot half has the last word. */
  predicate Settles(w: World, caching: bool, cacheTtl: int, request: Request, tree: seq<Entry>, probe: Probe) {
    Tries(caching, tree, probe) &&
    !Fails(w, cacheTtl, SightOf(request, tree, probe), true, probe.disk, probe.built, probe.tested)
  }

  function HalfLeft(w: World, caching: bool, cacheTtl: int, request: Request, tree: seq<Entry>, probe: Probe): World {
    if Tries(caching, tree, probe)
    then SnapshotLeft(w, cacheTtl, SightOf(request, tree, probe), true, probe.disk, probe.built, probe.during,
                      probe.later)
    else w
  }

  function HalfPass(w: World, caching: bool, cacheTtl: int, request: Request, tree: seq<Entry>, probe: Probe,
                    at: int): set<Pass> {
    if Tries(caching, tree, probe)
    then SnapshotPass(w, cacheTtl, SightOf(request, tree, probe), true, probe.disk, probe.built, probe.tested, at)
    else {}
  }

  /** The reference half runs the sandbox. */
  predicate ReferenceRuns(w: World, request: Request, tree: seq<Entry>, sight: Option<Environment>, readable: bool) {
    readable && (sight.Some? ==> Regular(tree) && !Known(w, IdentityOf(request, tree, sight.value)))
  }

  /** The reference half gives a proof: a recent reference, or a passing run that is remembered
      or meets a reference that another job has left. */
  predicate ReferenceYields(w: World, request: Request, tree: seq<Entry>, sight: Option<Environment>, readable: bool,
                            run: Results, during: World, rehashed: bool) {
    sight.Some? && Regular(tree) &&
    var id := IdentityOf(request, tree, sight.value);
    Known(w, id) ||
    (readable && run.configure && run.build && run.test &&
     (Remembers(sight.value, tree, rehashed) || id in during.references))
  }

  /** The original is proved to pass: by its snapshot, or, when the snapshot gives no verdict, by a reference. */
  predicate Proves(w: World, caching: bool, cacheTtl: int, request: Request, tree: seq<Entry>, probe: Probe) {
    (Tries(caching, tree, probe) &&
     Yields(w, cacheTtl, SightOf(request, tree, probe), true, probe.disk, probe.built, probe.tested)) ||
    (!Settles(w, caching, cacheTtl, request, tree, probe) &&
     ReferenceYields(HalfLeft(w, caching, cacheTtl, request, tree, probe), request, tree, probe.again, probe.readable,
                     probe.run, probe.last, probe.rehashed))
  }

  function ReferenceLeft(w: World, request: Request, tree: seq<Entry>, sight: Option<Environment>, readable: bool,
                         during: World): World {
    if ReferenceRuns(w, request, tree, sight, readable) then Merged(w, during) else w
  }

  function ReferencePass(w: World, request: Request, tree: seq<Entry>, sight: Option<Environment>, readable: bool,
                         run: Results, at: int): set<Pass> {
    if ReferenceRuns(w, request, tree, sight, readable) && sight.Some? && AllOk(run)
    then {Pass(IdentityOf(request, tree, sight.value), at, true)} else {}
  }

  /** The clock, and the passes from before the call and from other jobs, at the end of it. */
  function Left(w: World, caching: bool, cacheTtl: int, request: Request, tree: seq<Entry>, probe: Probe): World {
    var half := HalfLeft(w, caching, cacheTtl, request, tree, probe);
    if Settles(w, caching, cacheTtl, request, tree, probe) then half
    else ReferenceLeft(half, request, tree, probe.again, probe.readable, probe.last)
  }

  /** The call itself configures, builds and tests `id` with success: for want of an acceptable
      snapshot, or of a snapshot verdict and a usable reference. */
  predicate Configures(w: World, caching: bool, cacheTtl: int, request: Request, tree: seq<Entry>, probe: Probe,
                       id: Identity) {
    (Tries(caching, tree, probe) && probe.disk.locked &&
     !Loads(w, cacheTtl, SightOf(request, tree, probe), probe.disk.intact) &&
     BuildPasses(probe.disk, probe.built, probe.tested) && id == SightOf(request, tree, probe)) ||
    (!Settles(w, caching, cacheTtl, request, tree, probe) && probe.again.Some? && AllOk(probe.run) &&
     ReferenceRuns(HalfLeft(w, caching, cacheTtl, request, tree, probe), request, tree, probe.again, probe.readable) &&
     id == IdentityOf(request, tree, probe.again.value))
  }

  /** What the first half has recorded itself. */
  lemma HalfOwn(w: World, caching: bool, cacheTtl: int, request: Request, tree: seq<Entry>, probe: Probe)
    ensures var half := HalfLeft(w, caching, cacheTtl, request, tree, probe);
            var own := HalfPass(w, caching, cacheTtl, request, tree, probe, half.clock);
            w.clock <= half.clock && (forall p :: p in own ==> p.at == half.clock) &&
            forall p :: p in own && p.whole <==>
                          p == Pass(SightOf(request, tree, probe), half.clock, true) && Tries(caching, tree, probe) &&
                          probe.disk.locked && !Loads(w, cacheTtl, SightOf(request, tree, probe), probe.disk.intact) &&
                          BuildPasses(probe.disk, probe.built, probe.tested)
  {
    hide Encoding; hide BuildPasses;
  }

  lemma ReferenceOwn(w: World, request: Request, tree: seq<Entry>, probe: Probe, at: int)
    ensures w.clock <= ReferenceLeft(w, request, tree, probe.again, probe.readable, probe.last).clock
    ensures forall p :: p in ReferencePass(w, request, tree, probe.again, probe.readable, probe.run, at) <==>
                          probe.again.Some? && AllOk(probe.run) &&
                          p == Pass(IdentityOf(request, tree, probe.again.value), at, true) &&
                          ReferenceRuns(w, request, tree, probe.again, probe.readable)
  {
    hide Encoding; hide ReferenceRuns;
  }

  /** The reference half does not look at passes. */
  lemma SameReferences(middle: World, half: World, own: set<Pass>, request: Request, tree: seq<Entry>, probe: Probe,
                       at: int)
    requires middle.references == half.references && middle.clock == half.clock && middle.passes == half.passes + own
    ensures var left, left' := ReferenceLeft(middle, request, tree, probe.again, probe.readable, probe.last),
                               ReferenceLeft(half, request, tree, probe.again, probe.readable, probe.last);
            left.clock == left'.clock && left.passes == left'.passes + own
    ensures ReferencePass(middle, request, tree, probe.again, probe.readable, probe.run, at) ==
            ReferencePass(half, request, tree, probe.again, probe.readable, probe.run, at)
    ensures ReferenceYields(middle, request, tree, probe.again, probe.readable, probe.run, probe.last,
                            probe.rehashed) ==
            ReferenceYields(half, request, tree, probe.again, probe.readable, probe.run, probe.last, probe.rehashed)
  {
    hide Encoding;
  }

  /** A recent whole run is the call's own or was there without it. */
  lemma WholeByOwn(now: World, left: World, own: set<Pass>, id: Identity, start: int, configures: bool)
    requires now.passes == left.passes + own && now.clock == left.clock
    requires forall p :: p in own ==> start <= p.at <= now.clock
    requires configures <==> exists p :: p in own && p.whole && p.id == id
    ensures WholeRecent(now, id, start) <==> configures || WholeRecent(left, id, start)
  {
    if WholeRecent(now, id, start) {
      var at :| WholeAt(now, id, start, at);
      if Pass(id, at, true) in left.passes {
        assert WholeAt(left, id, start, at);
      }
    }
    if configures {
      var p :| p in own && p.whole && p.id == id;
      assert p == Pass(id, p.at, true);
      assert WholeAt(now, id, start, p.at);
    }
    if WholeRecent(left, id, start) {
      var at :| WholeAt(left, id, start, at);
      assert WholeAt(now, id, start, at);
    }
  }

  lemma JustWhole(w: World, id: Identity, start: int)
    requires Pass(id, w.clock, true) in w.passes && start <= w.clock
    ensures WholeRecent(w, id, start)
  {
    assert WholeAt(w, id, start, w.clock);
  }

  predicate Remembers(environment: Environment, tree: seq<Entry>, rehashed: bool) {
    environment.image != "" && environment.policy != "" && Regular(tree) && rehashed
  }

  /** A reference that may be used without a run. */
  predicate Known(w: World, id: Identity) {
    id in w.references && 0 <= w.clock - w.references[id].verifiedAt < REFERENCE_TTL
  }

  predicate Seen(request: Request, tree: seq<Entry>, probe: Probe, id: Identity) {
    Regular(tree) && (
      (probe.sight.Some? && id == IdentityOf(request, tree, probe.sight.value)) ||
      (probe.again.Some? && id == IdentityOf(request, tree, probe.again.value)))
  }

  lemma ReferenceIsBacked(w: World, id: Identity)
    requires Sound(w) && id in w.references
    ensures Backed(w.passes, id, w.references[id]) && w.references[id].verifiedAt <= w.clock
  {
  }

  lemma JustRun(w: World, id: Identity, start: int)
    requires Sound(w) && Pass(id, w.clock, true) in w.passes && start <= w.clock
    ensures Vouched(w, id, start)
  {
    Vouches(w, id, start, ProofOf(id, w.clock));
  }

  lemma FreshEarlier(proof: Proof, now: int, start: int, later: int)
    requires start <= later
    ensures IsFresh(proof, now, later) ==> IsFresh(proof, now, start)
  {
  }

  lemma NoneRecent(w: World, id: Identity, start: int)
    requires start <= w.clock && forall p :: p in w.passes && p.id == id && p.whole ==> start - p.at >= REFERENCE_TTL
    ensures !WholeRecent(w, id, start)
  {
  }

  /** The tree has passed in an environment that was seen in this call. */
  ghost predicate Certified(w: World, request: Request, tree: seq<Entry>, probe: Probe, start: int) {
    Regular(tree) && (
      (probe.sight.Some? && Vouched(w, IdentityOf(request, tree, probe.sight.value), start)) ||
      (probe.again.Some? && Vouched(w, IdentityOf(request, tree, probe.again.value), start)))
  }

  lemma VouchedStays(w: World, id: Identity, start: int)
    requires Vouched(w, id, start)
    ensures forall r: World {:trigger Vouched(r, id, start)} :: r.passes == w.passes && r.clock == w.clock ==>
                                                                  Vouched(r, id, start)
  {
    var at :| Recent(w, id, start, at);
    forall r: World | r.passes == w.passes && r.clock == w.clock ensures Vouched(r, id, start) {
      assert Recent(r, id, start, at);
    }
  }

  lemma VouchedEarlier(w: World, id: Identity, start: int, later: int)
    requires Vouched(w, id, later) && start <= later
    ensures Vouched(w, id, start)
  {
    var at :| Recent(w, id, later, at);
    assert Recent(w, id, start, at);
  }

  lemma BothGrounded(a: set<Pass>, b: set<Pass>)
    requires Grounded(a) && Grounded(b)
    ensures Grounded(a + b)
  {
    forall p | p in a + b ensures Configured(a + b, p.id, p.at) {
      var part := if p in a then a else b;
      var t :| t <= p.at && Pass(p.id, t, true) in part;
      assert Pass(p.id, t, true) in a + b;
    }
  }

  lemma ConfiguredLater(before: World, after: World, id: Identity, at: int)
    requires Grown(before, after) && Configured(before.passes, id, at) && at <= before.clock
    ensures Configured(after.passes, id, after.clock)
  {
    var t :| t <= at && Pass(id, t, true) in before.passes;
    assert Pass(id, t, true) in after.passes;
  }
}
