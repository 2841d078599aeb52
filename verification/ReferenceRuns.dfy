/** Runs of the reference cache that show its limits. */
module ReferenceRuns {
  import opened Common
  import opened TreeEncoding
  import opened ReferenceCache

  const IMAGE := Environment("image", "policy")
  const TREE := [File("a.cpp", "x")]
  const REQUEST := Request("version", "session")
  const GOOD := Results(true, true, true)

  function Key(): Identity {
    IdentityOf(REQUEST, TREE, IMAGE)
  }

  /** Everything works, and other jobs leave `idle`. */
  function Probing(idle: World): Probe {
    Probe(Some(IMAGE), ALL_WELL, GOOD, idle, GOOD, idle, Some(IMAGE), true, GOOD, idle, true)
  }

  /** The stores with one snapshot, built at 0 and verified last at `at`. */
  function Idle(id: Identity, at: int, clock: int): World {
    World(map[], map[id := ProofOf(id, at)], clock, {Pass(id, 0, true), Pass(id, at, false)})
  }

  lemma IdleIsSound(id: Identity, at: int, clock: int)
    requires 0 <= at <= clock
    ensures Sound(Idle(id, at, clock))
  {
    var w := Idle(id, at, clock);
    assert Pass(id, 0, true) in w.passes && Pass(id, at, false) in w.passes;
    assert forall p :: p in w.passes ==> Configured(w.passes, p.id, p.at);
  }

  lemma EmptyIsSound(clock: int)
    ensures Sound(World(map[], map[], clock, {}))
  {
  }

  /** No run has configured the project since time 0. */
  ghost predicate ConfiguredAtZero(passes: set<Pass>) {
    forall p :: p in passes && p.whole ==> p.at <= 0
  }

  lemma NoWholeSince(w: World, id: Identity, start: int)
    requires ConfiguredAtZero(w.passes) && REFERENCE_TTL <= start <= w.clock
    ensures !WholeRecent(w, id, start)
  {
    NoneRecent(w, id, start);
  }

  /** A snapshot is built at 0 and then refreshed `n` times, an hour apart. */
  method RefreshedOften(n: nat) returns (runner: Runner)
    ensures fresh(runner) && runner.caching && runner.cacheTtl == 0 && Sound(runner.Now())
    ensures runner.clock == n * REFERENCE_TTL && ConfiguredAtZero(runner.passes)
    ensures Key() in runner.snapshots && runner.snapshots[Key()].verifiedAt == runner.clock
  {
    hide Sound; hide Vouched; hide Encoding;
    var id, empty := Key(), World(map[], map[], 0, {});
    EmptyIsSound(0);
    runner := new Runner(true, 0, empty);
    var first, _, _ := runner.EnsureSnapshot(id, true, ALL_WELL, GOOD, empty, GOOD, empty);
    var k := 0;
    while k < n
      invariant 0 <= k <= n && fresh(runner) && runner.caching && runner.cacheTtl == 0 && Sound(runner.Now())
      invariant runner.clock == k * REFERENCE_TTL && ConfiguredAtZero(runner.passes)
      invariant id in runner.snapshots && runner.snapshots[id].verifiedAt == runner.clock
    {
      RefreshOnce(runner, id);
      k := k + 1;
    }
  }

  method RefreshOnce(runner: Runner, id: Identity)
    requires runner.cacheTtl == 0 && Sound(runner.Now()) && 0 <= runner.clock && ConfiguredAtZero(runner.passes)
    requires id in runner.snapshots && runner.snapshots[id].verifiedAt == runner.clock
    modifies runner
    ensures Sound(runner.Now()) && runner.clock == old(runner.clock) + REFERENCE_TTL && ConfiguredAtZero(runner.passes)
    ensures id in runner.snapshots && runner.snapshots[id].verifiedAt == runner.clock
  {
    hide Sound; hide Vouched; hide Encoding;
    var at := runner.clock;
    runner.Tick(at + REFERENCE_TTL);
    var idle := Idle(id, at, runner.clock);
    IdleIsSound(id, at, runner.clock);
    var snapshot, _, _ := runner.EnsureSnapshot(id, true, ALL_WELL, GOOD, idle, GOOD, idle);
  }

  /** However long ago the project was configured, a refresh returns a proof: the only run that
      configured it is `n + 1` hours old. */
  method ConfigureIsOld(n: nat) returns (runner: Runner, proof: Option<Proof>, ghost id: Identity, ghost start: int)
    ensures proof.Some? && Vouched(runner.Now(), id, start) && start == (n + 1) * REFERENCE_TTL
    ensures ConfiguredAtZero(runner.passes) && !WholeRecent(runner.Now(), id, start)
  {
    hide Sound; hide Vouched; hide Encoding; hide WholeRecent;
    runner := RefreshedOften(n);
    var at := runner.clock;
    runner.Tick(at + REFERENCE_TTL);
    start := runner.clock;
    var idle := Idle(Key(), at, runner.clock);
    IdleIsSound(Key(), at, runner.clock);
    ghost var before := runner.Now();
    var results;
    proof, results, id := runner.VerifyOriginal(REQUEST, TREE, Probing(idle));
    NoWholeSince(Left(before, true, 0, REQUEST, TREE, Probing(idle)), id, start);
    NoWholeSince(runner.Now(), id, start);
  }

  /** A moment after a refresh the snapshot is simply reused: nothing is due, and still no run
      that configured the project is recent. */
  method AskedAgain(n: nat)
    returns (runner: Runner, proof: Option<Proof>, ghost id: Identity, ghost start: int, ghost before: World)
    ensures proof.Some? && Vouched(runner.Now(), id, start)
    ensures Reuses(before, 0, id, true, ALL_WELL) && before.clock == start == (n + 1) * REFERENCE_TTL + 1
    ensures !WholeRecent(runner.Now(), id, start)
  {
    hide Sound; hide Vouched; hide Encoding; hide WholeRecent;
    runner := RefreshedOften(n + 1);
    var at := runner.clock;
    runner.Tick(at + 1);
    start := runner.clock;
    var idle := Idle(Key(), at, runner.clock);
    IdleIsSound(Key(), at, runner.clock);
    before := runner.Now();
    var results;
    proof, results, id := runner.VerifyOriginal(REQUEST, TREE, Probing(idle));
    NoWholeSince(Left(before, true, 0, REQUEST, TREE, Probing(idle)), id, start);
  }

  /** A run passes, but the tree cannot be read again to remember it: the proof that goes with
      the report is the expired one the map still holds. */
  method ProofIsStale() returns (runner: Runner, proof: Option<Proof>, ghost start: int)
    ensures proof.Some? && !IsFresh(proof.value, runner.clock, start)
  {
    hide Sound; hide Vouched; hide Encoding;
    var id := Key();
    var others := World(map[id := ProofOf(id, 0)], map[], REFERENCE_TTL, {Pass(id, 0, true)});
    OneReferenceIsSound(id, REFERENCE_TTL);
    runner := new Runner(false, 0, others);
    start := runner.clock;
    var results;
    proof, results := runner.VerifyByReference(REQUEST, TREE, Some(IMAGE), true, GOOD, others, false);
  }

  lemma OneReferenceIsSound(id: Identity, clock: int)
    requires 0 <= clock
    ensures Sound(World(map[id := ProofOf(id, 0)], map[], clock, {Pass(id, 0, true)}))
  {
    assert Pass(id, 0, true) in {Pass(id, 0, true)};
  }
}
