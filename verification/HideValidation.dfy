/** Preparing a hide-and-seek challenge: the original passes, the mutated project builds and fails
    its tests, and the restored project passes again and is remembered. */
module HideValidation {
  import opened Common
  import opened TreeEncoding
  import opened ReferenceCache
  import opened ReferenceShortcut
  import Utf8
  import Mutations
  import Substitution

  // ------------------------------------------------------------------
  // Writing files over the tree
  // ------------------------------------------------------------------

  /** Writing the mutated files and then the original ones leaves the tree as it was. */
  lemma OriginalRestored(tree: seq<Entry>, original: Mutations.Files, mutations: seq<Mutations.Mutation>)
    requires ReadFrom(original, tree)
    ensures Overwritten(Overwritten(tree, Substitution.SubstitutedFiles(mutations, original)), original) == tree
  {
    hide Substitution.Substituted; hide Text;
  }

  // ------------------------------------------------------------------
  // The validation
  // ------------------------------------------------------------------

  /** What the validation meets outside itself. `exit` is the mutated project's test status. */
  datatype Trial = Trial(
    sight: Option<Environment>, disk: Disk, built: Results, during: World, tested: Results, later: World,
    again: Option<Environment>, baseline: Results, mutated: Results, timedOut: bool, exit: int,
    locked: bool, intact: bool, restored: Results, last: World, rehashed: bool)

  ghost predicate SoundTrial(t: Trial) {
    Sound(t.during) && Sound(t.later) && Sound(t.last)
  }

  /** No job has recorded a pass of the tree in the environment seen the second time. */
  ghost predicate Unseen(w: World, request: Request, tree: seq<Entry>, t: Trial) {
    t.again.Some? ==>
      forall p :: p in w.passes + t.during.passes + t.later.passes + t.last.passes ==>
                    p.id != IdentityOf(request, tree, t.again.value)
  }

  /** The baseline comes from the snapshot, and later runs go over it. */
  predicate OverSnapshot(w: World, caching: bool, cacheTtl: int, request: Request, tree: seq<Entry>, t: Trial) {
    caching && t.sight.Some? && Regular(tree) &&
    !Fails(w, cacheTtl, IdentityOf(request, tree, t.sight.value), false, t.disk, t.built, t.tested)
  }

  predicate BaselinePasses(w: World, caching: bool, cacheTtl: int, request: Request, tree: seq<Entry>, t: Trial) {
    if OverSnapshot(w, caching, cacheTtl, request, tree, t)
    then Yields(w, cacheTtl, IdentityOf(request, tree, t.sight.value), false, t.disk, t.built, t.tested)
    else AllOk(t.baseline)
  }

  /** The runs come out as a good challenge needs them. */
  predicate GoodChallenge(w: World, caching: bool, cacheTtl: int, request: Request, tree: seq<Entry>, t: Trial) {
    BaselinePasses(w, caching, cacheTtl, request, tree, t) && t.mutated.configure && t.mutated.build &&
    !t.timedOut && t.exit == 8 && AllOk(t.restored) &&
    (OverSnapshot(w, caching, cacheTtl, request, tree, t) ==> t.locked)
  }

  method PrepareBuild(runner: Runner, request: Request, tree: seq<Entry>, t: Trial)
    returns (build: Option<Identity>, baseline: Option<Results>)
    requires Sound(runner.Now()) && SoundTrial(t)
    modifies runner
    ensures Sound(runner.Now()) && Grown(old(runner.Now()), runner.Now())
    ensures build.Some? <==> old(OverSnapshot(runner.Now(), runner.caching, runner.cacheTtl, request, tree, t))
    ensures build.Some? ==> t.sight.Some? && build.value == IdentityOf(request, tree, t.sight.value)
    ensures build.Some? <==> baseline.Some?
    ensures build.Some? ==>
              (AllOk(baseline.value) <==>
               old(BaselinePasses(runner.Now(), runner.caching, runner.cacheTtl, request, tree, t)))
    ensures forall p :: p in runner.passes ==>
              p in old(runner.passes) + t.during.passes + t.later.passes ||
              (t.sight.Some? && p.id == IdentityOf(request, tree, t.sight.value))
  {
    hide Sound; hide Encoding; hide Vouched; hide Fails; hide Yields; hide SnapshotLeft; hide SnapshotPass;
    var stream := ProjectStream(tree);
    if !runner.caching || t.sight.None? || stream.None? {
      return None, None;
    }
    var id := IdentityOf(request, tree, t.sight.value);
    SnapshotAddsOnly(runner.Now(), runner.cacheTtl, id, false, t);
    var _, results, failed := runner.EnsureSnapshot(id, false, t.disk, t.built, t.during, t.tested, t.later);
    if failed {
      return None, None;
    }
    return Some(id), Some(results);
  }

  /** Whatever ensuring a snapshot leaves is from before, from other jobs, or of its identity. */
  lemma SnapshotAddsOnly(w: World, cacheTtl: int, id: Identity, refresh: bool, t: Trial)
    ensures SnapshotLeft(w, cacheTtl, id, refresh, t.disk, t.built, t.during, t.later).passes <=
              w.passes + t.during.passes + t.later.passes
    ensures forall at, p :: p in SnapshotPass(w, cacheTtl, id, refresh, t.disk, t.built, t.tested, at) ==> p.id == id
  {
  }

  /** The restored project runs over the snapshot when there is one, in the environment of the
      snapshot; otherwise as a whole, in the environment seen the second time. */
  method RunRestored(runner: Runner, request: Request, tree: seq<Entry>, build: Option<Identity>, t: Trial)
    returns (ok: bool)
    requires Sound(runner.Now()) && SoundTrial(t)
    requires build.Some? ==> t.sight.Some? && build.value == IdentityOf(request, tree, t.sight.value)
    modifies runner
    ensures Sound(runner.Now()) && Grown(old(runner.Now()), runner.Now())
    ensures ok <==> AllOk(t.restored) && (build.Some? ==> t.locked)
    ensures ok && build.Some? ==> Passed(runner.passes, build.value, runner.clock)
    ensures ok && build.None? && t.again.Some? ==>
              Passed(runner.passes, IdentityOf(request, tree, t.again.value), runner.clock)
    ensures build.Some? ==> OnlyAdds(old(runner.passes) + t.last.passes, runner.passes, build.value)
  {
    hide Sound; hide Encoding; hide Configured;
    if build.Some? && !t.locked {
      return false;
    }
    var snapshot := None;
    if build.Some? {
      snapshot := runner.LoadSnapshot(build.value, t.intact);
    }
    ghost var before := runner.Now();
    runner.Meanwhile(t.last);
    if !AllOk(t.restored) {
      return false;
    }
    if build.Some? {
      if snapshot.Some? {
        ConfiguredLater(before, runner.Now(), build.value, snapshot.value.verifiedAt);
      }
      runner.Record(build.value, snapshot.None?);
    } else if t.again.Some? {
      runner.Record(IdentityOf(request, tree, t.again.value), true);
    }
    return true;
  }

  /** A challenge is valid exactly for accepted mutations whose runs come out right. The references
      stay sound when both looks at the environment agree; when nobody has verified the second one,
      they do exactly unless a valid challenge was remembered for it after runs over a snapshot of
      the first. */
  method ValidateHide(runner: Runner, request: Request, tree: seq<Entry>, original: Mutations.Files,
                      mutations: seq<Mutations.Mutation>, byPath: seq<Mutations.Mutation>,
                      descending: seq<Mutations.Mutation>, editable: string -> bool, t: Trial)
    returns (valid: bool)
    requires Sound(runner.Now()) && SoundTrial(t) && ReadFrom(original, tree)
    requires Mutations.SameElements(mutations, byPath) && Mutations.SortedByPath(byPath)
    requires Mutations.SameElements(mutations, descending) && Substitution.SortedByDescendingStart(descending)
    modifies runner
    ensures Grown(old(runner.Now()), runner.Now())
    ensures valid <==> Mutations.IsValid(mutations, original, editable) &&
                       old(GoodChallenge(runner.Now(), runner.caching, runner.cacheTtl, request, tree, t))
    ensures !(valid && old(Misremembers(runner.Now(), runner.caching, runner.cacheTtl, request, tree, t))) ==>
              Sound(runner.Now())
    ensures Unseen(old(runner.Now()), request, tree, t) ==>
              (Sound(runner.Now()) <==>
               !(valid && old(Misremembers(runner.Now(), runner.caching, runner.cacheTtl, request, tree, t))))
  {
    hide Sound; hide Encoding; hide Mutations.IsValid; hide Substitution.Substituted; hide OverSnapshot;
    hide BaselinePasses;
    var applied := Substitution.Apply(mutations, byPath, descending, original, editable);
    if applied.None? {
      return false;
    }
    var build, prepared := PrepareBuild(runner, request, tree, t);
    var baseline := if prepared.Some? then prepared.value else t.baseline;
    BaselineWithout(old(runner.Now()), runner.caching, runner.cacheTtl, request, tree, t);
    if !AllOk(baseline) || !t.mutated.configure || !t.mutated.build || t.timedOut || t.exit != 8 {
      return false;
    }
    var restored := Overwritten(Overwritten(tree, applied.value), original);
    OriginalRestored(tree, original, mutations);
    var ok := RunRestored(runner, request, restored, build, t);
    if !ok {
      return false;
    }
    if t.again.Some? {
      var stored := runner.RememberReference(request, restored, t.again.value, t.rehashed);
      if build.Some? {
        DifferentEnvironments(request, tree, t.sight.value, t.again.value);
      }
    }
    return true;
  }

  /** The challenge would be remembered for another environment than its runs were made in. */
  predicate Misremembers(w: World, caching: bool, cacheTtl: int, request: Request, tree: seq<Entry>, t: Trial) {
    OverSnapshot(w, caching, cacheTtl, request, tree, t) && t.again.Some? &&
    Remembers(t.again.value, tree, t.rehashed) && t.sight != t.again
  }

  lemma BaselineWithout(w: World, caching: bool, cacheTtl: int, request: Request, tree: seq<Entry>, t: Trial)
    ensures !OverSnapshot(w, caching, cacheTtl, request, tree, t) ==>
              (BaselinePasses(w, caching, cacheTtl, request, tree, t) <==> AllOk(t.baseline))
  {
  }

  lemma DifferentEnvironments(request: Request, tree: seq<Entry>, e: Environment, f: Environment)
    ensures IdentityOf(request, tree, e) == IdentityOf(request, tree, f) <==> e == f
  {
  }

  /** The environment does move: the sandbox image is replaced between the two looks, and the
      new image gets a reference although nothing ever ran in it. */
  method MovedEnvironment() returns (runner: Runner)
    ensures !Sound(runner.Now())
  {
    hide Sound;
    var empty := World(map[], map[], 0, {});
    EmptyIsSound(empty);
    runner := new Runner(true, 0, empty);
    var tree, good := [File("a.cpp", "x")], Results(true, true, true);
    var original: Mutations.Files := map["a.cpp" := [120]];
    var mutation := Mutations.Mutation("a.cpp", 0, [120], [121]);
    var t := Trial(Some(Environment("old image", "policy")), ALL_WELL, good, empty, good, empty,
                   Some(Environment("new image", "policy")), good, Results(true, true, false), false, 8, true, true,
                       good,
                   empty, true);
    assert Mutations.IsValid([mutation], original, _ => true) by {
      assert Utf8.Valid([120]) && Utf8.Valid([121]);
      assert Mutations.Fits(mutation, original, _ => true);
    }
    assert ReadFrom(original, tree) by {
      assert tree[0].content == Text([120]);
    }
    var valid := ValidateHide(runner, Request("version", "session"), tree, original, [mutation], [mutation], [mutation],
                              _ => true, t);
  }

  lemma EmptyIsSound(w: World)
    requires w == World(map[], map[], w.clock, {})
    ensures Sound(w)
  {
  }
}
