/** The jobs that may use the shortcut: an answer equal to the original, up to line endings,
    passes on the strength of the original's verification. */
module ReferenceShortcut {
  import opened Common
  import opened TreeEncoding
  import opened ReferenceCache
  import Utf8
  import Mutations
  import Substitution
  import SpliceLexing

  datatype Outcome = Success | Failure | Error

  datatype Completion = Completion(outcome: Outcome, reference: Option<Proof>)

  /** The challenged body; `original` stands for the recorded digest of the file. */
  datatype Challenge = Challenge(path: string, original: string, begin: int, end: int)

  // ------------------------------------------------------------------
  // Equality up to line endings
  // ------------------------------------------------------------------

  /** Every carriage return and line feed pair becomes a line feed. */
  function Normalized<T(==)>(s: seq<T>, cr: T, lf: T): (r: seq<T>)
    ensures |r| <= |s|
  {
    if s == [] then []
    else if |s| >= 2 && s[0] == cr && s[1] == lf then [lf] + Normalized(s[2..], cr, lf)
    else [s[0]] + Normalized(s[1..], cr, lf)
  }

  function Code(s: string): string {
    Normalized(s, '\r', '\n')
  }

  function CodeBytes(s: Utf8.Bytes): Utf8.Bytes {
    Normalized(s, 13, 10)
  }

  /** Normalizing works piecewise when the cut does not split a line ending. */
  lemma {:induction false} NormalizedConcat<T>(a: seq<T>, b: seq<T>, cr: T, lf: T)
    requires a == [] || b == [] || a[|a| - 1] != cr || b[0] != lf
    ensures Normalized(a + b, cr, lf) == Normalized(a, cr, lf) + Normalized(b, cr, lf)
  {
    hide Normalized;
    if a == [] {
      assert a + b == b;
      NormalizedUnfolds(a, cr, lf);
    } else if |a| >= 2 && a[0] == cr && a[1] == lf {
      NormalizedUnfolds(a, cr, lf);
      NormalizedUnfolds(a + b, cr, lf);
      assert (a + b)[2..] == a[2..] + b;
      NormalizedConcat(a[2..], b, cr, lf);
    } else {
      NormalizedUnfolds(a, cr, lf);
      NormalizedUnfolds(a + b, cr, lf);
      assert (a + b)[1..] == a[1..] + b;
      NormalizedConcat(a[1..], b, cr, lf);
    }
  }

  lemma NormalizedUnfolds<T>(s: seq<T>, cr: T, lf: T)
    ensures s == [] ==> Normalized(s, cr, lf) == []
    ensures |s| >= 2 && s[0] == cr && s[1] == lf ==> Normalized(s, cr, lf) == [lf] + Normalized(s[2..], cr, lf)
    ensures s != [] && !(|s| >= 2 && s[0] == cr && s[1] == lf) ==>
              Normalized(s, cr, lf) == [s[0]] + Normalized(s[1..], cr, lf)
  {
  }

  /** Between two braces, bodies are equal up to line endings exactly when the files are. */
  lemma BodyDecides(head: string, body: string, tail: string, answer: string)
    requires head != [] && head[|head| - 1] == '{' && tail != [] && tail[0] == '}'
    ensures Code(head + answer + tail) == Code(head + body + tail) <==> Code(answer) == Code(body)
  {
    Framed(head, body, tail);
    Framed(head, answer, tail);
    var a, b := Code(head + answer + tail), Code(head + body + tail);
    if a == b {
      var n := |a| - |Code(tail)|;
      assert Code(answer) == a[|Code(head)|..n];
      assert Code(body) == b[|Code(head)|..n];
    }
  }

  lemma Framed(head: string, body: string, tail: string)
    requires head != [] && head[|head| - 1] == '{' && tail != [] && tail[0] == '}'
    ensures Code(head + body + tail) == Code(head) + Code(body) + Code(tail)
  {
    NormalizedConcat(head, body, '\r', '\n');
    NormalizedConcat(head + body, tail, '\r', '\n');
  }

  // ------------------------------------------------------------------
  // Restore
  // ------------------------------------------------------------------

  function ReadFile(tree: seq<Entry>, path: string): (r: Option<string>)
    ensures r.Some? ==> File(path, r.value) in tree
  {
    if tree == [] then None
    else if tree[0].File? && tree[0].path == path then Some(tree[0].content)
    else ReadFile(tree[1..], path)
  }

  /** The challenge still describes the file: its content and a brace-delimited body. */
  predicate Describes(c: Challenge, source: string) {
    source == c.original && 0 <= c.begin && c.begin + 1 < c.end <= |source| && source[c.begin] == '{' &&
    source[c.end - 1] == '}'
  }

  /** `safe` is the path policy. */
  predicate RestoreMatches(tree: seq<Entry>, c: Challenge, answer: string, safe: string -> bool) {
    c.path != "" && safe(c.path) &&
    var source := ReadFile(tree, c.path);
    source.Some? && Describes(c, source.value) &&
    Code(source.value[c.begin + 1..c.end - 1]) == Code(answer)
  }

  /** The file that materializing the answer would give is the original, up to line endings. */
  predicate Restores(tree: seq<Entry>, c: Challenge, answer: string, safe: string -> bool) {
    c.path != "" && safe(c.path) && ReadFile(tree, c.path).Some? && Describes(c, ReadFile(tree, c.path).value) &&
    Code(SpliceLexing.Patched(c.original, c.begin, c.end - 1, answer)) == Code(c.original)
  }

  /** Comparing the bodies decides exactly that. */
  lemma RestoreMeansSameFile(tree: seq<Entry>, c: Challenge, answer: string, safe: string -> bool)
    ensures RestoreMatches(tree, c, answer, safe) <==> Restores(tree, c, answer, safe)
  {
    var source := ReadFile(tree, c.path);
    if source.Some? && Describes(c, source.value) {
      var s := source.value;
      var head, body, tail := s[..c.begin + 1], s[c.begin + 1..c.end - 1], s[c.end - 1..];
      BodyDecides(head, body, tail, answer);
      assert head + body + tail == s;
    }
  }

  /** The result of executing an attempt, if it got as far as the sandbox. */
  datatype Attempt = Refused | Ran(results: Results, infrastructure: bool)

  function Reported(attempt: Attempt): Completion {
    if attempt.Refused? then Completion(Error, None)
    else if AllOk(attempt.results) then Completion(Success, None)
    else if attempt.infrastructure then Completion(Error, None)
    else Completion(Failure, None)
  }

  /** There is a recent whole run of what was verified if and only if the verification made one
      itself or one is on record without it. */
  twostate predicate WholeAccounted(runner: Runner, request: Request, tree: seq<Entry>, probe: Probe, id: Identity)
    reads runner
  {
    var before, caching, ttl := old(runner.Now()), runner.caching, runner.cacheTtl;
    Seen(request, tree, probe, id) && Vouched(runner.Now(), id, before.clock) &&
    (WholeRecent(runner.Now(), id, before.clock) <==>
     Configures(before, caching, ttl, request, tree, probe, id) ||
     WholeRecent(Left(before, caching, ttl, request, tree, probe), id, before.clock))
  }

  /** A restore check. It reports success exactly when the attempt ran and passed, or the file is the
      original up to line endings and the original tree is proved to pass; `id` is then what was
      verified. It reports failure exactly when the attempt ran and a stage failed that is not the
      infrastructure's fault, and an error otherwise. */
  method Check(runner: Runner, request: Request, tree: seq<Entry>, challenge: Option<Challenge>, answer: Option<string>,
               safe: string -> bool, probe: Probe, attempt: Attempt)
    returns (c: Completion, ghost id: Identity)
    requires Sound(runner.Now()) && SoundProbe(probe)
    modifies runner
    ensures Sound(runner.Now()) && Grown(old(runner.Now()), runner.Now())
    ensures c.reference.Some? <==>
              challenge.Some? && answer.Some? && Restores(tree, challenge.value, answer.value, safe) &&
              Proves(old(runner.Now()), runner.caching, runner.cacheTtl, request, tree, probe)
    ensures c.outcome.Success? <==>
              c.reference.Some? || (challenge.Some? && answer.Some? && attempt.Ran? &&
                                    attempt.results == Results(true, true, true))
    ensures c.outcome.Failure? <==>
              c.reference.None? && challenge.Some? && answer.Some? && attempt.Ran? &&
              attempt.results != Results(true, true, true) &&
              !attempt.infrastructure
    ensures c.reference.Some? ==> Certified(runner.Now(), request, tree, probe, old(runner.clock))
    ensures c.reference.Some? ==> WholeAccounted(runner, request, tree, probe, id)
  {
    hide Sound; hide Certified; hide WholeRecent; hide Vouched; hide Left; hide Configures; hide RestoreMatches;
    hide Proves;
    hide Restores;
    if challenge.None? || answer.None? {
      return Completion(Error, None), SightOf(request, tree, probe);
    }
    RestoreMeansSameFile(tree, challenge.value, answer.value, safe);
    if RestoreMatches(tree, challenge.value, answer.value, safe) {
      var proof, _, verified := runner.VerifyOriginal(request, tree, probe);
      if proof.Some? {
        return Completion(Success, proof), verified;
      }
    }
    return Reported(attempt), SightOf(request, tree, probe);
  }

  // ------------------------------------------------------------------
  // Hide and seek
  // ------------------------------------------------------------------

  /** Same files, with the same content up to line endings. */
  ghost predicate SameUpToLineEndings(original: Mutations.Files, changed: Mutations.Files) {
    original.Keys == changed.Keys && forall f :: f in original ==> CodeBytes(original[f]) == CodeBytes(changed[f])
  }

  /** As many names, and every name of the first in the second: the same names. */
  lemma SameSizeSameKeys<T>(a: set<T>, b: set<T>)
    requires a <= b && |a| == |b|
    ensures a == b
  {
    var extra := b - a;
    assert b == a + extra && |b| == |a| + |extra|;
    assert extra == {};
  }

  method SameSources(original: Mutations.Files, changed: Mutations.Files) returns (same: bool)
    ensures same <==> SameUpToLineEndings(original, changed)
  {
    hide Normalized;
    if |original| != |changed| {
      assert original.Keys != changed.Keys by {
        assert |original.Keys| == |original| && |changed.Keys| == |changed|;
      }
      return false;
    }
    var left := original.Keys;
    while left != {}
      invariant left <= original.Keys
      invariant forall f :: f in original && f !in left ==>
                              f in changed && CodeBytes(original[f]) == CodeBytes(changed[f])
      decreases |left|
    {
      var name :| name in left;
      if name !in changed || CodeBytes(original[name]) != CodeBytes(changed[name]) {
        return false;
      }
      left := left - {name};
    }
    assert |original.Keys| == |original| && |changed.Keys| == |changed|;
    SameSizeSameKeys(original.Keys, changed.Keys);
    return true;
  }

  // ------------------------------------------------------------------
  // Files of the tree
  // ------------------------------------------------------------------

  function Text(b: Utf8.Bytes): (s: string)
    ensures |s| == |b|
  {
    seq(|b|, i requires 0 <= i < |b| => b[i] as char)
  }

  function Overwritten(tree: seq<Entry>, files: Mutations.Files): (r: seq<Entry>)
    ensures |r| == |tree|
  {
    seq(|tree|, i requires 0 <= i < |tree| =>
      var e := tree[i];
      if e.File? && e.path in files then File(e.path, Text(files[e.path])) else e)
  }

  /** `files` are editable files of the tree, as they were read from it. */
  ghost predicate ReadFrom(files: Mutations.Files, tree: seq<Entry>) {
    forall i :: 0 <= i < |tree| && tree[i].File? && tree[i].path in files ==>
                  tree[i].content == Text(files[tree[i].path])
  }

  lemma TextTail(b: Utf8.Bytes, n: nat)
    requires n <= |b|
    ensures Text(b)[n..] == Text(b[n..])
  {
  }

  lemma {:induction false} TextNormalized(b: Utf8.Bytes)
    ensures Code(Text(b)) == Text(CodeBytes(b))
  {
    hide Normalized;
    var s := Text(b);
    NormalizedUnfolds(s, '\r', '\n');
    NormalizedUnfolds(b, 13, 10);
    if |b| >= 2 && b[0] == 13 && b[1] == 10 {
      TextTail(b, 2);
      TextNormalized(b[2..]);
      assert Text([10] + CodeBytes(b[2..])) == ['\n'] + Text(CodeBytes(b[2..]));
    } else if b != [] {
      TextTail(b, 1);
      TextNormalized(b[1..]);
      assert Text([b[0]] + CodeBytes(b[1..])) == [s[0]] + Text(CodeBytes(b[1..]));
    } else {
      assert s == [];
    }
  }

  /** Two trees with the same names and, up to line endings, the same files. */
  ghost predicate SameTree(a: seq<Entry>, b: seq<Entry>) {
    |a| == |b| && forall i :: 0 <= i < |a| ==> SameEntry(a[i], b[i])
  }

  predicate SameEntry(a: Entry, b: Entry) {
    if a.File? then b.File? && a.path == b.path && Code(a.content) == Code(b.content) else a == b
  }

  /** Writing files that are the original ones up to line endings changes nothing else. */
  lemma WrittenIsSame(tree: seq<Entry>, original: Mutations.Files, changed: Mutations.Files)
    requires ReadFrom(original, tree) && SameUpToLineEndings(original, changed)
    ensures SameTree(tree, Overwritten(tree, changed))
  {
    hide Normalized; hide Text;
    var written := Overwritten(tree, changed);
    forall i | 0 <= i < |tree| ensures SameEntry(tree[i], written[i]) {
      var e := tree[i];
      if e.File? && e.path in changed {
        TextNormalized(original[e.path]);
        TextNormalized(changed[e.path]);
      }
    }
  }

  /** The edits that a hide-and-seek answer may contain. */
  predicate EditsAllowed(edits: Mutations.Files, original: Mutations.Files, editable: string -> bool) {
    |edits| <= 100 &&
    forall f :: f in edits ==> f in original && editable(f) && Utf8.Valid(edits[f]) && |edits[f]| <= 1048576
  }

  /** The files could be read, the mutations apply to them, and the edits are allowed. */
  ghost predicate IsAnswer(sources: Option<Mutations.Files>, mutations: seq<Mutations.Mutation>,
                           edits: Option<Mutations.Files>, editable: string -> bool) {
    sources.Some? && edits.Some? && Mutations.IsValid(mutations, sources.value, editable) &&
    EditsAllowed(edits.value, sources.value, editable)
  }

  /** A hide-and-seek check; `edits` is the decoded answer. The outcomes are those of a restore
      check, with an error for an answer that is not allowed. The shortcut needs every file, with
      the mutations applied and then the edits, to be the original up to line endings; so is then
      the tree with those files written over it. */
  method CheckHide(runner: Runner, request: Request, tree: seq<Entry>, sources: Option<Mutations.Files>,
                   mutations: seq<Mutations.Mutation>,
                   byPath: seq<Mutations.Mutation>, descending: seq<Mutations.Mutation>, editable: string -> bool,
                   edits: Option<Mutations.Files>, probe: Probe, attempt: Attempt)
    returns (c: Completion, ghost id: Identity)
    requires Sound(runner.Now()) && SoundProbe(probe) && (sources.Some? ==> ReadFrom(sources.value, tree))
    requires Mutations.SameElements(mutations, byPath) && Mutations.SortedByPath(byPath)
    requires Mutations.SameElements(mutations, descending) && Substitution.SortedByDescendingStart(descending)
    modifies runner
    ensures Sound(runner.Now()) && Grown(old(runner.Now()), runner.Now())
    ensures c.reference.Some? <==>
              IsAnswer(sources, mutations, edits, editable) &&
              SameUpToLineEndings(sources.value,
                                  Substitution.SubstitutedFiles(mutations, sources.value) + edits.value) &&
              Proves(old(runner.Now()), runner.caching, runner.cacheTtl, request, tree, probe)
    ensures c.outcome.Success? <==>
              c.reference.Some? ||
              (IsAnswer(sources, mutations, edits, editable) && attempt.Ran? &&
               attempt.results == Results(true, true, true))
    ensures c.outcome.Failure? <==>
              c.reference.None? && IsAnswer(sources, mutations, edits, editable) && attempt.Ran? &&
              attempt.results != Results(true, true, true) && !attempt.infrastructure
    ensures c.reference.Some? ==>
              SameTree(tree, Overwritten(tree,
                                         Substitution.SubstitutedFiles(mutations, sources.value) + edits.value)) &&
              Certified(runner.Now(), request, tree, probe, old(runner.clock))
    ensures c.reference.Some? ==> WholeAccounted(runner, request, tree, probe, id)
  {
    hide Sound; hide Certified; hide WholeRecent; hide Vouched; hide Left; hide Configures; hide SameUpToLineEndings;
    hide Proves;
    hide SameTree;
    hide Overwritten; hide ReadFrom; hide Mutations.IsValid; hide Substitution.Substituted;
    if sources.None? {
      return Completion(Error, None), SightOf(request, tree, probe);
    }
    var original := sources.value;
    var applied := Substitution.Apply(mutations, byPath, descending, original, editable);
    if applied.None? || edits.None? || !EditsAllowed(edits.value, original, editable) {
      return Completion(Error, None), SightOf(request, tree, probe);
    }
    var changed := applied.value + edits.value;
    var same := SameSources(original, changed);
    if same {
      WrittenIsSame(tree, original, changed);
      var proof, _, verified := runner.VerifyOriginal(request, tree, probe);
      if proof.Some? {
        return Completion(Success, proof), verified;
      }
    }
    return Reported(attempt), SightOf(request, tree, probe);
  }
}
