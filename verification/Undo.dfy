/** Mutations are undone by the list of reverse edits, placed where the forward edits land. */
module Undo {
  import Utf8
  import opened Mutations
  import opened Substitution

  /** Change of length of one edit. */
  function Growth(m: Mutation): int {
    |m.after| - |m.before|
  }

  /** By how much the mutations of `path` that start before `p` move position `p`. */
  function Drift(ms: seq<Mutation>, path: string, p: int): int {
    if ms == [] then 0
    else (if ms[0].path == path && ms[0].start < p then Growth(ms[0]) else 0) + Drift(ms[1..], path, p)
  }

  function Landing(ms: seq<Mutation>, path: string, p: int): int {
    p + Drift(ms, path, p)
  }

  function Reverse(ms: seq<Mutation>, m: Mutation): Mutation {
    Mutation(m.path, Landing(ms, m.path, m.start), m.after, m.before)
  }

  function ReverseEdits(ms: seq<Mutation>): (r: seq<Mutation>)
    ensures |r| == |ms| && forall i :: 0 <= i < |ms| ==> r[i] == Reverse(ms, ms[i])
  {
    seq(|ms|, i requires 0 <= i < |ms| => Reverse(ms, ms[i]))
  }

  /** Position `p` lies in the interior of no mutated range. */
  ghost predicate Edge(ms: seq<Mutation>, path: string, p: int) {
    forall m :: m in ms && m.path == path ==> !(m.start < p < End(m))
  }

  // ------------------------------------------------------------------
  // Where positions land
  // ------------------------------------------------------------------

  lemma {:induction false} DriftQuiet(ms: seq<Mutation>, path: string, p: int, q: int)
    requires p <= q && forall m :: m in ms && m.path == path ==> !(p <= m.start < q)
    ensures Drift(ms, path, q) == Drift(ms, path, p)
  {
    if ms != [] {
      DriftQuiet(ms[1..], path, p, q);
    }
  }

  lemma {:induction false} DriftThrough(ms: seq<Mutation>, k: nat)
    requires Separate(ms) && k < |ms|
    ensures Drift(ms, ms[k].path, End(ms[k])) == Drift(ms, ms[k].path, ms[k].start) + Growth(ms[k])
  {
    var m, rest := ms[k], ms[1..];
    assert forall i :: 0 <= i < |rest| ==> rest[i] == ms[i + 1];
    if k == 0 {
      DriftQuiet(rest, m.path, m.start, End(m));
    } else {
      assert Separate(rest);
      DriftThrough(rest, k - 1);
      assert !(ms[0].path == m.path && m.start <= ms[0].start < End(m));
    }
  }

  /** What is written from `p` on stands at the landing of `p`. */
  lemma {:induction false} LandsAt(content: Bytes, ms: seq<Mutation>, path: string, p: nat, q: nat)
    requires Separate(ms) && TextEdits(content, ms, path) && p <= q <= |content|
    requires Edge(ms, path, p) && Edge(ms, path, q)
    ensures 0 <= Landing(ms, path, q) - Landing(ms, path, p) <= |Substituted(content, ms, path, p)|
    ensures Substituted(content, ms, path, p)[Landing(ms, path, q) - Landing(ms, path, p)..] ==
              Substituted(content, ms, path, q)
    decreases q - p
  {
    hide Substituted; hide Drift;
    if p == q {
    } else if k: nat :| k < |ms| && ms[k].path == path && ms[k].start == p {
      var m := ms[k];
      assert m in ms;
      EdgeAfter(ms, m);
      LandsAt(content, ms, path, End(m), q);
      StepThrough(content, ms, m);
      DriftThrough(ms, k);
    } else {
      assert forall m :: m in ms && m.path == path ==> m.start != p;
      LandsAt(content, ms, path, p + 1, q);
      StepOver(content, ms, path, p);
      DriftQuiet(ms, path, p, p + 1);
    }
  }

  /** Both ends of a mutated range are edges. */
  lemma EdgeAfter(ms: seq<Mutation>, m: Mutation)
    requires Separate(ms) && m in ms
    ensures Edge(ms, m.path, m.start) && Edge(ms, m.path, End(m))
  {
    var k :| 0 <= k < |ms| && ms[k] == m;
    forall e | e in ms && e.path == m.path ensures !(e.start < m.start < End(e)) && !(e.start < End(m) < End(e)) {
      var i :| 0 <= i < |ms| && ms[i] == e;
    }
  }

  /** Without deletions, landing is strictly increasing on edges. */
  lemma {:induction false} LandingGrows(content: Bytes, ms: seq<Mutation>, path: string, p: nat, q: nat)
    requires Separate(ms) && TextEdits(content, ms, path) && p < q <= |content|
    requires Edge(ms, path, p) && Edge(ms, path, q) && forall m :: m in ms ==> |m.after| > 0
    ensures Landing(ms, path, p) < Landing(ms, path, q)
  {
    hide Substituted; hide Drift;
    if k: nat :| k < |ms| && ms[k].path == path && ms[k].start == p {
      var m := ms[k];
      assert m in ms;
      EdgeAfter(ms, m);
      DriftThrough(ms, k);
      LandsAt(content, ms, path, End(m), q);
    } else {
      assert forall m :: m in ms && m.path == path ==> m.start != p;
      DriftQuiet(ms, path, p, p + 1);
      LandsAt(content, ms, path, p + 1, q);
    }
  }

  // ------------------------------------------------------------------
  // The reverse edits are disjoint and find what they replace
  // ------------------------------------------------------------------

  lemma LandsApart(content: Bytes, ms: seq<Mutation>, i: nat, j: nat)
    requires Separate(ms) && i < |ms| && j < |ms| && ms[i].path == ms[j].path && TextEdits(content, ms, ms[i].path)
    requires End(ms[i]) <= ms[j].start
    ensures End(Reverse(ms, ms[i])) <= Reverse(ms, ms[j]).start
  {
    hide Substituted; hide Drift;
    var a, b := ms[i], ms[j];
    assert a in ms && b in ms;
    EdgeAfter(ms, a);
    EdgeAfter(ms, b);
    DriftThrough(ms, i);
    LandsAt(content, ms, a.path, End(a), b.start);
  }

  lemma ReverseFinds(content: Bytes, ms: seq<Mutation>, m: Mutation)
    requires Separate(ms) && m in ms && TextEdits(content, ms, m.path)
    ensures var r, out := Reverse(ms, m), Substituted(content, ms, m.path, 0);
            0 <= r.start && End(r) <= |out| && out[r.start..End(r)] == m.after
  {
    hide Substituted; hide Drift;
    var out, rest := Substituted(content, ms, m.path, 0), Substituted(content, ms, m.path, m.start);
    EdgeAfter(ms, m);
    NoDriftAtStart(content, ms, m.path);
    LandsAt(content, ms, m.path, 0, m.start);
    StepThrough(content, ms, m);
    var at := Landing(ms, m.path, m.start);
    assert out[at..at + |m.after|] == out[at..][..|m.after|];
  }

  lemma NoDriftAtStart(content: Bytes, ms: seq<Mutation>, path: string)
    requires TextEdits(content, ms, path)
    ensures Landing(ms, path, 0) == 0 && Edge(ms, path, 0)
  {
    DriftNothing(ms, path);
  }

  lemma {:induction false} DriftNothing(ms: seq<Mutation>, path: string)
    requires forall m :: m in ms && m.path == path ==> 0 <= m.start
    ensures Drift(ms, path, 0) == 0
  {
    if ms != [] {
      DriftNothing(ms[1..], path);
    }
  }

  lemma ReversesDisjoint(ms: seq<Mutation>, files: Files, editable: string -> bool)
    requires IsValid(ms, files, editable)
    ensures PairwiseDisjoint(ReverseEdits(ms))
  {
    hide Reverse; hide TextEdits;
    var rs := ReverseEdits(ms);
    ValidIsSeparate(ms, files, editable);
    forall i, j | 0 <= i < |rs| && 0 <= j < |rs| && i != j && rs[i].path == rs[j].path
      ensures End(rs[i]) <= rs[j].start || End(rs[j]) <= rs[i].start {
      ReversePath(ms, ms[i]);
      ReversePath(ms, ms[j]);
      assert Fits(ms[i], files, editable);
      FilesFit(ms, files, ms[i].path, editable);
      if End(ms[i]) <= ms[j].start {
        LandsApart(files[ms[i].path], ms, i, j);
      } else {
        LandsApart(files[ms[i].path], ms, j, i);
      }
    }
  }

  lemma ReversePath(ms: seq<Mutation>, m: Mutation)
    ensures var r := Reverse(ms, m); r.path == m.path && r.before == m.after && r.after == m.before
  {
  }

  // ------------------------------------------------------------------
  // The theorem
  // ------------------------------------------------------------------

  /** Reading the result from a landed edge rebuilds the original from that edge. */
  lemma {:induction false} Rebuilds(content: Bytes, ms: seq<Mutation>, path: string, p: nat)
    requires Separate(ms) && TextEdits(content, ms, path) && p <= |content| && Edge(ms, path, p)
    requires Separate(ReverseEdits(ms)) && 0 <= Landing(ms, path, p) <= |Substituted(content, ms, path, 0)|
    ensures Substituted(Substituted(content, ms, path, 0), ReverseEdits(ms), path, Landing(ms, path, p)) == content[p..]
    decreases |content| - p
  {
    hide Substituted; hide Drift; hide Separate;
    var out, back, at := Substituted(content, ms, path, 0), ReverseEdits(ms), Landing(ms, path, p);
    LandsFromStart(content, ms, path, p);
    if p == |content| {
      NothingLeft(content, ms, path);
      assert at == |out|;
      NothingLeft(out, back, path);
    } else if k: nat :| k < |ms| && ms[k].path == path && ms[k].start == p {
      RebuildThrough(content, ms, k);
      Rebuilds(content, ms, path, End(ms[k]));
      assert content[p..] == ms[k].before + content[End(ms[k])..];
    } else {
      RebuildOver(content, ms, path, p);
      Rebuilds(content, ms, path, p + 1);
      assert content[p..] == [content[p]] + content[p + 1..];
    }
  }

  lemma LandsFromStart(content: Bytes, ms: seq<Mutation>, path: string, p: nat)
    requires Separate(ms) && TextEdits(content, ms, path) && p <= |content| && Edge(ms, path, p)
    ensures 0 <= Landing(ms, path, p) <= |Substituted(content, ms, path, 0)|
    ensures Substituted(content, ms, path, 0)[Landing(ms, path, p)..] == Substituted(content, ms, path, p)
  {
    hide Substituted; hide Drift; hide Separate;
    NoDriftAtStart(content, ms, path);
    LandsAt(content, ms, path, 0, p);
  }

  lemma RebuildThrough(content: Bytes, ms: seq<Mutation>, k: nat)
    requires Separate(ms) && k < |ms| && TextEdits(content, ms, ms[k].path) && Separate(ReverseEdits(ms))
    ensures var m, out, back := ms[k], Substituted(content, ms, ms[k].path, 0), ReverseEdits(ms);
            m.start < End(m) && Edge(ms, m.path, End(m)) && 0 <= Landing(ms, m.path, m.start) &&
            0 <= Landing(ms, m.path, End(m)) <= |out| &&
            Substituted(out, back, m.path, Landing(ms, m.path, m.start)) ==
            m.before + Substituted(out, back, m.path, Landing(ms, m.path, End(m)))
  {
    hide Substituted; hide Drift; hide PairwiseDisjoint;
    var m, out, back := ms[k], Substituted(content, ms, ms[k].path, 0), ReverseEdits(ms);
    assert m in ms && back[k] == Reverse(ms, m) && back[k] in back;
    EdgeAfter(ms, m);
    DriftThrough(ms, k);
    ReverseFinds(content, ms, m);
    StepThrough(out, back, back[k]);
  }

  lemma RebuildOver(content: Bytes, ms: seq<Mutation>, path: string, p: nat)
    requires Separate(ms) && TextEdits(content, ms, path) && p < |content| && Edge(ms, path, p)
    requires Separate(ReverseEdits(ms)) && forall m :: m in ms && m.path == path ==> m.start != p
    ensures var out, back, at := Substituted(content, ms, path, 0), ReverseEdits(ms), Landing(ms, path, p);
            Edge(ms, path, p + 1) && 0 <= at && Landing(ms, path, p + 1) == at + 1 <= |out| &&
            Substituted(out, back, path, at) == [content[p]] + Substituted(out, back, path, at + 1)
  {
    hide Substituted; hide Drift; hide PairwiseDisjoint;
    var out, back, at := Substituted(content, ms, path, 0), ReverseEdits(ms), Landing(ms, path, p);
    DriftQuiet(ms, path, p, p + 1);
    LandsFromStart(content, ms, path, p);
    StepOver(content, ms, path, p);
    assert out[at] == out[at..][0] == content[p];
    NothingReversedHere(content, ms, path, p);
    StepOver(out, back, path, at);
  }

  lemma NothingReversedHere(content: Bytes, ms: seq<Mutation>, path: string, p: nat)
    requires Separate(ms) && TextEdits(content, ms, path) && p < |content| && Edge(ms, path, p)
    requires Separate(ReverseEdits(ms)) && forall m :: m in ms && m.path == path ==> m.start != p
    ensures forall r :: r in ReverseEdits(ms) && r.path == path ==> r.start != Landing(ms, path, p)
  {
    hide Drift; hide PairwiseDisjoint;
    NoDeletions(ms);
    forall r | r in ReverseEdits(ms) && r.path == path ensures r.start != Landing(ms, path, p) {
      var i :| 0 <= i < |ms| && r == ReverseEdits(ms)[i];
      var m := ms[i];
      assert m in ms;
      EdgeAfter(ms, m);
      if m.start < p {
        LandingGrows(content, ms, path, m.start, p);
      } else {
        LandingGrows(content, ms, path, p, m.start);
      }
    }
  }

  lemma NoDeletions(ms: seq<Mutation>)
    requires Separate(ReverseEdits(ms))
    ensures forall m :: m in ms ==> |m.after| > 0
  {
    forall m | m in ms ensures |m.after| > 0 {
      var i :| 0 <= i < |ms| && m == ms[i];
      assert ReverseEdits(ms)[i] in ReverseEdits(ms);
    }
  }

  /** The reverse edits are accepted exactly when no mutation deletes its fragment, and then
      applying them gives the original files back. */
  lemma UndoTheorem(ms: seq<Mutation>, files: Files, editable: string -> bool)
    requires IsValid(ms, files, editable)
    ensures IsValid(ReverseEdits(ms), SubstitutedFiles(ms, files), editable) <==> forall m :: m in ms ==> m.after != []
    ensures (forall m :: m in ms ==> m.after != []) ==>
            SubstitutedFiles(ReverseEdits(ms), SubstitutedFiles(ms, files)) == files
  {
    var back, results := ReverseEdits(ms), SubstitutedFiles(ms, files);
    if IsValid(back, results, editable) {
      ValidIsSeparate(back, results, editable);
      NoDeletions(ms);
    }
    if forall m :: m in ms ==> m.after != [] {
      ReversesFit(ms, files, editable);
      ReversesDisjoint(ms, files, editable);
      ValidIsSeparate(back, results, editable);
      UndoneFiles(ms, files, editable);
    }
  }

  lemma ReversesFit(ms: seq<Mutation>, files: Files, editable: string -> bool)
    requires IsValid(ms, files, editable) && forall m :: m in ms ==> m.after != []
    ensures forall i :: 0 <= i < |ms| ==> Fits(ReverseEdits(ms)[i], SubstitutedFiles(ms, files), editable)
  {
    hide Reverse; hide Substituted;
    ValidIsSeparate(ms, files, editable);
    forall i | 0 <= i < |ms| ensures Fits(ReverseEdits(ms)[i], SubstitutedFiles(ms, files), editable) {
      var m := ms[i];
      assert Fits(m, files, editable) && m in ms;
      FilesFit(ms, files, m.path, editable);
      ReversePath(ms, m);
      ReverseFinds(files[m.path], ms, m);
    }
  }

  lemma UndoneFiles(ms: seq<Mutation>, files: Files, editable: string -> bool)
    requires IsValid(ms, files, editable) && Separate(ReverseEdits(ms))
    ensures SubstitutedFiles(ReverseEdits(ms), SubstitutedFiles(ms, files)) == files
  {
    hide Substituted; hide Separate; hide Landing;
    ValidIsSeparate(ms, files, editable);
    var back := ReverseEdits(ms);
    forall f | f in files ensures Substituted(Substituted(files[f], ms, f, 0), back, f, 0) == files[f] {
      FilesFit(ms, files, f, editable);
      NoDriftAtStart(files[f], ms, f);
      Rebuilds(files[f], ms, f, 0);
      assert files[f][0..] == files[f];
    }
  }

  /** Erasing a whole file is beyond undoing: no list of mutations that the result accepts
      gives the original files back. */
  lemma ErasureCannotBeUndone(ms: seq<Mutation>, files: Files, m: Mutation, back: seq<Mutation>,
                              editable: string -> bool)
    requires IsValid(ms, files, editable) && m in ms && m.before == files[m.path] && m.after == []
    requires IsValid(back, SubstitutedFiles(ms, files), editable)
    ensures SubstitutedFiles(back, SubstitutedFiles(ms, files)) != files
  {
    hide EditAt;
    ValidIsSeparate(ms, files, editable);
    FilesFit(ms, files, m.path, editable);
    StepThrough(files[m.path], ms, m);
    assert SubstitutedFiles(ms, files)[m.path] == [];
    assert SubstitutedFiles(back, SubstitutedFiles(ms, files))[m.path] == [];
  }

  // ------------------------------------------------------------------
  // Deletions
  // ------------------------------------------------------------------

  /** One edit that replaces all of a file. */
  lemma WholeFileReplaced(files: Files, path: string, content: Bytes)
    requires path in files && files[path] != []
    ensures SubstitutedFiles([Mutation(path, 0, files[path], content)], files) == files[path := content]
  {
    hide EditAt;
    var m := Mutation(path, 0, files[path], content);
    var ms := [m];
    assert m in ms && Separate(ms);
    StepThrough(files[path], ms, m);
    PastTheEnd(files[path], ms, path, End(m));
    hide Substituted;
    forall f | f in files && f != path ensures Substituted(files[f], ms, f, 0) == files[f] {
      Copied(files[f], ms, f, 0, |files[f]|);
      PastTheEnd(files[f], ms, f, |files[f]|);
    }
    assert m.after + [] == content;
  }

  /** A mutated file can be restored by no accepted list once nothing is left of it; as long as
      something is, and an edit may span the file, one edit restores it and touches no other file. */
  lemma RewriteTheorem(ms: seq<Mutation>, files: Files, m: Mutation, editable: string -> bool)
    requires IsValid(ms, files, editable) && m in ms && Utf8.Valid(files[m.path])
    ensures var results := SubstitutedFiles(ms, files);
            var result, edit := results[m.path], Mutation(m.path, 0, results[m.path], files[m.path]);
            IsValid([edit], results, editable) <==>
              result != [] && result != files[m.path] && |result| <= 16384 && |files[m.path]| <= 16384
    ensures var results := SubstitutedFiles(ms, files);
            var edit := Mutation(m.path, 0, results[m.path], files[m.path]);
            results[m.path] != [] ==> SubstitutedFiles([edit], results) == results[m.path := files[m.path]]
    ensures SubstitutedFiles(ms, files)[m.path] == [] ==> forall back :: !Restores(back, ms, files, m.path, editable)
  {
    hide Substituted;
    var path, results := m.path, SubstitutedFiles(ms, files);
    ApplyKeepsUtf8(ms, files, editable);
    var edit := Mutation(path, 0, results[path], files[path]);
    var k :| 0 <= k < |ms| && ms[k] == m;
    assert Fits(ms[k], files, editable);
    assert results[path][0..|results[path]|] == results[path];
    assert [edit][0] == edit;
    assert IsValid([edit], results, editable) ==> Fits([edit][0], results, editable);
    assert Fits(edit, results, editable) ==> IsValid([edit], results, editable);
    if results[path] != [] {
      WholeFileReplaced(results, path, files[path]);
    } else {
      forall back ensures !Restores(back, ms, files, path, editable) {
        PastTheEnd(results[path], back, path, 0);
      }
    }
  }

  /** `back` is accepted after `ms` and gives the file back. */
  ghost predicate Restores(back: seq<Mutation>, ms: seq<Mutation>, files: Files, path: string, editable: string -> bool)
    requires path in files
  {
    IsValid(back, SubstitutedFiles(ms, files), editable) &&
    SubstitutedFiles(back, SubstitutedFiles(ms, files))[path] == files[path]
  }

  // ------------------------------------------------------------------
  // Widened edits
  // ------------------------------------------------------------------

  /** `w` replaces what `m` replaces together with some untouched text around it. */
  predicate Widens(w: Mutation, m: Mutation, content: Bytes) {
    w.path == m.path && 0 <= w.start <= m.start && End(m) <= End(w) <= |content| &&
    w.after == content[w.start..m.start] + m.after + content[End(m)..End(w)]
  }

  /** `ws` widens the mutations of `ms` one by one. */
  ghost predicate WidensAll(ws: seq<Mutation>, ms: seq<Mutation>, files: Files) {
    |ws| == |ms| && forall i :: 0 <= i < |ms| ==> ms[i].path in files && Widens(ws[i], ms[i], files[ms[i].path])
  }

  /** Around a mutation, its widened range holds no other mutation. */
  lemma NothingElseInside(ms: seq<Mutation>, ws: seq<Mutation>, files: Files, i: nat, e: Mutation)
    requires Separate(ms) && Separate(ws) && WidensAll(ws, ms, files) && i < |ms|
    requires e in ms && e.path == ms[i].path && ws[i].start <= e.start < End(ws[i])
    ensures e == ms[i]
  {
    var j :| 0 <= j < |ms| && ms[j] == e;
    assert Widens(ws[j], ms[j], files[ms[j].path]);
    assert ws[j].path == ws[i].path;
  }

  lemma {:induction false} WidenedFrom(ms: seq<Mutation>, ws: seq<Mutation>, files: Files, path: string, p: nat)
    requires Separate(ms) && Separate(ws) && WidensAll(ws, ms, files) && path in files
    requires p <= |files[path]| && Edge(ws, path, p)
    ensures Substituted(files[path], ws, path, p) == Substituted(files[path], ms, path, p)
    decreases |files[path]| - p
  {
    hide Substituted; hide EditAt; hide Separate; hide WidensAll;
    var content := files[path];
    if p == |content| {
      PastTheEnd(content, ws, path, p);
      PastTheEnd(content, ms, path, p);
    } else if i: nat :| i < |ws| && ws[i].path == path && ws[i].start == p {
      WidenedStep(ms, ws, files, i);
      WidenedFrom(ms, ws, files, path, End(ws[i]));
    } else {
      NoEditHere(ms, ws, files, path, p);
      StepOver(content, ws, path, p);
      StepOver(content, ms, path, p);
      WidenedFrom(ms, ws, files, path, p + 1);
    }
  }

  lemma NoEditHere(ms: seq<Mutation>, ws: seq<Mutation>, files: Files, path: string, p: nat)
    requires Separate(ms) && WidensAll(ws, ms, files) && Edge(ws, path, p)
    requires forall i: nat :: i < |ws| && ws[i].path == path ==> ws[i].start != p
    ensures (forall e :: e in ws && e.path == path ==> e.start != p) && Edge(ws, path, p + 1)
    ensures forall e :: e in ms && e.path == path ==> e.start != p
  {
    forall e | e in ms && e.path == path ensures e.start != p {
      var j :| 0 <= j < |ms| && ms[j] == e;
      assert Widens(ws[j], ms[j], files[ms[j].path]) && ws[j] in ws;
    }
  }

  /** Reading across a widened range: the text around the mutation, and what it puts in. */
  lemma AcrossWidened(content: Bytes, ms: seq<Mutation>, m: Mutation, w: Mutation)
    requires Separate(ms) && m in ms && Widens(w, m, content)
    requires forall e :: e in ms && e.path == m.path && w.start <= e.start < End(w) ==> e == m
    ensures Substituted(content, ms, m.path, w.start) == w.after + Substituted(content, ms, m.path, End(w))
  {
    hide Substituted; hide EditAt; hide PairwiseDisjoint;
    Copied(content, ms, m.path, w.start, m.start);
    StepThrough(content, ms, m);
    Copied(content, ms, m.path, End(m), End(w));
  }

  /** One widened edit against the edit it widens. */
  lemma WidenedStep(ms: seq<Mutation>, ws: seq<Mutation>, files: Files, i: nat)
    requires Separate(ms) && Separate(ws) && WidensAll(ws, ms, files) && i < |ws|
    ensures i < |ms| && ms[i].path == ws[i].path && ms[i].path in files
    ensures var w, content := ws[i], files[ms[i].path];
            0 <= w.start < End(w) <= |content| && Edge(ws, w.path, End(w)) &&
            Substituted(content, ws, w.path, w.start) == w.after + Substituted(content, ws, w.path, End(w)) &&
            Substituted(content, ms, w.path, w.start) == w.after + Substituted(content, ms, w.path, End(w))
  {
    hide Substituted; hide EditAt; hide PairwiseDisjoint;
    var m, w, content := ms[i], ws[i], files[ms[i].path];
    assert Widens(w, m, content) && m in ms && w in ws;
    EdgeAfter(ws, w);
    forall e | e in ms && e.path == m.path && w.start <= e.start < End(w) ensures e == m {
      NothingElseInside(ms, ws, files, i, e);
    }
    StepThrough(content, ws, w);
    AcrossWidened(content, ms, m, w);
  }

  /** Widening does not change what the mutations do. */
  lemma WidenedIsSame(ms: seq<Mutation>, ws: seq<Mutation>, files: Files, editable: string -> bool)
    requires IsValid(ms, files, editable) && IsValid(ws, files, editable) && WidensAll(ws, ms, files)
    ensures SubstitutedFiles(ws, files) == SubstitutedFiles(ms, files)
  {
    hide Substituted; hide WidensAll; hide Separate;
    ValidIsSeparate(ms, files, editable);
    ValidIsSeparate(ws, files, editable);
    forall f | f in files ensures Substituted(files[f], ws, f, 0) == Substituted(files[f], ms, f, 0) {
      FilesFit(ws, files, f, editable);
      NoDriftAtStart(files[f], ws, f);
      WidenedFrom(ms, ws, files, f, 0);
    }
  }

  /** Deletions in files of any size: when the mutations can be widened to an accepted list that
      deletes nothing, the reverse edits of that list are accepted and restore all files at once. */
  lemma WidenedUndo(ms: seq<Mutation>, ws: seq<Mutation>, files: Files, editable: string -> bool)
    requires IsValid(ms, files, editable) && IsValid(ws, files, editable) && WidensAll(ws, ms, files)
    requires forall w :: w in ws ==> w.after != []
    ensures IsValid(ReverseEdits(ws), SubstitutedFiles(ms, files), editable)
    ensures SubstitutedFiles(ReverseEdits(ws), SubstitutedFiles(ms, files)) == files
  {
    hide Substituted; hide ReverseEdits;
    WidenedIsSame(ms, ws, files, editable);
    UndoTheorem(ws, files, editable);
  }
}
