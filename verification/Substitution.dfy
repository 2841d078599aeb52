/** Applying mutations is one simultaneous substitution, whatever the order. */
module Substitution {
  import opened Common
  import Utf8
  import opened Mutations

  type Bytes = Utf8.Bytes

  // ------------------------------------------------------------------
  // Simultaneous substitution
  // ------------------------------------------------------------------

  /** The mutation of `path` that starts at `p`. */
  function EditAt(ms: seq<Mutation>, path: string, p: int): (r: Option<Mutation>)
    ensures r.Some? ==> r.value in ms && r.value.path == path && r.value.start == p
    ensures r.None? ==> forall m :: m in ms && m.path == path ==> m.start != p
  {
    if ms == [] then None
    else if ms[0].path == path && ms[0].start == p then Some(ms[0])
    else EditAt(ms[1..], path, p)
  }

  /** Every mutated range of `content` replaced at once, reading from `p` on. */
  function Substituted(content: Bytes, ms: seq<Mutation>, path: string, p: nat): Bytes
    decreases |content| - p
  {
    if p >= |content| then []
    else
      var m := EditAt(ms, path, p);
      if m.Some? && |m.value.before| > 0
      then m.value.after + Substituted(content, ms, path, p + |m.value.before|)
      else [content[p]] + Substituted(content, ms, path, p + 1)
  }

  function SubstitutedFiles(ms: seq<Mutation>, files: Files): Files {
    map f | f in files :: Substituted(files[f], ms, f, 0)
  }

  /** Distinct, non-empty, disjoint ranges. */
  ghost predicate Separate(ms: seq<Mutation>) {
    PairwiseDisjoint(ms) && forall m :: m in ms ==> |m.before| > 0
  }

  lemma EditAtIs(ms: seq<Mutation>, m: Mutation)
    requires Separate(ms) && m in ms
    ensures EditAt(ms, m.path, m.start) == Some(m)
  {
    hide EditAt;
    var e := EditAt(ms, m.path, m.start);
    var i :| 0 <= i < |ms| && ms[i] == m;
    var j :| 0 <= j < |ms| && ms[j] == e.value;
  }

  lemma {:induction false} SameSubstitution(content: Bytes, a: seq<Mutation>, b: seq<Mutation>, path: string, p: nat)
    requires Separate(a) && Separate(b) && forall m :: m in a <==> m in b
    ensures Substituted(content, a, path, p) == Substituted(content, b, path, p)
    decreases |content| - p
  {
    hide Substituted; hide EditAt; hide PairwiseDisjoint;
    if p >= |content| {
      PastTheEnd(content, a, path, p);
      PastTheEnd(content, b, path, p);
    } else if m :| m in a && m.path == path && m.start == p {
      StepThrough(content, a, m);
      StepThrough(content, b, m);
      SameSubstitution(content, a, b, path, End(m));
    } else {
      StepOver(content, a, path, p);
      StepOver(content, b, path, p);
      SameSubstitution(content, a, b, path, p + 1);
    }
  }

  lemma PastTheEnd(content: Bytes, ms: seq<Mutation>, path: string, p: nat)
    requires p >= |content|
    ensures Substituted(content, ms, path, p) == []
  {
  }

  lemma StepOver(content: Bytes, ms: seq<Mutation>, path: string, p: nat)
    requires p < |content| && forall m :: m in ms && m.path == path ==> m.start != p
    ensures Substituted(content, ms, path, p) == [content[p]] + Substituted(content, ms, path, p + 1)
  {
    hide EditAt;
  }

  lemma StepThrough(content: Bytes, ms: seq<Mutation>, m: Mutation)
    requires Separate(ms) && m in ms && 0 <= m.start < |content|
    ensures Substituted(content, ms, m.path, m.start) == m.after + Substituted(content, ms, m.path, End(m))
  {
    hide EditAt; hide Substituted;
    EditAtIs(ms, m);
    Unfolded(content, ms, m);
  }

  /** Bytes before the next mutation are copied. */
  lemma {:induction false} Copied(content: Bytes, ms: seq<Mutation>, path: string, p: nat, q: nat)
    requires p <= q <= |content| && forall m :: m in ms && m.path == path ==> !(p <= m.start < q)
    ensures Substituted(content, ms, path, p) == content[p..q] + Substituted(content, ms, path, q)
    decreases q - p
  {
    hide EditAt; hide Substituted;
    if p == q {
      assert content[p..q] == [];
    } else {
      StepOver(content, ms, path, p);
      Copied(content, ms, path, p + 1, q);
      assert content[p..q] == [content[p]] + content[p + 1..q];
    }
  }

  lemma {:induction false} EditAtAppend(ms: seq<Mutation>, m: Mutation, path: string, p: int)
    requires m.path != path || m.start != p
    ensures EditAt(ms + [m], path, p) == EditAt(ms, path, p)
  {
    if ms != [] {
      assert (ms + [m])[1..] == ms[1..] + [m];
      EditAtAppend(ms[1..], m, path, p);
    }
  }

  /** A mutation elsewhere does not matter. */
  lemma {:induction false} IgnoresEarlier(content: Bytes, ms: seq<Mutation>, m: Mutation, path: string, p: nat)
    requires m.path != path || m.start < p
    ensures Substituted(content, ms + [m], path, p) == Substituted(content, ms, path, p)
    decreases |content| - p
  {
    if p < |content| {
      EditAtAppend(ms, m, path, p);
      var e := EditAt(ms, path, p);
      hide EditAt;
      if e.Some? && |e.value.before| > 0 {
        IgnoresEarlier(content, ms, m, path, p + |e.value.before|);
      } else {
        IgnoresEarlier(content, ms, m, path, p + 1);
      }
    }
  }

  /** Splicing a mutation that lies before all others extends the substitution. */
  lemma SpliceExtends(content: Bytes, ms: seq<Mutation>, m: Mutation)
    requires 0 <= m.start && End(m) <= |content| && |m.before| > 0
    requires forall e :: e in ms && e.path == m.path ==> End(m) <= e.start
    ensures var data := Substituted(content, ms, m.path, 0);
            End(m) <= |data| &&
            data[..m.start] + m.after + data[End(m)..] == Substituted(content, ms + [m], m.path, 0)
  {
    hide EditAt; hide Substituted;
    var data, rest := Substituted(content, ms, m.path, 0), Substituted(content, ms, m.path, End(m));
    Copied(content, ms, m.path, 0, End(m));
    assert data[..m.start] == content[0..m.start] && data[End(m)..] == rest;
    Copied(content, ms + [m], m.path, 0, m.start);
    IgnoresEarlier(content, ms, m, m.path, End(m));
    StepInto(content, ms, m);
  }

  lemma StepInto(content: Bytes, ms: seq<Mutation>, m: Mutation)
    requires 0 <= m.start < |content| && |m.before| > 0
    requires forall e :: e in ms && e.path == m.path ==> e.start != m.start
    ensures Substituted(content, ms + [m], m.path, m.start) == m.after + Substituted(content, ms + [m], m.path, End(m))
  {
    hide EditAt; hide Substituted;
    var all := ms + [m];
    assert m in all && forall e :: e in all ==> e in ms || e == m;
    assert EditAt(all, m.path, m.start) == Some(m);
    Unfolded(content, all, m);
  }

  lemma Unfolded(content: Bytes, ms: seq<Mutation>, m: Mutation)
    requires 0 <= m.start < |content| && |m.before| > 0 && EditAt(ms, m.path, m.start) == Some(m)
    ensures Substituted(content, ms, m.path, m.start) == m.after + Substituted(content, ms, m.path, End(m))
  {
    hide EditAt;
  }

  // ------------------------------------------------------------------
  // Apply: any list sorted by descending start, one splice at a time
  // ------------------------------------------------------------------

  ghost predicate SortedByDescendingStart(ordered: seq<Mutation>) {
    forall i, j :: 0 <= i < j < |ordered| ==> ordered[i].start >= ordered[j].start
  }

  lemma SpliceKeeps(files: Files, ordered: seq<Mutation>, k: nat, editable: string -> bool)
    requires IsValid(ordered, files, editable) && SortedByDescendingStart(ordered) && k < |ordered|
    ensures var m := ordered[k];
            var data := SubstitutedFiles(ordered[..k], files)[m.path];
            End(m) <= |data| &&
            SubstitutedFiles(ordered[..k], files)[m.path := data[..m.start] + m.after + data[End(m)..]] ==
            SubstitutedFiles(ordered[..k + 1], files)
  {
    hide EditAt; hide Substituted;
    var m, done := ordered[k], ordered[..k];
    assert Fits(m, files, editable);
    assert ordered[..k + 1] == done + [m];
    forall e | e in done && e.path == m.path ensures End(m) <= e.start {
      var i :| 0 <= i < k && ordered[i] == e;
      assert Fits(ordered[i], files, editable);
    }
    SpliceExtends(files[m.path], done, m);
    forall f | f in files && f != m.path
      ensures Substituted(files[f], done + [m], f, 0) == Substituted(files[f], done, f, 0) {
      IgnoresEarlier(files[f], done, m, f, 0);
    }
  }

  lemma ValidIsSeparate(ms: seq<Mutation>, files: Files, editable: string -> bool)
    requires IsValid(ms, files, editable)
    ensures Separate(ms)
  {
    forall m | m in ms ensures |m.before| > 0 {
      var i :| 0 <= i < |ms| && ms[i] == m;
      assert Fits(ms[i], files, editable);
    }
  }

  /** `byPath` and `descending` are whatever the two sorts produced. */
  method Apply(mutations: seq<Mutation>, byPath: seq<Mutation>, descending: seq<Mutation>, files: Files,
               editable: string -> bool)
    returns (r: Option<Files>)
    requires SameElements(mutations, byPath) && SortedByPath(byPath)
    requires SameElements(mutations, descending) && SortedByDescendingStart(descending)
    ensures r.Some? <==> IsValid(mutations, files, editable)
    ensures r.Some? ==> r.value == SubstitutedFiles(mutations, files)
  {
    var ok := Validate(mutations, byPath, files, editable);
    if !ok {
      return None;
    }
    ValidityIgnoresOrder(mutations, descending, files, editable);
    var result := files;
    NothingYet(files);
    var k := 0;
    while k < |descending|
      invariant 0 <= k <= |descending|
      invariant result == SubstitutedFiles(descending[..k], files)
    {
      var m := descending[k];
      assert Fits(m, files, editable);
      SpliceKeeps(files, descending, k, editable);
      hide EditAt; hide Substituted;
      var data := result[m.path];
      result := result[m.path := data[..m.start] + m.after + data[End(m)..]];
      k := k + 1;
    }
    assert descending[..k] == descending;
    OrderDoesNotMatter(mutations, descending, files, editable);
    return Some(result);
  }

  lemma NothingYet(files: Files)
    ensures SubstitutedFiles([], files) == files
  {
    forall f | f in files ensures Substituted(files[f], [], f, 0) == files[f] {
      Copied(files[f], [], f, 0, |files[f]|);
    }
  }

  lemma OrderDoesNotMatter(a: seq<Mutation>, b: seq<Mutation>, files: Files, editable: string -> bool)
    requires SameElements(a, b) && IsValid(a, files, editable) && IsValid(b, files, editable)
    ensures SubstitutedFiles(a, files) == SubstitutedFiles(b, files)
  {
    SameLength(a, b);
    ValidIsSeparate(a, files, editable);
    ValidIsSeparate(b, files, editable);
    forall f | f in files ensures Substituted(files[f], a, f, 0) == Substituted(files[f], b, f, 0) {
      SameSubstitution(files[f], a, b, f, 0);
    }
  }

  // ------------------------------------------------------------------
  // One file's view
  // ------------------------------------------------------------------

  function OfFile(ms: seq<Mutation>, path: string): (r: seq<Mutation>)
    ensures forall m :: m in r <==> m in ms && m.path == path
    ensures |r| <= |ms|
  {
    if ms == [] then []
    else if ms[0].path == path then [ms[0]] + OfFile(ms[1..], path)
    else OfFile(ms[1..], path)
  }

  lemma {:induction false} OfFileDisjoint(ms: seq<Mutation>, path: string)
    requires PairwiseDisjoint(ms)
    ensures PairwiseDisjoint(OfFile(ms, path))
  {
    if ms != [] {
      var rest := ms[1..];
      TailDisjoint(ms);
      OfFileDisjoint(rest, path);
      if ms[0].path == path {
        FirstApart(ms, OfFile(rest, path));
      }
    }
  }

  lemma TailDisjoint(ms: seq<Mutation>)
    requires PairwiseDisjoint(ms) && ms != []
    ensures PairwiseDisjoint(ms[1..])
  {
    var rest := ms[1..];
    forall i, j | 0 <= i < |rest| && 0 <= j < |rest| && i != j && rest[i].path == rest[j].path
      ensures End(rest[i]) <= rest[j].start || End(rest[j]) <= rest[i].start {
      assert rest[i] == ms[i + 1] && rest[j] == ms[j + 1];
    }
  }

  lemma FirstApart(ms: seq<Mutation>, tail: seq<Mutation>)
    requires PairwiseDisjoint(ms) && ms != [] && PairwiseDisjoint(tail) && forall m :: m in tail ==> m in ms[1..]
    ensures PairwiseDisjoint([ms[0]] + tail)
  {
    var rest, all := ms[1..], [ms[0]] + tail;
    forall j | 0 <= j < |tail| && tail[j].path == ms[0].path
      ensures End(ms[0]) <= tail[j].start || End(tail[j]) <= ms[0].start {
      assert tail[j] in rest;
      var k :| 0 <= k < |rest| && rest[k] == tail[j];
      assert ms[k + 1] == tail[j];
    }
    forall i, j | 0 <= i < |all| && 0 <= j < |all| && i != j && all[i].path == all[j].path
      ensures End(all[i]) <= all[j].start || End(all[j]) <= all[i].start {
      if i > 0 && j > 0 {
        assert all[i] == tail[i - 1] && all[j] == tail[j - 1];
      }
    }
  }

  /** Applying only one file's mutations to that file alone is accepted, and gives the
      bytes that the whole application gives that file. */
  lemma FileViewAgrees(ms: seq<Mutation>, files: Files, path: string, editable: string -> bool)
    requires IsValid(ms, files, editable) && path in files
    ensures var own, alone := OfFile(ms, path), map[path := files[path]];
            (own != [] ==> IsValid(own, alone, editable)) &&
            SubstitutedFiles(own, alone)[path] == SubstitutedFiles(ms, files)[path]
  {
    var own := OfFile(ms, path);
    OfFileDisjoint(ms, path);
    ValidIsSeparate(ms, files, editable);
    forall i | 0 <= i < |own| ensures Fits(own[i], map[path := files[path]], editable) {
      assert own[i] in ms;
    }
    FilteredSubstitution(files[path], ms, own, path, 0);
  }

  lemma {:induction false} FilteredSubstitution(content: Bytes, ms: seq<Mutation>, own: seq<Mutation>, path: string,
                                                p: nat)
    requires Separate(ms) && Separate(own) && forall m :: m in own <==> m in ms && m.path == path
    ensures Substituted(content, own, path, p) == Substituted(content, ms, path, p)
    decreases |content| - p
  {
    hide Substituted; hide EditAt; hide PairwiseDisjoint;
    if p >= |content| {
      PastTheEnd(content, ms, path, p);
      PastTheEnd(content, own, path, p);
    } else if m :| m in ms && m.path == path && m.start == p {
      StepThrough(content, ms, m);
      StepThrough(content, own, m);
      FilteredSubstitution(content, ms, own, path, End(m));
    } else {
      StepOver(content, ms, path, p);
      StepOver(content, own, path, p);
      FilteredSubstitution(content, ms, own, path, p + 1);
    }
  }

  // ------------------------------------------------------------------
  // Valid UTF-8 stays valid
  // ------------------------------------------------------------------

  /** Every mutation of `path` takes well-formed text out of `content` and puts well-formed text in. */
  ghost predicate TextEdits(content: Bytes, ms: seq<Mutation>, path: string) {
    forall m :: m in ms && m.path == path ==>
      0 <= m.start && End(m) <= |content| && content[m.start..End(m)] == m.before &&
      Utf8.Valid(m.before) && Utf8.Valid(m.after)
  }

  lemma {:induction false} TextStaysValid(content: Bytes, ms: seq<Mutation>, path: string, p: nat)
    requires Separate(ms) && TextEdits(content, ms, path) && p <= |content| && Utf8.Valid(content[p..])
    ensures Utf8.Valid(Substituted(content, ms, path, p))
    decreases |content| - p
  {
    hide EditAt; hide Substituted; hide Utf8.FirstLength; hide Utf8.Valid;
    if p == |content| {
      NothingLeft(content, ms, path);
    } else if m :| m in ms && m.path == path && m.start == p {
      assert content[p..] == m.before + content[End(m)..];
      Utf8.RestValid(m.before, content[End(m)..]);
      TextStaysValid(content, ms, path, End(m));
      StepThrough(content, ms, m);
      Utf8.ConcatValid(m.after, Substituted(content, ms, path, End(m)));
    } else {
      var n := CharacterAhead(content, ms, path, p);
      assert content[p..p + n] == content[p..][..n];
      Copied(content, ms, path, p, p + n);
      TextStaysValid(content, ms, path, p + n);
      Utf8.ConcatValid(content[p..p + n], Substituted(content, ms, path, p + n));
    }
  }

  lemma NothingLeft(content: Bytes, ms: seq<Mutation>, path: string)
    ensures Substituted(content, ms, path, |content|) == [] && Utf8.Valid([])
  {
  }

  /** A character on which no mutation starts has no mutation starting inside it. */
  lemma CharacterAhead(content: Bytes, ms: seq<Mutation>, path: string, p: nat) returns (n: nat)
    requires Separate(ms) && TextEdits(content, ms, path) && p < |content| && Utf8.Valid(content[p..])
    requires forall m :: m in ms && m.path == path ==> m.start != p
    ensures 0 < n && p + n <= |content| && Utf8.Valid(content[p..][..n]) && Utf8.Valid(content[p + n..])
    ensures forall m :: m in ms && m.path == path ==> !(p <= m.start < p + n)
  {
    hide Utf8.FirstLength;
    var rest := content[p..];
    n := Utf8.FirstLength(rest);
    Utf8.FirstAlone(rest);
    assert rest[n..] == content[p + n..];
    forall m | m in ms && m.path == path ensures !(p <= m.start < p + n) {
      assert !Utf8.IsTail(m.before[0]);
      assert m.before[0] == content[m.start..End(m)][0] == content[m.start];
    }
  }

  /** Validated mutations keep every file well-formed UTF-8. */
  lemma ApplyKeepsUtf8(ms: seq<Mutation>, files: Files, editable: string -> bool)
    requires IsValid(ms, files, editable)
    ensures forall f :: f in files && Utf8.Valid(files[f]) ==> Utf8.Valid(SubstitutedFiles(ms, files)[f])
  {
    ValidIsSeparate(ms, files, editable);
    forall f | f in files && Utf8.Valid(files[f]) ensures Utf8.Valid(Substituted(files[f], ms, f, 0)) {
      FilesFit(ms, files, f, editable);
      assert files[f][0..] == files[f];
      TextStaysValid(files[f], ms, f, 0);
    }
  }

  lemma FilesFit(ms: seq<Mutation>, files: Files, path: string, editable: string -> bool)
    requires IsValid(ms, files, editable) && path in files
    ensures TextEdits(files[path], ms, path)
  {
    forall m | m in ms && m.path == path ensures Fits(m, files, editable) {
      var i :| 0 <= i < |ms| && ms[i] == m;
    }
  }

  /** Accepted mutations change editable files only, and only those they name. */
  lemma ApplyIsConfined(ms: seq<Mutation>, files: Files, editable: string -> bool, f: string)
    requires IsValid(ms, files, editable) && f in files
    requires !editable(f) || forall m :: m in ms ==> m.path != f
    ensures SubstitutedFiles(ms, files)[f] == files[f]
  {
    hide Substituted; hide PairwiseDisjoint;
    forall m | m in ms ensures m.path != f {
      var i :| 0 <= i < |ms| && ms[i] == m;
      assert Fits(ms[i], files, editable);
    }
    var content := files[f];
    Copied(content, ms, f, 0, |content|);
    PastTheEnd(content, ms, f, |content|);
    assert content[0..|content|] == content;
  }
}
