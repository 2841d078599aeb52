/** The sandbox's output splitter: log before the snapshot marker, artifact after it,
    whatever the pieces in which the output arrives. Each byte is one character. */
module SandboxOutput {
  import opened Common

  const MARKER := "\n__CPPDEFENSE_SNAPSHOT__\n"
  const LOG_LIMIT: nat := 16 * 1048576 + 1
  const ARTIFACT_LIMIT: nat := 800 * 1048576

  // ------------------------------------------------------------------
  // What the output means
  // ------------------------------------------------------------------

  predicate MarkerAt(text: string, i: nat) {
    i + |MARKER| <= |text| && text[i..i + |MARKER|] == MARKER
  }

  /** Offset of the first marker from `i` on. */
  function IndexFrom(text: string, i: nat): (r: Option<nat>)
    requires i <= |text|
    ensures r.Some? ==> i <= r.value && MarkerAt(text, r.value)
    ensures r.Some? ==> forall k: nat :: i <= k < r.value ==> !MarkerAt(text, k)
    ensures r.None? ==> forall k: nat :: i <= k ==> !MarkerAt(text, k)
    decreases |text| - i
  {
    if MarkerAt(text, i) then Some(i)
    else if i == |text| then None
    else IndexFrom(text, i + 1)
  }

  function Index(text: string): (r: Option<nat>)
    ensures r.Some? <==> exists k: nat :: MarkerAt(text, k)
    ensures r.Some? ==> MarkerAt(text, r.value) && forall k: nat :: k < r.value ==> !MarkerAt(text, k)
  {
    IndexFrom(text, 0)
  }

  function Truncated(text: string): string {
    if |text| <= LOG_LIMIT then text else text[..LOG_LIMIT]
  }

  /** The log of the whole output. */
  function LogOf(text: string, snapshot: bool): string {
    if snapshot && Index(text).Some? then Truncated(text[..Index(text).value]) else Truncated(text)
  }

  /** The artifact of the whole output. */
  function ArtifactOf(text: string, snapshot: bool): string {
    if snapshot && Index(text).Some? then text[Index(text).value + |MARKER|..] else []
  }

  function Joined(chunks: seq<string>): string {
    if chunks == [] then [] else chunks[0] + Joined(chunks[1..])
  }

  // ------------------------------------------------------------------
  // Facts about markers and truncation
  // ------------------------------------------------------------------

  lemma TruncatedTwice(a: string, b: string)
    ensures Truncated(Truncated(a) + b) == Truncated(a + b)
  {
  }

  lemma MarkerInPrefix(a: string, b: string, i: nat)
    ensures i + |MARKER| <= |a| ==> MarkerAt(a + b, i) == MarkerAt(a, i)
  {
    if i + |MARKER| <= |a| {
      assert (a + b)[i..i + |MARKER|] == a[i..i + |MARKER|];
    }
  }

  lemma MarkerInSuffix(a: string, b: string, i: nat)
    ensures MarkerAt(a + b, |a| + i) == MarkerAt(b, i)
  {
    if i + |MARKER| <= |b| {
      assert (a + b)[|a| + i..|a| + i + |MARKER|] == b[i..i + |MARKER|];
    }
  }

  /** Once the marker has come, later output does not move it. */
  lemma IndexStays(a: string, b: string)
    requires Index(a).Some?
    ensures Index(a + b) == Index(a)
  {
    hide MarkerAt;
    var at := Index(a).value;
    MarkerFits(a, at);
    MarkerInPrefix(a, b, at);
    forall i: nat | i < at ensures !MarkerAt(a + b, i) {
      MarkerInPrefix(a, b, i);
    }
  }

  lemma MarkerFits(a: string, i: nat)
    requires MarkerAt(a, i)
    ensures i + |MARKER| <= |a|
  {
  }

  /** Keeping one marker's length of the text is enough to see every later marker. */
  lemma IndexInTail(seen: string, pending: string, data: string)
    requires Index(seen + pending).None? && (seen == [] || |pending| >= |MARKER|)
    ensures Index(seen + pending + data).Some? <==> Index(pending + data).Some?
    ensures Index(pending + data).Some? ==> Index(seen + pending + data).value == |seen| + Index(pending + data).value
  {
    hide MarkerAt;
    var text, tail := seen + pending + data, pending + data;
    assert text == seen + tail;
    forall i: nat | i < |seen| ensures !MarkerAt(text, i) {
      MarkerInPrefix(seen + pending, data, i);
      assert !MarkerAt(seen + pending, i);
    }
    forall i: nat ensures MarkerAt(text, |seen| + i) == MarkerAt(tail, i) {
      MarkerInSuffix(seen, tail, i);
    }
    if Index(text).Some? {
      var at := Index(text).value;
      assert MarkerAt(tail, at - |seen|);
    }
    if Index(tail).Some? {
      var at := Index(tail).value;
      assert MarkerAt(text, |seen| + at);
      forall k: nat | k < |seen| + at ensures !MarkerAt(text, k) {
        if k >= |seen| {
          assert MarkerAt(text, |seen| + (k - |seen|)) == MarkerAt(tail, k - |seen|);
        }
      }
    }
  }

  /** Output cut at its first marker: the log is what comes before, up to 16 MiB and one byte, and the
      artifact is what comes after. */
  lemma CutAtMarker(a: string, b: string)
    requires var text := a + "\n__CPPDEFENSE_SNAPSHOT__\n" + b; forall k: nat :: k < |a| ==> !MarkerAt(text, k)
    ensures var text := a + "\n__CPPDEFENSE_SNAPSHOT__\n" + b;
            LogOf(text, true) == a[..Min(|a|, 16_777_217)] && ArtifactOf(text, true) == b
  {
    var text := a + "\n__CPPDEFENSE_SNAPSHOT__\n" + b;
    assert text[|a|..|a| + |MARKER|] == MARKER;
    assert MarkerAt(text, |a|);
    hide MarkerAt;
    assert Index(text) == Some(|a|);
    hide Index;
    assert text[..|a|] == a && text[|a| + |MARKER|..] == b;
    assert a[..|a|] == a;
  }

  /** Output without a marker, or of a run that exports nothing, is all log. */
  lemma NoMarkerNoArtifact(text: string, snapshot: bool)
    requires !snapshot || forall k: nat :: !MarkerAt(text, k)
    ensures LogOf(text, snapshot) == text[..Min(|text|, 16_777_217)] && ArtifactOf(text, snapshot) == ""
  {
    assert text[..|text|] == text;
  }

  lemma AllIsLog(text: string, chunk: string)
    ensures |Truncated(text)| <= LOG_LIMIT && Truncated(Truncated(text) + chunk) == Truncated(text + chunk)
    ensures ArtifactOf(text + chunk, false) == ArtifactOf(text, false) == []
  {
  }

  lemma Exporting(text: string, chunk: string)
    requires Index(text).Some?
    ensures Index(text + chunk).Some? && LogOf(text + chunk, true) == LogOf(text, true)
    ensures ArtifactOf(text + chunk, true) == ArtifactOf(text, true) + chunk
  {
    hide MarkerAt; hide Index;
    IndexStays(text, chunk);
    var at := Index(text).value;
    MarkerFits(text, at);
    assert (text + chunk)[at + |MARKER|..] == text[at + |MARKER|..] + chunk;
    assert (text + chunk)[..at] == text[..at];
  }

  lemma Searching(seen: string, pending: string, chunk: string)
    requires Index(seen + pending).None? && (seen == [] || |pending| >= |MARKER|)
    ensures var text, tail, found := seen + pending + chunk, pending + chunk, Index(pending + chunk);
            |Truncated(seen)| <= LOG_LIMIT && found.Some? == Index(text).Some? &&
            ArtifactOf(seen + pending, true) == [] &&
            (found.None? ==> ArtifactOf(text, true) == []) &&
            (found.Some? ==> found.value + |MARKER| <= |tail| &&
                             LogOf(text, true) == Truncated(Truncated(seen) + tail[..found.value]) &&
                             ArtifactOf(text, true) == tail[found.value + |MARKER|..])
  {
    hide MarkerAt; hide Index;
    IndexInTail(seen, pending, chunk);
    var text, tail, found := seen + pending + chunk, pending + chunk, Index(pending + chunk);
    if found.Some? {
      var at := found.value;
      MarkerFits(tail, at);
      assert text[..|seen| + at] == seen + tail[..at];
      assert text[|seen| + at + |MARKER|..] == tail[at + |MARKER|..];
      TruncatedTwice(seen, tail[..at]);
    }
  }

  // ------------------------------------------------------------------
  // The splitter
  // ------------------------------------------------------------------

  /** The writer behind the artifact takes its first `capacity` bytes and fails after them. */
  class Splitter {
    const snapshot: bool
    const capacity: nat
    var data: string
    var pending: string
    var exporting: bool
    var exported: nat
    var artifact: string

    /** The fields after `text` has arrived and every write has succeeded: nothing in them
        remembers how the text was cut. */
    ghost predicate Holds(text: string)
      reads this
    {
      exported == |artifact| &&
      artifact == ArtifactOf(text, snapshot) && |artifact| <= Min(capacity, ARTIFACT_LIMIT) &&
      exporting == (snapshot && Index(text).Some?) &&
      if exporting then pending == [] && data == LogOf(text, snapshot)
      else exists seen :: Waiting(text, seen)
    }

    ghost predicate Waiting(text: string, seen: string)
      reads this
    {
      text == seen + pending && data == Truncated(seen) &&
      (if !snapshot then pending == [] else seen == [] || |pending| == |MARKER|)
    }

    constructor (snapshot: bool, capacity: nat)
      ensures this.snapshot == snapshot && this.capacity == capacity
      ensures Holds("")
    {
      this.snapshot, this.capacity := snapshot, capacity;
      data, pending, exporting, exported, artifact := [], [], false, 0, [];
      new;
      assert forall k: nat :: !MarkerAt("", k);
      assert Waiting("", "");
    }

    /** The capped buffer: what does not fit is dropped, and reported as written. */
    method WriteLog(payload: string)
      requires |data| <= LOG_LIMIT
      modifies this`data
      ensures data == Truncated(old(data) + payload)
    {
      var remaining := LOG_LIMIT - |data|;
      if remaining <= 0 {
        return;
      }
      if |payload| > remaining {
        data := data + payload[..remaining];
      } else {
        data := data + payload;
      }
    }

    method WriteArtifact(payload: string) returns (ok: bool)
      requires exported == |artifact| <= capacity
      modifies this`artifact, this`exported
      ensures exported == |artifact| <= capacity
      ensures ok <==> old(exported) + |payload| <= Min(capacity, ARTIFACT_LIMIT)
      ensures old(artifact) <= artifact <= old(artifact) + payload
      ensures ok ==> artifact == old(artifact) + payload
    {
      if exported + |payload| > ARTIFACT_LIMIT {
        return false;
      }
      var n := Min(|payload|, capacity - |artifact|);
      artifact := artifact + payload[..n];
      exported := exported + n;
      return n == |payload|;
    }

    method Write(chunk: string, ghost text: string) returns (ok: bool)
      requires Holds(text)
      modifies this
      ensures ok <==> |ArtifactOf(text + chunk, snapshot)| <= Min(capacity, ARTIFACT_LIMIT)
      ensures ok ==> Holds(text + chunk)
      ensures !ok ==> Refused(this, text + chunk)
    {
      hide MarkerAt; hide Index; hide LogOf; hide ArtifactOf; hide Truncated;
      if !snapshot {
        ghost var seen :| Waiting(text, seen);
        assert text == seen;
        AllIsLog(text, chunk);
        WriteLog(chunk);
        assert Waiting(text + chunk, text + chunk);
        return true;
      }
      if exporting {
        Exporting(text, chunk);
        ok := WriteArtifact(chunk);
        return;
      }
      ok := Search(chunk, text);
    }

    /** Nothing was found yet: look in what is pending together with the new chunk. */
    method Search(chunk: string, ghost text: string) returns (ok: bool)
      requires Holds(text) && snapshot && !exporting
      modifies this
      ensures ok <==> |ArtifactOf(text + chunk, snapshot)| <= Min(capacity, ARTIFACT_LIMIT)
      ensures ok ==> Holds(text + chunk)
      ensures !ok ==> Refused(this, text + chunk)
    {
      hide MarkerAt; hide Index; hide LogOf; hide ArtifactOf; hide Truncated;
      ghost var seen :| Waiting(text, seen);
      Searching(seen, pending, chunk);
      pending := pending + chunk;
      var found := Index(pending);
      if found.Some? {
        var at := found.value;
        WriteLog(pending[..at]);
        var tail := pending[at + |MARKER|..];
        exporting := true;
        ok := WriteArtifact(tail);
        pending := [];
        return;
      }
      if |pending| > |MARKER| {
        var n := |pending| - |MARKER|;
        TruncatedTwice(seen, pending[..n]);
        assert text + chunk == (seen + pending[..n]) + pending[n..];
        seen := seen + pending[..n];
        WriteLog(pending[..n]);
        pending := pending[n..];
      } else {
        assert text + chunk == seen + pending;
      }
      assert Waiting(text + chunk, seen);
      return true;
    }

    method Finish()
      requires |data| <= LOG_LIMIT
      modifies this`data, this`pending
      ensures data == Truncated(old(data) + old(pending)) && pending == []
    {
      WriteLog(pending);
      pending := [];
    }
  }

  // ------------------------------------------------------------------
  // Chunking does not matter
  // ------------------------------------------------------------------

  lemma {:induction false} JoinedPrefix(chunks: seq<string>, k: nat)
    requires k < |chunks|
    ensures Joined(chunks[..k + 1]) == Joined(chunks[..k]) + chunks[k]
  {
    if k == 0 {
      assert chunks[..1] == [chunks[0]] && chunks[..0] == [];
    } else {
      assert chunks[..k + 1][1..] == chunks[1..][..k] && chunks[..k][1..] == chunks[1..][..k - 1];
      JoinedPrefix(chunks[1..], k - 1);
    }
  }

  lemma {:induction false} JoinedSplit(chunks: seq<string>, k: nat)
    requires k <= |chunks|
    ensures Joined(chunks) == Joined(chunks[..k]) + Joined(chunks[k..])
  {
    if k == 0 {
      assert chunks[..0] == [] && chunks[0..] == chunks;
    } else {
      assert chunks[..k][1..] == chunks[1..][..k - 1] && chunks[k..] == chunks[1..][k - 1..];
      JoinedSplit(chunks[1..], k - 1);
    }
  }

  /** The copier hands over the pieces one by one, stops at the first refused write, and the
      caller then finishes. Only the joined text decides success, log and artifact. */
  method Capture(chunks: seq<string>, snapshot: bool, capacity: nat) returns (ok: bool, log: string, artifact: string)
    ensures ok <==> |ArtifactOf(Joined(chunks), snapshot)| <= Min(capacity, ARTIFACT_LIMIT)
    ensures log == LogOf(Joined(chunks), snapshot)
    ensures artifact <= ArtifactOf(Joined(chunks), snapshot)
    ensures ok ==> artifact == ArtifactOf(Joined(chunks), snapshot)
  {
    hide MarkerAt; hide Index; hide LogOf; hide ArtifactOf;
    var out := new Splitter(snapshot, capacity);
    var k := 0;
    ok := true;
    while k < |chunks| && ok
      invariant 0 <= k <= |chunks| && out.snapshot == snapshot && out.capacity == capacity
      invariant ok ==> out.Holds(Joined(chunks[..k]))
      invariant !ok ==> Refused(out, Joined(chunks[..k]))
    {
      JoinedPrefix(chunks, k);
      ok := out.Write(chunks[k], Joined(chunks[..k]));
      k := k + 1;
      if !ok {
        assert Refused(out, Joined(chunks[..k]));
      }
    }
    JoinedSplit(chunks, k);
    ghost var text, later := Joined(chunks[..k]), Joined(chunks[k..]);
    if ok {
      assert chunks[..k] == chunks;
      DataFits(out, text);
      out.Finish();
    } else {
      RefusedLater(out, text, later);
      out.Finish();
    }
    log, artifact := out.data, out.artifact;
  }

  ghost predicate Refused(out: Splitter, text: string)
    reads out
  {
    out.exporting && out.snapshot && Index(text).Some? && out.pending == [] && out.data == LogOf(text, true) &&
    out.artifact <= ArtifactOf(text, true) && |ArtifactOf(text, true)| > Min(out.capacity, ARTIFACT_LIMIT)
  }

  lemma DataFits(out: Splitter, text: string)
    requires out.Holds(text)
    ensures |out.data| <= LOG_LIMIT && Truncated(out.data + out.pending) == LogOf(text, out.snapshot)
  {
    hide MarkerAt; hide Index;
    if out.exporting {
      assert out.data + [] == out.data;
    } else {
      var seen :| out.Waiting(text, seen);
      TruncatedTwice(seen, out.pending);
    }
  }

  lemma RefusedLater(out: Splitter, text: string, later: string)
    requires Refused(out, text)
    ensures Refused(out, text + later) && |out.data| <= LOG_LIMIT && Truncated(out.data + []) == out.data
  {
    hide MarkerAt; hide Index;
    Exporting(text, later);
    assert out.data + [] == out.data;
  }
}
