/** Hiding a body: the worker's masker, the web backend's masker and the file masker,
    and splicing a body back. */
module Masking {
  import opened Common
  import opened Lexer
  import opened SpliceLexing
  import opened SourceParser
  import opened Entities
  import opened Declarations

  function Marker(): (m: string)
    ensures |m| == 10
  {
    "/* TODO */"
  }

  predicate IsBreak(c: char) {
    c == '\n' || c == '\r'
  }

  /** `[lo, hi)` blanked, line breaks kept. */
  function Blanked(s: string, lo: nat, hi: nat): (r: string)
    requires lo <= hi <= |s|
    ensures |r| == |s|
  {
    s[..lo] + BlankAll(s[lo..hi]) + s[hi..]
  }

  predicate FitsAt(s: string, i: nat)
    requires i + |Marker()| <= |s|
  {
    forall j :: i <= j < i + |Marker()| ==> !IsBreak(s[j])
  }

  /** The first place at or after `i` where the marker fits on one line before `hi`. */
  function FirstFit(s: string, i: nat, hi: nat): (r: Option<nat>)
    requires hi <= |s|
    ensures r.Some? ==> i <= r.value && r.value + |Marker()| <= hi && FitsAt(s, r.value)
    ensures forall k :: i <= k && k + |Marker()| <= hi && (r.None? || k < r.value) ==> !FitsAt(s, k)
    decreases hi - i
  {
    if i + |Marker()| > hi then None
    else if FitsAt(s, i) then Some(i)
    else FirstFit(s, i + 1, hi)
  }

  /** The masked file: the body of the braces at `begin` and `end - 1` is blanked and
      marked at the first place the marker fits. */
  function MaskedBody(s: string, begin: nat, end: nat): (r: string)
    requires begin + 2 <= end <= |s|
    ensures |r| == |s|
  {
    var t := Blanked(s, begin + 1, end - 1);
    match FirstFit(t, begin + 1, end - 1)
    case None => t
    case Some(i) => t[..i] + Marker() + t[i + |Marker()|..]
  }

  /** Masking keeps the length, every line break and everything outside the body,
      and leaves nothing of the body but blanks and at most one marker. */
  lemma MaskedBodyHides(s: string, begin: nat, end: nat, i: nat)
    requires begin + 2 <= end <= |s| && i < |s|
    ensures var r := MaskedBody(s, begin, end);
            (i <= begin || end - 1 <= i ==> r[i] == s[i]) &&
            (IsBreak(s[i]) <==> IsBreak(r[i])) && (IsBreak(s[i]) ==> r[i] == s[i]) &&
            (begin < i < end - 1 ==> IsBreak(r[i]) || r[i] == ' ' || r[i] in Marker())
  {
    hide Marker; hide FirstFit; hide FitsAt;
    BlankedAt(s, begin + 1, end - 1, i);
    hide Blanked;
    var t := Blanked(s, begin + 1, end - 1);
    var fit := FirstFit(t, begin + 1, end - 1);
    if fit.Some? {
      MarkedAt(t, fit.value, i);
    }
  }

  /** Ten bytes of the body from `i` on, all on one line. */
  predicate HasRoom(s: string, begin: nat, end: nat, i: nat) {
    begin < i && i + 10 < end <= |s| && forall j :: i <= j < i + 10 ==> s[j] != '\n' && s[j] != '\r'
  }

  /** The marker stands at the first place of the body with room for it on one line, and the rest of
      the body is blank; all of it is, when there is no such place. */
  lemma MarkerStandsFirst(s: string, begin: nat, end: nat)
    requires begin + 2 <= end <= |s|
    ensures forall at: nat :: HasRoom(s, begin, end, at) && (forall k: nat :: k < at ==> !HasRoom(s, begin, end, k)) ==>
              var r := MaskedBody(s, begin, end);
              r[at..at + 10] == "/* TODO */" &&
              forall i :: begin < i < end - 1 && !(at <= i < at + 10) ==>
                r[i] == if s[i] == '\n' || s[i] == '\r' then s[i] else ' '
    ensures (forall k: nat :: !HasRoom(s, begin, end, k)) ==>
              forall i :: begin < i < end - 1 ==>
                MaskedBody(s, begin, end)[i] == if s[i] == '\n' || s[i] == '\r' then s[i] else ' '
  {
    var t := Blanked(s, begin + 1, end - 1);
    var fit := FirstFit(t, begin + 1, end - 1);
    forall i | 0 <= i < |s| ensures t[i] == if begin + 1 <= i < end - 1 then Blank(s[i]) else s[i] {
      BlankedAt(s, begin + 1, end - 1, i);
    }
    hide Blanked; hide FirstFit;
    forall k: nat | begin < k && k + 10 < end ensures HasRoom(s, begin, end, k) <==> FitsAt(t, k) {
      RoomIsFit(s, t, begin, end, k);
    }
    hide FitsAt; hide HasRoom;
    RoomIsInside(s, begin, end);
    if fit.Some? {
      var r := MaskedBody(s, begin, end);
      var at := fit.value;
      assert HasRoom(s, begin, end, at);
      assert r[at..at + 10] == Marker();
    }
  }

  lemma RoomIsInside(s: string, begin: nat, end: nat)
    ensures forall k: nat :: HasRoom(s, begin, end, k) ==> begin < k && k + 10 < end
  {
  }

  lemma RoomIsFit(s: string, t: string, begin: nat, end: nat, k: nat)
    requires begin < k && k + 10 < end <= |s| == |t|
    requires forall i :: 0 <= i < |s| ==> t[i] == if begin + 1 <= i < end - 1 then Blank(s[i]) else s[i]
    ensures HasRoom(s, begin, end, k) <==> FitsAt(t, k)
  {
    hide Marker;
    forall j | k <= j < k + 10 ensures IsBreak(t[j]) <==> s[j] == '\n' || s[j] == '\r' {
    }
  }

  lemma MarkedAt(t: string, at: nat, i: nat)
    requires at + |Marker()| <= |t| && i < |t| && FitsAt(t, at)
    ensures var r := (t[..at] + Marker() + t[at + |Marker()|..])[i];
            r == t[i] || (r in Marker() && !IsBreak(r) && !IsBreak(t[i]) && at <= i < at + |Marker()|)
  {
    if at <= i < at + |Marker()| {
      MarkerHasNoBreak(i - at);
      hide Marker;
      assert (t[..at] + Marker() + t[at + |Marker()|..])[i] == Marker()[i - at];
    }
  }

  lemma BlankedAt(s: string, lo: nat, hi: nat, i: nat)
    requires lo <= hi <= |s| && i < |s|
    ensures Blanked(s, lo, hi)[i] == if lo <= i < hi then Blank(s[i]) else s[i]
  {
  }

  lemma MarkerHasNoBreak(k: nat)
    requires k < |Marker()|
    ensures !IsBreak(Marker()[k])
  {
  }

  method BlankBody(buffer: array<char>, lo: nat, hi: nat)
    requires lo <= hi <= buffer.Length
    modifies buffer
    ensures buffer[..] == Blanked(old(buffer[..]), lo, hi)
  {
    var i := lo;
    while i < hi
      invariant lo <= i <= hi
      invariant forall k :: 0 <= k < lo || i <= k < buffer.Length ==> buffer[k] == old(buffer[k])
      invariant forall k :: lo <= k < i ==> buffer[k] == Blank(old(buffer[k]))
    {
      if buffer[i] != '\n' && buffer[i] != '\r' {
        buffer[i] := ' ';
      }
      i := i + 1;
    }
  }

  method PlaceMarker(buffer: array<char>, at: nat)
    requires at + |Marker()| <= buffer.Length
    modifies buffer
    ensures buffer[..] == old(buffer[..at]) + Marker() + old(buffer[at + |Marker()|..])
  {
    hide Marker;
    for k := 0 to |Marker()|
      invariant forall i :: 0 <= i < buffer.Length ==>
                  buffer[i] == if at <= i < at + k then Marker()[i - at] else old(buffer[i])
    {
      buffer[at + k] := Marker()[k];
    }
  }

  method PlaceIfAny(buffer: array<char>, at: Option<nat>)
    requires at.Some? ==> at.value + |Marker()| <= buffer.Length
    modifies buffer
    ensures var t := old(buffer[..]);
            buffer[..] == if at.None? then t else t[..at.value] + Marker() + t[at.value + |Marker()|..]
  {
    hide Marker;
    if at.Some? {
      ghost var t := buffer[..];
      assert t[..at.value] == buffer[..at.value];
      assert t[at.value + |Marker()|..] == buffer[at.value + |Marker()|..];
      PlaceMarker(buffer, at.value);
    }
  }

  lemma {:induction false} SkipTo(t: string, lo: nat, i: nat, hi: nat)
    requires lo <= i && hi <= |t| && forall k :: lo <= k < i && k + |Marker()| <= hi ==> !FitsAt(t, k)
    ensures FirstFit(t, lo, hi) == FirstFit(t, i, hi)
    decreases i - lo
  {
    hide Marker;
    if lo < i {
      SkipTo(t, lo + 1, i, hi);
    }
  }

  /** The worker's search: the first run of a line long enough for the marker. */
  method FindRun(masked: array<char>, lo: nat, hi: nat) returns (at: Option<nat>)
    requires lo <= hi <= masked.Length
    ensures at == FirstFit(masked[..], lo, hi)
  {
    hide Marker;
    hide FirstFit;
    ghost var t := masked[..];
    var i := lo;
    while i < hi
      invariant lo <= i <= hi
      invariant FirstFit(t, lo, hi) == FirstFit(t, i, hi)
      decreases hi - i
    {
      if masked[i] == '\n' || masked[i] == '\r' {
        assert IsBreak(t[i]);
        SkipTo(t, i, i + 1, hi);
        i := i + 1;
        continue;
      }
      var runBegin := i;
      while i < hi && masked[i] != '\n' && masked[i] != '\r'
        invariant runBegin <= i <= hi
        invariant forall k :: runBegin <= k < i ==> !IsBreak(t[k])
      {
        i := i + 1;
      }
      if i - runBegin >= |Marker()| {
        FoundAt(t, runBegin, hi);
        return Some(runBegin);
      }
      assert i < hi ==> IsBreak(t[i]);
      SkipTo(t, runBegin, i, hi);
    }
    NoRoom(t, hi, hi);
    return None;
  }

  lemma FoundAt(t: string, i: nat, hi: nat)
    requires i + |Marker()| <= hi <= |t| && FitsAt(t, i)
    ensures FirstFit(t, i, hi) == Some(i)
  {
    hide Marker;
  }

  lemma NoRoom(t: string, i: nat, hi: nat)
    requires hi <= |t| && i + |Marker()| > hi
    ensures FirstFit(t, i, hi) == None
  {
    hide Marker;
  }

  /** The backend's search: every window of the marker's length in turn. */
  method FindWindow(masked: array<char>, lo: nat, hi: nat) returns (at: Option<nat>)
    requires lo <= hi <= masked.Length
    ensures at == FirstFit(masked[..], lo, hi)
  {
    hide Marker;
    hide FirstFit;
    ghost var t := masked[..];
    var i := lo;
    while i + |Marker()| <= hi
      invariant lo <= i
      invariant FirstFit(t, lo, hi) == FirstFit(t, i, hi)
    {
      var valid := true;
      var j := 0;
      while j < |Marker()| && valid
        invariant 0 <= j <= |Marker()|
        invariant valid ==> forall k :: i <= k < i + j ==> !IsBreak(t[k])
        invariant !valid ==> !FitsAt(t, i)
        decreases |Marker()| - j, valid
      {
        if masked[i + j] == '\n' || masked[i + j] == '\r' {
          assert IsBreak(t[i + j]);
          valid := false;
        } else {
          j := j + 1;
        }
      }
      if valid {
        FoundAt(t, i, hi);
        return Some(i);
      }
      SkipTo(t, i, i + 1, hi);
      i := i + 1;
    }
    NoRoom(t, i, hi);
    return None;
  }

  method MaskedSource(source: string, begin: nat, end: int) returns (r: Option<string>)
    ensures r.Some? <==> begin + 1 <= end - 1 && end <= |source|
    ensures r.Some? ==> r.value == MaskedBody(source, begin, end)
  {
    hide FirstFit; hide Blanked; hide Marker;
    if !(begin + 1 <= end - 1 && end <= |source|) {
      return None;
    }
    var masked := new char[|source|](i requires 0 <= i < |source| => source[i]);
    assert masked[..] == source;
    BlankBody(masked, begin + 1, end - 1);
    var at := FindRun(masked, begin + 1, end - 1);
    PlaceIfAny(masked, at);
    return Some(masked[..]);
  }

  method MaskRepositoryBody(source: string, begin: int, end: int) returns (r: Option<string>)
    ensures r.Some? <==> 0 <= begin && begin + 1 < end <= |source| && source[begin] == '{' && source[end - 1] == '}'
    ensures r.Some? ==> r.value == MaskedBody(source, begin, end)
  {
    hide FirstFit; hide Blanked; hide Marker;
    if begin < 0 || end <= begin + 1 || end > |source| || source[begin] != '{' || source[end - 1] != '}' {
      return None;
    }
    var masked := new char[|source|](i requires 0 <= i < |source| => source[i]);
    assert masked[..] == source;
    BlankBody(masked, begin + 1, end - 1);
    var at := FindWindow(masked, begin + 1, end - 1);
    PlaceIfAny(masked, at);
    return Some(masked[..]);
  }

  // ------------------------------------------------------------------
  // Blanking a file and patching it back
  // ------------------------------------------------------------------

  datatype MaskError = InvalidEntityRange | BodyBoundaryMismatch

  method Mask(contents: string, bodyStart: nat, bodyEnd: nat) returns (r: Result<string, MaskError>)
    ensures r == if !(bodyStart < bodyEnd <= |contents|) then Err(InvalidEntityRange)
                 else if contents[bodyStart] != '{' || contents[bodyEnd - 1] != '}' then Err(BodyBoundaryMismatch)
                 else Ok(Blanked(contents, bodyStart + 1, bodyEnd - 1))
  {
    if !(bodyStart < bodyEnd <= |contents|) {
      return Err(InvalidEntityRange);
    }
    if contents[bodyStart] != '{' || contents[bodyEnd - 1] != '}' {
      return Err(BodyBoundaryMismatch);
    }
    var buffer := new char[|contents|](i requires 0 <= i < |contents| => contents[i]);
    assert buffer[..] == contents;
    BlankBody(buffer, bodyStart + 1, bodyEnd - 1);
    return Ok(buffer[..]);
  }

  datatype PatchError = InvalidRange | InvalidReplacement(error: ParseError)

  predicate ValidRange(source: string, start: int, end: int, bodyStart: int, bodyEnd: int) {
    start <= end <= |source| && 0 <= bodyStart < bodyEnd <= |source| &&
    source[bodyStart] == '{' && source[bodyEnd - 1] == '}'
  }

  method Patch(source: string, start: nat, end: nat, bodyStart: nat, bodyEnd: nat, replacement: string)
    returns (r: Result<string, PatchError>)
    ensures r == Err(InvalidRange) <==> !ValidRange(source, start, end, bodyStart, bodyEnd)
    ensures r.Ok? <==> ValidRange(source, start, end, bodyStart, bodyEnd) && ValidBody(replacement)
    ensures r.Ok? ==> r.value == Patched(source, bodyStart, bodyEnd - 1, replacement)
  {
    if start > end || end > |source| || bodyStart >= bodyEnd || bodyEnd > |source| ||
       source[bodyStart] != '{' || source[bodyEnd - 1] != '}' {
      return Err(InvalidRange);
    }
    var valid := ValidateBody(replacement);
    if valid.Err? {
      return Err(InvalidReplacement(valid.error));
    }
    return Ok(source[..bodyStart + 1] + replacement + source[bodyEnd - 1..]);
  }

  /** Blanking or masking a body and patching the original body back restores the file. */
  lemma MaskThenPatch(source: string, begin: nat, end: nat)
    requires begin + 2 <= end <= |source|
    ensures var body := source[begin + 1..end - 1];
            Patched(Blanked(source, begin + 1, end - 1), begin, end - 1, body) == source &&
            Patched(MaskedBody(source, begin, end), begin, end - 1, body) == source
  {
    hide Blanked; hide MaskedBody;
    var body := source[begin + 1..end - 1];
    var blanked, masked := Blanked(source, begin + 1, end - 1), MaskedBody(source, begin, end);
    forall i | 0 <= i < |source| && (i <= begin || end - 1 <= i) ensures masked[i] == source[i] == blanked[i] {
      MaskedBodyHides(source, begin, end, i);
      BlankedAt(source, begin + 1, end - 1, i);
    }
    SameEnds(source, masked, begin, end);
    SameEnds(source, blanked, begin, end);
  }

  lemma SameEnds(source: string, masked: string, begin: nat, end: nat)
    requires begin + 2 <= end <= |source| == |masked|
    requires forall i :: 0 <= i < |source| && (i <= begin || end - 1 <= i) ==> masked[i] == source[i]
    ensures Patched(masked, begin, end - 1, source[begin + 1..end - 1]) == source
  {
    assert masked[..begin + 1] == source[..begin + 1];
    assert masked[end - 1..] == source[end - 1..];
    assert source == source[..begin + 1] + source[begin + 1..end - 1] + source[end - 1..];
  }

  // ------------------------------------------------------------------
  // Materializing an attempt
  // ------------------------------------------------------------------

  datatype Selection = Selection(kind: EntityType, name: string, signature: nat, begin: nat, end: nat)

  datatype MaterializeError = SourceChanged | InvalidSelection | InvalidProject | InvalidAnswer

  predicate Selects(selected: Selection, e: Entity) {
    e.kind == selected.kind && e.name == selected.name && e.start == selected.signature &&
    e.bodyStart == selected.begin && e.bodyEnd == selected.end
  }

  /** The checks between the digest and the splice. */
  ghost predicate Materializes(source: string, selected: Selection, answer: string) {
    Parseable(source) && ValidBody(answer) && selected.signature <= selected.begin &&
    ValidRange(source, 0, 0, selected.begin, selected.end) &&
    exists e :: e in CatalogueOf(source) && Selects(selected, e)
  }

  /** The attempt's file; `digestMatches` is the outcome of comparing source digests. */
  method Materialize(source: string, digestMatches: bool, selected: Selection, answer: string)
    returns (r: Result<string, MaterializeError>)
    ensures r.Ok? <==> digestMatches && Materializes(source, selected, answer)
    ensures r.Ok? ==> selected.begin + 2 <= selected.end <= |source| &&
                      r.value == Patched(source, selected.begin, selected.end - 1, answer)
  {
    if !digestMatches {
      return Err(SourceChanged);
    }
    if !(selected.signature <= selected.begin && ValidRange(source, 0, 0, selected.begin, selected.end)) {
      return Err(InvalidSelection);
    }
    var parsed := Parse(source);
    if parsed.Err? {
      return Err(InvalidProject);
    }
    var i := 0;
    while i < |parsed.value| && !Selects(selected, parsed.value[i])
      invariant 0 <= i <= |parsed.value|
      invariant forall k :: 0 <= k < i ==> !Selects(selected, parsed.value[k])
    {
      i := i + 1;
    }
    if i == |parsed.value| {
      return Err(InvalidSelection);
    }
    assert parsed.value[i] in CatalogueOf(source);
    var valid := ValidateBody(answer);
    if valid.Err? {
      return Err(InvalidAnswer);
    }
    return Ok(source[..selected.begin + 1] + answer + source[selected.end - 1..]);
  }
}
