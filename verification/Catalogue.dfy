/** Patching a function body leaves the catalogue of the file in place. */
module Catalogue {
  import opened Common
  import opened Brackets
  import opened Declarations
  import opened Entities
  import opened SpliceMatching

  /** `t` is `f` with the body of the matched braces at `begin` and `close` replaced
      by another balanced body, so that the closing brace is now at `close'`. */
  ghost predicate BodyReplaced(f: string, t: string, begin: nat, close: nat, close': nat) {
    SameOutside(f, t, Parentheses, begin, close, close') &&
    SameOutside(f, t, Braces, begin, close, close') &&
    f[begin] == '{' && f[close] == '}' &&
    Pair(f, Braces, begin, close) && Pair(t, Braces, begin, close')
  }

  function MovedCandidate(c: Candidate, begin: nat, d: int): Candidate
  {
    c.(start := Moved(c.start, begin, d), opening := Moved(c.opening, begin, d),
       closing := Moved(c.closing, begin, d), end := Moved(c.end, begin, d))
  }

  function MovedOption(c: Option<Candidate>, begin: nat, d: int): Option<Candidate>
  {
    if c.None? then None else Some(MovedCandidate(c.value, begin, d))
  }

  predicate Scannable(p: int, begin: int, close: int) {
    p <= begin || close < p
  }

  // ------------------------------------------------------------------
  // Declarations outside the body are read as before
  // ------------------------------------------------------------------

  lemma {:induction false} BoundaryMoves(f: string, t: string, begin: nat, close: nat, close': nat, p: nat)
    requires BodyReplaced(f, t, begin, close, close') && p <= |f| && Scannable(p, begin, close)
    ensures Boundary(t, Moved(p, begin, close' - close)) == Moved(Boundary(f, p), begin, close' - close)
    ensures close < p ==> close < Boundary(f, p)
    decreases p
  {
    hide Level;
    if p != 0 && !IsBoundary(f[p - 1]) {
      BoundaryMoves(f, t, begin, close, close', p - 1);
    }
  }

  lemma WindowMoves(f: string, t: string, begin: nat, close: nat, close': nat, p: nat)
    requires BodyReplaced(f, t, begin, close, close') && p <= |f| && Scannable(p, begin, close)
    ensures Window(t, Moved(p, begin, close' - close)) == Window(f, p)
  {
    hide Boundary;
    hide BodyReplaced;
    var d := close' - close;
    ReplacedPairs(f, t, begin, close, close');
    BoundaryMoves(f, t, begin, close, close', p);
    var bd := Boundary(f, p);
    forall i | bd <= i < p ensures Moved(i, begin, d) == i - bd + Moved(bd, begin, d) && t[Moved(i, begin, d)] == f[i] {
      SameByte(f, t, begin, close, close', i);
    }
    var left, right := Window(t, Moved(p, begin, d)), Window(f, p);
    assert |left| == |right|;
    forall k | 0 <= k < |right| ensures left[k] == right[k] {
      assert t[Moved(bd + k, begin, d)] == f[bd + k];
    }
  }

  lemma PartnerMoves(f: string, t: string, st: Structure, st': Structure, begin: nat, close: nat, close': nat,
                     bd: nat, i: nat)
    requires BodyReplaced(f, t, begin, close, close') && IsStructure(f, st) && IsStructure(t, st')
    requires bd <= i < |f| && (i < begin || close < bd)
    ensures Partner(t, st'.parentheses, Moved(bd, begin, close' - close), Moved(i, begin, close' - close)) ==
            Partner(f, st.parentheses, bd, i)
  {
    hide Level;
    TableMoves(f, t, Parentheses, begin, close, close', st.parentheses, st'.parentheses, i);
    PartnerIsEarlier(f, st, 0, i);
  }

  lemma PartnersMove(f: string, t: string, st: Structure, st': Structure, begin: nat, close: nat, close': nat, p: nat)
    requires BodyReplaced(f, t, begin, close, close') && p <= |f| && Scannable(p, begin, close)
    requires Matched(f, st) && Matched(t, st')
    ensures Partners(t, st', Moved(p, begin, close' - close)) == Partners(f, st, p)
  {
    hide Boundary;
    hide BodyReplaced;
    hide Partner;
    hide Matched;
    var d := close' - close;
    ReplacedBounds(f, t, begin, close, close', st, st');
    BoundaryMoves(f, t, begin, close, close', p);
    var bd, bd' := Boundary(f, p), Boundary(t, Moved(p, begin, d));
    var left, right := Partners(t, st', Moved(p, begin, d)), Partners(f, st, p);
    assert |left| == |right|;
    forall i | 0 <= i < |right| ensures left[i] == right[i] {
      PartnerMoves(f, t, st, st', begin, close, close', bd, bd + i);
      assert Moved(bd + i, begin, d) == bd' + i;
    }
  }

  lemma ReplacedBounds(f: string, t: string, begin: nat, close: nat, close': nat, st: Structure, st': Structure)
    requires BodyReplaced(f, t, begin, close, close') && Matched(f, st) && Matched(t, st')
    ensures begin < close < |f| && begin < close' < |t| && |t| - close' == |f| - close
    ensures IsStructure(f, st) && IsStructure(t, st')
  {
  }

  lemma CloserMoves(f: string, t: string, st: Structure, st': Structure, begin: nat, close: nat, close': nat, o: nat)
    requires BodyReplaced(f, t, begin, close, close') && Matched(f, st) && Matched(t, st')
    requires o < |f| && f[o] == '{' && Scannable(o, begin, close)
    ensures var o' := Moved(o, begin, close' - close); o' < |t| && t[o'] == '{'
    ensures st.braces[o] == if o == begin then close else st.braces[o]
    ensures o != begin ==> StrictlyOutside(st.braces[o], begin, close)
    ensures st'.braces[Moved(o, begin, close' - close)] == Moved(st.braces[o], begin, close' - close)
  {
    BraceHasCloser(f, st, o);
    if o != begin {
      TableMoves(f, t, Braces, begin, close, close', st.braces, st'.braces, o);
    }
  }

  lemma FunctionMoves(f: string, t: string, st: Structure, st': Structure, begin: nat, close: nat, close': nat, o: nat)
    requires BodyReplaced(f, t, begin, close, close') && Matched(f, st) && Matched(t, st')
    requires o < |f| && f[o] == '{' && Scannable(o, begin, close)
    ensures var o' := Moved(o, begin, close' - close); o' < |t| && t[o'] == '{'
    ensures FunctionAt(t, st', Moved(o, begin, close' - close)) ==
              MovedOption(FunctionAt(f, st, o), begin, close' - close)
  {
    hide Boundary;
    hide Partners;
    hide Window;
    hide FindFunction;
    hide BodyReplaced;
    hide Matched;
    ReplacedBounds(f, t, begin, close, close', st, st');
    CloserMoves(f, t, st, st', begin, close, close', o);
    WindowMoves(f, t, begin, close, close', o);
    PartnersMove(f, t, st, st', begin, close, close', o);
    BoundaryMoves(f, t, begin, close, close', o);
    BraceHasCloser(f, st, o);
    PartnersAreEarlier(f, st, o);
  }

  lemma {:induction false} SkipForwardIs(w: string, p: nat, end: nat, r: nat)
    requires p <= r <= end <= |w| && (forall i :: p <= i < r ==> IsSpace(w[i])) && (r < end ==> !IsSpace(w[r]))
    ensures SkipForward(w, p, end) == r
    decreases r - p
  {
    if p < r {
      SkipForwardIs(w, p + 1, end, r);
    }
  }

  lemma TypeEndMoves(f: string, t: string, begin: nat, close: nat, close': nat, c: nat)
    requires BodyReplaced(f, t, begin, close, close') && c < |f| && (StrictlyOutside(c, begin, close) || c == close)
    ensures TypeEnd(t, Moved(c, begin, close' - close)) == Moved(TypeEnd(f, c), begin, close' - close)
  {
    hide Level;
    var d := close' - close;
    var r := SkipForward(f, c + 1, |f|);
    var c' := Moved(c, begin, d);
    if c < begin {
      assert r <= begin;
      SkipForwardIs(t, c + 1, |t|, r);
    } else {
      forall i | c' + 1 <= i < r + d ensures IsSpace(t[i]) {
        assert f[i - d] == t[i - d + d];
      }
      SkipForwardIs(t, c' + 1, |t|, r + d);
    }
  }

  lemma TypeMoves(f: string, t: string, st: Structure, st': Structure, begin: nat, close: nat, close': nat, o: nat)
    requires BodyReplaced(f, t, begin, close, close') && Matched(f, st) && Matched(t, st')
    requires o < |f| && f[o] == '{' && Scannable(o, begin, close)
    ensures var o' := Moved(o, begin, close' - close); o' < |t| && t[o'] == '{'
    ensures TypeAt(t, st', Moved(o, begin, close' - close)) == MovedOption(TypeAt(f, st, o), begin, close' - close)
  {
    hide Boundary;
    hide Window;
    hide FindType;
    hide BodyReplaced;
    hide Matched;
    hide TypeEnd;
    ReplacedBounds(f, t, begin, close, close', st, st');
    CloserMoves(f, t, st, st', begin, close, close', o);
    WindowMoves(f, t, begin, close, close', o);
    BoundaryMoves(f, t, begin, close, close', o);
    BraceHasCloser(f, st, o);
    TypeEndMoves(f, t, begin, close, close', st.braces[o]);
  }

  // ------------------------------------------------------------------
  // Names: the innermost enclosing type is the same one
  // ------------------------------------------------------------------

  function Unmoved(i: int, begin: nat, d: int): int {
    if i <= begin then i else i - d
  }

  /** A type around a scanned position is declared outside the body. */
  lemma EnclosingTypeIsOutside(f: string, st: Structure, begin: nat, close: nat, o: nat, c: Candidate)
    requires Matched(f, st) && Pair(f, Braces, begin, close) && f[begin] == '{'
    requires IsTypeOf(f, st, c) && Contains(c, o) && Scannable(o, begin, close)
    ensures StrictlyOutside(c.opening, begin, close)
  {
    hide TypeAt;
    hide Level;
    if begin < c.opening <= close {
      PairUnique(f, Braces, begin, close, c.opening, c.closing);
      PairsNest(f, Braces, begin, close, c.opening, c.closing);
    }
  }

  lemma TypeIsKept(f: string, t: string, st: Structure, st': Structure, begin: nat, close: nat, close': nat,
                   c: Candidate)
    requires BodyReplaced(f, t, begin, close, close') && Matched(f, st) && Matched(t, st')
    requires IsTypeOf(f, st, c) && StrictlyOutside(c.opening, begin, close)
    ensures IsTypeOf(t, st', MovedCandidate(c, begin, close' - close))
    ensures StrictlyOutside(c.closing, begin, close)
  {
    TypeMoves(f, t, st, st', begin, close, close', c.opening);
    CloserMoves(f, t, st, st', begin, close, close', c.opening);
  }

  lemma TypeWasThere(f: string, t: string, st: Structure, st': Structure, begin: nat, close: nat, close': nat,
                     c': Candidate)
      returns (c: Candidate)
    requires BodyReplaced(f, t, begin, close, close') && Matched(f, st) && Matched(t, st')
    requires IsTypeOf(t, st', c') && StrictlyOutside(c'.opening, begin, close')
    ensures IsTypeOf(f, st, c) && StrictlyOutside(c.opening, begin, close) && StrictlyOutside(c.closing, begin, close)
    ensures c' == MovedCandidate(c, begin, close' - close)
  {
    hide TypeAt;
    hide Level;
    var d := close' - close;
    var o := Unmoved(c'.opening, begin, d);
    assert f[o] == t[Moved(o, begin, d)];
    TypeMoves(f, t, st, st', begin, close, close', o);
    c := TypeAt(f, st, o).value;
    TypeIsKept(f, t, st, st', begin, close, close', c);
  }

  /** Of two types around the same position, the larger one contains the other. */
  lemma AroundNest(f: string, st: Structure, o: nat, a: Candidate, b: Candidate)
    requires Matched(f, st) && IsTypeOf(f, st, a) && IsTypeOf(f, st, b) && Contains(a, o) && Contains(b, o)
    ensures a.opening == b.opening ==> a == b
    ensures a.opening < b.opening ==> b.closing < a.closing
  {
    if a.opening < b.opening {
      PairsNest(f, Braces, a.opening, a.closing, b.opening, b.closing);
    }
  }

  lemma InnermostMoves(f: string, t: string, st: Structure, st': Structure, begin: nat, close: nat, close': nat, o: nat)
    requires BodyReplaced(f, t, begin, close, close') && Matched(f, st) && Matched(t, st')
    requires o < |f| && f[o] == '{' && Scannable(o, begin, close)
    ensures SmallestAround(TypesFrom(t, st', 0), Moved(o, begin, close' - close), None) ==
            MovedOption(SmallestAround(TypesFrom(f, st, 0), o, None), begin, close' - close)
  {
    hide TypeAt; hide TypesFrom; hide SmallestAround; hide BodyReplaced; hide Matched; hide IsTypeOf; hide Level;
    ReplacedBounds(f, t, begin, close, close', st, st');
    ReplacedPairs(f, t, begin, close, close');
    var d := close' - close;
    var o' := Moved(o, begin, d);
    var types, types' := TypesFrom(f, st, 0), TypesFrom(t, st', 0);
    TypeMoves(f, t, st, st', begin, close, close', begin);
    var r, r' := SmallestAround(types, o, None), SmallestAround(types', o', None);
    if r.Some? {
      var c := r.value;
      TypesAreListed(f, st, 0, c);
      EnclosingTypeIsOutside(f, st, begin, close, o, c);
      TypeIsKept(f, t, st, st', begin, close, close', c);
      TypeOpens(t, st', MovedCandidate(c, begin, d));
      TypesAreListed(t, st', 0, MovedCandidate(c, begin, d));
      assert Contains(MovedCandidate(c, begin, d), o');
    }
    if r'.Some? {
      var c' := r'.value;
      TypesAreListed(t, st', 0, c');
      EnclosingTypeIsOutside(t, st', begin, close', o', c');
      var c := TypeWasThere(f, t, st, st', begin, close, close', c');
      TypeOpens(f, st, c);
      TypesAreListed(f, st, 0, c);
      assert Contains(c, o);
      AroundNest(f, st, o, r.value, c);
      AroundNest(f, st, o, c, r.value);
      var m := MovedCandidate(r.value, begin, d);
      AroundNest(t, st', o', m, c');
      AroundNest(t, st', o', c', m);
    }
  }

  lemma TypeOpens(f: string, st: Structure, c: Candidate)
    requires Matched(f, st) && IsTypeOf(f, st, c)
    ensures 0 <= c.opening < c.closing < |f|
  {
    hide Level;
  }

  lemma ReplacedPairs(f: string, t: string, begin: nat, close: nat, close': nat)
    requires BodyReplaced(f, t, begin, close, close')
    ensures begin < close < |f| && begin < close' < |t| && |t| - close' == |f| - close
    ensures f[begin] == '{' && t[begin] == '{' && Pair(f, Braces, begin, close) && Pair(t, Braces, begin, close')
  {
  }

  // ------------------------------------------------------------------
  // Lines
  // ------------------------------------------------------------------

  lemma {:induction false} LineMoves(f: string, t: string, begin: nat, close: nat, close': nat, p: nat)
    requires BodyReplaced(f, t, begin, close, close') && p <= |f| && (p <= begin || close <= p)
    ensures Line(t, Moved(p, begin, close' - close)) ==
            Line(f, p) + (if p <= begin then 0 else Line(t, close') - Line(f, close))
    decreases p
  {
    hide Level;
    if p != 0 && p != close {
      LineMoves(f, t, begin, close, close', p - 1);
      if p <= begin {
        assert f[p - 1] == t[p - 1];
      } else {
        assert f[p - 1] == t[p - 1 + close' - close];
      }
    }
  }

  // ------------------------------------------------------------------
  // The catalogue
  // ------------------------------------------------------------------

  function MovedLine(line: int, offset: int, begin: nat, dl: int): int {
    if offset <= begin then line else line + dl
  }

  /** An entity of the old file as the patched file must show it: offsets after the
      body move by `d` bytes and lines by `dl`, everything else stays. */
  function MovedEntity(e: Entity, begin: nat, d: int, dl: int): Entity {
    Entity(e.kind, e.name,
           Moved(e.start, begin, d), Moved(e.end, begin, d), Moved(e.bodyStart, begin, d), Moved(e.bodyEnd, begin, d),
           MovedLine(e.startLine, e.start, begin, dl), MovedLine(e.endLine, e.bodyEnd - 1, begin, dl),
           MovedLine(e.bodyStartLine, e.bodyStart, begin, dl), MovedLine(e.bodyEndLine, e.bodyEnd - 1, begin, dl))
  }

  function MovedEntities(r: seq<Entity>, begin: nat, d: int, dl: int): (r': seq<Entity>)
    ensures |r'| == |r|
  {
    seq(|r|, i requires 0 <= i < |r| => MovedEntity(r[i], begin, d, dl))
  }

  lemma EntityMoves(f: string, t: string, begin: nat, close: nat, close': nat, c: Candidate, name: string)
    requires BodyReplaced(f, t, begin, close, close')
    requires 0 <= c.start <= c.opening < c.closing < |f|
    requires (c.start <= begin || close <= c.start) && (c.opening <= begin || close <= c.opening)
    requires c.closing < begin || close <= c.closing
    ensures var c' := MovedCandidate(c, begin, close' - close);
            0 <= c'.start <= |t| && 0 <= c'.opening <= |t| && 0 <= c'.closing <= |t| &&
            MakeEntity(t, c', name) ==
            MovedEntity(MakeEntity(f, c, name), begin, close' - close, Line(t, close') - Line(f, close))
  {
    hide Line;
    LineMoves(f, t, begin, close, close', c.start);
    LineMoves(f, t, begin, close, close', c.opening);
    LineMoves(f, t, begin, close, close', c.closing);
  }

  lemma CandidateIsOutside(f: string, t: string, st: Structure, st': Structure, begin: nat, close: nat, close': nat,
                           o: nat, c: Candidate)
    requires BodyReplaced(f, t, begin, close, close') && Matched(f, st) && Matched(t, st')
    requires o < |f| && f[o] == '{' && Scannable(o, begin, close)
    requires TypeAt(f, st, o) == Some(c) || FunctionAt(f, st, o) == Some(c)
    ensures 0 <= c.start <= c.opening == o < c.closing < |f|
    ensures (c.start <= begin || close <= c.start) && (c.closing < begin || close <= c.closing)
  {
    hide TypeAt; hide FunctionAt; hide Boundary; hide Level; hide BodyReplaced; hide Matched;
    ReplacedPairs(f, t, begin, close, close');
    BoundaryMoves(f, t, begin, close, close', o);
    CloserMoves(f, t, st, st', begin, close, close', o);
    BraceHasCloser(f, st, o);
    ReplacedBounds(f, t, begin, close, close', st, st');
    PairUnique(f, Braces, o, st.braces[o], o, c.closing);
  }

  lemma NameMoves(f: string, t: string, st: Structure, st': Structure, begin: nat, close: nat, close': nat,
                  c: Candidate)
    requires BodyReplaced(f, t, begin, close, close') && Matched(f, st) && Matched(t, st')
    requires 0 <= c.opening < |f| && f[c.opening] == '{' && Scannable(c.opening, begin, close)
    ensures QualifiedName(MovedCandidate(c, begin, close' - close), TypesFrom(t, st', 0)) ==
            QualifiedName(c, TypesFrom(f, st, 0))
  {
    hide TypeAt; hide TypesFrom; hide SmallestAround; hide BodyReplaced; hide Matched; hide HasQualifier;
    InnermostMoves(f, t, st, st', begin, close, close', c.opening);
  }

  lemma MovedCons(e: Entity, r: seq<Entity>, begin: nat, d: int, dl: int)
    ensures MovedEntities([e] + r, begin, d, dl) == [MovedEntity(e, begin, d, dl)] + MovedEntities(r, begin, d, dl)
  {
  }

  lemma {:induction false} ScanMoves(f: string, t: string, st: Structure, st': Structure, begin: nat, close: nat,
                                     close': nat, p: nat)
    requires BodyReplaced(f, t, begin, close, close') && Matched(f, st) && Matched(t, st')
    requires TypeAt(f, st, begin).None? && FunctionAt(f, st, begin).Some?
    requires p <= |f| && Scannable(p, begin, close)
    ensures Scan(t, st', TypesFrom(t, st', 0), Moved(p, begin, close' - close)) ==
            MovedEntities(Scan(f, st, TypesFrom(f, st, 0), p), begin, close' - close, Line(t, close') - Line(f, close))
    decreases |f| - p
  {
    hide TypeAt; hide FunctionAt; hide TypesFrom; hide QualifiedName; hide BodyReplaced; hide Matched; hide Line;
    hide MakeEntity; hide MovedEntity; hide MovedCandidate; hide Level; hide Scan; hide MovedEntities;
    ReplacedPairs(f, t, begin, close, close');
    var d, dl := close' - close, Line(t, close') - Line(f, close);
    var types, types' := TypesFrom(f, st, 0), TypesFrom(t, st', 0);
    var p' := Moved(p, begin, d);
    if p == |f| {
      ScanEnds(f, t, st, st', begin, d, dl);
    } else {
      SameByte(f, t, begin, close, close', p);
      if f[p] != '{' {
        ScanPlain(f, st, types, p);
        ScanPlain(t, st', types', p');
        ScanMoves(f, t, st, st', begin, close, close', p + 1);
      } else {
        TypeMoves(f, t, st, st', begin, close, close', p);
        FunctionMoves(f, t, st, st', begin, close, close', p);
        if TypeAt(f, st, p).Some? {
          var c := TypeAt(f, st, p).value;
          CandidateIsOutside(f, t, st, st', begin, close, close', p, c);
          var e := MakeEntity(f, c, c.name);
          TypeStep(f, t, st, st', begin, close, close', p, c, e);
          ScanMoves(f, t, st, st', begin, close, close', p + 1);
          MovedCons(e, Scan(f, st, types, p + 1), begin, d, dl);
        } else if FunctionAt(f, st, p).Some? {
          var c := FunctionAt(f, st, p).value;
          FunctionIsOutside(f, t, st, st', begin, close, close', p, c);
          var e := MakeEntity(f, c, QualifiedName(c, types));
          FunctionStep(f, t, st, st', begin, close, close', p, c, e);
          ScanMoves(f, t, st, st', begin, close, close', c.closing + 1);
          MovedCons(e, Scan(f, st, types, c.closing + 1), begin, d, dl);
        } else {
          ScanPlain(f, st, types, p);
          ScanPlain(t, st', types', p');
          ScanMoves(f, t, st, st', begin, close, close', p + 1);
        }
      }
    }
  }

  lemma TypeStep(f: string, t: string, st: Structure, st': Structure, begin: nat, close: nat, close': nat,
                      p: nat, c: Candidate, e: Entity)
    requires BodyReplaced(f, t, begin, close, close') && Matched(f, st) && Matched(t, st')
    requires p < |f| && f[p] == '{' && Scannable(p, begin, close) && TypeAt(f, st, p) == Some(c)
    requires 0 <= c.start <= c.opening == p < c.closing < |f| && e == MakeEntity(f, c, c.name)
    ensures Moved(p, begin, close' - close) < |t|
    ensures Scan(f, st, TypesFrom(f, st, 0), p) == [e] + Scan(f, st, TypesFrom(f, st, 0), p + 1)
    ensures Scan(t, st', TypesFrom(t, st', 0), Moved(p, begin, close' - close)) ==
              [MovedEntity(e, begin, close' - close, Line(t, close') - Line(f, close))] +
              Scan(t, st', TypesFrom(t, st', 0), Moved(p, begin, close' - close) + 1)
  {
    hide TypeAt; hide FunctionAt; hide TypesFrom; hide BodyReplaced; hide Matched; hide Line; hide MovedEntity;
    hide Level; hide Scan; hide MakeEntity;
    ReplacedPairs(f, t, begin, close, close');
    TypeMoves(f, t, st, st', begin, close, close', p);
    ScanType(f, st, TypesFrom(f, st, 0), p);
    ScanType(t, st', TypesFrom(t, st', 0), Moved(p, begin, close' - close));
    CandidateIsOutside(f, t, st, st', begin, close, close', p, c);
    EntityMoves(f, t, begin, close, close', c, c.name);
  }

  lemma ScanEnds(f: string, t: string, st: Structure, st': Structure, begin: nat, d: int, dl: int)
    requires Matched(f, st) && Matched(t, st')
    ensures Scan(t, st', TypesFrom(t, st', 0), |t|) ==
              MovedEntities(Scan(f, st, TypesFrom(f, st, 0), |f|), begin, d, dl)
  {
  }

  lemma SameByte(f: string, t: string, begin: nat, close: nat, close': nat, p: nat)
    requires BodyReplaced(f, t, begin, close, close') && p < |f| && Scannable(p, begin, close)
    ensures Moved(p, begin, close' - close) < |t| && t[Moved(p, begin, close' - close)] == f[p]
  {
  }

  lemma KeptFields(c: Candidate, begin: nat, d: int)
    ensures var c' := MovedCandidate(c, begin, d);
            c'.kind == c.kind && c'.name == c.name && c'.isFriend == c.isFriend &&
            c'.closing == Moved(c.closing, begin, d)
  {
  }

  /** Replacing the body of a reported function leaves every entity of the catalogue
      with its kind, name and place in the order, and the function itself is found
      again with the same start and body start. */
  lemma CatalogueMoves(f: string, t: string, st: Structure, st': Structure, begin: nat, close: nat, close': nat)
    requires BodyReplaced(f, t, begin, close, close') && Matched(f, st) && Matched(t, st')
    requires TypeAt(f, st, begin).None? && FunctionAt(f, st, begin).Some?
    ensures SourceEntities(t, st') ==
            MovedEntities(SourceEntities(f, st), begin, close' - close, Line(t, close') - Line(f, close))
  {
    ScanMoves(f, t, st, st', begin, close, close', 0);
  }

  // ------------------------------------------------------------------
  // Replacing the body of a type
  // ------------------------------------------------------------------

  /** The entities whose bodies do not start inside the braces at `begin` and `close`. */
  function Outer(r: seq<Entity>, begin: int, close: int): seq<Entity> {
    if r == [] then []
    else (if Scannable(r[0].bodyStart, begin, close) then [r[0]] else []) + Outer(r[1..], begin, close)
  }

  lemma OuterCons(e: Entity, r: seq<Entity>, begin: int, close: int)
    ensures Outer([e] + r, begin, close) ==
              (if Scannable(e.bodyStart, begin, close) then [e] else []) + Outer(r, begin, close)
  {
    assert ([e] + r)[1..] == r;
  }

  /** What is reported inside the braces does not count, and the scan arrives behind them. */
  lemma {:induction false} InsideIsSkipped(s: string, st: Structure, types: seq<Candidate>, begin: nat, close: nat,
                                           p: nat)
    requires Matched(s, st) && Pair(s, Braces, begin, close) && begin < p <= close + 1
    ensures Outer(Scan(s, st, types, p), begin, close) == Outer(Scan(s, st, types, close + 1), begin, close)
    decreases close + 1 - p
  {
    hide TypeAt; hide FunctionAt; hide QualifiedName; hide Matched; hide Level; hide Scan; hide Outer; hide Line;
    if p <= close {
      if s[p] == '{' && TypeAt(s, st, p).Some? {
        var c := TypeAt(s, st, p).value;
        ScanType(s, st, types, p);
        OuterCons(MakeEntity(s, c, c.name), Scan(s, st, types, p + 1), begin, close);
        InsideIsSkipped(s, st, types, begin, close, p + 1);
      } else if s[p] == '{' && FunctionAt(s, st, p).Some? {
        var c := FunctionAt(s, st, p).value;
        ScanFunction(s, st, types, p);
        OuterCons(MakeEntity(s, c, QualifiedName(c, types)), Scan(s, st, types, c.closing + 1), begin, close);
        PairsNest(s, Braces, begin, close, p, c.closing);
        InsideIsSkipped(s, st, types, begin, close, c.closing + 1);
      } else {
        ScanPlain(s, st, types, p);
        InsideIsSkipped(s, st, types, begin, close, p + 1);
      }
    }
  }

  lemma OuterEnds(f: string, t: string, st: Structure, st': Structure, begin: nat, close: nat, close': nat, d: int,
                  dl: int)
    requires Matched(f, st) && Matched(t, st')
    ensures Outer(Scan(t, st', TypesFrom(t, st', 0), |t|), begin, close') ==
            MovedEntities(Outer(Scan(f, st, TypesFrom(f, st, 0), |f|), begin, close), begin, d, dl)
  {
  }

  /** One reported entity and what follows it. */
  lemma OuterStep(e: Entity, rest: seq<Entity>, rest': seq<Entity>, begin: nat, close: nat, close': nat, d: int,
                  dl: int)
    requires d == close' - close && begin < close && begin < close' && Scannable(e.bodyStart, begin, close)
    requires Outer(rest', begin, close') == MovedEntities(Outer(rest, begin, close), begin, d, dl)
    ensures Outer([MovedEntity(e, begin, d, dl)] + rest', begin, close') ==
              MovedEntities(Outer([e] + rest, begin, close), begin, d, dl)
  {
    hide Outer; hide MovedEntities;
    OuterCons(e, rest, begin, close);
    OuterCons(MovedEntity(e, begin, d, dl), rest', begin, close');
    MovedCons(e, Outer(rest, begin, close), begin, d, dl);
  }

  lemma {:induction false} OuterMoves(f: string, t: string, st: Structure, st': Structure, begin: nat, close: nat,
                                      close': nat, p: nat)
    requires BodyReplaced(f, t, begin, close, close') && Matched(f, st) && Matched(t, st')
    requires TypeAt(f, st, begin).Some? && p <= |f| && Scannable(p, begin, close)
    ensures Outer(Scan(t, st', TypesFrom(t, st', 0), Moved(p, begin, close' - close)), begin, close') ==
            MovedEntities(Outer(Scan(f, st, TypesFrom(f, st, 0), p), begin, close), begin, close' - close,
                          Line(t, close') - Line(f, close))
    decreases |f| - p
  {
    hide TypeAt; hide FunctionAt; hide TypesFrom; hide QualifiedName; hide BodyReplaced; hide Matched; hide Line;
    hide MakeEntity; hide MovedEntity; hide MovedCandidate; hide Level; hide Scan; hide MovedEntities; hide Outer;
    ReplacedPairs(f, t, begin, close, close');
    var d, dl := close' - close, Line(t, close') - Line(f, close);
    var types, types' := TypesFrom(f, st, 0), TypesFrom(t, st', 0);
    var p' := Moved(p, begin, d);
    if p == |f| {
      OuterEnds(f, t, st, st', begin, close, close', d, dl);
    } else {
      SameByte(f, t, begin, close, close', p);
      if f[p] != '{' {
        ScanPlain(f, st, types, p);
        ScanPlain(t, st', types', p');
        OuterMoves(f, t, st, st', begin, close, close', p + 1);
      } else {
        TypeMoves(f, t, st, st', begin, close, close', p);
        FunctionMoves(f, t, st, st', begin, close, close', p);
        if TypeAt(f, st, p).Some? {
          OuterType(f, t, st, st', begin, close, close', p);
          OuterMoves(f, t, st, st', begin, close, close', if p == begin then close + 1 else p + 1);
          var c, q := TypeAt(f, st, p).value, if p == begin then close + 1 else p + 1;
          var e := MakeEntity(f, c, c.name);
          OuterStep(e, Scan(f, st, types, q), Scan(t, st', types', Moved(q, begin, d)), begin, close, close', d, dl);
        } else if FunctionAt(f, st, p).Some? {
          var c := FunctionAt(f, st, p).value;
          FunctionIsOutside(f, t, st, st', begin, close, close', p, c);
          var e, q := MakeEntity(f, c, QualifiedName(c, types)), c.closing + 1;
          FunctionStep(f, t, st, st', begin, close, close', p, c, e);
          BodyStartOf(f, c, QualifiedName(c, types));
          OuterMoves(f, t, st, st', begin, close, close', q);
          OuterStep(e, Scan(f, st, types, q), Scan(t, st', types', Moved(q, begin, d)), begin, close, close', d, dl);
        } else {
          ScanPlain(f, st, types, p);
          ScanPlain(t, st', types', p');
          OuterMoves(f, t, st, st', begin, close, close', p + 1);
        }
      }
    }
  }

  /** A type outside the body, or the one whose body it is: it is reported first, and nothing
      inside the body counts after it. */
  lemma OuterType(f: string, t: string, st: Structure, st': Structure, begin: nat, close: nat, close': nat, p: nat)
    requires BodyReplaced(f, t, begin, close, close') && Matched(f, st) && Matched(t, st')
    requires p < |f| && f[p] == '{' && Scannable(p, begin, close) && TypeAt(f, st, p).Some?
    ensures var c, q := TypeAt(f, st, p).value, if p == begin then close + 1 else p + 1;
            var d, dl := close' - close, Line(t, close') - Line(f, close);
            var types, types' := TypesFrom(f, st, 0), TypesFrom(t, st', 0);
            0 <= c.start <= |f| && 0 <= c.opening <= |f| && 0 <= c.closing <= |f| &&
            MakeEntity(f, c, c.name).bodyStart == p &&
            q <= |f| && Scannable(q, begin, close) && 0 <= Moved(q, begin, d) <= |t| && Moved(p, begin, d) <= |t| &&
            Outer(Scan(f, st, types, p), begin, close) ==
              Outer([MakeEntity(f, c, c.name)] + Scan(f, st, types, q), begin, close) &&
            Outer(Scan(t, st', types', Moved(p, begin, d)), begin, close') ==
            Outer([MovedEntity(MakeEntity(f, c, c.name), begin, d, dl)] + Scan(t, st', types', Moved(q, begin, d)),
                  begin, close')
  {
    hide TypeAt; hide TypesFrom; hide BodyReplaced; hide Matched; hide Line; hide MovedEntity; hide Level; hide Scan;
    hide Outer;
    ReplacedPairs(f, t, begin, close, close');
    var c, d, dl := TypeAt(f, st, p).value, close' - close, Line(t, close') - Line(f, close);
    var types, types' := TypesFrom(f, st, 0), TypesFrom(t, st', 0);
    CandidateIsOutside(f, t, st, st', begin, close, close', p, c);
    var e := MakeEntity(f, c, c.name);
    TypeStep(f, t, st, st', begin, close, close', p, c, e);
    if p == begin {
      var e' := MovedEntity(e, begin, d, dl);
      InsideIsSkipped(f, st, types, begin, close, begin + 1);
      InsideIsSkipped(t, st', types', begin, close', begin + 1);
      OuterCons(e, Scan(f, st, types, begin + 1), begin, close);
      OuterCons(e, Scan(f, st, types, close + 1), begin, close);
      OuterCons(e', Scan(t, st', types', begin + 1), begin, close');
      OuterCons(e', Scan(t, st', types', close' + 1), begin, close');
    }
  }

  lemma BodyStartOf(s: string, c: Candidate, name: string)
    requires 0 <= c.start <= |s| && 0 <= c.opening <= |s| && 0 <= c.closing <= |s|
    ensures MakeEntity(s, c, name).bodyStart == c.opening
  {
  }

  lemma FunctionIsOutside(f: string, t: string, st: Structure, st': Structure, begin: nat, close: nat, close': nat,
                          p: nat, c: Candidate)
    requires BodyReplaced(f, t, begin, close, close') && Matched(f, st) && Matched(t, st')
    requires p < |f| && f[p] == '{' && Scannable(p, begin, close) && FunctionAt(f, st, p) == Some(c)
    ensures 0 <= c.start <= c.opening == p < c.closing < |f| && Scannable(c.closing + 1, begin, close)
    ensures 0 <= Moved(c.closing + 1, begin, close' - close) <= |t| && 0 <= Moved(p, begin, close' - close) <= |t|
    ensures (c.start <= begin || close <= c.start) && (c.closing < begin || close <= c.closing)
  {
    hide TypeAt; hide FunctionAt; hide BodyReplaced; hide Matched; hide Level;
    ReplacedPairs(f, t, begin, close, close');
    CandidateIsOutside(f, t, st, st', begin, close, close', p, c);
    PairUnique(f, Braces, begin, close, p, c.closing);
  }

  lemma FunctionStep(f: string, t: string, st: Structure, st': Structure, begin: nat, close: nat, close': nat,
                      p: nat, c: Candidate, e: Entity)
    requires BodyReplaced(f, t, begin, close, close') && Matched(f, st) && Matched(t, st')
    requires p < |f| && f[p] == '{' && Scannable(p, begin, close)
    requires TypeAt(f, st, p).None? && FunctionAt(f, st, p) == Some(c)
    requires 0 <= c.start <= c.opening == p < c.closing < |f| && Scannable(c.closing + 1, begin, close)
    requires 0 <= Moved(c.closing + 1, begin, close' - close) <= |t| && 0 <= Moved(p, begin, close' - close) <= |t|
    requires e == MakeEntity(f, c, QualifiedName(c, TypesFrom(f, st, 0)))
    ensures Scan(f, st, TypesFrom(f, st, 0), p) == [e] + Scan(f, st, TypesFrom(f, st, 0), c.closing + 1)
    ensures Scan(t, st', TypesFrom(t, st', 0), Moved(p, begin, close' - close)) ==
              [MovedEntity(e, begin, close' - close, Line(t, close') - Line(f, close))] +
              Scan(t, st', TypesFrom(t, st', 0), Moved(c.closing + 1, begin, close' - close))
  {
    hide TypeAt; hide FunctionAt; hide TypesFrom; hide BodyReplaced; hide Matched; hide Line; hide MovedEntity;
    hide Level; hide Scan; hide QualifiedName; hide MakeEntity;
    ReplacedPairs(f, t, begin, close, close');
    TypeMoves(f, t, st, st', begin, close, close', p);
    FunctionMoves(f, t, st, st', begin, close, close', p);
    ScanFunction(f, st, TypesFrom(f, st, 0), p);
    ScanFunction(t, st', TypesFrom(t, st', 0), Moved(p, begin, close' - close));
    FunctionIsOutside(f, t, st, st', begin, close, close', p, c);
    NameMoves(f, t, st, st', begin, close, close', c);
    EntityMoves(f, t, begin, close, close', c, QualifiedName(c, TypesFrom(f, st, 0)));
  }

  /** Replacing the body of a type leaves every entity outside that body, the type included,
      with its kind, name and place in the order. */
  lemma TypeBodyMoves(f: string, t: string, st: Structure, st': Structure, begin: nat, close: nat, close': nat)
    requires BodyReplaced(f, t, begin, close, close') && Matched(f, st) && Matched(t, st')
    requires TypeAt(f, st, begin).Some?
    ensures Outer(SourceEntities(t, st'), begin, close') ==
            MovedEntities(Outer(SourceEntities(f, st), begin, close), begin, close' - close,
                          Line(t, close') - Line(f, close))
  {
    OuterMoves(f, t, st, st', begin, close, close', 0);
  }
}
