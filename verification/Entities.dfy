/** The catalogue of functions and types found in a sanitized, matched source. */
module Entities {
  import opened Common
  import opened Brackets
  import opened Declarations

  datatype Candidate = Candidate(
    kind: EntityType, name: string, start: int, opening: int, closing: int, end: int, isFriend: bool)

  datatype Entity = Entity(
    kind: EntityType, name: string,
    start: int, end: int, bodyStart: int, bodyEnd: int,
    startLine: int, endLine: int, bodyStartLine: int, bodyEndLine: int)

  predicate IsBoundary(c: char) {
    c == ';' || c == '{' || c == '}'
  }

  /** Just after the nearest `;`, `{` or `}` before `p`. */
  function Boundary(s: string, p: nat): (r: nat)
    requires p <= |s|
    ensures r <= p
    ensures r > 0 ==> IsBoundary(s[r - 1])
    ensures forall i :: r <= i < p ==> !IsBoundary(s[i])
  {
    if p == 0 then 0
    else if IsBoundary(s[p - 1]) then p
    else Boundary(s, p - 1)
  }

  /** The declaration in front of the byte at `p`. */
  function Window(s: string, p: nat): (w: string)
    requires p <= |s|
  {
    s[Boundary(s, p)..p]
  }

  ghost predicate Matched(s: string, st: Structure) {
    IsStructure(s, st) && Balanced(s, Parentheses) && Balanced(s, Braces)
  }

  function Partner(s: string, parentheses: seq<int>, bd: nat, i: nat): int
    requires i < |s| == |parentheses|
  {
    if s[i] == ')' && parentheses[i] >= bd then parentheses[i] - bd else NO_OFFSET
  }

  /** For each closing parenthesis of the window, its partner inside the window. */
  function Partners(s: string, st: Structure, p: nat): (partner: seq<int>)
    requires p <= |s| == |st.parentheses|
    ensures |partner| == |Window(s, p)|
  {
    var bd := Boundary(s, p);
    seq(p - bd, i requires 0 <= i < p - bd => Partner(s, st.parentheses, bd, bd + i))
  }

  lemma PartnersAreEarlier(s: string, st: Structure, p: nat)
    requires p <= |s| && IsStructure(s, st)
    ensures PartnersOk(Window(s, p), Partners(s, st, p))
  {
    var bd, partner := Boundary(s, p), Partners(s, st, p);
    forall i | 0 <= i < p - bd ensures partner[i] == NO_OFFSET || 0 <= partner[i] < i {
      PartnerIsEarlier(s, st, bd, bd + i);
      assert partner[i] == Partner(s, st.parentheses, bd, bd + i);
    }
  }

  lemma PartnerIsEarlier(s: string, st: Structure, bd: nat, i: nat)
    requires bd <= i < |s| && IsStructure(s, st)
    ensures var q := Partner(s, st.parentheses, bd, i); q == NO_OFFSET || 0 <= q < i - bd
  {
    if st.parentheses[i] != NO_OFFSET {
      assert Pair(s, Parentheses, i, st.parentheses[i]) || Pair(s, Parentheses, st.parentheses[i], i);
    }
  }

  lemma BraceHasCloser(s: string, st: Structure, o: nat)
    requires Matched(s, st) && o < |s| && s[o] == '{'
    ensures Pair(s, Braces, o, st.braces[o])
  {
    var j := OpenerHasPair(s, Braces, o);
  }

  function FunctionAt(s: string, st: Structure, o: nat): (r: Option<Candidate>)
    requires Matched(s, st) && o < |s| && s[o] == '{'
    ensures r.Some? ==> r.value.kind == Function && Boundary(s, o) <= r.value.start <= o == r.value.opening
    ensures r.Some? ==> Pair(s, Braces, o, r.value.closing) && r.value.end == r.value.closing + 1
  {
    PartnersAreEarlier(s, st, o);
    BraceHasCloser(s, st, o);
    match FindFunction(Window(s, o), Partners(s, st, o))
    case None => None
    case Some(head) =>
      Some(Candidate(Function, head.name, Boundary(s, o) + head.start, o, st.braces[o], st.braces[o] + 1,
                     head.isFriend))
  }

  /** One past the closing brace, or past the `;` that follows it. */
  function TypeEnd(s: string, closing: nat): (r: nat)
    requires closing < |s|
    ensures closing < r <= |s|
  {
    var semicolon := SkipForward(s, closing + 1, |s|);
    if semicolon < |s| && s[semicolon] == ';' then semicolon + 1 else closing + 1
  }

  function TypeAt(s: string, st: Structure, o: nat): (r: Option<Candidate>)
    requires Matched(s, st) && o < |s| && s[o] == '{'
    ensures r.Some? ==> r.value.kind != Function && Boundary(s, o) <= r.value.start <= o == r.value.opening
    ensures r.Some? ==> Pair(s, Braces, o, r.value.closing) && r.value.closing < r.value.end <= |s|
  {
    BraceHasCloser(s, st, o);
    match FindType(Window(s, o))
    case None => None
    case Some(head) =>
      Some(Candidate(head.kind, head.name, Boundary(s, o) + head.start, o, st.braces[o], TypeEnd(s, st.braces[o]),
                     false))
  }

  /** Every type declared at or after `p`, in order. */
  function TypesFrom(s: string, st: Structure, p: nat): (types: seq<Candidate>)
    requires Matched(s, st) && p <= |s|
    decreases |s| - p
  {
    if p == |s| then []
    else if s[p] == '{' && TypeAt(s, st, p).Some? then [TypeAt(s, st, p).value] + TypesFrom(s, st, p + 1)
    else TypesFrom(s, st, p + 1)
  }

  ghost predicate IsTypeOf(s: string, st: Structure, c: Candidate)
    requires Matched(s, st)
  {
    0 <= c.opening < |s| && s[c.opening] == '{' && TypeAt(s, st, c.opening) == Some(c)
  }

  lemma {:induction false} TypesAreListed(s: string, st: Structure, p: nat, c: Candidate)
    requires Matched(s, st) && p <= |s|
    ensures c in TypesFrom(s, st, p) <==> IsTypeOf(s, st, c) && p <= c.opening
    decreases |s| - p
  {
    hide TypeAt;
    hide Matched;
    if p < |s| {
      TypesAreListed(s, st, p + 1, c);
    }
  }

  predicate Contains(c: Candidate, o: int) {
    c.opening < o < c.closing
  }

  /** The smallest type around `o`, the earliest on ties, if better than `best`. */
  function SmallestAround(types: seq<Candidate>, o: int, best: Option<Candidate>): (r: Option<Candidate>)
    ensures r.Some? ==> r == best || (r.value in types && Contains(r.value, o))
    ensures best.Some? ==> r.Some? && Size(r.value) <= Size(best.value)
    ensures forall c :: c in types && Contains(c, o) ==> r.Some? && Size(r.value) <= Size(c)
  {
    if types == [] then best
    else if Contains(types[0], o) && (best.None? || Size(types[0]) < Size(best.value))
      then SmallestAround(types[1..], o, Some(types[0]))
    else SmallestAround(types[1..], o, best)
  }

  function Size(c: Candidate): int {
    c.closing - c.opening
  }

  function QualifiedName(c: Candidate, types: seq<Candidate>): string {
    if c.isFriend || HasQualifier(c.name) then c.name
    else
      match SmallestAround(types, c.opening, None)
      case None => c.name
      case Some(t) => t.name + "::" + c.name
  }

  /** Number of line breaks among the first `n` bytes. */
  function LineBreaks(s: string, n: nat): nat
    requires n <= |s|
  {
    if n == 0 then 0 else LineBreaks(s, n - 1) + (if s[n - 1] == '\n' then 1 else 0)
  }

  function Line(s: string, p: nat): nat
    requires p <= |s|
  {
    LineBreaks(s, p) + 1
  }

  function MakeEntity(s: string, c: Candidate, name: string): Entity
    requires 0 <= c.start <= |s| && 0 <= c.opening <= |s| && 0 <= c.closing <= |s|
  {
    Entity(c.kind, name, c.start, c.end, c.opening, c.closing + 1,
           Line(s, c.start), Line(s, c.closing), Line(s, c.opening), Line(s, c.closing))
  }

  /** The scan: a type is reported and entered, a function is reported and skipped. */
  function Scan(s: string, st: Structure, types: seq<Candidate>, p: nat): (r: seq<Entity>)
    requires Matched(s, st) && p <= |s|
    decreases |s| - p
  {
    if p == |s| then []
    else if s[p] != '{' then Scan(s, st, types, p + 1)
    else
      match TypeAt(s, st, p)
      case Some(c) => [MakeEntity(s, c, c.name)] + Scan(s, st, types, p + 1)
      case None =>
        match FunctionAt(s, st, p)
        case None => Scan(s, st, types, p + 1)
        case Some(c) => [MakeEntity(s, c, QualifiedName(c, types))] + Scan(s, st, types, c.closing + 1)
  }

  lemma ScanPlain(s: string, st: Structure, types: seq<Candidate>, p: nat)
    requires Matched(s, st) && p < |s| && (s[p] == '{' ==> TypeAt(s, st, p).None? && FunctionAt(s, st, p).None?)
    ensures Scan(s, st, types, p) == Scan(s, st, types, p + 1)
  {
  }

  lemma ScanType(s: string, st: Structure, types: seq<Candidate>, p: nat)
    requires Matched(s, st) && p < |s| && s[p] == '{' && TypeAt(s, st, p).Some?
    ensures var c := TypeAt(s, st, p).value;
            Scan(s, st, types, p) == [MakeEntity(s, c, c.name)] + Scan(s, st, types, p + 1)
  {
    hide TypeAt;
  }

  lemma ScanFunction(s: string, st: Structure, types: seq<Candidate>, p: nat)
    requires Matched(s, st) && p < |s| && s[p] == '{' && TypeAt(s, st, p).None? && FunctionAt(s, st, p).Some?
    ensures var c := FunctionAt(s, st, p).value;
            Scan(s, st, types, p) == [MakeEntity(s, c, QualifiedName(c, types))] + Scan(s, st, types, c.closing + 1)
  {
    hide TypeAt;
    hide FunctionAt;
  }

  function SourceEntities(s: string, st: Structure): seq<Entity>
    requires Matched(s, st)
  {
    Scan(s, st, TypesFrom(s, st, 0), 0)
  }

  // ------------------------------------------------------------------
  // Well-formedness of the catalogue
  // ------------------------------------------------------------------

  ghost predicate WellFormed(s: string, e: Entity) {
    0 <= e.start <= e.bodyStart < e.bodyEnd <= e.end <= |s| && Pair(s, Braces, e.bodyStart, e.bodyEnd - 1) &&
    e.startLine <= e.bodyStartLine <= e.bodyEndLine == e.endLine
  }

  /** Reported bodies are in order; nothing later starts inside a function's body. */
  ghost predicate Ordered(a: Entity, b: Entity) {
    a.bodyStart < b.bodyStart && (a.kind == Function ==> a.bodyEnd <= b.bodyStart)
  }

  lemma {:induction false} LinesGrow(s: string, p: nat, q: nat)
    requires p <= q <= |s|
    ensures Line(s, p) <= Line(s, q)
    decreases q
  {
    if p < q {
      LinesGrow(s, p, q - 1);
    }
  }

  lemma CandidateWellFormed(s: string, c: Candidate, name: string)
    requires 0 <= c.start <= c.opening < c.closing < c.end <= |s| && Pair(s, Braces, c.opening, c.closing)
    ensures WellFormed(s, MakeEntity(s, c, name))
  {
    LinesGrow(s, c.start, c.opening);
    LinesGrow(s, c.opening, c.closing);
  }

  ghost predicate AllWellFormed(s: string, p: nat, r: seq<Entity>) {
    (forall i :: 0 <= i < |r| ==> p <= r[i].bodyStart && WellFormed(s, r[i])) &&
    (forall i, j :: 0 <= i < j < |r| ==> Ordered(r[i], r[j]))
  }

  lemma {:induction false} ScanWellFormed(s: string, st: Structure, types: seq<Candidate>, p: nat)
    requires Matched(s, st) && p <= |s|
    ensures AllWellFormed(s, p, Scan(s, st, types, p))
    decreases |s| - p
  {
    hide TypeAt; hide FunctionAt; hide WellFormed; hide Matched; hide QualifiedName; hide Boundary;
    if p < |s| {
      hide Scan;
      if s[p] == '{' && TypeAt(s, st, p).Some? {
        var c := TypeAt(s, st, p).value;
        ScanType(s, st, types, p);
        ScanWellFormed(s, st, types, p + 1);
        CandidateWellFormed(s, c, c.name);
      } else if s[p] == '{' && FunctionAt(s, st, p).Some? {
        var c := FunctionAt(s, st, p).value;
        ScanFunction(s, st, types, p);
        ScanWellFormed(s, st, types, c.closing + 1);
        CandidateWellFormed(s, c, QualifiedName(c, types));
      } else {
        ScanPlain(s, st, types, p);
        ScanWellFormed(s, st, types, p + 1);
      }
    }
  }

  ghost predicate DisjointOrNested(a: Entity, b: Entity) {
    a.bodyEnd <= b.bodyStart || (a.bodyStart < b.bodyStart && b.bodyEnd < a.bodyEnd)
  }

  lemma OrderedBodiesNest(s: string, a: Entity, b: Entity)
    requires WellFormed(s, a) && WellFormed(s, b) && Ordered(a, b)
    ensures DisjointOrNested(a, b)
  {
    if b.bodyStart < a.bodyEnd - 1 {
      PairsNest(s, Braces, a.bodyStart, a.bodyEnd - 1, b.bodyStart, b.bodyEnd - 1);
    }
  }

  /** For every source: entity ranges are ordered and brace-delimited, bodies are
      disjoint or nested, and nothing reported lies inside a function body. */
  lemma CatalogueWellFormed(s: string, st: Structure)
    requires Matched(s, st)
    ensures AllWellFormed(s, 0, SourceEntities(s, st))
    ensures var r := SourceEntities(s, st); forall i, j :: 0 <= i < j < |r| ==> DisjointOrNested(r[i], r[j])
  {
    hide Scan;
    hide TypesFrom;
    ScanWellFormed(s, st, TypesFrom(s, st, 0), 0);
    hide WellFormed;
    hide Ordered;
    hide DisjointOrNested;
    var r := SourceEntities(s, st);
    forall i, j | 0 <= i < j < |r| ensures DisjointOrNested(r[i], r[j]) {
      OrderedBodiesNest(s, r[i], r[j]);
    }
  }
}
