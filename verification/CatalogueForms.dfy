/** Which braces of a source are listed, and under which names. */
module CatalogueForms {
  import opened Common
  import opened Brackets
  import opened Declarations
  import opened Entities
  import opened DeclarationForms
  import opened FunctionForms
  import opened TypeForms

  // ------------------------------------------------------------------
  // One brace
  // ------------------------------------------------------------------

  lemma ClosingPair(s: string, st: Structure, j: nat) returns (i: nat)
    requires Matched(s, st) && j < |s| && s[j] == ')'
    ensures Pair(s, Parentheses, i, j) && |st.parentheses| == |s| && st.parentheses[j] == i
  {
    i := CloserHasPair(s, Parentheses, j);
  }

  lemma InnerOpensLater(s: string, i: int, j: int, k: int, m: int)
    requires Pair(s, Parentheses, i, j) && Pair(s, Parentheses, k, m) && i < m < j
    ensures i < k
  {
    hide Level;
    if k < i {
      PairsNest(s, Parentheses, k, m, i, j);
    } else {
      PairUnique(s, Parentheses, i, j, k, m);
    }
  }

  /** The parentheses of a window of matched text are a table of partners. */
  lemma WindowHasPartners(s: string, st: Structure, p: nat)
    requires Matched(s, st) && p <= |s| && |st.parentheses| == |s|
    ensures IsPartnerTable(Window(s, p), Partners(s, st, p))
  {
    hide Pair; hide Matched;
    var bd, w, partner := Boundary(s, p), Window(s, p), Partners(s, st, p);
    forall c | 0 <= c < |w| && partner[c] != NO_OFFSET
      ensures 0 <= partner[c] < c && w[c] == ')' && w[partner[c]] == '(' {
      PartnerIsPair(s, st, p, c);
    }
    forall b, c | 0 <= b < c < |w| && partner[c] != NO_OFFSET && partner[c] < b && w[b] == ')'
      ensures partner[b] > partner[c] {
      PartnerIsPair(s, st, p, c);
      var k := ClosingPair(s, st, bd + b);
      InnerOpensLater(s, bd + partner[c], bd + c, k, bd + b);
      assert partner[b] == Partner(s, st.parentheses, bd, bd + b);
    }
  }

  lemma PartnerIsPair(s: string, st: Structure, p: nat, c: nat)
    requires Matched(s, st) && p <= |s| && |st.parentheses| == |s| && c < |Window(s, p)|
    requires Partners(s, st, p)[c] != NO_OFFSET
    ensures var bd, o := Boundary(s, p), Partners(s, st, p)[c];
            0 <= o < c && Pair(s, Parentheses, bd + o, bd + c) && Window(s, p)[c] == ')' && Window(s, p)[o] == '('
  {
    hide Matched; hide Level; hide Boundary;
    var bd, w := Boundary(s, p), Window(s, p);
    assert Partners(s, st, p)[c] == Partner(s, st.parentheses, bd, bd + c);
    assert w[c] == s[bd + c];
    var i := ClosingPair(s, st, bd + c);
    assert w[i - bd] == s[i];
  }

  lemma MatchedFits(s: string, st: Structure)
    requires Matched(s, st)
    ensures IsStructure(s, st) && |st.parentheses| == |st.braces| == |s|
  {
  }

  /** The brace at `o` opens the body of the function that the text in front of it declares. */
  ghost predicate OpensFunction(s: string, st: Structure, o: nat, c: Candidate)
    requires o < |s| == |st.parentheses|
  {
    var bd := Boundary(s, o);
    c.kind == Function && c.opening == o && Pair(s, Braces, o, c.closing) && c.end == c.closing + 1 && bd <= c.start &&
    DeclaresFunction(Window(s, o), Partners(s, st, o), FunctionHead(c.name, c.start - bd, c.isFriend))
  }

  /** A brace is a function's exactly when its declaration declares one. */
  lemma FunctionIsOpened(s: string, st: Structure, o: nat, c: Candidate)
    requires Matched(s, st) && o < |s| == |st.parentheses| && s[o] == '{'
    ensures FunctionAt(s, st, o) == Some(c) <==> OpensFunction(s, st, o, c)
  {
    hide FindFunction; hide DeclaresFunction; hide Matched; hide Partners; hide Pair; hide IsPartnerTable;
    hide PartnersOk; hide IsStructure; hide Boundary;
    MatchedFits(s, st);
    WindowHasPartners(s, st, o);
    PartnersAreEarlier(s, st, o);
    BraceHasCloser(s, st, o);
    var bd := Boundary(s, o);
    if bd <= c.start {
      DeclaredIsFound(Window(s, o), Partners(s, st, o), FunctionHead(c.name, c.start - bd, c.isFriend));
    }
    if Pair(s, Braces, o, c.closing) {
      PairUnique(s, Braces, o, c.closing, o, st.braces[o]);
    }
  }

  ghost predicate DeclaresTypeHead(w: string, h: TypeHead) {
    exists i: nat, j: nat, n: nat, m: nat :: DeclaresType(w, h, i, j, n, m)
  }

  /** A type extends to the `;` behind its brace, if only blanks come between. */
  predicate EndsWithSemicolon(s: string, closing: nat, m: nat, end: int) {
    closing < m <= |s| && Blank(s, closing + 1, m) && (m < |s| ==> !IsSpace(s[m])) &&
    end == if m < |s| && s[m] == ';' then m + 1 else closing + 1
  }

  ghost predicate EndsType(s: string, closing: nat, end: int) {
    exists m: nat :: EndsWithSemicolon(s, closing, m, end)
  }

  /** The brace at `o` opens the body of the type that the text in front of it declares. */
  ghost predicate OpensType(s: string, o: nat, c: Candidate)
    requires o < |s|
  {
    var bd := Boundary(s, o);
    c.opening == o && Pair(s, Braces, o, c.closing) && EndsType(s, c.closing, c.end) && !c.isFriend && bd <= c.start &&
    DeclaresTypeHead(Window(s, o), TypeHead(c.kind, c.name, c.start - bd))
  }

  lemma SemicolonEnds(s: string, closing: nat, end: int)
    requires closing < |s|
    ensures EndsType(s, closing, end) <==> end == TypeEnd(s, closing)
  {
    var m := SkipForward(s, closing + 1, |s|);
    hide SkipForward;
    assert EndsWithSemicolon(s, closing, m, TypeEnd(s, closing));
    forall k: nat | EndsWithSemicolon(s, closing, k, end) ensures k == m {
      assert k < |s| ==> m <= k;
      assert m < |s| ==> k <= m;
    }
  }

  /** A brace is a type's exactly when its declaration declares one. */
  lemma TypeIsOpened(s: string, st: Structure, o: nat, c: Candidate)
    requires Matched(s, st) && o < |s| && s[o] == '{'
    ensures TypeAt(s, st, o) == Some(c) <==> OpensType(s, o, c)
  {
    hide FindType; hide DeclaresType; hide Matched; hide Pair; hide Boundary; hide TypeEnd; hide EndsType;
    MatchedFits(s, st);
    BraceHasCloser(s, st, o);
    PairIsInside(s, o, st.braces[o]);
    SemicolonEnds(s, st.braces[o], c.end);
    var bd := Boundary(s, o);
    if bd <= c.start {
      TypeIsFound(Window(s, o), TypeHead(c.kind, c.name, c.start - bd));
    }
    if Pair(s, Braces, o, c.closing) {
      PairUnique(s, Braces, o, c.closing, o, st.braces[o]);
    }
  }

  lemma PairIsInside(s: string, i: int, j: int)
    requires Pair(s, Braces, i, j)
    ensures 0 <= i < j < |s| && s[i] == '{' && s[j] == '}'
  {
  }

  // ------------------------------------------------------------------
  // All braces
  // ------------------------------------------------------------------

  ghost predicate IsTypeBrace(s: string, st: Structure, o: nat)
    requires Matched(s, st)
  {
    o < |s| && s[o] == '{' && TypeAt(s, st, o).Some?
  }

  ghost predicate IsFunctionBrace(s: string, st: Structure, o: nat)
    requires Matched(s, st)
  {
    o < |s| && s[o] == '{' && TypeAt(s, st, o).None? && FunctionAt(s, st, o).Some?
  }

  ghost predicate IsFunctionSpan(s: string, st: Structure, f: nat, g: int)
    requires Matched(s, st)
  {
    IsFunctionBrace(s, st, f) && Pair(s, Braces, f, g)
  }

  /** A function's brace opens before `o` and closes behind it. */
  ghost predicate IsInFunction(s: string, st: Structure, o: nat)
    requires Matched(s, st)
  {
    exists f: nat, g: int :: f < o < g && IsFunctionSpan(s, st, f, g)
  }

  ghost predicate IsListedBrace(s: string, st: Structure, o: nat)
    requires Matched(s, st)
  {
    (IsTypeBrace(s, st, o) || IsFunctionBrace(s, st, o)) && !IsInFunction(s, st, o)
  }

  /** The entry made of a candidate: its range, its body and the lines on which they begin and end. */
  ghost predicate IsRecord(s: string, c: Candidate, name: string, e: Entity)
    requires 0 <= c.start <= |s| && 0 <= c.opening <= |s| && 0 <= c.closing <= |s|
  {
    e.kind == c.kind && e.name == name && e.start == c.start && e.end == c.end &&
    e.bodyStart == c.opening && e.bodyEnd == c.closing + 1 &&
    e.startLine == LineBreaks(s, c.start) + 1 && e.bodyStartLine == LineBreaks(s, c.opening) + 1 &&
    e.endLine == e.bodyEndLine == LineBreaks(s, c.closing) + 1
  }

  lemma RecordIs(s: string, c: Candidate, name: string, e: Entity)
    requires 0 <= c.start <= |s| && 0 <= c.opening <= |s| && 0 <= c.closing <= |s|
    ensures e == MakeEntity(s, c, name) <==> IsRecord(s, c, name, e)
  {
  }

  ghost predicate IsEntityOf(s: string, st: Structure, types: seq<Candidate>, o: nat, e: Entity)
    requires Matched(s, st)
  {
    IsListedBrace(s, st, o) &&
    if IsTypeBrace(s, st, o) then var c := TypeAt(s, st, o).value; IsRecord(s, c, c.name, e)
    else var c := FunctionAt(s, st, o).value; IsRecord(s, c, QualifiedName(c, types), e)
  }

  /** Every function that opened before `p` is closed before `p`. */
  ghost predicate IsOutside(s: string, st: Structure, p: nat)
    requires Matched(s, st)
  {
    forall f: nat, g: int :: f < p && IsFunctionSpan(s, st, f, g) ==> g < p
  }

  lemma OutsideIsNotIn(s: string, st: Structure, p: nat)
    requires Matched(s, st) && IsOutside(s, st, p)
    ensures !IsInFunction(s, st, p)
    ensures !IsFunctionBrace(s, st, p) ==> IsOutside(s, st, p + 1)
  {
    hide Matched; hide IsFunctionBrace; hide Pair;
  }

  lemma OutsideBehind(s: string, st: Structure, p: nat, q: int)
    requires Matched(s, st) && IsOutside(s, st, p) && IsFunctionSpan(s, st, p, q)
    ensures p < q < |s| && IsOutside(s, st, q + 1)
    ensures forall o: nat :: p < o <= q ==> !IsListedBrace(s, st, o)
  {
    hide Matched; hide IsFunctionBrace; hide IsTypeBrace; hide Pair;
    PairIsInside(s, p, q);
    forall f: nat, g: int | f < q + 1 && IsFunctionSpan(s, st, f, g) ensures g < q + 1 {
      PairIsInside(s, f, g);
      if f == p {
        PairUnique(s, Braces, p, q, f, g);
      } else if p < f {
        PairsNest(s, Braces, p, q, f, g);
      }
    }
    forall o: nat | p < o <= q ensures !IsListedBrace(s, st, o) {
      if o < q {
        assert IsInFunction(s, st, o);
      } else {
        BracesOpen(s, st, o);
      }
    }
  }

  lemma BracesOpen(s: string, st: Structure, o: nat)
    requires Matched(s, st)
    ensures IsTypeBrace(s, st, o) || IsFunctionBrace(s, st, o) ==> o < |s| && s[o] == '{'
  {
    hide TypeAt; hide FunctionAt; hide Matched;
  }

  lemma FunctionSpans(s: string, st: Structure, p: nat)
    requires Matched(s, st) && IsFunctionBrace(s, st, p)
    ensures IsFunctionSpan(s, st, p, FunctionAt(s, st, p).value.closing)
  {
    hide Matched; hide TypeAt; hide FindFunction; hide Partners;
  }

  /** The entries from `p` on are those of the brace at `p` and those from `q` on. */
  lemma TakesFirst(s: string, st: Structure, types: seq<Candidate>, p: nat, q: nat, e: Entity)
    requires Matched(s, st) && p < q && forall o: nat :: p < o < q ==> !IsListedBrace(s, st, o)
    ensures (exists o: nat :: p <= o && IsEntityOf(s, st, types, o, e)) <==>
            IsEntityOf(s, st, types, p, e) || exists o: nat :: q <= o && IsEntityOf(s, st, types, o, e)
  {
    hide Matched; hide IsListedBrace; hide IsRecord; hide TypeAt; hide FunctionAt; hide QualifiedName; hide IsTypeBrace;
  }

  lemma {:induction false} ScanLists(s: string, st: Structure, types: seq<Candidate>, p: nat, e: Entity)
    requires Matched(s, st) && p <= |s| && IsOutside(s, st, p)
    ensures e in Scan(s, st, types, p) <==> exists o: nat :: p <= o && IsEntityOf(s, st, types, o, e)
    decreases |s| - p
  {
    hide Matched; hide IsOutside; hide QualifiedName; hide MakeEntity; hide Scan; hide IsInFunction;
    hide TypeAt; hide FunctionAt; hide IsFunctionSpan; hide IsRecord;
    if p == |s| {
      ScanEnds(s, st, types);
    } else {
      OutsideIsNotIn(s, st, p);
      if IsTypeBrace(s, st, p) {
        ScanType(s, st, types, p);
        ScanLists(s, st, types, p + 1, e);
        RecordIs(s, TypeAt(s, st, p).value, TypeAt(s, st, p).value.name, e);
        TakesFirst(s, st, types, p, p + 1, e);
      } else if IsFunctionBrace(s, st, p) {
        ScanFunction(s, st, types, p);
        FunctionSpans(s, st, p);
        OutsideBehind(s, st, p, FunctionAt(s, st, p).value.closing);
        var c := FunctionAt(s, st, p).value;
        ScanLists(s, st, types, c.closing + 1, e);
        RecordIs(s, c, QualifiedName(c, types), e);
        TakesFirst(s, st, types, p, c.closing + 1, e);
      } else {
        ScanPlain(s, st, types, p);
        ScanLists(s, st, types, p + 1, e);
      }
    }
  }

  lemma ScanEnds(s: string, st: Structure, types: seq<Candidate>)
    requires Matched(s, st)
    ensures Scan(s, st, types, |s|) == []
  {
  }

  /** The catalogue lists exactly the braces of types and functions that lie in no function. */
  lemma CatalogueLists(s: string, st: Structure, e: Entity)
    requires Matched(s, st)
    ensures e in SourceEntities(s, st) <==> exists o: nat :: IsEntityOf(s, st, TypesFrom(s, st, 0), o, e)
  {
    hide Matched; hide IsEntityOf; hide Scan; hide TypesFrom;
    ScanLists(s, st, TypesFrom(s, st, 0), 0, e);
    assert SourceEntities(s, st) == Scan(s, st, TypesFrom(s, st, 0), 0);
  }

  // ------------------------------------------------------------------
  // Names in the catalogue
  // ------------------------------------------------------------------

  /** The name has a separator in front of any `operator` in it. */
  ghost predicate IsQualifiedText(name: string) {
    exists p: nat :: IsAt(name, p, "::") && forall q :: 0 <= q < p ==> !IsAt(name, q, "operator")
  }

  lemma QualifierIsText(name: string)
    ensures HasQualifier(name) <==> IsQualifiedText(name)
  {
    hide Find;
    var found := Find(name, "operator", 0);
    forall p: nat ensures OccursAt(name, p, "operator") <==> IsAt(name, p, "operator") {
      OccursIsAt(name, p, "operator");
    }
    var prefix := if found.None? then name else name[..found.value];
    forall p: nat | p + 2 <= |prefix| ensures OccursAt(prefix, p, "::") <==> IsAt(name, p, "::") {
      assert prefix[p..p + 2] == name[p..p + 2];
    }
    if found.Some? {
      var at := found.value;
      assert name[at] == name[at..at + 8][0];
      forall p: nat | IsAt(name, p, "::") && p < at ensures p + 2 <= at {
        assert name[p + 1] == name[p..p + 2][1];
      }
      forall p: nat | IsAt(name, p, "::") && p >= at ensures p > at {
        assert name[p] == name[p..p + 2][0];
      }
    }
  }

  /** `t` is the innermost type whose braces enclose `o`. */
  ghost predicate IsInnermost(s: string, st: Structure, o: int, t: Candidate)
    requires Matched(s, st)
  {
    IsTypeOf(s, st, t) && Contains(t, o) &&
    forall u: Candidate :: IsTypeOf(s, st, u) && Contains(u, o) ==> u.opening <= t.opening
  }

  lemma TypePair(s: string, st: Structure, t: Candidate)
    requires Matched(s, st) && IsTypeOf(s, st, t)
    ensures Pair(s, Braces, t.opening, t.closing)
  {
    hide Matched; hide FindType;
  }

  lemma SmallestIsInnermost(s: string, st: Structure, o: int)
    requires Matched(s, st)
    ensures var r := SmallestAround(TypesFrom(s, st, 0), o, None);
            if r.Some? then IsInnermost(s, st, o, r.value)
            else forall t: Candidate :: IsTypeOf(s, st, t) ==> !Contains(t, o)
  {
    hide TypesFrom; hide SmallestAround; hide Matched; hide IsTypeOf; hide Pair;
    var types := TypesFrom(s, st, 0);
    forall t: Candidate ensures t in types <==> IsTypeOf(s, st, t) {
      TypesAreListed(s, st, 0, t);
      TypeIsInside(s, st, t);
    }
    var r := SmallestAround(types, o, None);
    if r.Some? {
      var t := r.value;
      forall u: Candidate | IsTypeOf(s, st, u) && Contains(u, o) ensures u.opening <= t.opening {
        TypePair(s, st, t);
        TypePair(s, st, u);
        if t.opening < u.opening {
          PairsNest(s, Braces, t.opening, t.closing, u.opening, u.closing);
        }
      }
    }
  }

  lemma TypeIsInside(s: string, st: Structure, t: Candidate)
    requires Matched(s, st)
    ensures IsTypeOf(s, st, t) ==> 0 <= t.opening
  {
  }

  /** A member gets the name of the innermost type around it; a friend, a name with a qualifier
      and a function outside every type keep their own. */
  lemma ListedName(s: string, st: Structure, c: Candidate)
    requires Matched(s, st)
    ensures var name := QualifiedName(c, TypesFrom(s, st, 0));
            if c.isFriend || IsQualifiedText(c.name) ||
               (forall t: Candidate :: IsTypeOf(s, st, t) ==> !Contains(t, c.opening))
            then name == c.name
            else exists t: Candidate :: IsInnermost(s, st, c.opening, t) && name == t.name + "::" + c.name
  {
    hide TypesFrom; hide SmallestAround; hide Matched; hide IsTypeOf; hide HasQualifier; hide IsQualifiedText;
    QualifierIsText(c.name);
    SmallestIsInnermost(s, st, c.opening);
  }
}
