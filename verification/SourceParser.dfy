/** Parsing a source file, validating an answer on its own, and splicing it in. */
module SourceParser {
  import opened Common
  import opened Lexer
  import opened Brackets
  import opened Declarations
  import opened Entities
  import opened SpliceLexing
  import opened SpliceMatching
  import opened Catalogue
  import opened EntityScanner

  datatype ParseError =
    | LexFailed(lexError: LexError, at: int)
    | MatchFailed(matchError: MatchError, at: int)
    | InvalidBodyBoundary

  ghost predicate MatchedText(s: string) {
    Balanced(s, Parentheses) && Balanced(s, Braces)
  }

  ghost predicate Parseable(file: string) {
    Lex(file).Ok? && MatchedText(Lex(file).value)
  }

  ghost function Sanitized(file: string): (text: string)
    requires Parseable(file)
    ensures |text| == |file|
  {
    Lex(file).value
  }

  // ------------------------------------------------------------------
  // The bracket tables of a text
  // ------------------------------------------------------------------

  ghost function PartnerOf(s: string, k: Kind, i: int): int {
    if exists j :: Pair(s, k, i, j) then var j :| Pair(s, k, i, j); j
    else if exists j :: Pair(s, k, j, i) then var j :| Pair(s, k, j, i); j
    else NO_OFFSET
  }

  ghost function TableOf(s: string, k: Kind): (table: seq<int>) {
    seq(|s|, i => PartnerOf(s, k, i))
  }

  lemma TableOfIsTable(s: string, k: Kind)
    ensures IsTable(s, k, TableOf(s, k))
  {
    var table := TableOf(s, k);
    hide Level;
    forall i, j | Pair(s, k, i, j) ensures table[i] == j && table[j] == i {
      assert table[i] == PartnerOf(s, k, i) && table[j] == PartnerOf(s, k, j);
      PairUnique(s, k, i, j, i, PartnerOf(s, k, i));
      PairUnique(s, k, i, j, PartnerOf(s, k, j), j);
    }
  }

  ghost function StructureOf(s: string): (st: Structure)
    ensures IsStructure(s, st)
  {
    TableOfIsTable(s, Parentheses);
    TableOfIsTable(s, Braces);
    Structure(TableOf(s, Parentheses), TableOf(s, Braces))
  }

  /** What `Parse` returns for a file it accepts. */
  ghost function CatalogueOf(file: string): seq<Entity>
    requires Parseable(file)
  {
    SourceEntities(Sanitized(file), StructureOf(Sanitized(file)))
  }

  lemma SanitizingKeepsLineBreaks(source: string)
    requires Lex(source).Ok?
    ensures forall i :: 0 <= i < |source| ==> (source[i] == '\n' <==> Lex(source).value[i] == '\n')
  {
    hide Lex;
    forall i | 0 <= i < |source| ensures source[i] == '\n' <==> Lex(source).value[i] == '\n' {
      LexPreservesLayout(source, i);
    }
  }

  /** The lexer's error, or the bracket of the sanitized text that does not match. */
  ghost predicate Explains(source: string, error: ParseError) {
    match Lex(source)
    case Err(failure) => error == LexFailed(failure.0, failure.1)
    case Ok(text) => error.MatchFailed? && Misplaced(text, error.matchError, error.at)
  }

  method Parse(source: string) returns (r: Result<seq<Entity>, ParseError>)
    ensures r.Ok? <==> Parseable(source)
    ensures r.Ok? ==> r.value == CatalogueOf(source)
    ensures r.Err? ==> Explains(source, r.error)
  {
    var lexed := LexSource(source);
    if lexed.Err? {
      return Err(LexFailed(lexed.error.0, lexed.error.1));
    }
    var structure := BuildSourceStructure(lexed.value);
    if structure.Err? {
      return Err(MatchFailed(structure.error.0, structure.error.1));
    }
    TableUnique(lexed.value, Parentheses, structure.value.parentheses, StructureOf(lexed.value).parentheses);
    TableUnique(lexed.value, Braces, structure.value.braces, StructureOf(lexed.value).braces);
    var lineStarts := BuildLineStarts(source);
    SanitizingKeepsLineBreaks(source);
    SameLineStarts(source, lexed.value, |source|);
    var entities := FindSourceEntities(lexed.value, structure.value, lineStarts);
    return Ok(entities);
  }

  // ------------------------------------------------------------------
  // Answers
  // ------------------------------------------------------------------

  /** The answer, wrapped in braces, lexes and matches, and its first brace is
      closed by its last. */
  ghost predicate ValidBody(answer: string) {
    var w := Wrapped(answer);
    Lex(w).Ok? && MatchedText(Lex(w).value) && Pair(Lex(w).value, Braces, 0, |w| - 1)
  }

  method ValidateBody(body: string) returns (r: Result<(), ParseError>)
    ensures r.Ok? <==> ValidBody(body)
    ensures r.Err? && Parseable(Wrapped(body)) ==> r.error == InvalidBodyBoundary
    ensures r.Err? && !Parseable(Wrapped(body)) ==> Explains(Wrapped(body), r.error)
  {
    var wrapped := "{" + body + "}";
    assert wrapped == Wrapped(body);
    var lexed := LexSource(wrapped);
    if lexed.Err? {
      return Err(LexFailed(lexed.error.0, lexed.error.1));
    }
    var structure := BuildSourceStructure(lexed.value);
    if structure.Err? {
      return Err(MatchFailed(structure.error.0, structure.error.1));
    }
    ghost var text, table := lexed.value, structure.value.braces;
    if structure.value.braces[0] != |wrapped| - 1 {
      return Err(InvalidBodyBoundary);
    }
    assert Pair(text, Braces, 0, table[0]) || Pair(text, Braces, table[0], 0);
    return Ok(());
  }

  // ------------------------------------------------------------------
  // The splice theorem
  // ------------------------------------------------------------------

  ghost function WrappedText(answer: string): (text: string)
    requires ValidBody(answer)
    ensures |text| == |answer| + 2
  {
    Lex(Wrapped(answer)).value
  }

  /** The file parses, `{` at `begin` and `}` at `close` are a matched pair of its
      code, and the answer passes `ValidateBody`. */
  ghost predicate Spliceable(file: string, begin: nat, close: nat, answer: string) {
    Parseable(file) && Pair(Sanitized(file), Braces, begin, close) && ValidBody(answer)
  }

  /** The text expected of the patched file: old prefix, sanitized answer, old suffix. */
  ghost function ExpectedText(file: string, begin: nat, close: nat, answer: string): string
    requires Spliceable(file, begin, close, answer)
  {
    PatchedText(Sanitized(file), begin, close, WrappedText(answer))
  }

  /** No raw-string scan of the patched file runs over a body brace. */
  ghost predicate RawLiteralsStayApart(file: string, begin: nat, close: nat, answer: string)
    requires Spliceable(file, begin, close, answer)
  {
    NoRawCrossing(Patched(file, begin, close, answer), Sanitized(file), begin, WrappedText(answer))
  }

  /** No parenthesis pair of the file has exactly one end in the body. */
  ghost predicate ParenthesesStayApart(file: string, begin: nat, close: nat)
    requires Parseable(file)
  {
    NoStraddle(Sanitized(file), Parentheses, begin, close)
  }

  lemma ValidBodyEnds(answer: string)
    requires ValidBody(answer)
    ensures var g := WrappedText(answer);
            g[0] == '{' && g[|g| - 1] == '}' && Balanced(g, Parentheses) && Balanced(g, Braces)
  {
  }

  lemma ExpectedIsSpliced(f: string, begin: nat, close: nat, g: string)
    requires begin < close < |f| && |g| >= 2
    ensures Spliced(f, begin, close, g, PatchedText(f, begin, close, g))
  {
  }

  /** The patched file lexes to the expected text exactly when no raw-string scan
      runs over a body brace. */
  lemma SpliceText(file: string, begin: nat, close: nat, answer: string)
    requires Spliceable(file, begin, close, answer)
    ensures Lex(Patched(file, begin, close, answer)) == Ok(ExpectedText(file, begin, close, answer)) <==>
            RawLiteralsStayApart(file, begin, close, answer)
  {
    ValidBodyEnds(answer);
    hide Lex;
    SpliceLexes(file, Sanitized(file), begin, close, answer, WrappedText(answer));
  }

  /** The expected text is matched exactly when the old body held as many opening
      as closing parentheses, and then keeps every outside pair exactly when no
      pair straddled the old body. Braces always stay matched. */
  lemma SpliceBrackets(file: string, begin: nat, close: nat, answer: string)
    requires Spliceable(file, begin, close, answer)
    ensures var f, t := Sanitized(file), ExpectedText(file, begin, close, answer);
            var close' := begin + |answer| + 1;
            && (MatchedText(t) <==> Depth(f, Parentheses, begin) == Depth(f, Parentheses, close + 1))
            && (MatchedText(t) && KeepsPairs(f, t, Parentheses, begin, close, close') <==>
                ParenthesesStayApart(file, begin, close))
            && Pair(t, Braces, begin, close') && KeepsPairs(f, t, Braces, begin, close, close')
  {
    hide Lex; hide Depth; hide Level; hide Balanced; hide SameOutside; hide KeepsPairs;
    ValidBodyEnds(answer);
    var f, g := Sanitized(file), WrappedText(answer);
    var t, close' := ExpectedText(file, begin, close, answer), begin + |g| - 1;
    ExpectedIsSpliced(f, begin, close, g);
    SpliceBalances(f, Parentheses, begin, close, g, t);
    SpliceKeepsParentheses(f, begin, close, g, t);
    BracesReplaced(f, begin, close, g, t);
    BracePairsKept(f, begin, close, t, close');
  }

  lemma BracePairsKept(f: string, begin: nat, close: nat, t: string, close': nat)
    requires SameOutside(f, t, Braces, begin, close, close')
    ensures KeepsPairs(f, t, Braces, begin, close, close')
  {
    hide Depth; hide Level; hide Balanced; hide SameOutside; hide Pair;
    forall i, j | StrictlyOutside(i, begin, close) && StrictlyOutside(j, begin, close)
      ensures Pair(f, Braces, i, j) <==>
                Pair(t, Braces, Moved(i, begin, close' - close), Moved(j, begin, close' - close)) {
      PairsOutside(f, t, Braces, begin, close, close', i, j);
    }
  }

  lemma BracesReplaced(f: string, begin: nat, close: nat, g: string, t: string)
    requires Spliced(f, begin, close, g, t) && Balanced(f, Braces) && Balanced(g, Braces)
    requires Pair(f, Braces, begin, close) && Pair(g, Braces, 0, |g| - 1)
    ensures Balanced(t, Braces) && SameOutside(f, t, Braces, begin, close, begin + |g| - 1)
    ensures Pair(t, Braces, begin, begin + |g| - 1)
  {
    PairDepth(f, Braces, begin, close);
    PairDepth(g, Braces, 0, |g| - 1);
    SpliceBalances(f, Braces, begin, close, g, t);
    SplicedSameOutside(f, Braces, begin, close, g, t);
    forall m | begin + 1 <= m <= begin + |g| - 1 ensures Depth(t, Braces, m) >= Depth(t, Braces, begin + 1) {
      SplicedDepth(f, Braces, begin, close, g, t, m - begin);
      SplicedDepth(f, Braces, begin, close, g, t, 1);
    }
    SplicedDepth(f, Braces, begin, close, g, t, |g| - 1);
    SplicedDepth(f, Braces, begin, close, g, t, 1);
    assert t[begin] == g[0] && t[begin + |g| - 1] == g[|g| - 1];
  }

  /** Validating the answer in isolation is enough: the patched file parses to the
      expected text, the opening brace is closed by the brace after the answer, and
      every outside pair is kept up to the shift. */
  lemma SpliceTheorem(file: string, begin: nat, close: nat, answer: string)
    requires Spliceable(file, begin, close, answer)
    requires RawLiteralsStayApart(file, begin, close, answer) && ParenthesesStayApart(file, begin, close)
    ensures var patched := Patched(file, begin, close, answer);
            Parseable(patched) && Sanitized(patched) == ExpectedText(file, begin, close, answer)
    ensures BodyReplaced(Sanitized(file), ExpectedText(file, begin, close, answer), begin, close, begin + |answer| + 1)
  {
    hide Lex; hide Depth; hide Level; hide SameOutside; hide Spliced; hide Balanced; hide NoStraddle; hide KeepsPairs;
    hide NoRawCrossing; hide PatchedText;
    SpliceText(file, begin, close, answer);
    SpliceBrackets(file, begin, close, answer);
    ValidBodyEnds(answer);
    var f, g := Sanitized(file), WrappedText(answer);
    var t := ExpectedText(file, begin, close, answer);
    ExpectedIsSpliced(f, begin, close, g);
    BracesReplaced(f, begin, close, g, t);
    NoStraddleIsLevel(f, Parentheses, begin, close);
    SplicedSameOutside(f, Parentheses, begin, close, g, t);
  }

  // ------------------------------------------------------------------
  // Catalogue stability
  // ------------------------------------------------------------------

  lemma {:induction false} ReportedFunction(s: string, st: Structure, types: seq<Candidate>, p: nat, e: Entity)
    requires Matched(s, st) && p <= |s| && e in Scan(s, st, types, p) && e.kind == Function
    ensures 0 <= e.bodyStart < |s| && s[e.bodyStart] == '{'
    ensures TypeAt(s, st, e.bodyStart).None? && FunctionAt(s, st, e.bodyStart).Some?
    ensures Pair(s, Braces, e.bodyStart, e.bodyEnd - 1)
    decreases |s| - p
  {
    hide TypeAt; hide FunctionAt; hide Matched; hide QualifiedName; hide Boundary; hide Level;
    if s[p] == '{' && TypeAt(s, st, p).Some? {
      ScanType(s, st, types, p);
      hide Scan;
      ReportedFunction(s, st, types, p + 1, e);
    } else if s[p] == '{' && FunctionAt(s, st, p).Some? {
      var c := FunctionAt(s, st, p).value;
      ScanFunction(s, st, types, p);
      hide Scan;
      if e != MakeEntity(s, c, QualifiedName(c, types)) {
        ReportedFunction(s, st, types, c.closing + 1, e);
      }
    } else {
      ScanPlain(s, st, types, p);
      hide Scan;
      ReportedFunction(s, st, types, p + 1, e);
    }
  }

  /** `e` is a function that `Parse` reports for the file. */
  ghost predicate ReportsFunction(file: string, e: Entity) {
    Parseable(file) && e in CatalogueOf(file) && e.kind == Function
  }

  /** The recorded body range of a reported function is a matched brace pair. */
  lemma FunctionBody(file: string, e: Entity) returns (begin: nat, close: nat)
    requires ReportsFunction(file, e)
    ensures begin == e.bodyStart && close == e.bodyEnd - 1 && Pair(Sanitized(file), Braces, begin, close)
    ensures Sanitized(file)[begin] == '{'
    ensures var f := Sanitized(file);
            TypeAt(f, StructureOf(f), begin).None? && FunctionAt(f, StructureOf(f), begin).Some?
  {
    hide Lex; hide Scan; hide TypesFrom; hide Balanced; hide StructureOf; hide TypeAt; hide FunctionAt;
    var f := Sanitized(file);
    ReportedFunction(f, StructureOf(f), TypesFrom(f, StructureOf(f), 0), 0, e);
    begin, close := e.bodyStart, e.bodyEnd - 1;
  }

  /** After a function's body is replaced by a validated answer, the catalogue of the
      file lists the same entities in the same order under the same names, moved only
      by the difference in bytes and lines. */
  lemma CatalogueStability(file: string, e: Entity, begin: nat, close: nat, answer: string)
    requires ReportsFunction(file, e) && begin == e.bodyStart && close == e.bodyEnd - 1
    requires Spliceable(file, begin, close, answer)
    requires RawLiteralsStayApart(file, begin, close, answer) && ParenthesesStayApart(file, begin, close)
    ensures var patched := Patched(file, begin, close, answer);
            Parseable(patched) &&
            CatalogueOf(patched) ==
              MovedEntities(CatalogueOf(file), begin, |patched| - |file|,
                            LineBreaks(patched, |patched|) - LineBreaks(file, |file|))
  {
    hide Lex; hide SourceEntities; hide Balanced; hide BodyReplaced; hide NoStraddle; hide NoRawCrossing;
    hide PatchedText;
    hide MovedEntities; hide Level; hide LineBreaks; hide StructureOf; hide TypeAt; hide FunctionAt;
    var begin', close_ := FunctionBody(file, e);
    SpliceTheorem(file, begin, close, answer);
    var patched := Patched(file, begin, close, answer);
    var f, t, close' := Sanitized(file), Sanitized(patched), begin + |answer| + 1;
    CatalogueMoves(f, t, StructureOf(f), StructureOf(t), begin, close, close');
    LineMoves(f, t, begin, close, close', |f|);
    SanitizedLineBreaks(file);
    SanitizedLineBreaks(patched);
  }

  lemma {:induction false} ReportedType(s: string, st: Structure, types: seq<Candidate>, p: nat, e: Entity)
    requires Matched(s, st) && p <= |s| && e in Scan(s, st, types, p) && e.kind != Function
    ensures 0 <= e.bodyStart < |s| && s[e.bodyStart] == '{'
    ensures TypeAt(s, st, e.bodyStart).Some? && Pair(s, Braces, e.bodyStart, e.bodyEnd - 1)
    decreases |s| - p
  {
    hide TypeAt; hide FunctionAt; hide Matched; hide QualifiedName; hide Boundary; hide Level;
    if s[p] == '{' && TypeAt(s, st, p).Some? {
      var c := TypeAt(s, st, p).value;
      ScanType(s, st, types, p);
      hide Scan;
      if e != MakeEntity(s, c, c.name) {
        ReportedType(s, st, types, p + 1, e);
      }
    } else if s[p] == '{' && FunctionAt(s, st, p).Some? {
      ScanFunction(s, st, types, p);
      hide Scan;
      ReportedType(s, st, types, FunctionAt(s, st, p).value.closing + 1, e);
    } else {
      ScanPlain(s, st, types, p);
      hide Scan;
      ReportedType(s, st, types, p + 1, e);
    }
  }

  /** `e` is a class, struct or enum class that `Parse` reports for the file. */
  ghost predicate ReportsType(file: string, e: Entity) {
    Parseable(file) && e in CatalogueOf(file) && e.kind != Function
  }

  /** After the body of a type is replaced by a validated answer, every entity outside that body,
      the type itself included, is listed as before, moved only by the difference in bytes and
      lines. */
  lemma TypeCatalogueStability(file: string, e: Entity, begin: nat, close: nat, answer: string)
    requires ReportsType(file, e) && begin == e.bodyStart && close == e.bodyEnd - 1
    requires Spliceable(file, begin, close, answer)
    requires RawLiteralsStayApart(file, begin, close, answer) && ParenthesesStayApart(file, begin, close)
    ensures var patched := Patched(file, begin, close, answer);
            Parseable(patched) &&
            Outer(CatalogueOf(patched), begin, begin + |answer| + 1) ==
              MovedEntities(Outer(CatalogueOf(file), begin, close), begin, |patched| - |file|,
                            LineBreaks(patched, |patched|) - LineBreaks(file, |file|))
  {
    hide Lex; hide Balanced; hide BodyReplaced; hide NoStraddle; hide NoRawCrossing; hide PatchedText; hide Outer;
    hide MovedEntities; hide Level; hide LineBreaks; hide StructureOf; hide TypeAt; hide FunctionAt; hide Scan;
    hide TypesFrom;
    var f := Sanitized(file);
    ReportedType(f, StructureOf(f), TypesFrom(f, StructureOf(f), 0), 0, e);
    SpliceTheorem(file, begin, close, answer);
    var patched := Patched(file, begin, close, answer);
    var t, close' := Sanitized(patched), begin + |answer| + 1;
    TypeBodyMoves(f, t, StructureOf(f), StructureOf(t), begin, close, close');
    LineMoves(f, t, begin, close, close', |f|);
    SanitizedLineBreaks(file);
    SanitizedLineBreaks(patched);
  }

  lemma SanitizedLineBreaks(file: string)
    requires Parseable(file)
    ensures LineBreaks(file, |file|) == LineBreaks(Sanitized(file), |file|)
  {
    SanitizingKeepsLineBreaks(file);
    SameLineStarts(file, Sanitized(file), |file|);
  }
}
