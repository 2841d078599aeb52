/** Answers that pass `ValidateBody` and still break the file they are spliced into:
    the two conditions of the splice theorem are not enforced by the program. */
module Counterexamples {
  import opened Common
  import opened Lexer
  import opened Brackets
  import opened SpliceLexing
  import opened SpliceMatching
  import opened Declarations
  import opened Entities
  import opened SourceParser
  import opened Masking

  /** Bytes the scanner passes through in code mode. */
  predicate IsPlain(c: char) {
    c == '(' || c == ')' || c == ' ' || c == '{' || c == '}' || (IsLetter(c) && c != 'R')
  }

  lemma PlainStep(src: string, p: nat, l: bool)
    requires p < |src| && IsPlain(src[p])
    ensures NextStep(src, Config(Code, p, l)) == Move(1, Code, l && src[p] == ' ', true)
  {
    NotRaw(src, p);
    hide RawOpening;
  }

  lemma {:induction false} PlainRun(src: string, p: nat, atLineStart: bool)
    requires p <= |src| && forall i :: p <= i < |src| ==> IsPlain(src[i])
    ensures var r := RunTo(src, Config(Code, p, atLineStart), |src|);
            r.At? && r.config.mode == Code && r.text == src[p..]
    decreases |src| - p
  {
    hide NextStep; hide IsPlain; hide RunTo;
    var c := Config(Code, p, atLineStart);
    if p == |src| {
      RunIsOver(src, c);
    } else {
      var l := atLineStart && src[p] == ' ';
      PlainStep(src, p, atLineStart);
      PlainRun(src, p + 1, l);
      OneStep(src, c, Move(1, Code, l, true), src[p + 1..]);
      assert src[p..] == [src[p]] + src[p + 1..];
    }
  }

  lemma RunIsOver(src: string, c: Config)
    requires c.pos == |src|
    ensures RunTo(src, c, |src|) == At(c, "")
  {
  }

  lemma PlainLexes(src: string)
    requires forall i :: 0 <= i < |src| ==> IsPlain(src[i])
    ensures Lex(src) == Ok(src)
  {
    hide RunTo;
    PlainRun(src, 0, true);
    assert src[0..] == src;
  }

  /** A text with at most one bracket pair of a kind (`i == j` stands for none). */
  ghost predicate HasOnePair(t: string, k: Kind, i: nat, j: nat) {
    i <= j <= |t| && (i < j < |t| ==> t[i] == Opener(k) && t[j] == Closer(k)) && (i != j ==> j < |t|) &&
    forall m :: 0 <= m < |t| && (i == j || (m != i && m != j)) ==> Weight(k, t[m]) == 0
  }

  lemma {:induction false} OnePairDepth(t: string, k: Kind, i: nat, j: nat, n: nat)
    requires HasOnePair(t, k, i, j) && n <= |t|
    ensures Depth(t, k, n) == if i < n <= j then 1 else 0
    decreases n
  {
    if n > 0 {
      OnePairDepth(t, k, i, j, n - 1);
    }
  }

  lemma OnePair(t: string, k: Kind, i: nat, j: nat)
    requires HasOnePair(t, k, i, j)
    ensures Balanced(t, k) && (i < j ==> Pair(t, k, i, j)) && (i == j ==> forall a, b :: !Pair(t, k, a, b))
  {
    forall n | 0 <= n <= |t| ensures Depth(t, k, n) == if i < n <= j then 1 else 0 {
      OnePairDepth(t, k, i, j, n);
    }
    hide Depth;
    if i == j {
      forall a, b ensures !Pair(t, k, a, b) {
        assert 0 <= a < |t| ==> Weight(k, t[a]) == 0;
      }
    }
  }

  lemma ParenthesisAnswerIsValid(answer: string)
    requires answer == "()" || answer == ""
    ensures ValidBody(answer) && WrappedText(answer) == Wrapped(answer)
  {
    var w := Wrapped(answer);
    hide Lex; hide Depth; hide Level; hide Balanced;
    PlainLexes(w);
    assert w == if answer == "" then "{}" else "{()}";
    OnePair(w, Parentheses, if answer == "" then 0 else 1, if answer == "" then 0 else 2);
    OnePair(w, Braces, 0, |w| - 1);
  }

  // ------------------------------------------------------------------
  // Reported functions
  // ------------------------------------------------------------------

  /** The first brace of a file is reported when a function stands in front of it. */
  lemma {:induction false} FirstFunction(s: string, st: Structure, types: seq<Candidate>, o: nat, p: nat)
    requires Matched(s, st) && p <= o < |s| && s[o] == '{' && forall i :: 0 <= i < o ==> s[i] != '{'
    requires TypeAt(s, st, o).None? && FunctionAt(s, st, o).Some?
    ensures var c := FunctionAt(s, st, o).value; MakeEntity(s, c, QualifiedName(c, types)) in Scan(s, st, types, p)
    decreases o - p
  {
    hide Scan; hide TypeAt; hide FunctionAt; hide QualifiedName; hide Matched;
    if p == o {
      ScanFunction(s, st, types, o);
    } else {
      ScanPlain(s, st, types, p);
      FirstFunction(s, st, types, o, p + 1);
    }
  }

  /** A file whose first brace closes at `close` and belongs to a function: `Materialize`
      accepts an attempt at that function with any valid answer. */
  lemma AttemptIsAccepted(file: string, text: string, o: nat, close: nat, answer: string) returns (e: Entity)
    requires Lex(file) == Ok(text) && MatchedText(text) && ValidBody(answer)
    requires o < |file| && file[o] == text[o] == '{' && forall i :: 0 <= i < o ==> text[i] != '{'
    requires Pair(text, Braces, o, close) && file[close] == '}'
    requires TypeAt(text, StructureOf(text), o).None? && FunctionAt(text, StructureOf(text), o).Some?
    ensures ReportsFunction(file, e) && e.bodyStart == o && e.bodyEnd == close + 1 && 0 <= e.start <= o
    ensures Materializes(file, Selection(e.kind, e.name, e.start, o, close + 1), answer)
  {
    hide Lex; hide Scan; hide TypesFrom; hide TypeAt; hide FunctionAt; hide QualifiedName; hide Level; hide Balanced;
    hide StructureOf;
    var st := StructureOf(text);
    var types, c := TypesFrom(text, st, 0), FunctionAt(text, st, o).value;
    FirstFunction(text, st, types, o, 0);
    PairUnique(text, Braces, o, close, o, c.closing);
    e := MakeEntity(text, c, QualifiedName(c, types));
    var selected := Selection(e.kind, e.name, e.start, o, close + 1);
    assert e in CatalogueOf(file) && Selects(selected, e);
  }

  // ------------------------------------------------------------------
  // A parenthesis pair with one end in the body
  // ------------------------------------------------------------------

  lemma StraddlingDepths(f: string)
    requires f == "(f(){)}"
    ensures Depth(f, Parentheses, 0) == 0 && Depth(f, Parentheses, 1) == 1 && Depth(f, Parentheses, 2) == 1
    ensures Depth(f, Parentheses, 3) == 2 && Depth(f, Parentheses, 4) == 1 && Depth(f, Parentheses, 5) == 1
    ensures Depth(f, Parentheses, 6) == 0 && Depth(f, Parentheses, 7) == 0
  {
    assert Depth(f, Parentheses, 1) == 1;
    assert Depth(f, Parentheses, 2) == 1;
    assert Depth(f, Parentheses, 3) == 2;
    assert Depth(f, Parentheses, 4) == 1;
    assert Depth(f, Parentheses, 5) == 1;
    assert Depth(f, Parentheses, 6) == 0;
  }

  lemma StraddlingBrackets(f: string)
    requires f == "(f(){)}"
    ensures Balanced(f, Parentheses) && Balanced(f, Braces) && Pair(f, Braces, 4, 6)
    ensures Pair(f, Parentheses, 0, 5) && Pair(f, Parentheses, 2, 3)
  {
    OnePair(f, Braces, 4, 6);
    StraddlingDepths(f);
    hide Depth;
  }

  lemma StraddlingHead(f: string, st: Structure)
    requires f == "(f(){)}" && Matched(f, st)
    ensures TypeAt(f, st, 4).None? && FunctionAt(f, st, 4).Some?
  {
    hide Depth; hide Balanced; hide Level;
    StraddlingBrackets(f);
    StraddlingWindow(f, st);
    StraddlingDeclaration("(f()", [-1, -1, -1, 2]);
  }

  lemma PartnersAre(s: string, st: Structure, p: nat, expected: seq<int>)
    requires p <= |s| == |st.parentheses| && Boundary(s, p) == 0 && |expected| == p
    requires forall i :: 0 <= i < p ==>
                           expected[i] == if s[i] == ')' && st.parentheses[i] >= 0 then st.parentheses[i] else NO_OFFSET
    ensures Partners(s, st, p) == expected
  {
    forall i | 0 <= i < p ensures Partners(s, st, p)[i] == expected[i] {
      assert Partners(s, st, p)[i] == Partner(s, st.parentheses, 0, 0 + i);
    }
  }

  lemma StraddlingWindow(f: string, st: Structure)
    requires f == "(f(){)}" && IsStructure(f, st) && Pair(f, Parentheses, 2, 3)
    ensures Boundary(f, 4) == 0 && Window(f, 4) == "(f()" && Partners(f, st, 4) == [-1, -1, -1, 2]
  {
    hide Level;
    assert Boundary(f, 1) == 0;
    assert Boundary(f, 2) == 0;
    assert Boundary(f, 3) == 0;
    assert st.parentheses[3] == 2;
    assert Boundary(f, 4) == 0;
    PartnersAre(f, st, 4, [-1, -1, -1, 2]);
  }

  lemma StraddlingDeclaration(w: string, partner: seq<int>)
    requires w == "(f()" && partner == [-1, -1, -1, 2]
    ensures FindFunction(w, partner).Some? && FindType(w).None?
  {
    NoColon(w, 0);
    NameIsF(w, 2);
    LastClosing(w, 3, 3);
    assert w[4..4] == "";
    NoKeyword(w);
    hide FindType; hide FindLast; hide FunctionName; hide IsValidFunctionName; hide UnqualifiedName; hide WithoutTilde;
    hide IsRejectedFunctionName;
    HeadFound(w, partner, 3, 2);
  }

  lemma {:induction false} NoColon(w: string, p: nat)
    requires p <= |w| && forall i :: 0 <= i < |w| ==> w[i] != ':'
    ensures InitializerColon(w, p) == |w|
    decreases |w| - p
  {
    if p < |w| {
      NoColon(w, p + 1);
    }
  }

  lemma NoKeyword(w: string)
    requires w == "(f()"
    ensures FindType(w).None?
  {
    assert WordEnd(w, 2) == 2;
    assert w[1..2] == "f";
    assert LastKeyword(w, 4, "f", 1, None) == None;
    assert LastKeyword(w, 3, "f", 1, None) == None;
    assert LastKeyword(w, 2, "f", 1, None) == None;
    assert LastKeyword(w, 1, "", 0, None) == None;
  }

  /** The name `f` in front of the parenthesis at `p`. */
  lemma NameIsF(w: string, p: nat)
    requires 1 <= p <= |w| <= 7 && w[p - 1] == 'f' && (p == 1 || w[p - 2] == '(')
    requires p <= 2
    ensures FunctionName(w, p) == "f" && IsValidFunctionName("f") &&
            !IsRejectedFunctionName(WithoutTilde(UnqualifiedName("f")))
  {
    assert SkipBackward(w, p) == p;
    assert WordStart(w, p - 1) == p - 1;
    assert WordStart(w, p) == p - 1;
    assert w[p - 1..p] == "f";
    assert NameStart(w, p - 1) == p - 1;
    assert NameStart(w, p) == p - 1;
    assert LastToken(w, p, "operator").None?;
    assert Find("f", "operator", 0).None?;
    assert Find("f", "::", 0).None?;
    assert FindLast("f", "::", 1).None?;
    assert "f"[0..] == "f";
  }

  /** A function with a parenthesis around it that closes in its body: the attempt is accepted,
      and the file it materializes no longer matches. */
  lemma StraddlingParentheses() returns (e: Entity)
    ensures var file := "(f(){)}";
            ReportsFunction(file, e) && e.bodyStart == 4 && e.bodyEnd == 7 && 0 <= e.start <= 4 &&
            Materializes(file, Selection(e.kind, e.name, e.start, 4, 7), "") &&
            Spliceable(file, 4, 6, "") && RawLiteralsStayApart(file, 4, 6, "") && !ParenthesesStayApart(file, 4, 6) &&
            !Parseable(Patched(file, 4, 6, ""))
  {
    hide Lex; hide RawOpening; hide Depth; hide Level; hide Balanced; hide TypeAt; hide FunctionAt; hide StructureOf;
    hide Materializes;
    var file := "(f(){)}";
    StraddlingBrackets(file);
    PlainLexes(file);
    PlainLexes("(f(){}");
    ParenthesisAnswerIsValid("");
    StraddlingHead(file, StructureOf(file));
    e := AttemptIsAccepted(file, file, 4, 6, "");
    assert Patched(file, 4, 6, "") == "(f(){}";
    UnclosedParenthesis("(f(){}");
  }

  lemma UnclosedParenthesis(t: string)
    requires t == "(f(){}"
    ensures !Balanced(t, Parentheses)
  {
    assert Depth(t, Parentheses, 1) == 1;
    assert Depth(t, Parentheses, 2) == 1;
    assert Depth(t, Parentheses, 3) == 2;
    assert Depth(t, Parentheses, 4) == 1;
    assert Depth(t, Parentheses, 5) == 1;
  }

  // ------------------------------------------------------------------

  lemma OneStep(src: string, c: Config, s: Step, rest: string)
    requires 0 <= c.pos < |src| && NextStep(src, c) == s && s.Move? && s.length == 1
    requires var r := RunTo(src, After(c, s), |src|); r.At? && r.config.mode == Code && r.text == rest
    ensures var r := RunTo(src, c, |src|);
            r.At? && r.config.mode == Code && r.text == [if s.keep then src[c.pos] else Blank(src[c.pos])] + rest
  {
    hide NextStep;
  }

  lemma LoneR(src: string, p: nat)
    requires p < |src| && src[p] == 'R' && RawOpening(src, p).None?
    ensures forall l :: NextStep(src, Config(Code, p, l)) == Move(1, Code, false, true)
  {
    hide RawOpening;
  }

  lemma StringOpens(src: string, p: nat)
    requires p < |src| && src[p] == '"'
    ensures NextStep(src, Config(Code, p, false)) == Move(1, StringLiteral(p), false, false)
  {
    NotRaw(src, p);
    hide RawOpening;
  }

  lemma StringGoesOn(src: string, p: nat, start: nat)
    requires p < |src| && src[p] != '\n' && src[p] != '\\'
    ensures NextStep(src, Config(StringLiteral(start), p, false)) ==
            Move(1, if src[p] == '"' then Code else StringLiteral(start), false, false)
  {
  }

  lemma NoRawAtR(s: string)
    requires s == "f()R\"\"{ }"
    ensures RawOpening(s, 3).None?
  {
    assert ScanDelimiter(s, 7, 9).None?;
    assert ScanDelimiter(s, 6, 9).None?;
    assert ScanDelimiter(s, 5, 9).None?;
  }

  lemma QuotedFileLexes(s: string)
    requires s == "f()R\"\"{ }"
    ensures Lex(s) == Ok("f()R  { }")
  {
    hide NextStep; hide RunTo; hide RawOpening;
    NoRawAtR(s);
    PlainRun(s, 6, false);
    assert s[6..] == "{ }";
    StringGoesOn(s, 5, 4);
    OneStep(s, Config(StringLiteral(4), 5, false), Move(1, Code, false, false), "{ }");
    StringOpens(s, 4);
    OneStep(s, Config(Code, 4, false), Move(1, StringLiteral(4), false, false), " { }");
    LoneR(s, 3);
    OneStep(s, Config(Code, 3, false), Move(1, Code, false, true), "  { }");
    PlainStep(s, 2, false);
    OneStep(s, Config(Code, 2, false), Move(1, Code, false, true), "R  { }");
    PlainStep(s, 1, false);
    OneStep(s, Config(Code, 1, false), Move(1, Code, false, true), ")R  { }");
    PlainStep(s, 0, true);
    OneStep(s, START, Move(1, Code, false, true), "()R  { }");
    assert "f" + "()R  { }" == "f()R  { }";
  }

  lemma QuotedBrackets(t: string)
    requires t == "f()R  { }"
    ensures Balanced(t, Parentheses) && Balanced(t, Braces) && Pair(t, Braces, 6, 8) && Pair(t, Parentheses, 1, 2)
    ensures NoStraddle(t, Parentheses, 6, 8)
  {
    OnePair(t, Parentheses, 1, 2);
    OnePair(t, Braces, 6, 8);
    hide Depth;
  }

  lemma QuotedHead(t: string, st: Structure)
    requires t == "f()R  { }" && Matched(t, st)
    ensures TypeAt(t, st, 6).None? && FunctionAt(t, st, 6).Some?
  {
    hide Depth; hide Balanced; hide Level; hide NoStraddle;
    QuotedBrackets(t);
    QuotedWindow(t, st);
    QuotedDeclaration("f()R  ", [-1, -1, 1, -1, -1, -1]);
  }

  lemma QuotedWindow(t: string, st: Structure)
    requires t == "f()R  { }" && IsStructure(t, st) && Pair(t, Parentheses, 1, 2)
    ensures Boundary(t, 6) == 0 && Window(t, 6) == "f()R  " && Partners(t, st, 6) == [-1, -1, 1, -1, -1, -1]
  {
    hide Level;
    assert Boundary(t, 1) == 0;
    assert Boundary(t, 2) == 0;
    assert Boundary(t, 3) == 0;
    assert Boundary(t, 4) == 0;
    assert Boundary(t, 5) == 0;
    assert st.parentheses[2] == 1;
    PartnersAre(t, st, 6, [-1, -1, 1, -1, -1, -1]);
  }

  lemma QuotedDeclaration(w: string, partner: seq<int>)
    requires w == "f()R  " && partner == [-1, -1, 1, -1, -1, -1]
    ensures FindFunction(w, partner).Some? && FindType(w).None?
  {
    NoColon(w, 0);
    NameIsF(w, 1);
    LastClosing(w, 2, 5);
    assert w[3..6] == "R  ";
    NoQuotedKeyword(w);
    hide FindType; hide FindLast; hide FunctionName; hide IsValidFunctionName; hide UnqualifiedName; hide WithoutTilde;
    hide IsRejectedFunctionName;
    HeadFound(w, partner, 2, 1);
  }

  /** The last closing parenthesis before `p`. */
  lemma {:induction false} LastClosing(w: string, closing: nat, p: nat)
    requires closing <= p < |w| && w[closing] == ')' && forall i :: closing < i <= p ==> w[i] != ')'
    ensures FindLast(w, ")", p) == Some(closing)
  {
    assert w[closing..closing + 1] == ")";
    if closing < p {
      assert w[p..p + 1][0] == w[p];
      LastClosing(w, closing, p - 1);
    }
  }

  /** A declaration without a colon whose last parenthesis pair follows a function's name. */
  lemma HeadFound(w: string, partner: seq<int>, closing: nat, opening: nat)
    requires PartnersOk(w, partner) && opening < closing < |w| && partner[closing] == opening
    requires InitializerColon(w, 0) == |w| && FindLast(w, ")", |w| - 1) == Some(closing)
    requires AcceptsFunction(w, closing, opening, |w|)
    ensures FindFunction(w, partner).Some?
  {
    hide AcceptsFunction; hide FindLast; hide InitializerColon;
  }

  lemma NoQuotedKeyword(w: string)
    requires w == "f()R  "
    ensures FindType(w).None?
  {
    assert w[1] == '(' && w[4] == ' ';
    assert WordEnd(w, 1) == 1;
    assert WordEnd(w, 4) == 4;
    assert w[0..1] == "f" && w[3..4] == "R";
    assert LastKeyword(w, 6, "R", 3, None) == None;
    assert LastKeyword(w, 5, "R", 3, None) == None;
    assert LastKeyword(w, 4, "R", 3, None) == None;
    assert LastKeyword(w, 3, "f", 0, None) == None;
    assert LastKeyword(w, 2, "f", 0, None) == None;
    assert LastKeyword(w, 1, "f", 0, None) == None;
  }

  lemma RawScanCrosses(patched: string)
    requires patched == "f()R\"\"{()}"
    ensures RawCrosses(patched, 3, 6)
  {
    assert OpensRawAt(patched, 3, 7);
    RawOpeningFinds(patched, 3, 7);
  }

  /** A raw-string scan that runs over the opening brace of a function: the attempt is accepted,
      and the answer's parenthesis turns the end of the declaration into a raw string. */
  lemma CrossingRawLiteral() returns (e: Entity)
    ensures var file := "f()R\"\"{ }";
            ReportsFunction(file, e) && e.bodyStart == 6 && e.bodyEnd == 9 && 0 <= e.start <= 6 &&
            Materializes(file, Selection(e.kind, e.name, e.start, 6, 9), "()") &&
            Spliceable(file, 6, 8, "()") && ParenthesesStayApart(file, 6, 8) &&
            !RawLiteralsStayApart(file, 6, 8, "()") &&
            Lex(Patched(file, 6, 8, "()")) != Ok(ExpectedText(file, 6, 8, "()"))
  {
    hide Lex; hide RawOpening; hide Depth; hide Level; hide Balanced; hide RawCrosses; hide NoStraddle;
    hide TypeAt; hide FunctionAt; hide StructureOf; hide Materializes;
    var file, text := "f()R\"\"{ }", "f()R  { }";
    QuotedFileLexes(file);
    ParenthesisAnswerIsValid("()");
    QuotedBrackets(text);
    QuotedHead(text, StructureOf(text));
    e := AttemptIsAccepted(file, text, 6, 8, "()");
    var patched := Patched(file, 6, 8, "()");
    assert patched == "f()R\"\"{()}";
    RawScanCrosses(patched);
    assert text[..6][3] == 'R';
    SpliceText(file, 6, 8, "()");
  }
}
