/** The loops of the entity finder, in source offsets. */
module EntityScanner {
  import opened Common
  import opened Brackets
  import opened Declarations
  import opened Entities

  // ------------------------------------------------------------------
  // Lines
  // ------------------------------------------------------------------

  /** Offset 0 and the offset after each of the line breaks in the first `n` bytes. */
  function LineStarts(s: string, n: nat): (starts: seq<nat>)
    requires n <= |s|
    ensures |starts| == LineBreaks(s, n) + 1
    ensures forall i :: 0 <= i < |starts| ==> starts[i] <= n
  {
    if n == 0 then [0]
    else LineStarts(s, n - 1) + (if s[n - 1] == '\n' then [n] else [])
  }

  method BuildLineStarts(source: string) returns (starts: seq<nat>)
    ensures starts == LineStarts(source, |source|)
  {
    starts := [0];
    for offset := 0 to |source|
      invariant starts == LineStarts(source, offset)
    {
      if source[offset] == '\n' {
        starts := starts + [offset + 1];
      }
    }
  }

  lemma {:induction false} SameLineStarts(a: string, b: string, n: nat)
    requires |a| == |b| && n <= |a| && forall i :: 0 <= i < |a| ==> (a[i] == '\n' <==> b[i] == '\n')
    ensures LineStarts(a, n) == LineStarts(b, n)
  {
    if n > 0 {
      SameLineStarts(a, b, n - 1);
    }
  }

  /** The line starts up to `n` are the first ones of the list, and the rest lie beyond. */
  lemma {:induction false} LineStartsSplit(s: string, n: nat, m: nat)
    requires n <= m <= |s|
    ensures LineStarts(s, n) <= LineStarts(s, m)
    ensures forall i :: |LineStarts(s, n)| <= i < |LineStarts(s, m)| ==> LineStarts(s, m)[i] > n
    decreases m
  {
    if n < m {
      LineStartsSplit(s, n, m - 1);
    }
  }

  /** `std::upper_bound` over the line starts. */
  method LineFromOffset(starts: seq<nat>, offset: nat, ghost s: string) returns (line: nat)
    requires offset <= |s| && starts == LineStarts(s, |s|)
    ensures line == Line(s, offset)
  {
    LineStartsSplit(s, offset, |s|);
    ghost var before := |LineStarts(s, offset)|;
    assert forall i :: 0 <= i < before ==> starts[i] == LineStarts(s, offset)[i] <= offset;
    var low, high := 0, |starts|;
    while low < high
      invariant 0 <= low <= before <= high <= |starts|
    {
      var middle := (low + high) / 2;
      if starts[middle] <= offset {
        low := middle + 1;
      } else {
        high := middle;
      }
    }
    line := low;
  }

  // ------------------------------------------------------------------
  // Scanning one declaration: `[bd, o)` holds no boundary, and one precedes it
  // ------------------------------------------------------------------

  ghost predicate IsWindow(s: string, bd: nat, o: nat) {
    bd <= o < |s| && s[o] == '{' && (bd == 0 || IsBoundary(s[bd - 1]))
  }

  method FindPreviousBoundary(source: string, from: nat) returns (r: nat)
    requires from <= |source|
    ensures r == Boundary(source, from)
  {
    var offset := from;
    while offset > 0
      invariant 0 <= offset <= from
      invariant Boundary(source, from) == Boundary(source, offset)
    {
      if IsBoundary(source[offset - 1]) {
        return offset;
      }
      offset := offset - 1;
    }
    return 0;
  }

  method SkipWhitespaceForward(source: string, from: nat, end: nat) returns (r: nat)
    requires from <= end <= |source|
    ensures r == SkipForward(source, from, end)
  {
    r := from;
    while r < end && IsSpace(source[r])
      invariant from <= r <= end
      invariant SkipForward(source, from, end) == SkipForward(source, r, end)
    {
      r := r + 1;
    }
  }

  method SkipWhitespaceBackward(source: string, from: nat, ghost bd: nat, ghost o: nat) returns (r: nat)
    requires IsWindow(source, bd, o) && bd <= from <= o
    ensures r == bd + SkipBackward(source[bd..o], from - bd)
  {
    r := from;
    ghost var w := source[bd..o];
    while r > 0 && IsSpace(source[r - 1])
      invariant bd <= r <= from
      invariant SkipBackward(w, from - bd) == SkipBackward(w, r - bd)
    {
      assert r > bd;
      assert source[r - 1] == w[r - 1 - bd];
      r := r - 1;
    }
    if r > bd {
      assert source[r - 1] == w[r - 1 - bd];
    }
  }

  method SkipWordBackward(source: string, from: nat, boundary: nat, ghost o: nat) returns (r: nat)
    requires IsWindow(source, boundary, o) && boundary <= from <= o
    ensures r == boundary + WordStart(source[boundary..o], from - boundary)
  {
    r := from;
    ghost var w := source[boundary..o];
    while r > boundary && IsIdentifierCharacter(source[r - 1])
      invariant boundary <= r <= from
      invariant WordStart(w, from - boundary) == WordStart(w, r - boundary)
    {
      assert source[r - 1] == w[r - 1 - boundary];
      r := r - 1;
    }
    if r > boundary {
      assert source[r - 1] == w[r - 1 - boundary];
    }
  }

  lemma SliceInside(s: string, bd: nat, o: nat, a: nat, b: nat)
    requires bd <= a <= b <= o <= |s|
    ensures s[a..b] == s[bd..o][a - bd..b - bd]
  {
    assert forall k :: 0 <= k < b - a ==> s[a..b][k] == s[bd..o][a - bd..b - bd][k];
  }

  lemma TokenInWindow(s: string, bd: nat, o: nat, p: nat, token: string)
    requires IsWindow(s, bd, o) && bd <= p && p + |token| <= o && token != ""
    ensures IsTokenAt(s, p, token) <==> IsTokenAt(s[bd..o], p - bd, token)
  {
    var w := s[bd..o];
    SliceInside(s, bd, o, p, p + |token|);
    if p > bd {
      assert s[p - 1] == w[p - bd - 1];
    }
    if p + |token| < o {
      assert s[p + |token|] == w[p - bd + |token|];
    }
  }

  lemma NoTokenLeft(w: string, end: nat, token: string)
    requires forall q :: 0 <= q && q + |token| <= end ==> !IsTokenAt(w, q, token)
    ensures LastToken(w, end, token).None?
  {
  }

  lemma TokensOccur(s: string, token: string)
    ensures forall p: nat :: !OccursAt(s, p, token) ==> !IsTokenAt(s, p, token)
  {
  }

  method FindLastToken(source: string, begin: nat, end: nat, token: string, ghost o: nat) returns (r: Option<nat>)
    requires IsWindow(source, begin, o) && begin <= end <= o && token != ""
    ensures r == match LastToken(source[begin..o], end - begin, token) case None => None case Some(p) => Some(begin + p)
  {
    hide FindLast; hide LastTokenFrom; hide IsTokenAt;
    ghost var w := source[begin..o];
    forall q | begin <= q && q + |token| <= end
      ensures IsTokenAt(source, q, token) <==> IsTokenAt(w, q - begin, token) {
      TokenInWindow(source, begin, o, q, token);
    }
    if begin >= end {
      return None;
    }
    var position := FindLast(source, token, end - 1);
    TokensOccur(source, token);
    while position.Some? && position.value >= begin
      invariant position.Some? ==> position.value < end
      invariant forall q :: begin <= q && q + |token| <= end && (position.None? || position.value < q) ==>
                  !IsTokenAt(source, q, token)
      decreases if position.Some? then position.value + 1 else 0
    {
      if position.value + |token| <= end && IsTokenAt(source, position.value, token) {
        ghost var found := LastToken(w, end - begin, token);
        assert IsTokenAt(w, position.value - begin, token);
        assert found.Some?;
        assert IsTokenAt(source, begin + found.value, token);
        return position;
      }
      if position.value == 0 {
        position := None;
      } else {
        position := FindLast(source, token, position.value - 1);
      }
    }
    forall q | 0 <= q && q + |token| <= end - begin ensures !IsTokenAt(w, q, token) {
      assert !IsTokenAt(source, begin + q, token);
    }
    NoTokenLeft(w, end - begin, token);
    return None;
  }

  method FindQualifierStart(source: string, nameStart: nat, boundary: nat, ghost o: nat) returns (begin: nat)
    requires IsWindow(source, boundary, o) && boundary <= nameStart <= o
    ensures begin == boundary + QualifierStart(source[boundary..o], nameStart - boundary)
  {
    hide SkipBackward; hide WordStart;
    ghost var w := source[boundary..o];
    ghost var from := nameStart;
    begin := SkipWhitespaceBackward(source, nameStart, boundary, o);
    while begin >= boundary + 2 && source[begin - 1] == ':' && source[begin - 2] == ':'
      invariant boundary <= begin <= from <= nameStart
      invariant begin == boundary + SkipBackward(w, from - boundary)
      invariant QualifierStart(w, nameStart - boundary) == QualifierStart(w, from - boundary)
      decreases begin
    {
      ghost var colons := begin;
      assert source[begin - 1] == w[begin - 1 - boundary] && source[begin - 2] == w[begin - 2 - boundary];
      begin := SkipWhitespaceBackward(source, begin - 2, boundary, o);
      var identifierBegin := SkipWordBackward(source, begin, boundary, o);
      if identifierBegin == begin || !IsIdentifierStart(source[identifierBegin]) {
        return;
      }
      from := identifierBegin;
      begin := SkipWhitespaceBackward(source, identifierBegin, boundary, o);
    }
    if begin >= boundary + 2 {
      assert source[begin - 1] == w[begin - 1 - boundary] && source[begin - 2] == w[begin - 2 - boundary];
    }
  }

  method ExtractFunctionName(source: string, opening: nat, boundary: nat, ghost o: nat) returns (name: string)
    requires IsWindow(source, boundary, o) && boundary <= opening <= o
    ensures name == FunctionName(source[boundary..o], opening - boundary)
  {
    hide SkipBackward; hide WordStart; hide NameEndingAt; hide IsRejectedFunctionName;
    var end := SkipWhitespaceBackward(source, opening, boundary, o);
    var directBegin := SkipWordBackward(source, end, boundary, o);
    SliceInside(source, boundary, o, directBegin, end);
    if IsRejectedFunctionName(source[directBegin..end]) {
      return source[directBegin..end];
    }
    name := ExtractNameEndingAt(source, end, boundary, o);
  }

  method ExtractNameEndingAt(source: string, end: nat, boundary: nat, ghost o: nat) returns (name: string)
    requires IsWindow(source, boundary, o) && boundary <= end <= o
    ensures name == NameEndingAt(source[boundary..o], end - boundary)
  {
    hide LastToken; hide QualifierStart; hide TrimLeft; hide TrimRight; hide NameStart;
    var operatorPosition := FindLastToken(source, boundary, end, "operator", o);
    if operatorPosition.Some? {
      var begin := FindQualifierStart(source, operatorPosition.value, boundary, o);
      SliceInside(source, boundary, o, begin, end);
      return TrimRight(TrimLeft(source[begin..end]));
    }
    var begin := SkipNameBackward(source, end, boundary, o);
    SliceInside(source, boundary, o, begin, end);
    return source[begin..end];
  }

  method SkipNameBackward(source: string, from: nat, boundary: nat, ghost o: nat) returns (r: nat)
    requires IsWindow(source, boundary, o) && boundary <= from <= o
    ensures r == boundary + NameStart(source[boundary..o], from - boundary)
  {
    r := from;
    ghost var w := source[boundary..o];
    while r > boundary && (IsIdentifierCharacter(source[r - 1]) || source[r - 1] == ':' || source[r - 1] == '~')
      invariant boundary <= r <= from
      invariant NameStart(w, from - boundary) == NameStart(w, r - boundary)
    {
      assert source[r - 1] == w[r - 1 - boundary];
      r := r - 1;
    }
    if r > boundary {
      assert source[r - 1] == w[r - 1 - boundary];
    }
  }

  method FindPreviousIdentifier(source: string, offset: nat, boundary: nat, ghost o: nat) returns (word: string)
    requires IsWindow(source, boundary, o) && boundary <= offset <= o
    ensures word == PreviousIdentifier(source[boundary..o], offset - boundary)
  {
    hide SkipBackward; hide WordStart;
    var end := SkipWhitespaceBackward(source, offset, boundary, o);
    var begin := SkipWordBackward(source, end, boundary, o);
    SliceInside(source, boundary, o, begin, end);
    word := source[begin..end];
  }

  method FindConstructorInitializerColon(source: string, boundary: nat, opening: nat) returns (r: Option<nat>)
    requires IsWindow(source, boundary, opening)
    ensures boundary + InitializerColon(source[boundary..opening], 0) == if r.None? then opening else r.value
    ensures r.Some? ==> boundary <= r.value < opening
  {
    hide PreviousIdentifier;
    ghost var w := source[boundary..opening];
    for offset := boundary to opening
      invariant InitializerColon(w, 0) == InitializerColon(w, offset - boundary)
    {
      assert source[offset] == w[offset - boundary];
      if source[offset] == ':' {
        var previousIsColon := offset > boundary && source[offset - 1] == ':';
        var nextIsColon := offset + 1 < opening && source[offset + 1] == ':';
        assert offset > boundary ==> source[offset - 1] == w[offset - boundary - 1];
        assert offset + 1 < opening ==> source[offset + 1] == w[offset - boundary + 1];
        if !previousIsColon && !nextIsColon {
          var previous := FindPreviousIdentifier(source, offset, boundary, opening);
          if previous != "public" && previous != "protected" && previous != "private" {
            return Some(offset);
          }
        }
      }
    }
    return None;
  }

  // ------------------------------------------------------------------
  // Candidates
  // ------------------------------------------------------------------

  /** The function name in front of a parenthesis pair, if the pair can belong to one. */
  method TryParentheses(source: string, closing: nat, opener: nat, limit: nat, boundary: nat, ghost o: nat)
    returns (r: Option<string>)
    requires IsWindow(source, boundary, o) && boundary <= opener <= closing < limit <= o
    ensures var w := source[boundary..o];
            r == if AcceptsFunction(w, closing - boundary, opener - boundary, limit - boundary)
                 then Some(FunctionName(w, opener - boundary)) else None
  {
    hide FunctionName; hide IsValidFunctionName; hide IsSupportedSuffix; hide UnqualifiedName;
    hide IsRejectedFunctionName; hide WithoutTilde;
    var name := ExtractFunctionName(source, opener, boundary, o);
    if name == "" {
      return None;
    }
    var shortName := WithoutTilde(UnqualifiedName(name));
    if !IsValidFunctionName(name) || IsRejectedFunctionName(shortName) {
      return None;
    }
    var suffix := source[closing + 1..limit];
    SliceInside(source, boundary, o, closing + 1, limit);
    if !IsSupportedSuffix(suffix) {
      return None;
    }
    return Some(name);
  }

  method TryFindFunctionCandidate(source: string, st: Structure, opening: nat) returns (r: Option<Candidate>)
    requires Matched(source, st) && opening < |source| && source[opening] == '{'
    ensures r == FunctionAt(source, st, opening)
  {
    hide Partners; hide Matched; hide FindFunction; hide Boundary; hide IsWindow; hide LastToken;
    TablesFit(source, st);
    PartnersAreEarlier(source, st, opening);
    BraceHasCloser(source, st, opening);
    var boundary := FindPreviousBoundary(source, opening);
    var head := SearchDeclaration(source, st, boundary, opening);
    if head.None? {
      return None;
    }
    var closing := st.braces[opening];
    return Some(Candidate(Function, head.value.name, boundary + head.value.start, opening, closing, closing + 1,
                          head.value.isFriend));
  }

  lemma TablesFit(source: string, st: Structure)
    requires Matched(source, st)
    ensures |st.parentheses| == |source| && |st.braces| == |source| && IsStructure(source, st)
  {
  }

  /** The loop over the closing parentheses of one declaration, right to left. */
  method SearchDeclaration(source: string, st: Structure, boundary: nat, opening: nat) returns (r: Option<FunctionHead>)
    requires Matched(source, st) && opening < |source| && source[opening] == '{' &&
             boundary == Boundary(source, opening)
    requires IsStructure(source, st) && PartnersOk(Window(source, opening), Partners(source, st, opening))
    ensures r == FindFunction(Window(source, opening), Partners(source, st, opening))
  {
    hide Partners; hide Matched; hide SearchFunction; hide Boundary; hide FunctionName; hide AcceptsFunction;
    hide FunctionStart; hide LastToken; hide InitializerColon; hide FindLast; hide OccursAt; hide IsStructure;
    TablesFit(source, st);
    var colon := FindConstructorInitializerColon(source, boundary, opening);
    var limit := if colon.None? then opening else colon.value;
    ghost var w, partner := Window(source, opening), Partners(source, st, opening);
    var search := limit;
    while search > boundary
      invariant boundary <= search <= limit
      invariant FindFunction(w, partner) == SearchFunction(w, partner, limit - boundary, search - boundary)
      decreases search
    {
      var found := FindLast(source, ")", search - 1);
      LastParenthesis(source, boundary, opening, search);
      SearchTurn(w, partner, limit - boundary, search - boundary);
      if found.None? || found.value < boundary {
        return None;
      }
      var closing := found.value;
      PartnerEntry(source, st, opening, closing);
      var opener := st.parentheses[closing];
      if opener == NO_OFFSET || opener < boundary {
        search := closing;
        continue;
      }
      var name := TryParentheses(source, closing, opener, limit, boundary, opening);
      if name.None? {
        search := opener;
        continue;
      }
      var start := FindFunctionStart(source, opener, boundary, opening);
      var friendToken := FindLastToken(source, boundary, opener, "friend", opening);
      return Some(FunctionHead(name.value, start - boundary, friendToken.Some?));
    }
    SearchTurn(w, partner, limit - boundary, 0);
    return None;
  }

  /** One turn of the search, without its recursion. */
  lemma SearchTurn(w: string, partner: seq<int>, limit: nat, search: nat)
    requires PartnersOk(w, partner) && search <= limit <= |w|
    ensures search == 0 ==> SearchFunction(w, partner, limit, search) == None
    ensures search > 0 ==>
      var found := FindLast(w, ")", search - 1);
      SearchFunction(w, partner, limit, search) ==
        if found.None? then None
        else if partner[found.value] == NO_OFFSET then SearchFunction(w, partner, limit, found.value)
        else if AcceptsFunction(w, found.value, partner[found.value], limit) then
          Some(FunctionHead(FunctionName(w, partner[found.value]), FunctionStart(w, partner[found.value]),
                            LastToken(w, partner[found.value], "friend").Some?))
        else SearchFunction(w, partner, limit, partner[found.value])
  {
    hide FindLast; hide AcceptsFunction; hide FunctionName; hide FunctionStart; hide LastToken;
  }

  lemma PartnerEntry(source: string, st: Structure, o: nat, closing: nat)
    requires Matched(source, st) && closing < o <= |source| && Boundary(source, o) <= closing &&
             OccursAt(source, closing, ")")
    ensures |st.parentheses| == |source| && |st.braces| == |source|
    ensures var bd, opener := Boundary(source, o), st.parentheses[closing];
            Partners(source, st, o)[closing - bd] == (if opener < bd then NO_OFFSET else opener - bd) &&
            opener < closing
  {
    PartnerIsEarlier(source, st, 0, closing);
    assert source[closing..closing + 1][0] == ')';
    assert Partners(source, st, o)[closing - Boundary(source, o)] ==
           Partner(source, st.parentheses, Boundary(source, o), closing);
  }

  /** The last closing parenthesis before `search`, seen from the window. */
  lemma LastParenthesis(source: string, bd: nat, o: nat, search: nat)
    requires IsWindow(source, bd, o) && bd < search <= o
    ensures var found, inside := FindLast(source, ")", search - 1), FindLast(source[bd..o], ")", search - bd - 1);
            if found.None? || found.value < bd then inside.None? else inside == Some(found.value - bd)
  {
    var w := source[bd..o];
    forall p | bd <= p < search ensures OccursAt(source, p, ")") <==> OccursAt(w, p - bd, ")") {
      SliceInside(source, bd, o, p, p + 1);
    }
    var found, inside := FindLast(source, ")", search - 1), FindLast(w, ")", search - bd - 1);
    if inside.Some? {
      assert OccursAt(source, bd + inside.value, ")");
    }
  }

  method FindFunctionStart(source: string, opening: nat, ghost bd: nat, ghost o: nat) returns (start: nat)
    requires IsWindow(source, bd, o) && bd == Boundary(source, o) && bd <= opening <= o
    ensures start == bd + FunctionStart(source[bd..o], opening - bd)
  {
    var boundary := FindPreviousBoundary(source, opening);
    BoundaryInside(source, bd, o, opening);
    var prefix := source[boundary..opening];
    ghost var w := source[bd..o];
    assert prefix == w[..opening - bd];
    start := boundary;
    start := Max(start, boundary + AfterSpecifier(prefix, "public:"));
    start := Max(start, boundary + AfterSpecifier(prefix, "protected:"));
    start := Max(start, boundary + AfterSpecifier(prefix, "private:"));
    ForwardInside(source, bd, o, start, opening);
    start := SkipWhitespaceForward(source, start, opening);
  }

  lemma {:induction false} BoundaryInside(s: string, bd: nat, o: nat, p: nat)
    requires IsWindow(s, bd, o) && bd == Boundary(s, o) && bd <= p <= o
    ensures Boundary(s, p) == bd
    decreases p
  {
    if p > bd {
      BoundaryInside(s, bd, o, p - 1);
    }
  }

  lemma {:induction false} ForwardInside(s: string, bd: nat, o: nat, p: nat, end: nat)
    requires bd <= p <= end <= o <= |s|
    ensures SkipForward(s, p, end) == bd + SkipForward(s[bd..o], p - bd, end - bd)
    decreases end - p
  {
    if p < end {
      assert s[p] == s[bd..o][p - bd];
      ForwardInside(s, bd, o, p + 1, end);
    }
  }

  method FindTypeKeyword(declaration: string) returns (r: Option<TypeKeyword>)
    ensures r == LastKeyword(declaration, 0, "", 0, None)
  {
    r := None;
    var previous, previousStart, offset := "", 0, 0;
    while offset < |declaration|
      invariant previousStart <= offset <= |declaration|
      invariant r.Some? ==> r.value.start <= |declaration| && r.value.nameStart <= |declaration| &&
                            r.value.kind != Function
      invariant LastKeyword(declaration, 0, "", 0, None) == LastKeyword(declaration, offset, previous, previousStart, r)
    {
      if !IsIdentifierStart(declaration[offset]) {
        offset := offset + 1;
      } else {
        var start := offset;
        offset := SkipWordForward(declaration, offset + 1);
        var token := declaration[start..offset];
        if token == "class" || token == "struct" {
          r := Some(KeywordFor(token, start, offset, previous, previousStart));
        }
        previous, previousStart := token, start;
      }
    }
  }

  method SkipWordForward(source: string, from: nat) returns (r: nat)
    requires from <= |source|
    ensures r == WordEnd(source, from)
  {
    r := from;
    while r < |source| && IsIdentifierCharacter(source[r])
      invariant from <= r <= |source| && WordEnd(source, from) == WordEnd(source, r)
    {
      r := r + 1;
    }
  }

  method TryFindTypeCandidate(source: string, st: Structure, opening: nat) returns (r: Option<Candidate>)
    requires Matched(source, st) && opening < |source| && source[opening] == '{'
    ensures r == TypeAt(source, st, opening)
  {
    hide LastKeyword; hide SkipForward; hide WordEnd; hide Boundary;
    BraceHasCloser(source, st, opening);
    var boundary := FindPreviousBoundary(source, opening);
    var declaration := source[boundary..opening];
    var keyword := FindTypeKeyword(declaration);
    if keyword.None? {
      return None;
    }
    var nameStart := SkipWhitespaceForward(declaration, keyword.value.nameStart, |declaration|);
    if nameStart >= |declaration| || !IsIdentifierStart(declaration[nameStart]) {
      return None;
    }
    var nameEnd := SkipWordForward(declaration, nameStart + 1);
    if exists i :: nameEnd <= i < |declaration| && (declaration[i] == '(' || declaration[i] == ')') {
      return None;
    }
    var closing := st.braces[opening];
    var end := closing + 1;
    var semicolon := SkipWhitespaceForward(source, end, |source|);
    if semicolon < |source| && source[semicolon] == ';' {
      end := semicolon + 1;
    }
    return Some(Candidate(keyword.value.kind, declaration[nameStart..nameEnd], boundary + keyword.value.start,
                          opening, closing, end, false));
  }

  method FindTypes(source: string, st: Structure) returns (types: seq<Candidate>)
    requires Matched(source, st)
    ensures types == TypesFrom(source, st, 0)
  {
    hide TypeAt;
    types := [];
    for offset := 0 to |source|
      invariant TypesFrom(source, st, 0) == types + TypesFrom(source, st, offset)
    {
      if source[offset] == '{' {
        var candidate := TryFindTypeCandidate(source, st, offset);
        if candidate.Some? {
          types := types + [candidate.value];
        }
      }
    }
  }

  method ContainingType(types: seq<Candidate>, opening: int) returns (best: Option<Candidate>)
    ensures best == SmallestAround(types, opening, None)
  {
    best := None;
    for i := 0 to |types|
      invariant SmallestAround(types, opening, None) == SmallestAround(types[i..], opening, best)
    {
      var c := types[i];
      assert types[i..][1..] == types[i + 1..];
      if c.opening < opening < c.closing && (best.None? || Size(c) < Size(best.value)) {
        best := Some(c);
      }
    }
  }

  /** The listed type that opens at `opening`, if any. */
  method FindTypeAt(types: seq<Candidate>, opening: nat, ghost source: string, ghost st: Structure)
    returns (r: Option<Candidate>)
    requires Matched(source, st) && opening < |source| && source[opening] == '{' && types == TypesFrom(source, st, 0)
    ensures r == TypeAt(source, st, opening)
  {
    hide TypeAt;
    hide TypesFrom;
    hide Matched;
    for i := 0 to |types|
      invariant forall k :: 0 <= k < i ==> types[k].opening != opening
    {
      if types[i].opening == opening {
        TypesAreListed(source, st, 0, types[i]);
        return Some(types[i]);
      }
    }
    ghost var here := TypeAt(source, st, opening);
    if here.Some? {
      TypesAreListed(source, st, 0, here.value);
    }
    return None;
  }

  method MakeEntityWithLines(source: string, starts: seq<nat>, c: Candidate, name: string) returns (e: Entity)
    requires 0 <= c.start <= |source| && 0 <= c.opening <= |source| && 0 <= c.closing <= |source|
    requires starts == LineStarts(source, |source|)
    ensures e == MakeEntity(source, c, name)
  {
    var startLine := LineFromOffset(starts, c.start, source);
    var endLine := LineFromOffset(starts, c.closing, source);
    var bodyStartLine := LineFromOffset(starts, c.opening, source);
    e := Entity(c.kind, name, c.start, c.end, c.opening, c.closing + 1, startLine, endLine, bodyStartLine, endLine);
  }

  method FindSourceEntities(source: string, st: Structure, starts: seq<nat>) returns (entities: seq<Entity>)
    requires Matched(source, st) && starts == LineStarts(source, |source|)
    ensures entities == SourceEntities(source, st)
  {
    hide TypeAt; hide FunctionAt; hide TypesFrom; hide Matched; hide Scan; hide MakeEntity; hide QualifiedName;
    hide LineStarts;
    entities := [];
    var types := FindTypes(source, st);
    var offset := 0;
    while offset < |source|
      invariant 0 <= offset <= |source|
      invariant SourceEntities(source, st) == entities + Scan(source, st, types, offset)
    {
      if source[offset] != '{' {
        ScanPlain(source, st, types, offset);
        offset := offset + 1;
        continue;
      }
      var t := FindTypeAt(types, offset, source, st);
      if t.Some? {
        ScanType(source, st, types, offset);
        var entity := MakeEntityWithLines(source, starts, t.value, t.value.name);
        entities := entities + [entity];
        offset := offset + 1;
        continue;
      }
      var candidate := TryFindFunctionCandidate(source, st, offset);
      if candidate.None? {
        ScanPlain(source, st, types, offset);
        offset := offset + 1;
        continue;
      }
      ScanFunction(source, st, types, offset);
      var name := QualifyName(candidate.value, types);
      var entity := MakeEntityWithLines(source, starts, candidate.value, name);
      entities := entities + [entity];
      offset := candidate.value.closing + 1;
    }
    ScanIsOver(source, st, types);
  }

  lemma ScanIsOver(source: string, st: Structure, types: seq<Candidate>)
    requires Matched(source, st)
    ensures Scan(source, st, types, |source|) == []
  {
  }

  method QualifyName(c: Candidate, types: seq<Candidate>) returns (name: string)
    ensures name == QualifiedName(c, types)
  {
    hide HasQualifier; hide SmallestAround;
    name := c.name;
    if !c.isFriend && !HasQualifier(name) {
      var around := ContainingType(types, c.opening);
      if around.Some? {
        name := around.value.name + "::" + name;
      }
    }
  }
}
