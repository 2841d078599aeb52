/** What the entity finder reads out of one declaration: the text between the
    previous `;`, `{` or `}` and an opening brace. */
module Declarations {
  import opened Common
  import opened Brackets

  datatype EntityType = Function | Class | Struct | EnumClass

  const REJECTED_FUNCTION_NAMES: seq<string> :=
    ["if", "for", "while", "switch", "catch", "sizeof", "alignof", "decltype",
     "noexcept", "requires", "static_assert"]

  predicate IsRejectedFunctionName(name: string) {
    name in REJECTED_FUNCTION_NAMES
  }

  // ------------------------------------------------------------------
  // Searching
  // ------------------------------------------------------------------

  predicate OccursAt(s: string, p: nat, pattern: string) {
    p + |pattern| <= |s| && s[p..p + |pattern|] == pattern
  }

  /** First occurrence at or after `from`. */
  function Find(s: string, pattern: string, from: nat): (r: Option<nat>)
    ensures r.Some? ==> from <= r.value && OccursAt(s, r.value, pattern)
    ensures r.None? ==> forall p :: from <= p ==> !OccursAt(s, p, pattern)
    ensures r.Some? ==> forall p :: from <= p < r.value ==> !OccursAt(s, p, pattern)
    decreases |s| - from
  {
    if OccursAt(s, from, pattern) then Some(from)
    else if from >= |s| then None
    else Find(s, pattern, from + 1)
  }

  /** Last occurrence at or before `p`. */
  function FindLast(s: string, pattern: string, p: nat): (r: Option<nat>)
    ensures r.Some? ==> r.value <= p && OccursAt(s, r.value, pattern)
    ensures r.Some? ==> forall q :: r.value < q <= p ==> !OccursAt(s, q, pattern)
    ensures r.None? ==> forall q :: 0 <= q <= p ==> !OccursAt(s, q, pattern)
  {
    if OccursAt(s, p, pattern) then Some(p)
    else if p == 0 then None
    else FindLast(s, pattern, p - 1)
  }

  function SkipBackward(w: string, p: nat): (r: nat)
    requires p <= |w|
    ensures r <= p
  {
    if p > 0 && IsSpace(w[p - 1]) then SkipBackward(w, p - 1) else p
  }

  function SkipForward(w: string, p: nat, end: nat): (r: nat)
    requires p <= end <= |w|
    ensures p <= r <= end
    ensures forall i :: p <= i < r ==> IsSpace(w[i])
    ensures r < end ==> !IsSpace(w[r])
    decreases end - p
  {
    if p < end && IsSpace(w[p]) then SkipForward(w, p + 1, end) else p
  }

  function WordStart(w: string, p: nat): (r: nat)
    requires p <= |w|
    ensures r <= p
  {
    if p > 0 && IsIdentifierCharacter(w[p - 1]) then WordStart(w, p - 1) else p
  }

  function WordEnd(w: string, p: nat): (r: nat)
    requires p <= |w|
    ensures p <= r <= |w|
    decreases |w| - p
  {
    if p < |w| && IsIdentifierCharacter(w[p]) then WordEnd(w, p + 1) else p
  }

  predicate IsTokenAt(w: string, p: nat, token: string) {
    OccursAt(w, p, token) &&
    (p == 0 || !IsIdentifierCharacter(w[p - 1])) &&
    (p + |token| == |w| || !IsIdentifierCharacter(w[p + |token|]))
  }

  /** Last whole token ending at or before `end`, searching from `p` downwards. */
  function LastTokenFrom(w: string, p: nat, end: nat, token: string): (r: Option<nat>)
    ensures r.Some? ==> r.value <= p && r.value + |token| <= end && IsTokenAt(w, r.value, token)
    ensures r.None? ==> forall q :: 0 <= q <= p && q + |token| <= end ==> !IsTokenAt(w, q, token)
    ensures r.Some? ==> forall q :: r.value < q <= p && q + |token| <= end ==> !IsTokenAt(w, q, token)
  {
    if p + |token| <= end && IsTokenAt(w, p, token) then Some(p)
    else if p == 0 then None
    else LastTokenFrom(w, p - 1, end, token)
  }

  function LastToken(w: string, end: nat, token: string): (r: Option<nat>)
    ensures r.Some? ==> r.value + |token| <= end && IsTokenAt(w, r.value, token)
  {
    if end == 0 then None else LastTokenFrom(w, end - 1, end, token)
  }

  // ------------------------------------------------------------------
  // Names
  // ------------------------------------------------------------------

  predicate IsValidIdentifier(value: string) {
    value != "" && IsIdentifierStart(value[0]) && forall i :: 0 < i < |value| ==> IsIdentifierCharacter(value[i])
  }

  function WithoutTilde(part: string): string {
    if part != "" && part[0] == '~' then part[1..] else part
  }

  /** Every `::`-separated part from `start` on is an identifier, possibly after `~`. */
  predicate ValidParts(name: string, start: nat)
    requires start <= |name|
    decreases |name| - start
  {
    start == |name| ||
    match Find(name, "::", start)
    case None => IsValidIdentifier(WithoutTilde(name[start..]))
    case Some(separator) =>
      IsValidIdentifier(WithoutTilde(name[start..separator])) && ValidParts(name, separator + 2)
  }

  predicate IsValidQualifiedName(name: string) {
    name != "" && ValidParts(name, 0)
  }

  function TrimLeft(s: string): string {
    if s != "" && IsSpace(s[0]) then TrimLeft(s[1..]) else s
  }

  function TrimRight(s: string): string {
    if s != "" && IsSpace(s[|s| - 1]) then TrimRight(s[..|s| - 1]) else s
  }

  predicate IsValidOperatorName(name: string) {
    match Find(name, "operator", 0)
    case None => false
    case Some(at) =>
      at + 8 < |name| &&
      (at == 0 ||
       var qualifier := TrimRight(name[..at]);
       |qualifier| >= 2 && qualifier[|qualifier| - 2..] == "::" && IsValidQualifiedName(qualifier[..|qualifier| - 2]))
  }

  predicate IsValidFunctionName(name: string) {
    IsValidQualifiedName(name) || IsValidOperatorName(name)
  }

  function UnqualifiedName(name: string): string {
    match Find(name, "operator", 0)
    case Some(at) => name[at..]
    case None =>
      match FindLast(name, "::", |name|)
      case Some(separator) => name[separator + 2..]
      case None => name
  }

  predicate HasQualifier(name: string) {
    var prefix := match Find(name, "operator", 0) case None => name case Some(at) => name[..at];
    Find(prefix, "::", 0).Some?
  }

  // ------------------------------------------------------------------
  // Function declarations
  // ------------------------------------------------------------------

  predicate IsSingleColon(v: string, p: nat)
    requires p < |v|
  {
    v[p] == ':' && !(p > 0 && v[p - 1] == ':') && !(p + 1 < |v| && v[p + 1] == ':')
  }

  predicate IsSupportedSuffix(suffix: string) {
    forall i :: 0 <= i < |suffix| ==>
      suffix[i] != ';' && suffix[i] != '=' && suffix[i] != '{' && suffix[i] != '}' && !IsSingleColon(suffix, i)
  }

  function PreviousIdentifier(w: string, p: nat): string
    requires p <= |w|
  {
    var end := SkipBackward(w, p);
    w[WordStart(w, end)..end]
  }

  predicate IsInitializerColon(w: string, p: nat)
    requires p < |w|
  {
    IsSingleColon(w, p) && PreviousIdentifier(w, p) !in ["public", "protected", "private"]
  }

  /** The colon that starts a constructor's initializer list, or the window's end. */
  function InitializerColon(w: string, p: nat): (r: nat)
    requires p <= |w|
    ensures p <= r <= |w|
    decreases |w| - p
  {
    if p == |w| then |w|
    else if IsInitializerColon(w, p) then p
    else InitializerColon(w, p + 1)
  }

  function QualifierStart(w: string, p: nat): (r: nat)
    requires p <= |w|
    ensures r <= p
  {
    var begin := SkipBackward(w, p);
    if begin >= 2 && w[begin - 1] == ':' && w[begin - 2] == ':' then
      var before := SkipBackward(w, begin - 2);
      var word := WordStart(w, before);
      if word == before || !IsIdentifierStart(w[word]) then before
      else QualifierStart(w, word)
    else begin
  }

  function NameStart(w: string, p: nat): (r: nat)
    requires p <= |w|
    ensures r <= p
  {
    if p > 0 && (IsIdentifierCharacter(w[p - 1]) || w[p - 1] == ':' || w[p - 1] == '~')
    then NameStart(w, p - 1) else p
  }

  /** The possibly qualified name that ends at `end`, operator names included. */
  function NameEndingAt(w: string, end: nat): string
    requires end <= |w|
  {
    match LastToken(w, end, "operator")
    case Some(at) => TrimRight(TrimLeft(w[QualifierStart(w, at)..end]))
    case None => w[NameStart(w, end)..end]
  }

  function FunctionName(w: string, opening: nat): string
    requires opening <= |w|
  {
    var end := SkipBackward(w, opening);
    var direct := w[WordStart(w, end)..end];
    if IsRejectedFunctionName(direct) then direct else NameEndingAt(w, end)
  }

  function AfterSpecifier(prefix: string, specifier: string): (r: nat)
    ensures r <= |prefix|
  {
    match FindLast(prefix, specifier, |prefix|)
    case Some(at) => at + |specifier|
    case None => 0
  }

  function FunctionStart(w: string, opening: nat): (r: nat)
    requires opening <= |w|
    ensures r <= opening
  {
    var prefix := w[..opening];
    var start := Max(Max(AfterSpecifier(prefix, "public:"), AfterSpecifier(prefix, "protected:")),
                     AfterSpecifier(prefix, "private:"));
    SkipForward(w, start, opening)
  }

  datatype FunctionHead = FunctionHead(name: string, start: nat, isFriend: bool)

  /** `partner[i]` is the opening parenthesis of the closing one at `i`, if it lies
      in the window. */
  ghost predicate PartnersOk(w: string, partner: seq<int>) {
    |partner| == |w| && forall i :: 0 <= i < |w| ==> partner[i] == NO_OFFSET || 0 <= partner[i] < i
  }

  predicate AcceptsFunction(w: string, closing: nat, opening: nat, limit: nat)
    requires opening <= closing < limit <= |w|
  {
    var name := FunctionName(w, opening);
    name != "" && IsValidFunctionName(name) &&
    !IsRejectedFunctionName(WithoutTilde(UnqualifiedName(name))) &&
    IsSupportedSuffix(w[closing + 1..limit])
  }

  /** Tries the closing parentheses before `search` from right to left. */
  function SearchFunction(w: string, partner: seq<int>, limit: nat, search: nat): (r: Option<FunctionHead>)
    requires PartnersOk(w, partner) && search <= limit <= |w|
    ensures r.Some? ==> r.value.start <= |w|
    decreases search
  {
    if search == 0 then None
    else
      match FindLast(w, ")", search - 1)
      case None => None
      case Some(closing) =>
        var opening := partner[closing];
        if opening == NO_OFFSET then SearchFunction(w, partner, limit, closing)
        else if AcceptsFunction(w, closing, opening, limit) then
          Some(FunctionHead(FunctionName(w, opening), FunctionStart(w, opening), LastToken(w, opening, "friend").Some?))
        else SearchFunction(w, partner, limit, opening)
  }

  function FindFunction(w: string, partner: seq<int>): (r: Option<FunctionHead>)
    requires PartnersOk(w, partner)
    ensures r.Some? ==> r.value.start <= |w|
  {
    var limit := InitializerColon(w, 0);
    SearchFunction(w, partner, limit, limit)
  }

  // ------------------------------------------------------------------
  // Type declarations
  // ------------------------------------------------------------------

  datatype TypeKeyword = TypeKeyword(kind: EntityType, start: nat, nameStart: nat)

  function KeywordFor(token: string, start: nat, end: nat, previous: string, previousStart: nat): TypeKeyword {
    if previous == "enum" then TypeKeyword(EnumClass, previousStart, end)
    else TypeKeyword(if token == "class" then Class else Struct, start, end)
  }

  /** The last `class` or `struct` token at or after `p`, else `found`. */
  function LastKeyword(w: string, p: nat, previous: string, previousStart: nat,
                       found: Option<TypeKeyword>): (r: Option<TypeKeyword>)
    requires p <= |w| && previousStart <= p
    requires found.Some? ==> found.value.start <= |w| && found.value.nameStart <= |w| && found.value.kind != Function
    ensures r.Some? ==> r.value.start <= |w| && r.value.nameStart <= |w| && r.value.kind != Function
    decreases |w| - p
  {
    if p == |w| then found
    else if !IsIdentifierStart(w[p]) then LastKeyword(w, p + 1, previous, previousStart, found)
    else
      var end := WordEnd(w, p + 1);
      var token := w[p..end];
      LastKeyword(w, end, token, p,
                  if token == "class" || token == "struct"
                  then Some(KeywordFor(token, p, end, previous, previousStart)) else found)
  }

  datatype TypeHead = TypeHead(kind: EntityType, name: string, start: nat)

  function FindType(w: string): (r: Option<TypeHead>)
    ensures r.Some? ==> r.value.start <= |w|
    ensures r.Some? ==> r.value.kind != Function
  {
    match LastKeyword(w, 0, "", 0, None)
    case None => None
    case Some(keyword) =>
      var nameStart := SkipForward(w, keyword.nameStart, |w|);
      if nameStart >= |w| || !IsIdentifierStart(w[nameStart]) then None
      else
        var nameEnd := WordEnd(w, nameStart + 1);
        if exists i :: nameEnd <= i < |w| && (w[i] == '(' || w[i] == ')') then None
        else Some(TypeHead(keyword.kind, w[nameStart..nameEnd], keyword.start))
  }
}
