/** Bracket matching with one stack per bracket kind, specified by nesting depth. */
module Brackets {
  import opened Common

  datatype Kind = Parentheses | Braces

  const NO_OFFSET := -1

  function Opener(k: Kind): char {
    if k == Parentheses then '(' else '{'
  }

  function Closer(k: Kind): char {
    if k == Parentheses then ')' else '}'
  }

  function Weight(k: Kind, c: char): int {
    if c == Opener(k) then 1 else if c == Closer(k) then -1 else 0
  }

  /** Openers minus closers of kind `k` among the first `n` bytes. */
  function Depth(s: string, k: Kind, n: nat): int
    requires n <= |s|
  {
    if n == 0 then 0 else Depth(s, k, n - 1) + Weight(k, s[n - 1])
  }

  ghost predicate NonNegative(s: string, k: Kind, n: nat)
    requires n <= |s|
  {
    forall m :: 0 <= m <= n ==> Depth(s, k, m) >= 0
  }

  ghost predicate Balanced(s: string, k: Kind) {
    NonNegative(s, k, |s|) && Depth(s, k, |s|) == 0
  }

  /** The bytes `[i, j)` never close a bracket opened before `i` and leave none open. */
  ghost predicate Level(s: string, k: Kind, i: nat, j: nat) {
    i <= j <= |s| && Depth(s, k, j) == Depth(s, k, i) &&
    forall m :: i <= m <= j ==> Depth(s, k, m) >= Depth(s, k, i)
  }

  /** The reference definition of a matched pair. */
  ghost predicate Pair(s: string, k: Kind, i: int, j: int) {
    0 <= i < j < |s| && s[i] == Opener(k) && s[j] == Closer(k) && Level(s, k, i + 1, j)
  }

  /** `table` sends each matched bracket to its partner and everything else to NO_OFFSET. */
  ghost predicate IsTable(s: string, k: Kind, table: seq<int>) {
    |table| == |s| &&
    (forall i :: 0 <= i < |s| && table[i] != NO_OFFSET ==> Pair(s, k, i, table[i]) || Pair(s, k, table[i], i)) &&
    (forall i, j :: Pair(s, k, i, j) ==> table[i] == j && table[j] == i)
  }

  datatype Structure = Structure(parentheses: seq<int>, braces: seq<int>)

  ghost predicate IsStructure(s: string, st: Structure) {
    IsTable(s, Parentheses, st.parentheses) && IsTable(s, Braces, st.braces)
  }

  datatype MatchError =
    | UnmatchedClosing(kind: Kind)
    | UnmatchedOpening(kind: Kind)

  /** The first closer with nothing to close, or else the last opener never closed,
      parentheses being reported before braces. */
  ghost predicate Misplaced(s: string, e: MatchError, at: int) {
    0 <= at < |s| &&
    match e
    case UnmatchedClosing(k) =>
      s[at] == Closer(k) && Depth(s, k, at) == 0 &&
      NonNegative(s, Parentheses, at) && NonNegative(s, Braces, at)
    case UnmatchedOpening(k) =>
      s[at] == Opener(k) && Depth(s, k, |s|) == Depth(s, k, at) + 1 &&
      (forall m :: at < m <= |s| ==> Depth(s, k, m) > Depth(s, k, at)) &&
      NonNegative(s, Parentheses, |s|) && NonNegative(s, Braces, |s|) &&
      (k == Braces ==> Depth(s, Parentheses, |s|) == 0)
  }

  // ------------------------------------------------------------------
  // Pairs
  // ------------------------------------------------------------------

  lemma DepthStep(s: string, k: Kind, n: nat)
    requires n < |s|
    ensures Depth(s, k, n + 1) == Depth(s, k, n) + Weight(k, s[n])
  {
  }

  lemma PairDepth(s: string, k: Kind, i: int, j: int)
    requires Pair(s, k, i, j)
    ensures 0 <= i < j < |s| && s[i] == Opener(k) && s[j] == Closer(k)
    ensures Depth(s, k, i + 1) == Depth(s, k, j) == Depth(s, k, i) + 1 && Depth(s, k, j + 1) == Depth(s, k, i)
  {
    DepthStep(s, k, i);
    DepthStep(s, k, j);
  }

  /** Pairs never cross: one that starts inside another ends inside it. */
  lemma PairsNest(s: string, k: Kind, i: int, j: int, i': int, j': int)
    requires Pair(s, k, i, j) && Pair(s, k, i', j') && i < i' < j
    ensures j' < j
  {
    DepthStep(s, k, i');
    assert Depth(s, k, i') >= Depth(s, k, i + 1);
  }

  lemma PairUnique(s: string, k: Kind, i: int, j: int, i': int, j': int)
    requires Pair(s, k, i, j) && Pair(s, k, i', j')
    ensures i == i' <==> j == j'
  {
    DepthStep(s, k, j);
    DepthStep(s, k, j');
    DepthStep(s, k, i);
    DepthStep(s, k, i');
  }

  /** In balanced text every bracket has a partner. */
  lemma OpenerHasPair(s: string, k: Kind, i: nat) returns (j: nat)
    requires Balanced(s, k) && i < |s| && s[i] == Opener(k)
    ensures Pair(s, k, i, j)
  {
    DepthStep(s, k, i);
    j := i + 1;
    while Depth(s, k, j + 1) > Depth(s, k, i)
      invariant i < j < |s|
      invariant Level(s, k, i + 1, j) || Depth(s, k, j) > Depth(s, k, i)
      invariant forall m :: i < m <= j ==> Depth(s, k, m) > Depth(s, k, i)
      decreases |s| - j
    {
      j := j + 1;
    }
    DepthStep(s, k, j);
  }

  lemma CloserHasPair(s: string, k: Kind, j: nat) returns (i: nat)
    requires NonNegative(s, k, |s|) && j < |s| && s[j] == Closer(k)
    ensures Pair(s, k, i, j)
  {
    DepthStep(s, k, j);
    var n := j;
    while n > 0 && Depth(s, k, n - 1) >= Depth(s, k, j)
      invariant 0 <= n <= j
      invariant forall m :: n <= m <= j ==> Depth(s, k, m) >= Depth(s, k, j)
    {
      n := n - 1;
    }
    assert Depth(s, k, 0) == 0 && Depth(s, k, j + 1) >= 0;
    i := n - 1;
    DepthStep(s, k, i);
  }

  /** Tables are determined by the text. */
  lemma TableUnique(s: string, k: Kind, t: seq<int>, t': seq<int>)
    requires IsTable(s, k, t) && IsTable(s, k, t')
    ensures t == t'
  {
    forall i | 0 <= i < |s| ensures t[i] == t'[i] {
      if t[i] != NO_OFFSET {
        assert Pair(s, k, i, t[i]) || Pair(s, k, t[i], i);
      }
      if t'[i] != NO_OFFSET {
        assert Pair(s, k, i, t'[i]) || Pair(s, k, t'[i], i);
      }
    }
  }

  // ------------------------------------------------------------------
  // The stack algorithm
  // ------------------------------------------------------------------

  /** What the stack of one kind holds after the first `n` bytes. */
  ghost predicate StackOk(s: string, k: Kind, n: nat, stack: seq<nat>) {
    n <= |s| && NonNegative(s, k, n) && Depth(s, k, n) == |stack| &&
    (forall t :: 0 <= t < |stack| ==>
      stack[t] < n && s[stack[t]] == Opener(k) && Depth(s, k, stack[t]) == t &&
      forall m :: stack[t] < m <= n ==> Depth(s, k, m) > t)
  }

  ghost predicate TableOk(s: string, k: Kind, n: nat, table: seq<int>) {
    n <= |s| == |table| &&
    (forall i :: 0 <= i < |s| && table[i] != NO_OFFSET ==>
      i < n && table[i] < n && (Pair(s, k, i, table[i]) || Pair(s, k, table[i], i))) &&
    (forall i, j :: Pair(s, k, i, j) && j < n ==> table[i] == j && table[j] == i)
  }

  lemma Push(s: string, k: Kind, n: nat, stack: seq<nat>, table: seq<int>)
    requires n < |s| && s[n] == Opener(k) && StackOk(s, k, n, stack) && TableOk(s, k, n, table)
    ensures StackOk(s, k, n + 1, stack + [n]) && TableOk(s, k, n + 1, table)
  {
    DepthStep(s, k, n);
  }

  lemma Skip(s: string, k: Kind, n: nat, stack: seq<nat>, table: seq<int>)
    requires n < |s| && s[n] != Opener(k) && s[n] != Closer(k)
    requires StackOk(s, k, n, stack) && TableOk(s, k, n, table)
    ensures StackOk(s, k, n + 1, stack) && TableOk(s, k, n + 1, table)
  {
    DepthStep(s, k, n);
  }

  lemma Pop(s: string, k: Kind, n: nat, stack: seq<nat>, table: seq<int>)
    requires n < |s| && s[n] == Closer(k) && |stack| > 0
    requires StackOk(s, k, n, stack) && TableOk(s, k, n, table)
    ensures var o := stack[|stack| - 1];
            o < n && StackOk(s, k, n + 1, stack[..|stack| - 1]) &&
            TableOk(s, k, n + 1, table[o := n][n := o])
  {
    var o := stack[|stack| - 1];
    DepthStep(s, k, n);
    DepthStep(s, k, o);
    assert Pair(s, k, o, n);
    assert table[n] == NO_OFFSET;
    if table[o] != NO_OFFSET {
      assert Pair(s, k, o, table[o]) || Pair(s, k, table[o], o);
      PairUnique(s, k, o, n, o, table[o]);
    }
    var table' := table[o := n][n := o];
    forall i, j | Pair(s, k, i, j) && j < n + 1 ensures table'[i] == j && table'[j] == i {
      PairUnique(s, k, i, j, o, n);
      if j < n {
        assert j != o;
      }
    }
  }

  lemma Begin(s: string, k: Kind, table: seq<int>)
    requires |table| == |s| && forall i :: 0 <= i < |s| ==> table[i] == NO_OFFSET
    ensures StackOk(s, k, 0, []) && TableOk(s, k, 0, table)
  {
  }

  lemma ClosesNothing(s: string, k: Kind, n: nat, p: seq<nat>, b: seq<nat>)
    requires n < |s| && s[n] == Closer(k) && StackOk(s, Parentheses, n, p) && StackOk(s, Braces, n, b)
    requires (if k == Parentheses then p else b) == []
    ensures Misplaced(s, UnmatchedClosing(k), n) && !Balanced(s, k)
  {
    DepthStep(s, k, n);
  }

  lemma StaysOpen(s: string, k: Kind, p: seq<nat>, b: seq<nat>)
    requires StackOk(s, Parentheses, |s|, p) && StackOk(s, Braces, |s|, b)
    requires (if k == Parentheses then p else b) != [] && (k == Braces ==> p == [])
    ensures var stack := if k == Parentheses then p else b;
            Misplaced(s, UnmatchedOpening(k), stack[|stack| - 1]) && !Balanced(s, k)
  {
  }

  lemma Done(s: string, k: Kind, table: seq<int>)
    requires StackOk(s, k, |s|, []) && TableOk(s, k, |s|, table)
    ensures Balanced(s, k) && IsTable(s, k, table)
  {
  }

  method BuildSourceStructure(source: string) returns (r: Result<Structure, (MatchError, int)>)
    ensures r.Ok? <==> Balanced(source, Parentheses) && Balanced(source, Braces)
    ensures r.Ok? ==> IsStructure(source, r.value)
    ensures r.Err? ==> Misplaced(source, r.error.0, r.error.1)
  {
    hide StackOk;
    hide TableOk;
    hide Misplaced;
    hide IsTable;
    hide Balanced;
    var matchingParentheses := new int[|source|](_ => NO_OFFSET);
    var matchingBraces := new int[|source|](_ => NO_OFFSET);
    var parentheses: seq<nat>, braces: seq<nat> := [], [];
    var offset := 0;
    Begin(source, Parentheses, matchingParentheses[..]);
    Begin(source, Braces, matchingBraces[..]);
    while offset < |source|
      invariant offset <= |source|
      invariant matchingParentheses.Length == matchingBraces.Length == |source|
      invariant StackOk(source, Parentheses, offset, parentheses)
      invariant TableOk(source, Parentheses, offset, matchingParentheses[..])
      invariant StackOk(source, Braces, offset, braces)
      invariant TableOk(source, Braces, offset, matchingBraces[..])
    {
      var c := source[offset];
      ghost var p, b := matchingParentheses[..], matchingBraces[..];
      if c == '(' {
        Push(source, Parentheses, offset, parentheses, p);
        Skip(source, Braces, offset, braces, b);
        parentheses := parentheses + [offset];
      } else if c == '{' {
        Push(source, Braces, offset, braces, b);
        Skip(source, Parentheses, offset, parentheses, p);
        braces := braces + [offset];
      } else if c == ')' {
        if parentheses == [] {
          ClosesNothing(source, Parentheses, offset, parentheses, braces);
          return Err((UnmatchedClosing(Parentheses), offset));
        }
        Pop(source, Parentheses, offset, parentheses, p);
        Skip(source, Braces, offset, braces, b);
        var opening := parentheses[|parentheses| - 1];
        parentheses := parentheses[..|parentheses| - 1];
        matchingParentheses[opening] := offset;
        matchingParentheses[offset] := opening;
        assert matchingParentheses[..] == p[opening := offset][offset := opening];
      } else if c == '}' {
        if braces == [] {
          ClosesNothing(source, Braces, offset, parentheses, braces);
          return Err((UnmatchedClosing(Braces), offset));
        }
        Pop(source, Braces, offset, braces, b);
        Skip(source, Parentheses, offset, parentheses, p);
        var opening := braces[|braces| - 1];
        braces := braces[..|braces| - 1];
        matchingBraces[opening] := offset;
        matchingBraces[offset] := opening;
        assert matchingBraces[..] == b[opening := offset][offset := opening];
      } else {
        Skip(source, Parentheses, offset, parentheses, p);
        Skip(source, Braces, offset, braces, b);
      }
      offset := offset + 1;
    }
    if parentheses != [] {
      StaysOpen(source, Parentheses, parentheses, braces);
      return Err((UnmatchedOpening(Parentheses), parentheses[|parentheses| - 1]));
    }
    if braces != [] {
      StaysOpen(source, Braces, parentheses, braces);
      return Err((UnmatchedOpening(Braces), braces[|braces| - 1]));
    }
    Done(source, Parentheses, matchingParentheses[..]);
    Done(source, Braces, matchingBraces[..]);
    return Ok(Structure(matchingParentheses[..], matchingBraces[..]));
  }
}
