/** The type that a declaration declares, said of its words. */
module TypeForms {
  import opened Common
  import opened Declarations
  import opened DeclarationForms

  predicate IsDigit(c: char) {
    '0' <= c <= '9'
  }

  /** Only digits separate `i` from a byte that is no identifier character. */
  predicate FreeFrom(w: string, k: nat, i: nat) {
    k <= i <= |w| && (forall m :: k <= m < i ==> IsDigit(w[m])) && (k == 0 || !IsIdentifierCharacter(w[k - 1]))
  }

  ghost predicate StartsToken(w: string, i: nat) {
    i < |w| && IsIdentifierStart(w[i]) && exists k: nat :: FreeFrom(w, k, i)
  }

  /** `w[i..j]` is a stretch of identifier characters that cannot be extended to the right. */
  predicate RunsTo(w: string, i: nat, j: nat) {
    i < j <= |w| && (forall m :: i <= m < j ==> IsIdentifierCharacter(w[m])) &&
    (j == |w| || !IsIdentifierCharacter(w[j]))
  }

  ghost predicate IsToken(w: string, i: nat, j: nat) {
    StartsToken(w, i) && RunsTo(w, i, j)
  }

  ghost predicate IsTypeWord(w: string, i: nat, j: nat) {
    IsToken(w, i, j) && (w[i..j] == "class" || w[i..j] == "struct")
  }

  /** The token in front of `i` is `enum`, and it starts at `a`. */
  ghost predicate FollowsEnum(w: string, i: nat, a: nat) {
    IsToken(w, a, a + 4) && w[a..a + 4] == "enum" && a + 4 <= i && forall k :: a < k < i ==> !StartsToken(w, k)
  }

  /** The last `class` or `struct`, the kind it stands for and where its declaration starts. */
  ghost predicate IsKeyword(w: string, i: nat, j: nat, kind: EntityType, start: nat) {
    IsTypeWord(w, i, j) && (forall a: nat, b: nat :: i < a ==> !IsTypeWord(w, a, b)) &&
    ((kind == EnumClass && FollowsEnum(w, i, start)) ||
     (kind == (if w[i..j] == "class" then Class else Struct) && start == i && forall a: nat :: !FollowsEnum(w, i, a)))
  }

  ghost predicate IsNamed(w: string, j: nat, n: nat, m: nat) {
    Blank(w, j, n) && n < |w| && IsIdentifierStart(w[n]) && RunsTo(w, n, m) &&
    forall k :: m <= k < |w| ==> w[k] != '(' && w[k] != ')'
  }

  /** The last type word is followed by the type's name and, after it, by no parenthesis. */
  ghost predicate DeclaresType(w: string, h: TypeHead, i: nat, j: nat, n: nat, m: nat) {
    IsKeyword(w, i, j, h.kind, h.start) && IsNamed(w, j, n, m) && h.name == w[n..m]
  }

  // ------------------------------------------------------------------
  // Reading the words in order
  // ------------------------------------------------------------------

  lemma {:induction false} WordEnds(w: string, p: nat)
    requires p <= |w|
    ensures forall m :: p <= m < WordEnd(w, p) ==> IsIdentifierCharacter(w[m])
    ensures WordEnd(w, p) == |w| || !IsIdentifierCharacter(w[WordEnd(w, p)])
    decreases |w| - p
  {
    if p < |w| && IsIdentifierCharacter(w[p]) {
      WordEnds(w, p + 1);
    }
  }

  lemma WordRuns(w: string, p: nat)
    requires p < |w| && IsIdentifierStart(w[p])
    ensures RunsTo(w, p, WordEnd(w, p + 1))
  {
    WordEnds(w, p + 1);
  }

  lemma RunIsUnique(w: string, i: nat, j: nat, k: nat)
    requires RunsTo(w, i, j) && RunsTo(w, i, k)
    ensures j == k
  {
    assert j < |w| ==> k <= j;
    assert k < |w| ==> j <= k;
  }

  /** A scan that has come to `p` is not inside a word. */
  ghost predicate IsAligned(w: string, p: nat) {
    p <= |w| && (p < |w| && IsIdentifierCharacter(w[p]) ==> exists k: nat :: FreeFrom(w, k, p))
  }

  lemma AlignedNext(w: string, p: nat)
    requires p < |w| && IsAligned(w, p) && !IsIdentifierStart(w[p])
    ensures IsAligned(w, p + 1) && !StartsToken(w, p)
  {
    if IsIdentifierCharacter(w[p]) {
      var k: nat :| FreeFrom(w, k, p);
      assert FreeFrom(w, k, p + 1);
    } else {
      assert FreeFrom(w, p + 1, p + 1);
    }
  }

  lemma NoTokenInside(w: string, p: nat, end: nat)
    requires p < |w| && IsIdentifierStart(w[p]) && RunsTo(w, p, end)
    ensures forall q: nat :: p < q < end ==> !StartsToken(w, q)
    ensures IsAligned(w, end)
  {
    forall q: nat, k: nat | p < q < end ensures !FreeFrom(w, k, q) {
      if p < k <= q {
        assert IsIdentifierCharacter(w[k - 1]);
      } else if k <= p {
        assert !IsDigit(w[p]);
      }
    }
  }

  /** `previous` is the last token before `p`, empty when there is none. */
  ghost predicate IsPrevious(w: string, p: nat, previous: string, start: nat) {
    if previous == "" then forall k :: 0 <= k < p ==> !StartsToken(w, k)
    else start + |previous| <= p && IsToken(w, start, start + |previous|) &&
         w[start..start + |previous|] == previous && forall k :: start < k < p ==> !StartsToken(w, k)
  }

  lemma EnumIs(w: string, p: nat, previous: string, start: nat)
    requires IsPrevious(w, p, previous, start) && p <= |w|
    ensures previous == "enum" ==> FollowsEnum(w, p, start)
    ensures previous != "enum" ==> forall a: nat :: !FollowsEnum(w, p, a)
  {
    forall a: nat | FollowsEnum(w, p, a) ensures previous == "enum" {
      assert StartsToken(w, a);
      assert previous != "" && start == a;
      RunIsUnique(w, a, a + 4, a + |previous|);
    }
  }

  /** The last type word before `p` is the one `found` describes. */
  ghost predicate IsLast(w: string, p: nat, i: nat, found: TypeKeyword) {
    i < p && IsTypeWord(w, i, found.nameStart) && (forall a: nat, b: nat :: i < a < p ==> !IsTypeWord(w, a, b)) &&
    ((found.kind == EnumClass && FollowsEnum(w, i, found.start)) ||
     (found.kind == (if w[i..found.nameStart] == "class" then Class else Struct) && found.start == i &&
      forall a: nat :: !FollowsEnum(w, i, a)))
  }

  ghost predicate IsFoundBefore(w: string, p: nat, found: Option<TypeKeyword>) {
    if found.None? then forall a: nat, b: nat :: a < p ==> !IsTypeWord(w, a, b)
    else exists i: nat :: IsLast(w, p, i, found.value)
  }

  lemma KeepsFound(w: string, p: nat, q: nat, found: Option<TypeKeyword>)
    requires IsFoundBefore(w, p, found) && p <= q && forall a: nat, b: nat :: p <= a < q ==> !IsTypeWord(w, a, b)
    ensures IsFoundBefore(w, q, found)
  {
    hide IsTypeWord; hide FollowsEnum;
    if found.Some? {
      var i: nat :| IsLast(w, p, i, found.value);
      assert IsLast(w, q, i, found.value);
    }
  }

  lemma TakesWord(w: string, p: nat, end: nat, previous: string, start: nat)
    requires p < end <= |w| && IsTypeWord(w, p, end) && IsPrevious(w, p, previous, start)
    requires forall a: nat, b: nat :: p < a < end ==> !IsTypeWord(w, a, b)
    ensures IsFoundBefore(w, end, Some(KeywordFor(w[p..end], p, end, previous, start)))
  {
    EnumIs(w, p, previous, start);
    hide FollowsEnum;
    assert IsLast(w, end, p, KeywordFor(w[p..end], p, end, previous, start));
  }

  lemma {:induction false} ReadsKeywords(w: string, p: nat, previous: string, start: nat, found: Option<TypeKeyword>)
    requires p <= |w| && start <= p && IsAligned(w, p) && IsPrevious(w, p, previous, start)
    requires found.Some? ==> found.value.start <= |w| && found.value.nameStart <= |w| && found.value.kind != Function
    requires IsFoundBefore(w, p, found)
    ensures IsFoundBefore(w, |w|, LastKeyword(w, p, previous, start, found))
    decreases |w| - p
  {
    hide IsFoundBefore; hide StartsToken; hide IsAligned;
    if p < |w| {
      if !IsIdentifierStart(w[p]) {
        AlignedNext(w, p);
        KeepsFound(w, p, p + 1, found);
        ReadsKeywords(w, p + 1, previous, start, found);
      } else {
        var end := WordEnd(w, p + 1);
        var token := w[p..end];
        WordRuns(w, p);
        NoTokenInside(w, p, end);
        AlignedStarts(w, p);
        if token == "class" || token == "struct" {
          TakesWord(w, p, end, previous, start);
          ReadsKeywords(w, end, token, p, Some(KeywordFor(token, p, end, previous, start)));
        } else {
          NotAWord(w, p, end);
          KeepsFound(w, p, end, found);
          ReadsKeywords(w, end, token, p, found);
        }
      }
    }
  }

  lemma AlignedStarts(w: string, p: nat)
    requires p < |w| && IsAligned(w, p) && IsIdentifierStart(w[p])
    ensures StartsToken(w, p)
  {
  }

  lemma NotAWord(w: string, p: nat, end: nat)
    requires RunsTo(w, p, end) && w[p..end] != "class" && w[p..end] != "struct"
    ensures forall b: nat :: !IsTypeWord(w, p, b)
  {
    forall b: nat | IsTypeWord(w, p, b) ensures b == end {
      RunIsUnique(w, p, end, b);
    }
  }

  lemma KeywordIs(w: string) returns (i: nat)
    ensures var found := LastKeyword(w, 0, "", 0, None);
            if found.None? then forall a: nat, b: nat :: !IsTypeWord(w, a, b)
            else IsKeyword(w, i, found.value.nameStart, found.value.kind, found.value.start)
  {
    hide LastKeyword; hide IsTypeWord; hide FollowsEnum;
    assert FreeFrom(w, 0, 0);
    ReadsKeywords(w, 0, "", 0, None);
    WordsAreInside(w);
    var found := LastKeyword(w, 0, "", 0, None);
    i := 0;
    if found.Some? {
      i :| IsLast(w, |w|, i, found.value);
    }
  }

  lemma WordsAreInside(w: string)
    ensures forall a: nat, b: nat :: IsTypeWord(w, a, b) ==> a < |w|
  {
  }

  lemma KeywordIsUnique(w: string, i: nat, j: nat, kind: EntityType, start: nat, i': nat, j': nat, kind': EntityType,
                        start': nat)
    requires IsKeyword(w, i, j, kind, start) && IsKeyword(w, i', j', kind', start')
    ensures j == j' && kind == kind' && start == start'
  {
    assert i == i';
    RunIsUnique(w, i, j, j');
    if kind == EnumClass {
      EnumIsUnique(w, i, start);
    }
  }

  lemma EnumIsUnique(w: string, i: nat, start: nat)
    requires FollowsEnum(w, i, start)
    ensures forall a: nat :: FollowsEnum(w, i, a) ==> a == start
  {
    forall a: nat | FollowsEnum(w, i, a) ensures a == start {
      assert StartsToken(w, a) && StartsToken(w, start);
    }
  }

  lemma NameIs(w: string, j: nat, n: nat, m: nat)
    requires j <= |w| && IsNamed(w, j, n, m)
    ensures SkipForward(w, j, |w|) == n && WordEnd(w, n + 1) == m
  {
    WordRuns(w, n);
    RunIsUnique(w, n, m, WordEnd(w, n + 1));
    var r := SkipForward(w, j, |w|);
    hide SkipForward;
    assert !IsSpace(w[n]);
    assert r <= n;
  }

  /** A type is found exactly when the declaration declares one, with that kind, name and start. */
  lemma TypeIsFound(w: string, h: TypeHead)
    ensures FindType(w) == Some(h) <==> exists i: nat, j: nat, n: nat, m: nat :: DeclaresType(w, h, i, j, n, m)
  {
    hide LastKeyword; hide IsKeyword; hide IsTypeWord; hide SkipForward; hide WordEnd;
    var i := KeywordIs(w);
    var found := LastKeyword(w, 0, "", 0, None);
    if FindType(w) == Some(h) {
      var j := found.value.nameStart;
      var n := SkipForward(w, j, |w|);
      var m := WordEnd(w, n + 1);
      WordRuns(w, n);
      assert IsNamed(w, j, n, m);
      assert DeclaresType(w, h, i, j, n, m);
    }
    if a: nat, j: nat, n: nat, m: nat :| DeclaresType(w, h, a, j, n, m) {
      KeywordIsTypeWord(w, a, j, h.kind, h.start);
      KeywordIsUnique(w, a, j, h.kind, h.start, i, found.value.nameStart, found.value.kind, found.value.start);
      NameIs(w, j, n, m);
    }
  }

  lemma KeywordIsTypeWord(w: string, i: nat, j: nat, kind: EntityType, start: nat)
    requires IsKeyword(w, i, j, kind, start)
    ensures IsTypeWord(w, i, j) && j <= |w|
  {
  }
}
