/** The function that a declaration declares, in terms of its parts: the outermost
    parentheses, the name in front of them and what follows them. */
module FunctionForms {
  import opened Common
  import opened Slices
  import opened Brackets
  import opened Declarations
  import opened DeclarationForms

  // ------------------------------------------------------------------
  // The name that is extracted
  // ------------------------------------------------------------------

  lemma OperatorsAgree(w: string, j: nat, a: nat, b: nat)
    requires IsLastOperator(w, j, a) && IsLastOperator(w, j, b)
    ensures a == b
  {
    hide IsOperatorWord;
    assert a < b < j || b < a < j || a == b by {
      OperatorFits(w, j, a);
      OperatorFits(w, j, b);
    }
  }

  lemma OperatorFits(w: string, j: nat, at: nat)
    requires IsOperatorWord(w, at, j)
    ensures at + 8 <= j && at + 8 <= |w| && w[at] == 'o'
  {
    assert w[at] == w[at..at + 8][0];
  }

  lemma QualificationIsVisible(w: string, i: nat, j: nat, at: nat, links: seq<Link>)
    requires IsQualification(w, i, at, links) && IsOperatorWord(w, at, j) && j <= |w|
    ensures i < j && !IsSpace(w[i])
  {
    hide IsUnqualified; hide IsWholeWord;
    OperatorFits(w, j, at);
    if links != [] {
      LinksBegin(links);
      assert w[i] == w[i..at][0];
    }
  }

  lemma {:induction false} LinksBegin(links: seq<Link>)
    requires links != [] && forall k :: 0 <= k < |links| ==> IsLink(links[k])
    ensures LinksText(links) != "" && IsIdentifierCharacter(LinksText(links)[0])
  {
    var n := |links| - 1;
    if n > 0 {
      LinksBegin(links[..n]);
    } else {
      assert LinksText(links[..0]) == "";
      assert LinkText(links[0])[0] == links[0].word[0];
    }
  }

  lemma TrimsTo(w: string, b: nat, i: nat, j: nat)
    requires b <= i < j <= |w| && Blank(w, b, i) && !IsSpace(w[i]) && !IsSpace(w[j - 1])
    ensures TrimRight(TrimLeft(w[b..j])) == w[i..j]
  {
    var s, t := w[b..j], w[i..j];
    assert forall k :: 0 <= k < i - b ==> s[k] == w[b + k];
    TrimLeftIs(s, i - b);
    SliceOfSlice(w, b, j, i - b, j - b);
    assert s[i - b..] == s[i - b..j - b];
    TrimRightIs(t, j - i);
    assert t[..j - i] == t;
  }

  lemma NotRejected(w: string, j: nat)
    requires j <= |w|
    ensures IsRejectedFunctionName(w[WordStart(w, j)..j]) <==> EndsRejected(w, j)
  {
    hide IsRejectedFunctionName; hide WordStart;
    WordStarts(w, j);
    forall k: nat | IsWord(w, k, j) ensures k == WordStart(w, j) {
      WordStartIs(w, k, j);
    }
  }

  /** The name in front of a parenthesis is what the extraction gives. */
  lemma NameIsExtracted(w: string, o: nat, i: nat, j: nat)
    requires o <= |w| && IsNameBefore(w, o, i, j)
    ensures i <= j <= o && FunctionName(w, o) == w[i..j]
  {
    hide IsRejectedFunctionName; hide WordStart; hide EndsRejected; hide TrimLeft; hide TrimRight; hide QualifierStart;
    hide IsOperatorWord; hide NameStart; hide LastToken; hide IsQualification; hide SkipBackward;
    BackwardIs(w, j, o);
    NotRejected(w, j);
    LastWordIs(w, j);
    if IsPlainName(w, i, j) {
      PlainIsExtracted(w, i, j);
    } else {
      var at, links :| IsOperatorText(w, i, j, at, links);
      var last := LastToken(w, j, "operator");
      OperatorFits(w, j, at);
      OperatorsAgree(w, j, at, last.value);
      OperatorIsExtracted(w, o, i, j, at, links);
    }
  }

  lemma PlainIsExtracted(w: string, i: nat, j: nat)
    requires j <= |w| && IsPlainName(w, i, j)
    ensures i <= j && NameEndingAt(w, j) == w[i..j]
  {
    hide LastToken; hide IsOperatorWord;
    LastWordIs(w, j);
    NameStartIs(w, i, j);
  }

  lemma OperatorIsExtracted(w: string, o: nat, i: nat, j: nat, at: nat, links: seq<Link>)
    requires EndsBefore(w, j, o) && IsOperatorText(w, i, j, at, links)
    requires LastToken(w, j, "operator") == Some(at)
    ensures i <= j && NameEndingAt(w, j) == w[i..j]
  {
    hide LastToken; hide TrimLeft; hide TrimRight; hide QualifierStart; hide IsQualification; hide IsOperatorWord;
    hide SkipBackward;
    QualificationIsVisible(w, i, j, at, links);
    WalksBack(w, i, at, links);
    BackwardEnds(w, i);
    TrimsTo(w, SkipBackward(w, i), i, j);
  }

  lemma ColonIsNoName(name: string)
    requires name != "" && name[0] == ':'
    ensures !IsFunctionName(name)
  {
    forall parts | IsPath(parts) ensures Joined(parts) != name {
      PartIsValid(parts[0]);
      assert Joined(parts)[0] == parts[0][0];
    }
    forall q: nat, at: nat ensures !IsOperatorAt(name, q, at) {
      if IsAt(name, at, "operator") {
        assert name[at] == name[at..at + 8][0];
        if at > 0 && IsAt(name, q, "::") {
          ColonIsNoPath(name[..q]);
        }
      }
    }
  }

  lemma ColonIsNoPath(name: string)
    requires name == "" || name[0] == ':'
    ensures !IsPathName(name)
  {
    forall parts | IsPath(parts) ensures Joined(parts) != name {
      PartIsValid(parts[0]);
      assert Joined(parts)[0] == parts[0][0];
    }
  }

  /** An allowed name that is extracted stands in front of the parenthesis. */
  lemma ExtractedIsName(w: string, o: nat) returns (i: nat, j: nat)
    requires o <= |w| && IsFunctionName(FunctionName(w, o)) && !EndsRejected(w, SkipBackward(w, o))
    ensures IsNameBefore(w, o, i, j) && j <= |w|
  {
    hide IsRejectedFunctionName; hide WordStart; hide EndsRejected; hide TrimLeft; hide TrimRight; hide QualifierStart;
    hide IsOperatorWord; hide NameStart; hide LastToken; hide IsQualification; hide SkipBackward; hide IsFunctionName;
    j := SkipBackward(w, o);
    BackwardEnds(w, o);
    NotRejected(w, j);
    LastWordIs(w, j);
    var last := LastToken(w, j, "operator");
    if last.None? {
      i := NameStart(w, j);
      NameStarts(w, j);
      assert IsPlainName(w, i, j);
    } else {
      var at := last.value;
      OperatorFits(w, j, at);
      var whole, k, links := WalkIs(w, at);
      if !whole {
        TrimsTo(w, QualifierStart(w, at), k, j);
        ColonIsNoName(w[k..j]);
        assert false;
      }
      i := k;
      assert IsOperatorText(w, i, j, at, links);
    }
  }

  // ------------------------------------------------------------------
  // Accepted parentheses
  // ------------------------------------------------------------------

  /** Nothing between `from` and `limit` keeps the parentheses in front from being a parameter list. */
  predicate IsPlainSuffix(w: string, from: nat, limit: nat) {
    forall k :: from <= k < limit <= |w| ==>
      w[k] != ';' && w[k] != '=' && w[k] != '{' && w[k] != '}' && !IsLoneColon(w, k)
  }

  ghost predicate HeadsAt(w: string, limit: nat, o: nat, c: nat, i: nat, j: nat) {
    IsNameBefore(w, o, i, j) && j <= |w| && i <= j && IsFunctionName(w[i..j]) && IsPlainSuffix(w, c + 1, limit)
  }

  /** The parentheses at `o` and `c` are the parameter list of a function with this name. */
  ghost predicate Heads(w: string, limit: nat, o: nat, c: nat, name: string) {
    exists i: nat, j: nat :: HeadsAt(w, limit, o, c, i, j) && name == w[i..j]
  }

  lemma SuffixIsPlain(w: string, c: nat, limit: nat)
    requires c < limit <= |w| && w[c] == ')' && CutsAt(w, limit)
    ensures IsSupportedSuffix(w[c + 1..limit]) <==> IsPlainSuffix(w, c + 1, limit)
  {
    hide FollowsLabel;
    var suffix := w[c + 1..limit];
    forall k | c < k < limit
      ensures suffix[k - c - 1] == w[k] && (IsSingleColon(suffix, k - c - 1) <==> IsLoneColon(w, k)) {
    }
    if IsSupportedSuffix(suffix) {
      forall k | c < k < limit
        ensures w[k] != ';' && w[k] != '=' && w[k] != '{' && w[k] != '}' && !IsLoneColon(w, k) {
        assert suffix[k - c - 1] == w[k];
      }
    }
    if IsPlainSuffix(w, c + 1, limit) {
      forall i | 0 <= i < |suffix|
        ensures suffix[i] != ';' && suffix[i] != '=' && suffix[i] != '{' && suffix[i] != '}' &&
                !IsSingleColon(suffix, i) {
        assert suffix[i] == w[c + 1 + i];
      }
    }
  }

  lemma RejectedHaveNoOperator(name: string)
    requires IsRejectedFunctionName(name)
    ensures name != "" && name[0] != 'o' && name[0] != '~'
    ensures forall p :: 0 <= p <= |name| ==> !OccursAt(name, p, "operator") && !OccursAt(name, p, "::")
  {
    forall p | 0 <= p <= |name| ensures !OccursAt(name, p, "operator") && !OccursAt(name, p, "::") {
      if p + 8 <= |name| {
        assert name[p..p + 8][0] == name[p];
      }
      if p + 2 <= |name| {
        assert name[p..p + 2][0] == name[p];
      }
    }
  }

  lemma RejectedIsItself(name: string)
    requires IsRejectedFunctionName(name)
    ensures WithoutTilde(UnqualifiedName(name)) == name
  {
    RejectedHaveNoOperator(name);
    hide Find; hide FindLast; hide OccursAt; hide IsRejectedFunctionName;
  }

  lemma Regrouped(a: string, b: string, c: string)
    ensures a + (b + c) == (a + b) + c
  {
  }

  lemma JoinedUnfolds(parts: seq<string>)
    requires parts != []
    ensures Joined(parts) == if |parts| == 1 then parts[0] else parts[0] + "::" + Joined(parts[1..])
  {
  }

  /** A path is its last part behind what ends with a separator. */
  lemma {:induction false} LastPart(parts: seq<string>) returns (front: string)
    requires parts != []
    ensures Joined(parts) == front + parts[|parts| - 1]
    ensures if |parts| == 1 then front == "" else EndsWithSeparator(front)
    decreases |parts|
  {
    hide EndsWithSeparator; hide Joined;
    JoinedUnfolds(parts);
    if |parts| == 1 {
      front := "";
    } else {
      var first, more := parts[0] + "::", parts[1..];
      var rest := LastPart(more);
      assert more[|more| - 1] == parts[|parts| - 1];
      Regrouped(first, rest, parts[|parts| - 1]);
      SeparatorStays(parts[0], rest);
      front := first + rest;
    }
  }

  predicate EndsWithSeparator(s: string) {
    |s| >= 2 && s[|s| - 2] == ':' && s[|s| - 1] == ':'
  }

  lemma SeparatorStays(part: string, rest: string)
    requires rest == "" || EndsWithSeparator(rest)
    ensures EndsWithSeparator(part + "::" + rest)
  {
  }

  /** Without `operator` in it, a name is unqualified by dropping everything up to the last separator. */
  lemma UnqualifiedIsLast(front: string, last: string)
    requires Find(front + last, "operator", 0).None? && forall k :: 0 <= k < |last| ==> last[k] != ':'
    requires front == "" || EndsWithSeparator(front)
    ensures UnqualifiedName(front + last) == last
  {
    hide Find;
    var name, n := front + last, |front|;
    forall p | n - 2 < p <= |name| && p >= 0 ensures !OccursAt(name, p, "::") {
      if p + 2 <= |name| {
        assert name[p..p + 2][1] == name[p + 1];
      }
    }
    if front != "" {
      assert name[n - 2..n] == [front[n - 2], front[n - 1]];
      assert OccursAt(name, n - 2, "::");
    }
    hide FindLast; hide OccursAt;
    assert name[n..] == last;
  }

  lemma EndIsWord(w: string, i: nat, j: nat, front: string, word: string)
    requires i <= j <= |w| && w[i..j] == front + word && IsNameRun(w, i, j)
    requires forall k :: 0 <= k < |word| ==> IsIdentifierCharacter(word[k])
    requires front != "" ==> !IsIdentifierCharacter(front[|front| - 1])
    ensures |word| <= j && w[j - |word|..j] == word && IsWord(w, j - |word|, j)
  {
    hide IsNameCharacter; hide IsIdentifierCharacter;
    var m := i + |front|;
    assert front + word <= w[i..] by {
      assert w[i..][..j - i] == w[i..j];
    }
    BeginsInParts(w, i, front, word);
    forall k | m <= k < j ensures w[k] == word[k - m] {
      assert w[k] == w[m..j][k - m];
    }
    if front != "" {
      assert w[m - 1] == w[i..m][|front| - 1];
    } else if i > 0 {
      NameCharacters(w[i - 1]);
    }
  }

  lemma NameCharacters(c: char)
    ensures IsIdentifierCharacter(c) ==> IsNameCharacter(c)
  {
  }

  /** The part behind the last separator, without its `~`, is the word in front of the parenthesis. */
  lemma UnqualifiedIsWord(w: string, i: nat, j: nat, parts: seq<string>)
    requires i <= j <= |w| && IsNameRun(w, i, j) && IsPath(parts) && Joined(parts) == w[i..j]
    requires Find(w[i..j], "operator", 0).None?
    ensures var word := WithoutTilde(UnqualifiedName(w[i..j]));
            |word| <= j && w[j - |word|..j] == word && IsWord(w, j - |word|, j)
  {
    hide Find; hide FindLast; hide UnqualifiedName; hide IsNameRun; hide IsPart;
    var last := parts[|parts| - 1];
    PathIsPart(parts);
    var front := LastPart(parts);
    UnqualifiedIsLast(front, last);
    var word := WithoutTilde(last);
    if word == last {
      EndIsWord(w, i, j, front, word);
    } else {
      assert front + last == (front + "~") + word;
      EndIsWord(w, i, j, front + "~", word);
    }
  }

  lemma PathIsPart(parts: seq<string>)
    requires IsPath(parts)
    ensures parts != []
    ensures forall i :: 0 <= i < |parts| ==> IsPart(parts[i]) || (i == |parts| - 1 && parts[i] == "")
    ensures var last := parts[|parts| - 1]; forall k :: 0 <= k < |last| ==> last[k] != ':'
    ensures var word := WithoutTilde(parts[|parts| - 1]);
            forall k :: 0 <= k < |word| ==> IsIdentifierCharacter(word[k])
  {
    var last := parts[|parts| - 1];
    PartIsValid(last);
  }

  lemma NameIsAllowed(w: string, o: nat, i: nat, j: nat)
    requires IsNameBefore(w, o, i, j) && i <= j <= |w| && IsFunctionName(w[i..j])
    ensures w[i..j] != "" && !IsRejectedFunctionName(WithoutTilde(UnqualifiedName(w[i..j])))
  {
    hide IsRejectedFunctionName; hide WithoutTilde; hide IsPart; hide UnqualifiedName; hide EndsBefore;
    hide IsOperatorText; hide Find;
    var name := w[i..j];
    if Find(name, "operator", 0).Some? {
      OperatorIsAllowed(name);
    } else {
      OperatorIsFound(name);
      var parts :| IsPath(parts) && Joined(parts) == name;
      PathIsNotEmpty(parts);
      NoOperatorIsPlain(w, o, i, j);
      UnqualifiedIsWord(w, i, j, parts);
      var word := WithoutTilde(UnqualifiedName(name));
      assert IsWord(w, j - |word|, j);
    }
  }

  lemma PathIsNotEmpty(parts: seq<string>)
    requires IsPath(parts)
    ensures parts != [] && Joined(parts) != ""
  {
    PartIsValid(parts[0]);
  }

  lemma OperatorIsFound(name: string)
    ensures IsOperatorName(name) ==> Find(name, "operator", 0).Some?
  {
    hide Find; hide IsPathName;
    if q: nat, at: nat :| IsOperatorAt(name, q, at) {
      FirstOperator(name, at);
    }
  }

  lemma OperatorIsAllowed(name: string)
    requires Find(name, "operator", 0).Some?
    ensures name != "" && !IsRejectedFunctionName(WithoutTilde(UnqualifiedName(name)))
  {
    var at := Find(name, "operator", 0).value;
    assert name[at..][0] == name[at..at + 8][0] == 'o';
  }

  /** A name without `operator` in it does not come from an operator word. */
  lemma NoOperatorIsPlain(w: string, o: nat, i: nat, j: nat)
    requires IsNameBefore(w, o, i, j) && i <= j <= |w| && Find(w[i..j], "operator", 0).None?
    ensures IsPlainName(w, i, j)
  {
    hide Find; hide IsQualification; hide EndsBefore; hide EndsRejected; hide IsPlainName;
    if at: nat, links :| IsOperatorText(w, i, j, at, links) {
      OperatorIsInside(w, i, j, at, links);
    }
  }

  lemma OperatorIsInside(w: string, i: nat, j: nat, at: nat, links: seq<Link>)
    requires IsOperatorText(w, i, j, at, links) && i <= j <= |w|
    ensures Find(w[i..j], "operator", 0).Some?
  {
    hide Find; hide IsUnqualified;
    OperatorFits(w, j, at);
    SliceOfSlice(w, i, j, at - i, at - i + 8);
    assert OccursAt(w[i..j], at - i, "operator");
  }

  /** The search accepts a pair of parentheses exactly when it belongs to a function, and
      gives the function's name. */
  lemma AcceptsIsHead(w: string, c: nat, o: nat, limit: nat)
    requires o <= c < limit <= |w| && w[c] == ')' && CutsAt(w, limit)
    ensures AcceptsFunction(w, c, o, limit) <==> Heads(w, limit, o, c, FunctionName(w, o))
    ensures forall name :: Heads(w, limit, o, c, name) ==> name == FunctionName(w, o)
  {
    hide IsRejectedFunctionName; hide WithoutTilde; hide UnqualifiedName; hide IsNameBefore; hide IsSupportedSuffix;
    hide FunctionName; hide IsPlainSuffix; hide IsValidQualifiedName; hide IsValidOperatorName; hide CutsAt;
    hide IsPathName; hide IsOperatorName;
    var name := FunctionName(w, o);
    SuffixIsPlain(w, c, limit);
    QualifiedIsPath(name);
    OperatorIsForm(name);
    if AcceptsFunction(w, c, o, limit) {
      AcceptedIsNotRejected(w, o);
      var i, j := ExtractedIsName(w, o);
      NameIsExtracted(w, o, i, j);
      assert HeadsAt(w, limit, o, c, i, j);
    }
    forall i: nat, j: nat | HeadsAt(w, limit, o, c, i, j)
      ensures w[i..j] == name && name != "" && !IsRejectedFunctionName(WithoutTilde(UnqualifiedName(name))) {
      NameIsExtracted(w, o, i, j);
      NameIsAllowed(w, o, i, j);
    }
  }

  lemma AcceptedIsNotRejected(w: string, o: nat)
    requires o <= |w| && !IsRejectedFunctionName(WithoutTilde(UnqualifiedName(FunctionName(w, o))))
    ensures !EndsRejected(w, SkipBackward(w, o))
  {
    hide WithoutTilde; hide UnqualifiedName; hide SkipBackward; hide WordStart; hide EndsRejected;
    hide IsRejectedFunctionName;
    var j := SkipBackward(w, o);
    NotRejected(w, j);
    var direct := w[WordStart(w, j)..j];
    if IsRejectedFunctionName(direct) {
      RejectedIsItself(direct);
    }
  }

  // ------------------------------------------------------------------
  // Where a function starts
  // ------------------------------------------------------------------

  predicate EndsAfter(w: string, e: nat, t: string) {
    e >= |t| && IsAt(w, e - |t|, t)
  }

  predicate EndsLabel(w: string, e: nat) {
    EndsAfter(w, e, "public:") || EndsAfter(w, e, "protected:") || EndsAfter(w, e, "private:")
  }

  /** Behind the last access specifier before `o`. */
  predicate IsAfterLabels(w: string, o: nat, s: nat) {
    s <= o <= |w| && (s == 0 || EndsLabel(w, s)) && forall e :: s < e <= o ==> !EndsLabel(w, e)
  }

  predicate StartsFrom(w: string, o: nat, s: nat, start: nat) {
    IsAfterLabels(w, o, s) && s <= start <= o && Blank(w, s, start) && (start < o ==> !IsSpace(w[start]))
  }

  ghost predicate StartsAt(w: string, o: nat, start: nat) {
    exists s: nat :: StartsFrom(w, o, s, start)
  }

  ghost predicate IsFriend(w: string, o: nat) {
    exists p: nat :: p < o && p + 6 <= o && IsWholeWord(w, p, "friend")
  }

  lemma AfterSpecifierIs(w: string, o: nat, t: string)
    requires o <= |w| && t != ""
    ensures var r := AfterSpecifier(w[..o], t);
            r <= o && (r == 0 || EndsAfter(w, r, t)) && forall e :: r < e <= o ==> !EndsAfter(w, e, t)
  {
    hide FindLast;
    forall p: nat | p + |t| <= o ensures OccursAt(w[..o], p, t) <==> IsAt(w, p, t) {
      assert w[..o][p..p + |t|] == w[p..p + |t|];
    }
    var r := AfterSpecifier(w[..o], t);
    forall e | r < e <= o ensures !EndsAfter(w, e, t) {
      assert e >= |t| ==> !OccursAt(w[..o], e - |t|, t);
    }
  }

  lemma FunctionStarts(w: string, o: nat)
    requires o <= |w|
    ensures StartsAt(w, o, FunctionStart(w, o))
  {
    hide AfterSpecifier; hide EndsAfter;
    AfterSpecifierIs(w, o, "public:");
    AfterSpecifierIs(w, o, "protected:");
    AfterSpecifierIs(w, o, "private:");
    var a, b, c := AfterSpecifier(w[..o], "public:"), AfterSpecifier(w[..o], "protected:"),
                   AfterSpecifier(w[..o], "private:");
    assert StartsFrom(w, o, Max(Max(a, b), c), FunctionStart(w, o));
  }

  lemma FriendIs(w: string, o: nat)
    requires o <= |w|
    ensures LastToken(w, o, "friend").Some? <==> IsFriend(w, o)
  {
    hide LastTokenFrom;
    forall p: nat ensures IsTokenAt(w, p, "friend") <==> IsWholeWord(w, p, "friend") {
      OccursIsAt(w, p, "friend");
    }
    hide IsTokenAt; hide IsWholeWord;
  }

  lemma StartIsUnique(w: string, o: nat, a: nat, b: nat)
    requires StartsAt(w, o, a) && StartsAt(w, o, b)
    ensures a == b
  {
    hide EndsLabel;
    var s: nat :| StartsFrom(w, o, s, a);
    var t: nat :| StartsFrom(w, o, t, b);
    assert s == t;
  }

  // ------------------------------------------------------------------
  // The rightmost outermost parentheses that belong to a function
  // ------------------------------------------------------------------

  /** `partner` gives the opening parenthesis of a closing one; a pair has only pairs inside. */
  ghost predicate IsPartnerTable(w: string, partner: seq<int>) {
    |partner| == |w| &&
    (forall c :: 0 <= c < |w| && partner[c] != NO_OFFSET ==>
       0 <= partner[c] < c && w[c] == ')' && w[partner[c]] == '(') &&
    (forall b, c :: 0 <= b < c < |w| && partner[c] != NO_OFFSET && partner[c] < b && w[b] == ')' ==>
       partner[b] > partner[c])
  }

  /** A pair that ends before `limit` and lies in no other such pair. */
  ghost predicate IsOutermost(partner: seq<int>, limit: nat, c: nat) {
    c < limit <= |partner| && partner[c] != NO_OFFSET &&
    forall d :: c < d < limit && partner[d] != NO_OFFSET ==> c < partner[d]
  }

  ghost predicate IsHead(w: string, partner: seq<int>, limit: nat, c: nat) {
    IsOutermost(partner, limit, c) && partner[c] >= 0 && exists name :: Heads(w, limit, partner[c], c, name)
  }

  /** What is found when the pair that ends at `c` is the parameter list. */
  ghost predicate Describes(w: string, partner: seq<int>, limit: nat, c: nat, h: FunctionHead) {
    IsOutermost(partner, limit, c) && partner[c] >= 0 && Heads(w, limit, partner[c], c, h.name) &&
    StartsAt(w, partner[c], h.start) && (h.isFriend <==> IsFriend(w, partner[c]))
  }

  ghost predicate IsDeclared(w: string, partner: seq<int>, limit: nat, c: nat, h: FunctionHead) {
    Describes(w, partner, limit, c, h) && forall d: nat :: c < d ==> !IsHead(w, partner, limit, d)
  }

  /** No pair reaches over `search`. */
  ghost predicate IsBetweenPairs(partner: seq<int>, limit: nat, search: nat) {
    limit <= |partner| && forall c :: search <= c < limit && partner[c] != NO_OFFSET ==> search <= partner[c]
  }

  ghost predicate NoParenthesis(w: string, from: nat, to: nat) {
    to <= |w| && forall k :: from <= k < to ==> w[k] != ')'
  }

  lemma LastClosing(w: string, search: nat)
    requires 0 < search <= |w|
    ensures var found := FindLast(w, ")", search - 1);
            if found.None? then NoParenthesis(w, 0, search)
            else found.value < search && w[found.value] == ')' && NoParenthesis(w, found.value + 1, search)
  {
    hide FindLast;
    forall k | 0 <= k < search ensures OccursAt(w, k, ")") <==> w[k] == ')' {
      assert w[k..k + 1] == [w[k]];
    }
    hide OccursAt;
    var found := FindLast(w, ")", search - 1);
  }

  lemma ClosingIsOutermost(w: string, partner: seq<int>, limit: nat, search: nat, c: nat)
    requires IsPartnerTable(w, partner) && IsBetweenPairs(partner, limit, search) && c < search <= limit
    requires NoParenthesis(w, c + 1, search)
    ensures partner[c] != NO_OFFSET ==> IsOutermost(partner, limit, c) && IsBetweenPairs(partner, limit, partner[c])
    ensures partner[c] == NO_OFFSET ==> IsBetweenPairs(partner, limit, c)
    ensures forall d: nat :: c < d < search ==> !IsOutermost(partner, limit, d)
    ensures partner[c] != NO_OFFSET ==> forall d: nat :: partner[c] <= d < c ==> !IsOutermost(partner, limit, d)
  {
    if partner[c] != NO_OFFSET {
      forall d | partner[c] <= d < limit && partner[d] != NO_OFFSET ensures partner[c] <= partner[d] {
        if d < c {
          assert w[d] == ')';
        }
      }
    }
  }

  ghost predicate NoHeadFrom(w: string, partner: seq<int>, limit: nat, from: nat) {
    forall d: nat :: from <= d ==> !IsHead(w, partner, limit, d)
  }

  lemma {:induction false} SearchFinds(w: string, partner: seq<int>, limit: nat, search: nat) returns (c: nat)
    requires IsPartnerTable(w, partner) && PartnersOk(w, partner) && CutsAt(w, limit) && search <= limit
    requires IsBetweenPairs(partner, limit, search) && NoHeadFrom(w, partner, limit, search)
    ensures var r := SearchFunction(w, partner, limit, search);
            if r.None? then NoHeadFrom(w, partner, limit, 0) else IsDeclared(w, partner, limit, c, r.value)
    decreases search
  {
    hide FindLast; hide AcceptsFunction; hide FunctionName; hide FunctionStart; hide LastToken; hide Heads; hide CutsAt;
    hide IsPartnerTable; hide StartsAt; hide IsFriend; hide IsOutermost; hide IsBetweenPairs; hide PartnersOk;
    c := 0;
    CutFits(w, limit);
    if search > 0 {
      LastClosing(w, search);
      var found := FindLast(w, ")", search - 1);
      if found.None? {
        NoneLeft(w, partner, limit, search);
      } else {
        c := found.value;
        PartnerFits(w, partner, c);
        var o := partner[c];
        ClosingIsOutermost(w, partner, limit, search, c);
        if o == NO_OFFSET {
          Unpaired(w, partner, limit, search, c);
          c := SearchFinds(w, partner, limit, c);
        } else {
          AcceptsIsHead(w, c, o, limit);
          if AcceptsFunction(w, c, o, limit) {
            FunctionStarts(w, o);
            FriendIs(w, o);
          } else {
            c := SearchFinds(w, partner, limit, o);
          }
        }
      }
    }
  }

  lemma PartnerFits(w: string, partner: seq<int>, c: nat)
    requires IsPartnerTable(w, partner) && c < |w|
    ensures |partner| == |w| && (partner[c] == NO_OFFSET || 0 <= partner[c] < c)
  {
  }

  lemma NoneLeft(w: string, partner: seq<int>, limit: nat, search: nat)
    requires IsPartnerTable(w, partner) && search <= limit <= |w| && NoParenthesis(w, 0, search)
    ensures forall d: nat :: d < search ==> !IsOutermost(partner, limit, d)
  {
  }

  lemma Unpaired(w: string, partner: seq<int>, limit: nat, search: nat, c: nat)
    requires |partner| == |w| && c < |w| && partner[c] == NO_OFFSET
    ensures !IsOutermost(partner, limit, c)
  {
  }

  lemma PartnersAreOk(w: string, partner: seq<int>)
    requires IsPartnerTable(w, partner)
    ensures PartnersOk(w, partner)
  {
  }

  /** The search finds a function exactly when the declaration, up to its initializer list, has
      outermost parentheses that belong to one; the rightmost of them give its name and start. */
  lemma FunctionIsFound(w: string, partner: seq<int>, limit: nat, h: FunctionHead)
    requires IsPartnerTable(w, partner) && PartnersOk(w, partner) && CutsAt(w, limit)
    ensures FindFunction(w, partner) == Some(h) <==> exists c: nat :: IsDeclared(w, partner, limit, c, h)
    ensures FindFunction(w, partner).None? <==> forall c: nat :: !IsHead(w, partner, limit, c)
  {
    hide SearchFunction; hide IsPartnerTable; hide Heads; hide CutsAt; hide StartsAt; hide IsFriend; hide PartnersOk;
    ColonCuts(w, limit);
    TableFits(w, partner);
    LimitFits(w, limit, partner);
    var c := SearchFinds(w, partner, limit, limit);
    var r := FindFunction(w, partner);
    forall d: nat, g: FunctionHead | IsDeclared(w, partner, limit, d, g) ensures r.Some? && r.value == g {
      assert IsHead(w, partner, limit, d);
      SameHead(w, partner, limit, c, r.value, d, g);
    }
    if r.Some? {
      assert IsHead(w, partner, limit, c);
    }
  }

  ghost predicate DeclaresFunction(w: string, partner: seq<int>, h: FunctionHead) {
    exists limit: nat, c: nat :: CutsAt(w, limit) && IsDeclared(w, partner, limit, c, h)
  }

  /** The same, with the cut left out: every text is cut somewhere, and only there. */
  lemma DeclaredIsFound(w: string, partner: seq<int>, h: FunctionHead)
    requires IsPartnerTable(w, partner) && PartnersOk(w, partner)
    ensures FindFunction(w, partner) == Some(h) <==> DeclaresFunction(w, partner, h)
  {
    hide CutsAt; hide IsDeclared; hide FindFunction; hide IsPartnerTable; hide IsHead; hide PartnersOk;
    var limit := InitializerColon(w, 0);
    ColonCuts(w, limit);
    forall l: nat | CutsAt(w, l) ensures l == limit {
      ColonCuts(w, l);
    }
    FunctionIsFound(w, partner, limit, h);
  }

  lemma LimitFits(w: string, limit: nat, partner: seq<int>)
    requires CutsAt(w, limit) && |partner| == |w|
    ensures limit <= |w| && IsBetweenPairs(partner, limit, limit) && NoHeadFrom(w, partner, limit, limit)
  {
  }

  lemma SameHead(w: string, partner: seq<int>, limit: nat, c: nat, h: FunctionHead, d: nat, g: FunctionHead)
    requires CutsAt(w, limit) && IsPartnerTable(w, partner)
    requires IsDeclared(w, partner, limit, c, h) && IsDeclared(w, partner, limit, d, g)
    ensures h == g
  {
    hide Heads; hide StartsAt; hide IsFriend; hide CutsAt;
    assert IsHead(w, partner, limit, c) && IsHead(w, partner, limit, d);
    assert c == d;
    CutFits(w, limit);
    AcceptsIsHead(w, c, partner[c], limit);
    StartIsUnique(w, partner[c], h.start, g.start);
  }

  lemma TableFits(w: string, partner: seq<int>)
    requires IsPartnerTable(w, partner)
    ensures |partner| == |w|
  {
  }

  lemma CutFits(w: string, limit: nat)
    requires CutsAt(w, limit)
    ensures limit <= |w|
  {
  }

  // ------------------------------------------------------------------
  // Declarations in parts
  // ------------------------------------------------------------------

  lemma {:induction false} PathIsNameText(parts: seq<string>)
    requires parts != []
    requires forall i :: 0 <= i < |parts| ==> IsPart(parts[i]) || (i == |parts| - 1 && parts[i] == "")
    ensures forall k :: 0 <= k < |Joined(parts)| ==> IsNameCharacter(Joined(parts)[k])
    decreases |parts|
  {
    forall k | 0 <= k < |parts[0]| ensures IsNameCharacter(parts[0][k]) {
    }
    hide IsPart; hide IsNameCharacter;
    ColonIsNameCharacter();
    if |parts| > 1 {
      PathIsNameText(parts[1..]);
    }
  }

  lemma ColonIsNameCharacter()
    ensures IsNameCharacter(':') && forall c :: IsNameCharacter(c) ==> !IsSpace(c)
  {
  }

  /** A declaration cut into the text before the function's name, the name, blanks, a parameter
      list, a suffix without parentheses, and the initializer list, if there is one. */
  datatype Signature = Signature(
    front: string, name: string, gap: string, parameters: string, suffix: string, initializers: string)

  function BeforeParameters(d: Signature): string {
    d.front + d.name + d.gap
  }

  function Declared(d: Signature): string {
    BeforeParameters(d) + "(" + d.parameters + ")" + d.suffix + d.initializers
  }

  lemma SignatureSlices(d: Signature)
    ensures var w, i, o := Declared(d), |d.front|, |BeforeParameters(d)|;
            var j, c := i + |d.name|, o + 1 + |d.parameters|;
            j + |d.gap| == o && c + 1 + |d.suffix| + |d.initializers| == |w| && w[i..j] == d.name &&
            w[j..o] == d.gap && w[c] == ')' && w[c + 1..|w| - |d.initializers|] == d.suffix &&
            (i > 0 ==> w[i - 1] == d.front[i - 1])
  {
    var w, before := Declared(d), BeforeParameters(d);
    assert w[0..] == w;
    BeginsInParts(w, 0, before + "(" + d.parameters + ")" + d.suffix, d.initializers);
    BeginsInParts(w, 0, before + "(" + d.parameters + ")", d.suffix);
    BeginsInParts(w, 0, before + "(" + d.parameters, ")");
    BeginsInParts(w, 0, before + "(", d.parameters);
    BeginsInParts(w, 0, before, "(");
    BeginsInParts(w, 0, d.front + d.name, d.gap);
    BeginsInParts(w, 0, d.front, d.name);
    var c := |before| + 1 + |d.parameters|;
    assert w[c] == w[c..c + 1][0];
    assert d.front != "" ==> w[|d.front| - 1] == w[0..|d.front|][|d.front| - 1];
  }

  /** The parts fit together: the name is a path that does not end with a rejected word and is not
      preceded by more of it, no `operator` comes before its end, only blanks separate it from its
      parameters, and the suffix is a plain one. */
  ghost predicate IsSignature(d: Signature) {
    var w, limit := Declared(d), |Declared(d)| - |d.initializers|;
    var j := |d.front| + |d.name|;
    IsPathName(d.name) && !EndsRejected(w, j) &&
    (d.front != "" ==> !IsNameCharacter(d.front[|d.front| - 1])) &&
    (forall p :: 0 <= p < j ==> !IsOperatorWord(w, p, j)) && Blank(d.gap, 0, |d.gap|) &&
    (forall k :: 0 <= k < |d.suffix| ==> d.suffix[k] !in ";={}()") && CutsAt(w, limit) &&
    forall k :: limit - |d.suffix| <= k < limit ==> !IsLoneColon(w, k)
  }

  lemma SignatureHeads(d: Signature)
    requires IsSignature(d)
    ensures var w, o := Declared(d), |BeforeParameters(d)|;
            HeadsAt(w, |w| - |d.initializers|, o, o + 1 + |d.parameters|, |d.front|, |d.front| + |d.name|)
  {
    hide IsOperatorWord; hide EndsRejected; hide CutsAt; hide Declared; hide BeforeParameters; hide IsLoneColon;
    var w, i, o := Declared(d), |d.front|, |BeforeParameters(d)|;
    var j, c := i + |d.name|, o + 1 + |d.parameters|;
    var limit := |w| - |d.initializers|;
    SignatureSlices(d);
    var parts :| IsPath(parts) && Joined(parts) == d.name;
    PathIsPart(parts);
    PathIsNotEmpty(parts);
    PathIsNameText(parts);
    hide IsPath; hide IsNameCharacter;
    ColonIsNameCharacter();
    forall k | i <= k < j ensures IsNameCharacter(w[k]) {
      assert w[k] == w[i..j][k - i];
    }
    SliceIsBlank(w, j, o);
    assert IsPlainName(w, i, j);
    forall k | c + 1 <= k < limit ensures w[k] !in ";={}()" {
      assert w[k] == w[c + 1..limit][k - c - 1];
    }
  }

  /** Such a declaration declares the function with exactly that name. */
  lemma SignatureIsFound(d: Signature, partner: seq<int>)
    requires IsSignature(d)
    requires IsPartnerTable(Declared(d), partner) && PartnersOk(Declared(d), partner)
    requires var o := |BeforeParameters(d)|; partner[o + 1 + |d.parameters|] == o
    ensures FindFunction(Declared(d), partner).Some? && FindFunction(Declared(d), partner).value.name == d.name
  {
    hide HeadsAt; hide StartsAt; hide IsFriend; hide FindFunction; hide FunctionStart; hide EndsRejected;
    hide IsOperatorWord; hide IsPathName; hide CutsAt; hide Declared; hide BeforeParameters;
    var w, o := Declared(d), |BeforeParameters(d)|;
    var c, limit := o + 1 + |d.parameters|, |w| - |d.initializers|;
    SignatureSlices(d);
    SignatureHeads(d);
    FunctionStarts(w, o);
    var h := FunctionHead(d.name, FunctionStart(w, o), IsFriend(w, o));
    assert Heads(w, limit, o, c, d.name);
    forall k | c < k < limit ensures partner[k] == NO_OFFSET {
      assert w[k] == w[c + 1..limit][k - c - 1];
    }
    assert IsDeclared(w, partner, limit, c, h);
    FunctionIsFound(w, partner, limit, h);
  }

  const CONSTRUCTOR := Signature(" ", "P", "", "int v", " ", ": x(v) ")

  lemma ConstructorText(w: string)
    requires w == Declared(CONSTRUCTOR)
    ensures w == " P(int v) : x(v) " && |w| == 17 && BeforeParameters(CONSTRUCTOR) == " P"
  {
    assert BeforeParameters(CONSTRUCTOR) == " P";
  }

  lemma ConstructorIsCut(w: string)
    requires w == " P(int v) : x(v) "
    ensures CutsAt(w, 10)
  {
    assert w[8] == ')' && w[9] == ' ' && w[10] == ':' && w[11] == ' ';
    forall i: nat, j: nat ensures !LabelFrom(w, i, j, 10) {
      if Blank(w, j, 10) {
        assert j <= 8 ==> !IsSpace(w[8]);
        assert j == 9 || j == 10;
        assert i < j && IsWord(w, i, j) ==> IsIdentifierCharacter(w[j - 1]);
        assert i >= j && IsWord(w, i, j) ==> w[i..j] == "";
      }
    }
    forall p | 0 <= p < 10 ensures !IsLoneColon(w, p) {
    }
  }

  /** A constructor with a member initializer, as one of many declarations that fit together. */
  lemma ConstructorIsSignature()
    ensures IsSignature(CONSTRUCTOR)
  {
    var w, d := Declared(CONSTRUCTOR), CONSTRUCTOR;
    ConstructorText(w);
    ConstructorIsCut(w);
    assert IsPath(["P"]) && Joined(["P"]) == "P";
    forall k: nat ensures !(IsWord(w, k, 2) && IsRejectedFunctionName(w[k..2])) {
      assert k == 0 ==> !IsIdentifierCharacter(w[0]);
      assert k == 1 ==> w[k..2] == "P";
    }
    assert !IsLoneColon(w, 9);
  }

  predicate IsControlWord(word: string) {
    word == "if" || word == "for" || word == "while" || word == "switch" || word == "catch"
  }

  /** Parentheses behind a control word belong to no function. */
  lemma ControlIsNoHead(w: string, partner: seq<int>, limit: nat, k: nat, j: nat, c: nat)
    requires IsPartnerTable(w, partner) && c < limit <= |w| && partner[c] != NO_OFFSET
    requires IsWord(w, k, j) && IsControlWord(w[k..j]) && Blank(w, j, partner[c])
    ensures !IsHead(w, partner, limit, c)
  {
    var o := partner[c];
    assert w[j - 1] == w[k..j][j - k - 1];
    assert EndsBefore(w, j, o);
    assert IsRejectedFunctionName(w[k..j]);
    hide IsFunctionName; hide IsPlainSuffix; hide IsPartnerTable; hide IsPlainName;
    forall a: nat, b: nat ensures !HeadsAt(w, limit, o, c, a, b) {
      if EndsBefore(w, b, o) {
        BackwardIs(w, b, o);
        BackwardIs(w, j, o);
      }
    }
  }
}
