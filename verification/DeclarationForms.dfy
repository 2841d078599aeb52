/** What a function declaration looks like, said of its text alone; the search through a
    declaration is proved to find exactly that. */
module DeclarationForms {
  import opened Common
  import opened Slices
  import opened Declarations

  predicate Blank(w: string, from: nat, to: nat) {
    from <= to <= |w| && forall k :: from <= k < to ==> IsSpace(w[k])
  }

  /** `w[i..j]` consists of identifier characters, and no identifier character precedes it. */
  predicate IsWord(w: string, i: nat, j: nat) {
    i <= j <= |w| && (forall k :: i <= k < j ==> IsIdentifierCharacter(w[k])) &&
    (i == 0 || !IsIdentifierCharacter(w[i - 1]))
  }

  /** The last visible byte before `p` is the one before `j`. */
  predicate EndsBefore(w: string, j: nat, p: nat) {
    Blank(w, j, p) && (j == 0 || !IsSpace(w[j - 1]))
  }

  lemma {:induction false} BackwardEnds(w: string, p: nat)
    requires p <= |w|
    ensures EndsBefore(w, SkipBackward(w, p), p)
  {
    if p > 0 && IsSpace(w[p - 1]) {
      BackwardEnds(w, p - 1);
    }
  }

  lemma {:induction false} BackwardIs(w: string, j: nat, p: nat)
    requires EndsBefore(w, j, p)
    ensures SkipBackward(w, p) == j
    decreases p
  {
    if j < p {
      BackwardIs(w, j, p - 1);
    }
  }

  lemma {:induction false} WordStarts(w: string, p: nat)
    requires p <= |w|
    ensures IsWord(w, WordStart(w, p), p)
  {
    if p > 0 && IsIdentifierCharacter(w[p - 1]) {
      WordStarts(w, p - 1);
    }
  }

  lemma {:induction false} WordStartIs(w: string, i: nat, p: nat)
    requires IsWord(w, i, p)
    ensures WordStart(w, p) == i
    decreases p
  {
    if i < p {
      WordStartIs(w, i, p - 1);
    }
  }

  // ------------------------------------------------------------------
  // The colon that ends a declaration
  // ------------------------------------------------------------------

  predicate IsLoneColon(w: string, p: nat) {
    p < |w| && w[p] == ':' && (p == 0 || w[p - 1] != ':') && (p + 1 == |w| || w[p + 1] != ':')
  }

  predicate IsAccessWord(word: string) {
    word == "public" || word == "protected" || word == "private"
  }

  predicate LabelFrom(w: string, i: nat, j: nat, p: nat) {
    IsWord(w, i, j) && IsAccessWord(w[i..j]) && Blank(w, j, p)
  }

  /** An access specifier stands in front of `p`. */
  ghost predicate FollowsLabel(w: string, p: nat) {
    exists i: nat, j: nat :: LabelFrom(w, i, j, p)
  }

  /** Everything from the first lone colon on that belongs to no access specifier is an initializer list. */
  ghost predicate CutsAt(w: string, limit: nat) {
    limit <= |w| && (limit < |w| ==> IsLoneColon(w, limit) && !FollowsLabel(w, limit)) &&
    forall p :: 0 <= p < limit && IsLoneColon(w, p) ==> FollowsLabel(w, p)
  }

  lemma LabelIsWord(w: string, p: nat)
    requires p <= |w|
    ensures IsAccessWord(PreviousIdentifier(w, p)) <==> FollowsLabel(w, p)
  {
    hide SkipBackward; hide WordStart;
    var j := SkipBackward(w, p);
    var i := WordStart(w, j);
    BackwardEnds(w, p);
    WordStarts(w, j);
    if IsAccessWord(PreviousIdentifier(w, p)) {
      assert LabelFrom(w, i, j, p);
    }
    if a: nat, b: nat :| LabelFrom(w, a, b, p) {
      assert w[b - 1] == w[a..b][b - a - 1];
      BackwardIs(w, b, p);
      WordStartIs(w, a, b);
    }
  }

  lemma {:induction false} ColonFrom(w: string, p: nat)
    requires p <= |w| && forall q :: 0 <= q < p && IsLoneColon(w, q) ==> FollowsLabel(w, q)
    ensures CutsAt(w, InitializerColon(w, p))
    decreases |w| - p
  {
    hide PreviousIdentifier; hide FollowsLabel;
    if p < |w| {
      LabelIsWord(w, p);
      if !IsInitializerColon(w, p) {
        ColonFrom(w, p + 1);
      }
    }
  }

  /** The declaration is cut at the colon of its initializer list, and nowhere else. */
  lemma ColonCuts(w: string, limit: nat)
    ensures InitializerColon(w, 0) == limit <==> CutsAt(w, limit)
  {
    hide InitializerColon; hide FollowsLabel;
    ColonFrom(w, 0);
    var colon := InitializerColon(w, 0);
    assert CutsAt(w, limit) && limit < |w| ==> colon <= limit;
    assert CutsAt(w, limit) && colon < |w| ==> limit <= colon;
  }

  // ------------------------------------------------------------------
  // Names that functions may have
  // ------------------------------------------------------------------

  predicate IsIdentifier(s: string) {
    s != "" && !('0' <= s[0] <= '9') && forall i :: 0 <= i < |s| ==> IsIdentifierCharacter(s[i])
  }

  predicate IsPart(s: string) {
    IsIdentifier(s) || (s != "" && s[0] == '~' && IsIdentifier(s[1..]))
  }

  function Joined(parts: seq<string>): string
    requires parts != []
  {
    if |parts| == 1 then parts[0] else parts[0] + "::" + Joined(parts[1..])
  }

  /** Identifiers, possibly behind `~`; the name may also end with a separator. */
  predicate IsPath(parts: seq<string>) {
    parts != [] &&
    forall i :: 0 <= i < |parts| ==> IsPart(parts[i]) || (i > 0 && i == |parts| - 1 && parts[i] == "")
  }

  ghost predicate IsPathName(name: string) {
    exists parts :: IsPath(parts) && Joined(parts) == name
  }

  lemma PartIsValid(s: string)
    ensures IsValidIdentifier(WithoutTilde(s)) <==> IsPart(s)
    ensures IsPart(s) ==> s != "" && forall i :: 0 <= i < |s| ==> s[i] != ':'
  {
  }

  lemma JoinsFront(name: string, start: nat, separator: nat, more: seq<string>)
    requires start <= separator && OccursAt(name, separator, "::") && more != []
    requires Joined(more) == name[separator + 2..]
    ensures Joined([name[start..separator]] + more) == name[start..]
  {
    var first := name[start..separator];
    var parts := [first] + more;
    assert parts[0] == first && parts[1..] == more;
    assert name[start..] == first + name[separator..];
    assert name[separator..] == name[separator..separator + 2] + name[separator + 2..];
    assert first + "::" + Joined(more) == first + ("::" + Joined(more));
  }

  lemma {:induction false} ValidPartsJoin(name: string, start: nat) returns (parts: seq<string>)
    requires start <= |name| && ValidParts(name, start)
    ensures parts != [] && Joined(parts) == name[start..]
    ensures forall i :: 0 <= i < |parts| ==> IsPart(parts[i]) || (i == |parts| - 1 && parts[i] == "")
    ensures start < |name| ==> IsPart(parts[0])
    decreases |name| - start
  {
    hide IsPart; hide Find; hide IsValidIdentifier; hide WithoutTilde;
    if start == |name| {
      parts := [""];
    } else {
      var found := Find(name, "::", start);
      if found.None? {
        parts := [name[start..]];
        PartIsValid(parts[0]);
      } else {
        var first := name[start..found.value];
        PartIsValid(first);
        var more := ValidPartsJoin(name, found.value + 2);
        parts := [first] + more;
        JoinsFront(name, start, found.value, more);
      }
    }
  }

  lemma SeparatorFound(name: string, start: nat, first: string)
    requires start + |first| <= |name| && name[start..start + |first|] == first
    requires forall i :: 0 <= i < |first| ==> first[i] != ':'
    ensures OccursAt(name, start + |first|, "::") ==> Find(name, "::", start) == Some(start + |first|)
    ensures start + |first| == |name| ==> Find(name, "::", start) == None
  {
    forall p | start <= p < start + |first| ensures !OccursAt(name, p, "::") {
      assert name[p] == first[p - start];
      assert p + 2 <= |name| ==> name[p..p + 2][0] == name[p];
    }
  }

  lemma {:induction false} JoinedIsValid(name: string, start: nat, parts: seq<string>)
    requires start <= |name| && parts != [] && name[start..] == Joined(parts)
    requires forall i :: 0 <= i < |parts| ==> IsPart(parts[i]) || (i == |parts| - 1 && parts[i] == "")
    ensures ValidParts(name, start)
    decreases |parts|
  {
    hide IsPart; hide Find; hide IsValidIdentifier; hide WithoutTilde;
    if start < |name| {
      var first, n := parts[0], start + |parts[0]|;
      PartIsValid(first);
      if |parts| == 1 {
        assert name[start..n] == first == name[start..];
        SeparatorFound(name, start, first);
      } else {
        assert name[start..] == first + ("::" + Joined(parts[1..]));
        TailInParts(name, start, first, "::" + Joined(parts[1..]));
        TailInParts(name, n, "::", Joined(parts[1..]));
        SeparatorFound(name, start, first);
        JoinedIsValid(name, n + 2, parts[1..]);
      }
    }
  }

  /** Exactly the paths are qualified names. */
  lemma QualifiedIsPath(name: string)
    ensures IsValidQualifiedName(name) <==> IsPathName(name)
  {
    hide ValidParts; hide IsPart;
    if IsValidQualifiedName(name) {
      var parts := ValidPartsJoin(name, 0);
      assert name[0..] == name;
      assert IsPath(parts);
    }
    if parts :| IsPath(parts) && Joined(parts) == name {
      assert name[0..] == name;
      JoinedIsValid(name, 0, parts);
      PartIsValid(parts[0]);
      assert name != "";
    }
  }

  predicate IsAt(s: string, p: nat, pattern: string) {
    p + |pattern| <= |s| && s[p..p + |pattern|] == pattern
  }

  /** A path with its separator, if any, then blanks, then the first `operator` and something behind it. */
  ghost predicate IsOperatorAt(name: string, q: nat, at: nat) {
    IsAt(name, at, "operator") && at + 8 < |name| && (forall p :: 0 <= p < at ==> !IsAt(name, p, "operator")) &&
    (at == 0 || (IsAt(name, q, "::") && Blank(name, q + 2, at) && IsPathName(name[..q])))
  }

  ghost predicate IsOperatorName(name: string) {
    exists q: nat, at: nat :: IsOperatorAt(name, q, at)
  }

  lemma OccursIsAt(s: string, p: nat, pattern: string)
    ensures OccursAt(s, p, pattern) <==> IsAt(s, p, pattern)
  {
  }

  lemma {:induction false} TrimRightIs(s: string, j: nat)
    requires EndsBefore(s, j, |s|)
    ensures TrimRight(s) == s[..j]
    decreases |s|
  {
    if j < |s| {
      var t := s[..|s| - 1];
      TrimRightIs(t, j);
      assert t[..j] == s[..j];
    } else {
      assert s[..j] == s;
    }
  }

  lemma {:induction false} TrimLeftIs(s: string, i: nat)
    requires i <= |s| && (forall k :: 0 <= k < i ==> IsSpace(s[k])) && (i < |s| ==> !IsSpace(s[i]))
    ensures TrimLeft(s) == s[i..]
    decreases |s|
  {
    if i > 0 {
      TrimLeftIs(s[1..], i - 1);
      assert s[1..][i - 1..] == s[i..];
    }
  }

  lemma FirstOperator(name: string, at: nat)
    ensures Find(name, "operator", 0) == Some(at) <==>
            IsAt(name, at, "operator") && forall p :: 0 <= p < at ==> !IsAt(name, p, "operator")
  {
    hide Find;
    var found := Find(name, "operator", 0);
    forall p: nat ensures OccursAt(name, p, "operator") <==> IsAt(name, p, "operator") {
      OccursIsAt(name, p, "operator");
    }
    assert found.Some? && IsAt(name, at, "operator") ==> found.value <= at;
  }

  /** Exactly these are operator names. */
  lemma OperatorIsForm(name: string)
    ensures IsValidOperatorName(name) <==> IsOperatorName(name)
  {
    hide TrimRight; hide IsValidQualifiedName; hide IsPathName; hide Find;
    var found := Find(name, "operator", 0);
    if IsValidOperatorName(name) {
      var at := found.value;
      FirstOperator(name, at);
      if at == 0 {
        assert IsOperatorAt(name, 0, at);
      } else {
        var j := SkipBackward(name[..at], at);
        QualifierTrims(name, at, j);
        QualifiedIsPath(name[..j - 2]);
        assert IsOperatorAt(name, j - 2, at);
      }
    }
    if q: nat, at: nat :| IsOperatorAt(name, q, at) {
      FirstOperator(name, at);
      if at > 0 {
        assert name[q + 1] == name[q..q + 2][1];
        assert EndsBefore(name[..at], q + 2, at);
        BackwardIs(name[..at], q + 2, at);
        QualifierTrims(name, at, q + 2);
        QualifiedIsPath(name[..q]);
      }
    }
  }

  lemma QualifierTrims(name: string, at: nat, j: nat)
    requires at <= |name| && j == SkipBackward(name[..at], at)
    ensures j <= at && Blank(name, j, at)
    ensures TrimRight(name[..at]) == name[..j]
    ensures j >= 2 ==> name[..j][j - 2..] == name[j - 2..j] && name[..j][..j - 2] == name[..j - 2]
  {
    var front := name[..at];
    BackwardEnds(front, at);
    TrimRightIs(front, j);
    assert front[..j] == name[..j];
    forall k | j <= k < at ensures IsSpace(name[k]) {
      assert name[k] == front[k];
    }
  }

  ghost predicate IsFunctionName(name: string) {
    IsPathName(name) || IsOperatorName(name)
  }

  // ------------------------------------------------------------------
  // The name in front of a parenthesis
  // ------------------------------------------------------------------

  /** One step of a qualification: an identifier and a separator, with blanks around it. */
  datatype Link = Link(word: string, before: string, after: string)

  predicate IsLink(l: Link) {
    IsIdentifier(l.word) && Blank(l.before, 0, |l.before|) && Blank(l.after, 0, |l.after|)
  }

  function LinkText(l: Link): string {
    l.word + l.before + "::" + l.after
  }

  function LinksText(links: seq<Link>): string {
    if links == [] then "" else LinksText(links[..|links| - 1]) + LinkText(links[|links| - 1])
  }

  predicate IsNameCharacter(c: char) {
    IsIdentifierCharacter(c) || c == ':' || c == '~'
  }

  predicate IsNameRun(w: string, i: nat, j: nat) {
    i <= j <= |w| && (forall k :: i <= k < j ==> IsNameCharacter(w[k])) && (i == 0 || !IsNameCharacter(w[i - 1]))
  }

  predicate IsWholeWord(w: string, p: nat, word: string) {
    IsAt(w, p, word) && (p == 0 || !IsIdentifierCharacter(w[p - 1])) &&
    (p + |word| == |w| || !IsIdentifierCharacter(w[p + |word|]))
  }

  predicate IsOperatorWord(w: string, p: nat, j: nat) {
    p + 8 <= j && IsWholeWord(w, p, "operator")
  }

  predicate IsLastOperator(w: string, j: nat, at: nat) {
    IsOperatorWord(w, at, j) && forall p :: at < p < j ==> !IsOperatorWord(w, p, j)
  }

  /** Nothing in front of `i` could continue a qualification to the left. */
  ghost predicate IsUnqualified(w: string, i: nat) {
    forall b: nat :: EndsBefore(w, b, i) ==> !(b >= 2 && IsAt(w, b - 2, "::"))
  }

  ghost predicate IsQualification(w: string, i: nat, at: nat, links: seq<Link>) {
    i <= at <= |w| && w[i..at] == LinksText(links) && (forall k :: 0 <= k < |links| ==> IsLink(links[k])) &&
    IsUnqualified(w, i) && (links != [] && i > 0 ==> !IsIdentifierCharacter(w[i - 1]))
  }

  ghost predicate EndsRejected(w: string, j: nat) {
    exists k: nat :: IsWord(w, k, j) && IsRejectedFunctionName(w[k..j])
  }

  ghost predicate IsPlainName(w: string, i: nat, j: nat) {
    (forall p :: 0 <= p < j ==> !IsOperatorWord(w, p, j)) && IsNameRun(w, i, j)
  }

  ghost predicate IsOperatorText(w: string, i: nat, j: nat, at: nat, links: seq<Link>) {
    IsLastOperator(w, j, at) && IsQualification(w, i, at, links)
  }

  /** `w[i..j]` is the name in front of the parenthesis at `o`. */
  ghost predicate IsNameBefore(w: string, o: nat, i: nat, j: nat) {
    EndsBefore(w, j, o) && !EndsRejected(w, j) &&
    (IsPlainName(w, i, j) || exists at, links :: IsOperatorText(w, i, j, at, links))
  }

  lemma {:induction false} NameStarts(w: string, p: nat)
    requires p <= |w|
    ensures IsNameRun(w, NameStart(w, p), p)
  {
    if p > 0 && IsNameCharacter(w[p - 1]) {
      NameStarts(w, p - 1);
    }
  }

  lemma {:induction false} NameStartIs(w: string, i: nat, p: nat)
    requires IsNameRun(w, i, p)
    ensures NameStart(w, p) == i
    decreases p
  {
    if i < p {
      NameStartIs(w, i, p - 1);
    }
  }

  lemma LastWordIs(w: string, j: nat)
    requires j <= |w|
    ensures var last := LastToken(w, j, "operator");
            if last.Some? then last.value < j && IsLastOperator(w, j, last.value)
            else forall p :: 0 <= p < j ==> !IsOperatorWord(w, p, j)
  {
    hide LastTokenFrom;
    forall p: nat ensures IsTokenAt(w, p, "operator") <==> IsWholeWord(w, p, "operator") {
      OccursIsAt(w, p, "operator");
    }
    hide IsTokenAt; hide IsWholeWord;
  }

  lemma LinkSlices(w: string, p: nat, l: Link)
    requires p + |LinkText(l)| <= |w| && w[p..p + |LinkText(l)|] == LinkText(l)
    ensures var a := p + |l.word|;
            var b := a + |l.before| + 2;
            b + |l.after| == p + |LinkText(l)| && w[p..a] == l.word && w[a..b - 2] == l.before &&
            w[b - 2..b] == "::" && w[b..b + |l.after|] == l.after
  {
    assert LinkText(l) <= w[p..] by {
      assert w[p..][..|LinkText(l)|] == w[p..p + |LinkText(l)|];
    }
    BeginsInParts(w, p, l.word + l.before + "::", l.after);
    BeginsInParts(w, p, l.word + l.before, "::");
    BeginsInParts(w, p, l.word, l.before);
  }

  lemma SliceIsBlank(w: string, a: nat, b: nat)
    requires a <= b <= |w| && Blank(w[a..b], 0, b - a)
    ensures Blank(w, a, b)
  {
    assert forall k :: a <= k < b ==> w[k] == w[a..b][k - a];
  }

  lemma SliceIsWord(w: string, a: nat, b: nat)
    requires a <= b <= |w| && IsIdentifier(w[a..b]) && (a > 0 ==> !IsIdentifierCharacter(w[a - 1]))
    ensures IsWord(w, a, b) && a < b && IsIdentifierStart(w[a]) && IsIdentifierCharacter(w[b - 1])
  {
    assert forall k :: a <= k < b ==> w[k] == w[a..b][k - a];
  }

  lemma LinkSplits(w: string, p: nat, l: Link)
    requires p + |LinkText(l)| <= |w| && w[p..p + |LinkText(l)|] == LinkText(l) && IsLink(l)
    requires p > 0 ==> !IsIdentifierCharacter(w[p - 1])
    ensures var a := p + |l.word|;
            var b := a + |l.before| + 2;
            IsWord(w, p, a) && p < a && IsIdentifierStart(w[p]) && EndsBefore(w, a, b - 2) &&
            w[b - 2] == ':' && w[b - 1] == ':' && EndsBefore(w, b, b + |l.after|)
  {
    hide LinkText; hide IsIdentifier; hide Blank; hide IsWord;
    var a := p + |l.word|;
    var b := a + |l.before| + 2;
    LinkSlices(w, p, l);
    SliceIsWord(w, p, a);
    SliceIsBlank(w, a, b - 2);
    SliceIsBlank(w, b, b + |l.after|);
    assert w[b - 2] == w[b - 2..b][0] && w[b - 1] == w[b - 2..b][1];
  }

  lemma LinkEnds(w: string, i: nat, links: seq<Link>)
    requires i + |LinksText(links)| <= |w| && w[i..i + |LinksText(links)|] == LinksText(links) && links != []
    requires forall k :: 0 <= k < |links| ==> IsLink(links[k])
    ensures i + |LinksText(links)| > 0 && !IsIdentifierCharacter(w[i + |LinksText(links)| - 1])
  {
    var t, l := LinksText(links), links[|links| - 1];
    assert w[i + |t| - 1] == t[|t| - 1] == LinkText(l)[|LinkText(l)| - 1];
    if l.after != "" {
      assert LinkText(l)[|LinkText(l)| - 1] == l.after[|l.after| - 1];
    }
  }

  lemma WalkEnds(w: string, i: nat)
    requires i <= |w| && IsUnqualified(w, i)
    ensures QualifierStart(w, i) == SkipBackward(w, i)
  {
    hide SkipBackward;
    BackwardEnds(w, i);
    var b := SkipBackward(w, i);
    assert b >= 2 ==> w[b - 2..b] == [w[b - 2], w[b - 1]];
  }

  lemma WalkStep(w: string, p: nat, a: nat, b: nat, at: nat)
    requires IsWord(w, p, a) && p < a && IsIdentifierStart(w[p]) && a + 2 <= b && EndsBefore(w, a, b - 2)
    requires EndsBefore(w, b, at) && w[b - 2] == ':' && w[b - 1] == ':'
    ensures QualifierStart(w, at) == QualifierStart(w, p)
  {
    BackwardIs(w, b, at);
    BackwardIs(w, a, b - 2);
    WordStartIs(w, p, a);
    hide SkipBackward; hide WordStart;
  }

  lemma NoLinkIs(w: string, i: nat, at: nat)
    requires IsQualification(w, i, at, [])
    ensures i == at <= |w| && IsUnqualified(w, i)
  {
    hide IsUnqualified;
    assert |w[i..at]| == 0;
  }

  lemma CutLink(w: string, i: nat, at: nat, links: seq<Link>)
    requires IsQualification(w, i, at, links) && links != []
    ensures var init, l := links[..|links| - 1], links[|links| - 1];
            var p := i + |LinksText(init)|;
            p <= at <= |w| && IsQualification(w, i, p, init) && IsLink(l) && w[p..at] == LinkText(l) &&
            (p > 0 ==> !IsIdentifierCharacter(w[p - 1]))
  {
    hide LinkText; hide IsLink; hide IsUnqualified;
    var n := |links| - 1;
    var init, l := links[..n], links[n];
    assert LinksText(init) + LinkText(l) <= w[i..] by {
      assert w[i..][..at - i] == w[i..at];
    }
    BeginsInParts(w, i, LinksText(init), LinkText(l));
    if init != [] {
      LinkEnds(w, i, init);
    }
  }

  /** A qualification is walked back to its beginning. */
  lemma {:induction false} WalksBack(w: string, i: nat, at: nat, links: seq<Link>)
    requires IsQualification(w, i, at, links)
    ensures QualifierStart(w, at) == SkipBackward(w, i)
    decreases |links|
  {
    hide LinkText; hide IsLink; hide SkipBackward; hide QualifierStart; hide IsUnqualified; hide EndsBefore;
    hide IsWord;
    hide IsQualification; hide LinksText;
    if links == [] {
      NoLinkIs(w, i, at);
      WalkEnds(w, i);
    } else {
      var init, l := links[..|links| - 1], links[|links| - 1];
      var p := i + |LinksText(init)|;
      CutLink(w, i, at, links);
      LinkSize(l);
      LinkSplits(w, p, l);
      var a := p + |l.word|;
      WalkStep(w, p, a, a + |l.before| + 2, at);
      WalksBack(w, i, p, init);
    }
  }

  lemma LinkSize(l: Link)
    ensures |LinkText(l)| == |l.word| + |l.before| + 2 + |l.after|
  {
  }

  /** The walk back covers a qualification, unless a separator has no identifier in front of it. */
  lemma {:induction false} WalkIs(w: string, at: nat) returns (whole: bool, i: nat, links: seq<Link>)
    requires at <= |w|
    ensures whole ==> IsQualification(w, i, at, links) && QualifierStart(w, at) == SkipBackward(w, i)
    ensures !whole ==> QualifierStart(w, at) <= i <= at - 2 && Blank(w, QualifierStart(w, at), i) && w[i] == ':'
    decreases at
  {
    hide LinkText; hide SkipBackward; hide WordStart; hide LinksText; hide IsLink; hide IsQualification; hide IsWord;
    links := [];
    var begin := SkipBackward(w, at);
    BackwardEnds(w, at);
    if begin >= 2 && w[begin - 1] == ':' && w[begin - 2] == ':' {
      var before := SkipBackward(w, begin - 2);
      BackwardEnds(w, begin - 2);
      var word := WordStart(w, before);
      WordStarts(w, before);
      if word == before || !IsIdentifierStart(w[word]) {
        whole, i := false, begin - 2;
      } else {
        whole, i, links := WalkIs(w, word);
        if whole {
          var l := Link(w[word..before], w[before..begin - 2], w[begin..at]);
          LinkIs(w, word, before, begin, at);
          WordIsBounded(w, word, before);
          AddLink(w, i, word, at, links, l);
          links := links + [l];
        }
      }
    } else {
      whole, i := true, at;
      NoLinks(w, at, begin);
    }
  }

  lemma WordIsBounded(w: string, i: nat, j: nat)
    requires IsWord(w, i, j)
    ensures i > 0 ==> !IsIdentifierCharacter(w[i - 1])
  {
  }

  lemma NoLinks(w: string, at: nat, begin: nat)
    requires EndsBefore(w, begin, at) && !(begin >= 2 && w[begin - 1] == ':' && w[begin - 2] == ':')
    ensures IsQualification(w, at, at, [])
  {
    forall b: nat | EndsBefore(w, b, at) ensures !(b >= 2 && IsAt(w, b - 2, "::")) {
      BackwardIs(w, b, at);
      BackwardIs(w, begin, at);
      assert b >= 2 ==> w[b - 2..b] == [w[b - 2], w[b - 1]];
    }
  }

  lemma LinkIs(w: string, word: nat, before: nat, begin: nat, at: nat)
    requires IsWord(w, word, before) && word < before && IsIdentifierStart(w[word]) && before + 2 <= begin <= at <= |w|
    requires Blank(w, before, begin - 2) && w[begin - 2] == ':' && w[begin - 1] == ':' && Blank(w, begin, at)
    ensures var l := Link(w[word..before], w[before..begin - 2], w[begin..at]); IsLink(l) && LinkText(l) == w[word..at]
  {
    var l := Link(w[word..before], w[before..begin - 2], w[begin..at]);
    assert w[begin - 2..begin] == "::";
    assert w[word..at] == w[word..before] + w[before..begin - 2] + w[begin - 2..begin] + w[begin..at];
  }

  lemma AddLink(w: string, i: nat, word: nat, at: nat, links: seq<Link>, l: Link)
    requires IsQualification(w, i, word, links) && word <= at <= |w| && LinkText(l) == w[word..at] && IsLink(l)
    requires word > 0 ==> !IsIdentifierCharacter(w[word - 1])
    ensures IsQualification(w, i, at, links + [l])
  {
    hide LinkText; hide IsLink; hide IsUnqualified;
    var longer := links + [l];
    assert longer[..|longer| - 1] == links;
    assert w[i..at] == w[i..word] + w[word..at];
  }
}
