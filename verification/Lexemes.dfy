/** A source file as a list of lexemes. The grammar is stated without the scanner, and the
    scanner is proved to read every text exactly as the grammar says. */
module Lexemes {
  import opened Common
  import opened Lexer
  import opened Slices
  import Declarations

  /** What stands between the quotes of a literal: a byte, or a backslash with its follower. */
  datatype Item =
    | Plain(c: char)
    | Escape(c: char)
    | EscapedLineEnd

  datatype Lexeme =
    | Visible(c: char)
    | Remark(text: string)
    | BlockRemark(text: string)
    | RawLiteral(delimiter: string, text: string)
    | Quoted(quote: char, items: seq<Item>)
    | DirectiveLine(text: string)

  /** How a file ends: after a lexeme, or inside one that is never closed. */
  datatype Ending = Clean | Unclosed(l: Lexeme, tail: string)

  // ------------------------------------------------------------------
  // The grammar
  // ------------------------------------------------------------------

  function ItemText(item: Item): (t: string)
    ensures t != ""
  {
    match item
    case Plain(c) => [c]
    case Escape(c) => ['\\', c]
    case EscapedLineEnd => "\\\r\n"
  }

  function ItemsText(items: seq<Item>): string {
    if items == [] then "" else ItemText(items[0]) + ItemsText(items[1..])
  }

  function Begin(l: Lexeme): (t: string)
    ensures t != ""
  {
    match l
    case Visible(c) => [c]
    case Remark(_) => "//"
    case BlockRemark(_) => "/*"
    case RawLiteral(delimiter, _) => "R\"" + delimiter + "("
    case Quoted(quote, _) => [quote]
    case DirectiveLine(_) => "#"
  }

  function Inside(l: Lexeme): string {
    match l
    case Visible(_) => ""
    case Quoted(_, items) => ItemsText(items)
    case _ => l.text
  }

  function End(l: Lexeme): string {
    match l
    case Visible(_) => ""
    case Remark(_) => "\n"
    case BlockRemark(_) => "*/"
    case RawLiteral(delimiter, _) => ")" + delimiter + "\""
    case Quoted(quote, _) => [quote]
    case DirectiveLine(_) => "\n"
  }

  function Text(l: Lexeme): (t: string)
    ensures t != ""
  {
    Begin(l) + Inside(l) + End(l)
  }

  predicate StandsAt(pattern: string, s: string, i: nat) {
    i + |pattern| <= |s| && s[i..i + |pattern|] == pattern
  }

  predicate Occurs(pattern: string, s: string) {
    exists i :: 0 <= i <= |s| && StandsAt(pattern, s, i)
  }

  /** At most sixteen bytes, none of them a space, a parenthesis or a backslash. */
  predicate IsDelimiter(d: string) {
    |d| <= 16 && forall i :: 0 <= i < |d| ==> d[i] !in " \t\n\r\U{0B}\U{0C}()\\"
  }

  /** The line feed that follows the first `k` bytes of a directive continues it. */
  predicate Continues(text: string, k: nat)
    requires k <= |text|
  {
    (k >= 1 && text[k - 1] == '\\') || (k >= 2 && text[k - 2] == '\\' && text[k - 1] == '\r')
  }

  predicate ItemAllowed(item: Item, quote: char) {
    item.Plain? ==> item.c != quote && item.c != '\\' && item.c != '\n'
  }

  /** The inside of a lexeme does not end it. */
  predicate WellSpelled(l: Lexeme) {
    match l
    case Visible(_) => true
    case Remark(text) => '\n' !in text
    case BlockRemark(text) => !Occurs("*/", text)
    case RawLiteral(delimiter, text) => IsDelimiter(delimiter) && !Occurs(")" + delimiter + "\"", text)
    case Quoted(quote, items) =>
      (quote == '"' || quote == '\'') && forall i :: 0 <= i < |items| ==> ItemAllowed(items[i], quote)
    case DirectiveLine(text) => forall k :: 0 <= k < |text| && text[k] == '\n' ==> Continues(text, k)
  }

  predicate IsClosed(l: Lexeme) {
    l.DirectiveLine? ==> !Continues(l.text, |l.text|)
  }

  predicate StartsRaw(t: string, d: string) {
    IsDelimiter(d) && "R\"" + d + "(" <= t
  }

  /** The text begins with something that is not code. */
  ghost predicate Opens(t: string, lineStart: bool) {
    (t != "" && (t[0] == '"' || t[0] == '\'' || (lineStart && t[0] == '#'))) ||
    "//" <= t || "/*" <= t || exists d :: StartsRaw(t, d)
  }

  ghost predicate StartsHere(l: Lexeme, t: string, lineStart: bool) {
    match l
    case Visible(_) => !Opens(t, lineStart)
    case DirectiveLine(_) => lineStart
    case _ => true
  }

  /** Whether only blanks precede what follows the lexeme on its line. */
  predicate LineStartAfter(l: Lexeme, lineStart: bool) {
    match l
    case Visible(c) => c == '\n' || (lineStart && c in " \t\r")
    case BlockRemark(text) => '\n' in text
    case Remark(_) => true
    case DirectiveLine(_) => true
    case _ => false
  }

  /** A literal also stays open at the end of its line, and behind a backslash that ends the file. */
  predicate TailAllowed(l: Lexeme, tail: string) {
    tail == "" ||
    (l.Quoted? &&
     (tail == "\\" || (tail[0] == '\n' && (l.items == [] || l.items[|l.items| - 1] != Escape('\r')))))
  }

  function EndText(e: Ending): string {
    match e
    case Clean => ""
    case Unclosed(l, tail) => Begin(l) + Inside(l) + tail
  }

  ghost predicate EndAllowed(e: Ending, lineStart: bool) {
    e.Unclosed? ==>
      !e.l.Visible? && WellSpelled(e.l) && StartsHere(e.l, EndText(e), lineStart) && TailAllowed(e.l, e.tail)
  }

  function Written(lexemes: seq<Lexeme>, e: Ending): string {
    if lexemes == [] then EndText(e) else Text(lexemes[0]) + Written(lexemes[1..], e)
  }

  ghost predicate WellWritten(lexemes: seq<Lexeme>, e: Ending, lineStart: bool) {
    if lexemes == [] then EndAllowed(e, lineStart)
    else
      var l := lexemes[0];
      WellSpelled(l) && IsClosed(l) && StartsHere(l, Written(lexemes, e), lineStart) &&
      WellWritten(lexemes[1..], e, LineStartAfter(l, lineStart))
  }

  /** Spaces, with the line breaks of `s`. */
  function Hidden(s: string): (r: string)
    ensures |r| == |s|
  {
    seq(|s|, i requires 0 <= i < |s| => if s[i] == '\n' || s[i] == '\r' then s[i] else ' ')
  }

  function Shown(l: Lexeme): (r: string)
    ensures |r| == |Text(l)|
  {
    if l.Visible? then [l.c] else Hidden(Text(l))
  }

  /** What reading `lexemes` and `e` gives when `done` has been read before them. */
  function Reading(done: string, lexemes: seq<Lexeme>, e: Ending): Lexed
    decreases |lexemes|
  {
    if lexemes != [] then Reading(done + Shown(lexemes[0]), lexemes[1..], e)
    else
      match e
      case Clean => Ok(done)
      case Unclosed(l, _) =>
        match l
        case BlockRemark(_) => Err((UnterminatedBlockComment, |done|))
        case RawLiteral(_, _) => Err((UnterminatedRawStringLiteral, |done|))
        case Quoted(quote, _) =>
          Err((if quote == '"' then UnterminatedStringLiteral else UnterminatedCharacterLiteral, |done|))
        case _ => Ok(done + Hidden(EndText(e)))
  }

  // ------------------------------------------------------------------
  // Stretches of a scan that blank everything
  // ------------------------------------------------------------------

  /** From `c` the scanner comes to `d` and blanks what lies between. */
  ghost predicate Goes(src: string, c: Config, d: Config) {
    0 <= c.pos <= d.pos <= |src| &&
    RunTo(src, c, |src|) == Prepend(Hidden(src[c.pos..d.pos]), RunTo(src, d, |src|))
  }

  lemma StepGoes(src: string, c: Config)
    requires 0 <= c.pos < |src| && NextStep(src, c).Move? && !NextStep(src, c).keep
    ensures Goes(src, c, After(c, NextStep(src, c)))
  {
    hide NextStep;
    var s := NextStep(src, c);
    assert Emitted(src, c.pos, s) == Hidden(src[c.pos..c.pos + s.length]);
  }

  lemma StaysGoes(src: string, c: Config)
    requires 0 <= c.pos <= |src|
    ensures Goes(src, c, c)
  {
    hide NextStep; hide RunTo;
    match RunTo(src, c, |src|)
    case At(_, text) => assert "" + text == text;
    case Stuck(_, _) =>
  }

  lemma GoesOn(src: string, a: Config, b: Config, c: Config)
    requires Goes(src, a, b) && Goes(src, b, c)
    ensures Goes(src, a, c)
  {
    hide RunTo;
    var first, second := Hidden(src[a.pos..b.pos]), Hidden(src[b.pos..c.pos]);
    assert Hidden(src[a.pos..c.pos]) == first + second;
    match RunTo(src, c, |src|)
    case At(_, text) => assert first + (second + text) == (first + second) + text;
    case Stuck(_, _) =>
  }

  lemma {:induction false} InRemark(src: string, p: nat, q: nat, flag: bool)
    requires p <= q <= |src| && '\n' !in src[p..q]
    ensures Goes(src, Config(LineComment, p, flag), Config(LineComment, q, flag))
    decreases q - p
  {
    hide Goes;
    if p == q {
      StaysGoes(src, Config(LineComment, p, flag));
    } else {
      assert src[p] == src[p..q][0] && src[p + 1..q] == src[p..q][1..];
      StepGoes(src, Config(LineComment, p, flag));
      InRemark(src, p + 1, q, flag);
      GoesOn(src, Config(LineComment, p, flag), Config(LineComment, p + 1, flag), Config(LineComment, q, flag));
    }
  }

  lemma {:induction false} InBlock(src: string, start: int, p: nat, q: nat, flag: bool)
    requires p <= q <= |src| && forall k :: p <= k < q ==> !(src[k] == '*' && NextIs(src, k, '/'))
    ensures Goes(src, Config(BlockComment(start), p, flag), Config(BlockComment(start), q, flag || '\n' in src[p..q]))
    decreases q - p
  {
    hide Goes;
    var c := Config(BlockComment(start), p, flag);
    if p == q {
      StaysGoes(src, c);
    } else {
      assert src[p..q] == [src[p]] + src[p + 1..q];
      var next := Config(BlockComment(start), p + 1, flag || src[p] == '\n');
      StepGoes(src, c);
      InBlock(src, start, p + 1, q, next.atLineStart);
      GoesOn(src, c, next, Config(BlockComment(start), q, flag || '\n' in src[p..q]));
    }
  }

  lemma {:induction false} InRaw(src: string, start: int, d: string, p: nat, q: nat, flag: bool)
    requires p <= q <= |src| && forall k :: p <= k < q ==> !ClosesRaw(src, k, d)
    ensures Goes(src, Config(RawString(start, d), p, flag), Config(RawString(start, d), q, flag))
    decreases q - p
  {
    hide Goes; hide ClosesRaw;
    var c := Config(RawString(start, d), p, flag);
    if p == q {
      StaysGoes(src, c);
    } else {
      StepGoes(src, c);
      InRaw(src, start, d, p + 1, q, flag);
      GoesOn(src, c, c.(pos := p + 1), c.(pos := q));
    }
  }

  lemma {:induction false} InDirectiveLine(src: string, p: nat, q: nat, flag: bool)
    requires p <= q <= |src| && forall k :: p <= k < q && src[k] == '\n' ==> DirectiveContinued(src, k)
    ensures Goes(src, Config(Directive, p, flag), Config(Directive, q, flag))
    decreases q - p
  {
    hide Goes; hide DirectiveContinued;
    var c := Config(Directive, p, flag);
    if p == q {
      StaysGoes(src, c);
    } else {
      StepGoes(src, c);
      InDirectiveLine(src, p + 1, q, flag);
      GoesOn(src, c, c.(pos := p + 1), c.(pos := q));
    }
  }

  function LiteralMode(quote: char, start: int): Mode {
    if quote == '"' then StringLiteral(start) else CharacterLiteral(start)
  }

  predicate IsQuote(c: char) {
    c == '"' || c == '\''
  }

  /** No line feed follows an escaped carriage return that ends the items. */
  predicate NotSplit(src: string, q: nat, items: seq<Item>) {
    items != [] && items[|items| - 1] == Escape('\r') && q < |src| ==> src[q] != '\n'
  }

  lemma ItemGoes(src: string, p: nat, quote: char, start: int, item: Item, flag: bool)
    requires IsQuote(quote) && ItemAllowed(item, quote)
    requires p + |ItemText(item)| <= |src| && src[p..p + |ItemText(item)|] == ItemText(item)
    requires NotSplit(src, p + |ItemText(item)|, [item])
    ensures Goes(src, Config(LiteralMode(quote, start), p, flag),
                 Config(LiteralMode(quote, start), p + |ItemText(item)|, flag))
  {
    hide Goes; hide RunTo;
    var c, t := Config(LiteralMode(quote, start), p, flag), ItemText(item);
    assert src[p] == t[0];
    assert |t| > 1 ==> src[p + 1] == t[1];
    assert |t| > 2 ==> src[p + 2] == t[2];
    StepGoes(src, c);
  }

  lemma ItemBegins(item: Item, quote: char)
    requires ItemAllowed(item, quote)
    ensures ItemText(item)[0] != '\n'
  {
  }

  lemma {:induction false} InLiteral(src: string, p: nat, quote: char, start: int, items: seq<Item>, flag: bool)
    requires IsQuote(quote) && forall i :: 0 <= i < |items| ==> ItemAllowed(items[i], quote)
    requires p + |ItemsText(items)| <= |src| && src[p..p + |ItemsText(items)|] == ItemsText(items)
    requires NotSplit(src, p + |ItemsText(items)|, items)
    ensures Goes(src, Config(LiteralMode(quote, start), p, flag),
                 Config(LiteralMode(quote, start), p + |ItemsText(items)|, flag))
    decreases |items|
  {
    hide Goes; hide ItemText; hide LiteralMode;
    var c := Config(LiteralMode(quote, start), p, flag);
    if items == [] {
      StaysGoes(src, c);
    } else {
      var first, rest := ItemText(items[0]), ItemsText(items[1..]);
      var q := p + |first|;
      assert first + rest <= src[p..] by {
        assert src[p..][..|first + rest|] == src[p..p + |first + rest|];
      }
      BeginsInParts(src, p, first, rest);
      if items[1..] != [] {
        assert src[q] == src[q..][0] == rest[0] == ItemText(items[1])[0];
        ItemBegins(items[1], quote);
      }
      ItemGoes(src, p, quote, start, items[0], flag);
      InLiteral(src, q, quote, start, items[1..], flag);
      GoesOn(src, c, c.(pos := q), c.(pos := q + |rest|));
    }
  }

  // ------------------------------------------------------------------
  // One lexeme
  // ------------------------------------------------------------------

  /** How the scanner stands inside a lexeme that began at `p`. */
  function ModeInside(l: Lexeme, p: int): Mode {
    match l
    case Visible(_) => Code
    case Remark(_) => LineComment
    case BlockRemark(_) => BlockComment(p)
    case RawLiteral(delimiter, _) => RawString(p, delimiter)
    case Quoted(quote, _) => LiteralMode(quote, p)
    case DirectiveLine(_) => Directive
  }

  predicate FlagInside(l: Lexeme) {
    l.BlockRemark? && '\n' in l.text
  }

  lemma DelimiterFound(src: string, p: nat, d: string, limit: nat)
    requires IsDelimiter(d) && p + |d| < limit <= |src| && src[p..p + |d|] == d && src[p + |d|] == '('
    ensures ScanDelimiter(src, p, limit) == Some(p + |d|)
  {
    forall k | p <= k < p + |d| ensures src[k] != '(' && IsRawDelimiterCharacter(src[k]) {
      assert src[k] == d[k - p];
    }
    DelimiterRuns(src, p, p + |d|, limit);
  }

  lemma {:induction false} DelimiterRuns(src: string, p: nat, q: nat, limit: nat)
    requires p <= q < limit <= |src| && src[q] == '('
    requires forall k :: p <= k < q ==> src[k] != '(' && IsRawDelimiterCharacter(src[k])
    ensures ScanDelimiter(src, p, limit) == Some(q)
    decreases q - p
  {
    if p < q {
      DelimiterRuns(src, p + 1, q, limit);
    }
  }

  lemma RawFound(src: string, p: nat, d: string)
    requires p <= |src| && StartsRaw(src[p..], d)
    ensures RawOpening(src, p) == Some(p + 2 + |d|)
  {
    var t, b := src[p..], "R\"" + d + "(";
    assert forall i :: 0 <= i < |b| ==> src[p + i] == t[i] == b[i];
    assert src[p + 2..p + 2 + |d|] == b[2..2 + |d|] == d;
    DelimiterFound(src, p + 2, d, Min(|src|, p + 19));
  }

  lemma RawIsFound(src: string, p: nat)
    requires p <= |src| && RawOpening(src, p).Some?
    ensures exists d :: StartsRaw(src[p..], d)
  {
    var q := RawOpening(src, p).value;
    var d := src[p + 2..q];
    assert IsDelimiter(d) by {
      assert forall k :: 0 <= k < |d| ==> d[k] == src[p + 2 + k];
    }
    assert "R\"" + d + "(" == src[p..q + 1] == src[p..][..q + 1 - p];
    assert StartsRaw(src[p..], d);
  }

  /** Entering a lexeme blanks its beginning. */
  lemma Enters(src: string, p: nat, l: Lexeme, flag: bool)
    requires p <= |src| && !l.Visible? && Begin(l) <= src[p..] && WellSpelled(l) && (l.DirectiveLine? ==> flag)
    ensures p + |Begin(l)| <= |src|
    ensures Goes(src, Config(Code, p, flag), Config(ModeInside(l, p), p + |Begin(l)|, false))
  {
    hide Goes; hide RunTo;
    var b := Begin(l);
    assert forall i :: 0 <= i < |b| ==> src[p + i] == src[p..][i] == b[i];
    if l.RawLiteral? {
      RawFound(src, p, l.delimiter);
      assert src[p + 2..p + 2 + |l.delimiter|] == b[2..2 + |l.delimiter|] == l.delimiter;
    }
    StepGoes(src, Config(Code, p, flag));
  }

  lemma NoEarlyBlockEnd(src: string, p: nat, q: nat, text: string)
    requires p <= q <= |src| && src[p..q] == text && !Occurs("*/", text) && (q < |src| ==> src[q] != '/')
    ensures forall k :: p <= k < q ==> !(src[k] == '*' && NextIs(src, k, '/'))
  {
    forall k | p <= k < q ensures !(src[k] == '*' && NextIs(src, k, '/')) {
      if k + 1 < q {
        assert !StandsAt("*/", text, k - p);
        assert text[k - p..k - p + 2] == [src[k], src[k + 1]];
      }
    }
  }

  lemma NoEarlyRawEnd(src: string, p: nat, q: nat, d: string, text: string)
    requires p <= q <= |src| && src[p..q] == text && IsDelimiter(d) && !Occurs(")" + d + "\"", text)
    requires q < |src| ==> src[q] == ')'
    ensures forall k :: p <= k < q ==> !ClosesRaw(src, k, d)
  {
    var c := ")" + d + "\"";
    forall k | p <= k < q ensures !ClosesRaw(src, k, d) {
      var end := k + |c|;
      if end <= q {
        assert !StandsAt(c, text, k - p);
        SliceOfSlice(src, p, q, k - p, end - p);
      } else if end <= |src| {
        assert src[k..end][q - k] == ')';
        assert c[q - k] != ')' by {
          assert q - k <= |d| ==> c[q - k] == d[q - k - 1];
        }
      }
    }
  }

  lemma ContinuationsAgree(src: string, p: nat, text: string, k: nat)
    requires 1 <= p && p + |text| <= |src| && src[p - 1] == '#' && src[p..p + |text|] == text
    requires k <= |text| && p + k < |src|
    ensures DirectiveContinued(src, p + k) == Continues(text, k)
  {
    assert k >= 1 ==> src[p + k - 1] == text[k - 1];
    assert k >= 2 ==> src[p + k - 2] == text[k - 2];
  }

  /** What follows the inside of a lexeme cannot be taken for a part of it. */
  ghost predicate Delimits(src: string, q: nat, l: Lexeme) {
    match l
    case BlockRemark(_) => q < |src| ==> src[q] != '/'
    case RawLiteral(_, _) => q < |src| ==> src[q] == ')'
    case Quoted(_, items) => NotSplit(src, q, items)
    case _ => true
  }

  lemma Crosses(src: string, p: nat, l: Lexeme, flag: bool)
    requires p <= |src| && !l.Visible? && WellSpelled(l) && (l.DirectiveLine? ==> flag)
    requires Begin(l) + Inside(l) <= src[p..]
    requires Delimits(src, p + |Begin(l)| + |Inside(l)|, l)
    ensures p + |Begin(l)| + |Inside(l)| <= |src|
    ensures Goes(src, Config(Code, p, flag),
                 Config(ModeInside(l, p), p + |Begin(l)| + |Inside(l)|, FlagInside(l)))
  {
    hide Goes; hide RunTo; hide NextStep; hide Occurs; hide IsDelimiter; hide Continues; hide DirectiveContinued;
    hide ClosesRaw; hide ItemsText;
    var b := p + |Begin(l)|;
    var q := b + |Inside(l)|;
    BeginsInParts(src, p, Begin(l), Inside(l));
    Enters(src, p, l, flag);
    match l {
      case Remark(_) => InRemark(src, b, q, false);
      case BlockRemark(text) =>
        NoEarlyBlockEnd(src, b, q, text);
        InBlock(src, p, b, q, false);
      case RawLiteral(d, text) =>
        NoEarlyRawEnd(src, b, q, d, text);
        InRaw(src, p, d, b, q, false);
      case Quoted(quote, items) => InLiteral(src, b, quote, p, items, false);
      case DirectiveLine(text) =>
        assert src[p] == src[p..b][0];
        forall k | b <= k < q && src[k] == '\n' ensures DirectiveContinued(src, k) {
          assert text[k - b] == src[k];
          ContinuationsAgree(src, b, text, k - b);
        }
        InDirectiveLine(src, b, q, false);
    }
    GoesOn(src, Config(Code, p, flag), Config(ModeInside(l, p), b, false),
           Config(ModeInside(l, p), q, FlagInside(l)));
  }

  lemma Leaves(src: string, p: nat, q: nat, l: Lexeme)
    requires p < q <= |src| && !l.Visible? && WellSpelled(l) && End(l) <= src[q..]
    requires l.DirectiveLine? ==> q < |src| && !DirectiveContinued(src, q)
    ensures q + |End(l)| <= |src|
    ensures Goes(src, Config(ModeInside(l, p), q, FlagInside(l)),
                 Config(Code, q + |End(l)|, LineStartAfter(l, false)))
  {
    hide Goes; hide RunTo; hide DirectiveContinued;
    var e := End(l);
    assert forall i :: 0 <= i < |e| ==> src[q + i] == src[q..][i] == e[i];
    assert src[q..q + |e|] == src[q..][..|e|] == e;
    StepGoes(src, Config(ModeInside(l, p), q, FlagInside(l)));
  }

  lemma Divides(src: string, p: nat, l: Lexeme)
    requires p <= |src| && Text(l) <= src[p..]
    ensures var q := p + |Begin(l)| + |Inside(l)|;
            q + |End(l)| == p + |Text(l)| <= |src| && Begin(l) + Inside(l) <= src[p..] && End(l) <= src[q..]
  {
    hide Begin; hide Inside; hide End;
    BeginsInParts(src, p, Begin(l) + Inside(l), End(l));
  }

  lemma EndDelimits(src: string, q: nat, l: Lexeme)
    requires q <= |src| && !l.Visible? && WellSpelled(l) && End(l) <= src[q..]
    ensures Delimits(src, q, l)
  {
    assert q < |src| && src[q] == src[q..][0] == End(l)[0];
  }

  lemma DirectiveEnds(src: string, p: nat, l: Lexeme)
    requires p <= |src| && l.DirectiveLine? && IsClosed(l) && Text(l) <= src[p..]
    ensures var q := p + 1 + |l.text|; q < |src| && !DirectiveContinued(src, q)
  {
    BeginsInParts(src, p, "#" + l.text, "\n");
    BeginsInParts(src, p, "#", l.text);
    assert src[p] == src[p..p + 1][0];
    ContinuationsAgree(src, p + 1, l.text, |l.text|);
  }

  /** A whole lexeme that is not code is read and blanked. */
  lemma Passes(src: string, p: nat, l: Lexeme, flag: bool)
    requires p <= |src| && !l.Visible? && WellSpelled(l) && IsClosed(l) && (l.DirectiveLine? ==> flag)
    requires Text(l) <= src[p..]
    ensures p + |Text(l)| <= |src|
    ensures Goes(src, Config(Code, p, flag), Config(Code, p + |Text(l)|, LineStartAfter(l, flag)))
  {
    hide Goes; hide Begin; hide Inside; hide End; hide WellSpelled; hide Delimits; hide ModeInside; hide FlagInside;
    hide Text;
    var q := p + |Begin(l)| + |Inside(l)|;
    Divides(src, p, l);
    EndDelimits(src, q, l);
    Crosses(src, p, l, flag);
    if l.DirectiveLine? {
      DirectiveEnds(src, p, l);
      DirectiveSize(l);
    }
    Leaves(src, p, q, l);
    GoesOn(src, Config(Code, p, flag), Config(ModeInside(l, p), q, FlagInside(l)),
           Config(Code, q + |End(l)|, LineStartAfter(l, false)));
  }

  lemma DirectiveSize(l: Lexeme)
    requires l.DirectiveLine?
    ensures |Begin(l)| + |Inside(l)| == 1 + |l.text|
  {
  }

  /** A byte that opens nothing is code. */
  lemma ShowsByte(src: string, p: nat, flag: bool)
    requires p < |src| && !Opens(src[p..], flag)
    ensures NextStep(src, Config(Code, p, flag)) == Move(1, Code, LineStartAfter(Visible(src[p]), flag), true)
  {
    var t := src[p..];
    if RawOpening(src, p).Some? {
      RawIsFound(src, p);
      assert false;
    }
    assert p + 1 < |src| ==> t[..2] == [src[p], src[p + 1]];
  }

  // ------------------------------------------------------------------
  // Whole files
  // ------------------------------------------------------------------

  lemma PrependTwice(a: string, b: string, r: Reached)
    ensures Prepend(a, Prepend(b, r)) == Prepend(a + b, r)
  {
    match r
    case At(_, text) => assert a + (b + text) == (a + b) + text;
    case Stuck(_, _) =>
  }

  lemma EndIsRead(src: string, p: nat, done: string, e: Ending, flag: bool)
    requires p <= |src| && |done| == p && src[p..] == EndText(e) && EndAllowed(e, flag)
    ensures Finish(Prepend(done, RunTo(src, Config(Code, p, flag), |src|))) == Reading(done, [], e)
  {
    hide NextStep; hide Begin; hide Inside; hide WellSpelled; hide Delimits; hide Goes; hide Prepend; hide Finish;
    hide Hidden; hide RunTo;
    if e.Clean? {
      EndOfText(src, Config(Code, p, flag));
      FinishAtEnd(Config(Code, p, flag), done);
    } else {
      var l, q := e.l, p + |Begin(e.l)| + |Inside(e.l)|;
      assert Begin(l) + Inside(l) <= src[p..];
      assert src[p..][q - p..] == e.tail;
      TailOfTail(src, p, q - p);
      TailDelimits(src, q, l);
      Crosses(src, p, l, flag);
      UnclosedIsRead(src, p, q, done, l, flag);
      if l.Remark? || l.DirectiveLine? {
        assert e.tail == "" && q == |src|;
        assert src[p..q] == src[p..] == EndText(e);
      }
    }
  }

  lemma TailDelimits(src: string, q: nat, l: Lexeme)
    requires q <= |src| && TailAllowed(l, src[q..])
    ensures Delimits(src, q, l)
  {
    assert q < |src| ==> src[q] == src[q..][0];
  }

  lemma UnclosedIsRead(src: string, p: nat, q: nat, done: string, l: Lexeme, flag: bool)
    requires p <= q <= |src| && |done| == p && !l.Visible? && WellSpelled(l) && TailAllowed(l, src[q..])
    requires Goes(src, Config(Code, p, flag), Config(ModeInside(l, p), q, FlagInside(l)))
    ensures Finish(Prepend(done, RunTo(src, Config(Code, p, flag), |src|))) ==
            match l
            case BlockRemark(_) => Err((UnterminatedBlockComment, p))
            case RawLiteral(_, _) => Err((UnterminatedRawStringLiteral, p))
            case Quoted(quote, _) =>
              Err((if quote == '"' then UnterminatedStringLiteral else UnterminatedCharacterLiteral, p))
            case _ => Ok(done + Hidden(src[p..q]))
  {
    hide RunTo; hide NextStep; hide WellSpelled; hide Hidden; hide Prepend; hide Finish;
    var c := Config(ModeInside(l, p), q, FlagInside(l));
    var blank, rest := Hidden(src[p..q]), RunTo(src, c, |src|);
    PrependTwice(done, blank, rest);
    FinishLater(done + blank, rest);
    if q == |src| {
      EndOfText(src, c);
      FinishAtEnd(c, done + blank);
    } else {
      LiteralStops(src, p, q, l, c);
    }
  }

  lemma FinishLater(a: string, r: Reached)
    ensures Finish(r).Err? ==> Finish(Prepend(a, r)) == Finish(r)
  {
  }

  lemma FinishAtEnd(c: Config, a: string)
    ensures Prepend(a, At(c, "")) == At(c, a)
    ensures Finish(At(c, a)) ==
            match c.mode
            case BlockComment(start) => Err((UnterminatedBlockComment, start))
            case StringLiteral(start) => Err((UnterminatedStringLiteral, start))
            case CharacterLiteral(start) => Err((UnterminatedCharacterLiteral, start))
            case RawString(start, _) => Err((UnterminatedRawStringLiteral, start))
            case _ => Ok(a)
  {
    assert a + "" == a;
  }

  lemma EndOfText(src: string, c: Config)
    requires c.pos == |src|
    ensures RunTo(src, c, |src|) == At(c, "")
  {
  }

  /** A literal stops at the end of its line, or behind the backslash that ends the file. */
  lemma LiteralStops(src: string, p: nat, q: nat, l: Lexeme, c: Config)
    requires p <= q < |src| && l.Quoted? && WellSpelled(l) && TailAllowed(l, src[q..])
    requires c == Config(LiteralMode(l.quote, p), q, false)
    ensures Finish(RunTo(src, c, |src|)) ==
            Err((if l.quote == '"' then UnterminatedStringLiteral else UnterminatedCharacterLiteral, p))
  {
    var tail := src[q..];
    assert src[q] == tail[0];
    if tail == "\\" {
      assert NextStep(src, c) == Move(1, c.mode, false, false);
      EndOfText(src, After(c, NextStep(src, c)));
    }
  }

  lemma ByteIsRead(src: string, p: nat, flag: bool)
    requires p < |src| && !Opens(src[p..], flag)
    ensures RunTo(src, Config(Code, p, flag), |src|) ==
            Prepend([src[p]], RunTo(src, Config(Code, p + 1, LineStartAfter(Visible(src[p]), flag)), |src|))
  {
    hide NextStep; hide Opens; hide LineStartAfter;
    ShowsByte(src, p, flag);
    var c := Config(Code, p, flag);
    assert Emitted(src, p, NextStep(src, c)) == [src[p]];
  }

  /** Reading the lexeme at `p` shows it and goes on behind it. */
  ghost predicate Reads(src: string, p: nat, l: Lexeme, flag: bool) {
    p + |Text(l)| <= |src| &&
    RunTo(src, Config(Code, p, flag), |src|) ==
    Prepend(Shown(l), RunTo(src, Config(Code, p + |Text(l)|, LineStartAfter(l, flag)), |src|))
  }

  lemma VisibleIsRead(src: string, p: nat, l: Lexeme, flag: bool)
    requires p <= |src| && l.Visible? && Text(l) <= src[p..] && !Opens(src[p..], flag)
    ensures Reads(src, p, l, flag)
  {
    hide NextStep; hide Opens; hide RunTo; hide LineStartAfter; hide Prepend;
    assert Text(l) == [l.c];
    BeginsWith(src, p, Text(l));
    assert src[p + 0] == l.c;
    ByteIsRead(src, p, flag);
  }

  lemma HiddenIsRead(src: string, p: nat, l: Lexeme, flag: bool)
    requires p <= |src| && !l.Visible? && WellSpelled(l) && IsClosed(l) && (l.DirectiveLine? ==> flag)
    requires Text(l) <= src[p..]
    ensures Reads(src, p, l, flag)
  {
    hide RunTo; hide LineStartAfter; hide Prepend; hide Text; hide Hidden; hide WellSpelled; hide IsClosed;
    Passes(src, p, l, flag);
    BeginsWith(src, p, Text(l));
  }

  lemma EitherIsRead(src: string, p: nat, l: Lexeme, flag: bool)
    requires p <= |src| && Text(l) <= src[p..] && WellSpelled(l) && IsClosed(l) && StartsHere(l, src[p..], flag)
    ensures Reads(src, p, l, flag)
  {
    hide Reads; hide Opens; hide WellSpelled; hide IsClosed; hide Text;
    if l.Visible? {
      VisibleIsRead(src, p, l, flag);
    } else {
      HiddenIsRead(src, p, l, flag);
    }
  }

  lemma ReadsOn(src: string, p: nat, done: string, l: Lexeme, flag: bool)
    requires p <= |src| && Reads(src, p, l, flag)
    ensures p + |Text(l)| <= |src|
    ensures Prepend(done, RunTo(src, Config(Code, p, flag), |src|)) ==
            Prepend(done + Shown(l),
                    RunTo(src, Config(Code, p + |Text(l)|, LineStartAfter(l, flag)), |src|))
  {
    hide RunTo; hide Prepend; hide Text; hide Shown; hide LineStartAfter;
    PrependTwice(done, Shown(l), RunTo(src, Config(Code, p + |Text(l)|, LineStartAfter(l, flag)), |src|));
  }

  lemma {:induction false} ReadFrom(src: string, p: nat, done: string, lexemes: seq<Lexeme>, e: Ending, flag: bool)
    requires p <= |src| && |done| == p && src[p..] == Written(lexemes, e) && WellWritten(lexemes, e, flag)
    ensures Finish(Prepend(done, RunTo(src, Config(Code, p, flag), |src|))) == Reading(done, lexemes, e)
    decreases |lexemes|
  {
    hide RunTo; hide Prepend; hide Finish; hide StartsHere; hide EndAllowed; hide Reads; hide Text; hide Shown;
    if lexemes == [] {
      EndIsRead(src, p, done, e, flag);
    } else {
      var l := lexemes[0];
      var q := p + |Text(l)|;
      assert src[p..] == Text(l) + Written(lexemes[1..], e);
      EitherIsRead(src, p, l, flag);
      ReadsOn(src, p, done, l, flag);
      assert src[q..] == src[p..][|Text(l)|..] == Written(lexemes[1..], e);
      ReadFrom(src, q, done + Shown(l), lexemes[1..], e, LineStartAfter(l, flag));
    }
  }

  /** The scanner reads every well-written list of lexemes as the grammar says: code stays,
      everything else is blanked, and a lexeme left open is reported where it began. */
  lemma WrittenIsRead(lexemes: seq<Lexeme>, e: Ending)
    requires WellWritten(lexemes, e, true)
    ensures Lex(Written(lexemes, e)) == Reading("", lexemes, e)
  {
    hide RunTo; hide WellWritten; hide Written; hide Reading;
    var src := Written(lexemes, e);
    assert src[0..] == src;
    FirstTurn(src);
    ReadFrom(src, 0, "", lexemes, e, true);
  }

  // ------------------------------------------------------------------
  // Every text is written in lexemes
  // ------------------------------------------------------------------

  /** The text begins with the whole lexeme `l`, or is `l` without its end and with `tail`. */
  ghost predicate Leads(t: string, lineStart: bool, l: Lexeme, closed: bool, tail: string) {
    WellSpelled(l) && StartsHere(l, t, lineStart) &&
    if closed then IsClosed(l) && Text(l) <= t
    else !l.Visible? && t == Begin(l) + Inside(l) + tail && TailAllowed(l, tail)
  }

  lemma NotBefore(t: string, from: nat, to: nat, pattern: string)
    requires from <= to <= |t| && forall p :: from <= p < to ==> !Declarations.OccursAt(t, p, pattern)
    requires pattern != ""
    ensures !Occurs(pattern, t[from..to])
  {
    forall i | 0 <= i <= to - from ensures !StandsAt(pattern, t[from..to], i) {
      if i + |pattern| <= to - from {
        SliceOfSlice(t, from, to, i, i + |pattern|);
        assert !Declarations.OccursAt(t, from + i, pattern);
      }
    }
  }

  /** Cuts `t` behind its first `n` bytes at the first occurrence of `end`. */
  lemma FirstEnd(t: string, n: nat, end: string) returns (inside: string, closed: bool)
    requires n <= |t| && end != ""
    ensures !Occurs(end, inside)
    ensures if closed then t[..n] + inside + end <= t else t == t[..n] + inside
  {
    var found := Declarations.Find(t, end, n);
    closed := found.Some?;
    if closed {
      inside := t[n..found.value];
      NotBefore(t, n, found.value, end);
      assert t[..n] + inside + end == t[..found.value + |end|];
    } else {
      inside := t[n..];
      NotBefore(t, n, |t|, end);
      assert t[n..|t|] == inside;
    }
  }

  lemma RemarkLeads(t: string, flag: bool) returns (l: Lexeme, closed: bool)
    requires "//" <= t
    ensures Leads(t, flag, l, closed, "")
  {
    var inside;
    inside, closed := FirstEnd(t, 2, "\n");
    l := Remark(inside);
    forall i | 0 <= i < |inside| ensures inside[i] != '\n' {
      assert !StandsAt("\n", inside, i);
      assert inside[i..i + 1] == [inside[i]];
    }
  }

  lemma BlockLeads(t: string, flag: bool) returns (l: Lexeme, closed: bool)
    requires "/*" <= t
    ensures Leads(t, flag, l, closed, "")
  {
    var inside;
    inside, closed := FirstEnd(t, 2, "*/");
    l := BlockRemark(inside);
  }

  lemma RawLeads(t: string, flag: bool, d: string) returns (l: Lexeme, closed: bool)
    requires StartsRaw(t, d)
    ensures Leads(t, flag, l, closed, "")
  {
    var inside;
    var b := "R\"" + d + "(";
    inside, closed := FirstEnd(t, |b|, ")" + d + "\"");
    l := RawLiteral(d, inside);
    assert t[..|b|] == b;
  }

  /** The first line feed of a directive that does not continue it. */
  lemma {:induction false} DirectiveEnd(text: string, k: nat) returns (q: nat)
    requires k <= |text| && forall i :: 0 <= i < k && text[i] == '\n' ==> Continues(text, i)
    ensures k <= q <= |text| && forall i :: 0 <= i < q && text[i] == '\n' ==> Continues(text, i)
    ensures q < |text| ==> text[q] == '\n' && !Continues(text, q)
    decreases |text| - k
  {
    if k == |text| || (text[k] == '\n' && !Continues(text, k)) {
      q := k;
    } else {
      q := DirectiveEnd(text, k + 1);
    }
  }

  lemma ContinuesInPrefix(text: string, q: nat)
    requires q <= |text|
    ensures forall i :: 0 <= i <= q ==> Continues(text[..q], i) == Continues(text, i)
  {
  }

  lemma DirectiveLeads(t: string, flag: bool) returns (l: Lexeme, closed: bool)
    requires t != "" && t[0] == '#' && flag
    ensures Leads(t, flag, l, closed, "")
  {
    var text := t[1..];
    var q := DirectiveEnd(text, 0);
    closed := q < |text|;
    l := DirectiveLine(text[..q]);
    ContinuesInPrefix(text, q);
    if closed {
      assert Text(l) == t[..q + 2];
    } else {
      assert t == "#" + text[..q];
    }
  }

  /** What follows the items of a literal: its end, its line's end or the file's. */
  predicate StopsItems(rest: string, quote: char, items: seq<Item>) {
    rest == "" || rest == "\\" || rest[0] == quote ||
    (rest[0] == '\n' && (items == [] || items[|items| - 1] != Escape('\r')))
  }

  function FirstItem(t: string): Item
    requires t != "" && t != "\\"
  {
    if t[0] != '\\' then Plain(t[0])
    else if "\\\r\n" <= t then EscapedLineEnd
    else Escape(t[1])
  }

  lemma FirstItemFits(t: string, quote: char)
    requires IsQuote(quote) && t != "" && t != "\\" && t[0] != quote && t[0] != '\n'
    ensures ItemText(FirstItem(t)) <= t && ItemAllowed(FirstItem(t), quote)
    ensures FirstItem(t) == Escape('\r') && |t| > 2 ==> t[2] != '\n'
  {
    assert |t| > 2 ==> t[..3] == [t[0], t[1], t[2]];
  }

  lemma {:induction false} SplitItems(t: string, quote: char) returns (items: seq<Item>, rest: string)
    requires IsQuote(quote)
    ensures t == ItemsText(items) + rest && StopsItems(rest, quote, items)
    ensures forall i :: 0 <= i < |items| ==> ItemAllowed(items[i], quote)
    decreases |t|
  {
    hide ItemText; hide FirstItem; hide ItemAllowed;
    if t == "" || t == "\\" || t[0] == quote || t[0] == '\n' {
      items, rest := [], t;
    } else {
      var first := FirstItem(t);
      var n := |ItemText(first)|;
      FirstItemFits(t, quote);
      var more;
      more, rest := SplitItems(t[n..], quote);
      items := [first] + more;
      assert items[1..] == more;
      assert t == ItemText(first) + t[n..];
      EscapedReturnIsWhole(t, first, more, rest);
    }
  }

  lemma EscapedReturnIsWhole(t: string, first: Item, more: seq<Item>, rest: string)
    requires ItemText(first) <= t && t[|ItemText(first)|..] == ItemsText(more) + rest
    requires first == Escape('\r') && |t| > 2 ==> t[2] != '\n'
    ensures first == Escape('\r') && more == [] && rest != "" ==> rest[0] != '\n'
  {
    if first == Escape('\r') && more == [] && rest != "" {
      assert rest == t[2..];
      assert rest[0] == t[2];
    }
  }

  lemma QuotedLeads(t: string, flag: bool) returns (l: Lexeme, closed: bool, tail: string)
    requires t != "" && IsQuote(t[0])
    ensures Leads(t, flag, l, closed, tail)
  {
    var items, rest := SplitItems(t[1..], t[0]);
    l := Quoted(t[0], items);
    closed, tail := rest != "" && rest[0] == t[0], rest;
    assert t == [t[0]] + ItemsText(items) + rest;
    if closed {
      assert Text(l) == t[..|t| - |rest| + 1];
    }
  }

  lemma SomethingLeads(t: string, flag: bool) returns (l: Lexeme, closed: bool, tail: string)
    requires t != ""
    ensures Leads(t, flag, l, closed, tail)
  {
    hide Leads;
    tail := "";
    if IsQuote(t[0]) {
      l, closed, tail := QuotedLeads(t, flag);
    } else if flag && t[0] == '#' {
      l, closed := DirectiveLeads(t, flag);
    } else if "//" <= t {
      l, closed := RemarkLeads(t, flag);
    } else if "/*" <= t {
      l, closed := BlockLeads(t, flag);
    } else if d :| StartsRaw(t, d) {
      l, closed := RawLeads(t, flag, d);
    } else {
      l, closed := Visible(t[0]), true;
      ByteLeads(t, flag);
    }
  }

  lemma ByteLeads(t: string, flag: bool)
    requires t != "" && !Opens(t, flag)
    ensures Leads(t, flag, Visible(t[0]), true, "")
  {
  }

  lemma JoinLexeme(t: string, flag: bool, l: Lexeme, more: seq<Lexeme>, e: Ending)
    requires WellSpelled(l) && IsClosed(l) && StartsHere(l, t, flag) && Text(l) <= t
    requires t[|Text(l)|..] == Written(more, e) && WellWritten(more, e, LineStartAfter(l, flag))
    ensures t == Written([l] + more, e) && WellWritten([l] + more, e, flag)
  {
    hide StartsHere; hide WellSpelled; hide IsClosed; hide LineStartAfter; hide Text; hide EndText; hide EndAllowed;
    var lexemes := [l] + more;
    assert lexemes[0] == l && lexemes[1..] == more;
    assert t == Text(l) + t[|Text(l)|..];
  }

  lemma {:induction false} SplitText(t: string, flag: bool) returns (lexemes: seq<Lexeme>, e: Ending)
    ensures t == Written(lexemes, e) && WellWritten(lexemes, e, flag)
    decreases |t|
  {
    hide StartsHere; hide WellSpelled; hide TailAllowed; hide IsClosed; hide LineStartAfter; hide Text; hide Begin;
    hide Inside;
    if t == "" {
      lexemes, e := [], Clean;
    } else {
      var l, closed, tail := SomethingLeads(t, flag);
      if closed {
        var more;
        more, e := SplitText(t[|Text(l)|..], LineStartAfter(l, flag));
        lexemes := [l] + more;
        JoinLexeme(t, flag, l, more, e);
      } else {
        lexemes, e := [], Unclosed(l, tail);
      }
    }
  }

  /** Every text is a list of lexemes with an ending, so the grammar decides what the scanner
      gives for it. */
  lemma EveryTextIsRead(src: string) returns (lexemes: seq<Lexeme>, e: Ending)
    ensures src == Written(lexemes, e) && WellWritten(lexemes, e, true)
    ensures Lex(src) == Reading("", lexemes, e)
  {
    lexemes, e := SplitText(src, true);
    WrittenIsRead(lexemes, e);
  }

  ghost predicate IsReading(src: string, lexemes: seq<Lexeme>, e: Ending) {
    src == Written(lexemes, e) && WellWritten(lexemes, e, true)
  }

  /** The scanner's answer is `r` exactly when the text is made of lexemes that read as `r`. */
  lemma LexIsTheGrammar(src: string, r: Lexed)
    ensures Lex(src) == r <==> exists lexemes, e :: IsReading(src, lexemes, e) && Reading("", lexemes, e) == r
  {
    hide Lex; hide Reading; hide Written; hide WellWritten;
    var found, ending := EveryTextIsRead(src);
    assert IsReading(src, found, ending);
    forall lexemes, e | IsReading(src, lexemes, e) ensures Reading("", lexemes, e) == Lex(src) {
      WrittenIsRead(lexemes, e);
    }
  }
}
