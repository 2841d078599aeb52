/** The seven-state scanner that blanks everything which is not code. */
module Lexer {
  import opened Common

  datatype LexError =
    | UnterminatedBlockComment
    | UnterminatedStringLiteral
    | UnterminatedCharacterLiteral
    | UnterminatedRawStringLiteral

  /** Scanner state; an open construct remembers where it began. */
  datatype Mode =
    | Code
    | LineComment
    | BlockComment(start: int)
    | StringLiteral(start: int)
    | CharacterLiteral(start: int)
    | RawString(start: int, delimiter: string)
    | Directive

  datatype Config = Config(mode: Mode, pos: int, atLineStart: bool)

  /** One iteration of the scanner: `length` bytes are consumed, and they are
      either code (`keep`) or blanked. */
  datatype Step =
    | Move(length: nat, mode: Mode, atLineStart: bool, keep: bool)
    | Fail(error: LexError, at: int)

  datatype Reached =
    | At(config: Config, text: string)
    | Stuck(error: LexError, at: int)

  type Lexed = Result<string, (LexError, int)>

  const START := Config(Code, 0, true)

  function Blank(c: char): char {
    if c == '\n' || c == '\r' then c else ' '
  }

  function BlankAll(s: string): (r: string)
    ensures |r| == |s|
  {
    seq(|s|, i requires 0 <= i < |s| => Blank(s[i]))
  }

  predicate IsRawDelimiterCharacter(c: char) {
    !IsSpace(c) && c != '(' && c != ')' && c != '\\'
  }

  /** Index of the `(` that ends a raw-string delimiter, scanning `[i, limit)`. */
  function ScanDelimiter(src: string, i: nat, limit: nat): (r: Option<nat>)
    requires i <= |src| && limit <= |src|
    ensures r.Some? ==> i <= r.value < limit && src[r.value] == '('
    ensures r.Some? ==> forall k :: i <= k < r.value ==> IsRawDelimiterCharacter(src[k])
    decreases limit - i
  {
    if i >= limit then None
    else if src[i] == '(' then Some(i)
    else if !IsRawDelimiterCharacter(src[i]) then None
    else ScanDelimiter(src, i + 1, limit)
  }

  function RawOpening(src: string, p: nat): (r: Option<nat>)
    ensures r.Some? ==> p + 2 <= r.value < Min(|src|, p + 19) && src[p] == 'R' && src[p + 1] == '"' &&
                        src[r.value] == '('
    ensures r.Some? ==> forall k :: p + 2 <= k < r.value ==> IsRawDelimiterCharacter(src[k])
  {
    if p + 1 >= |src| || src[p] != 'R' || src[p + 1] != '"' then None
    else ScanDelimiter(src, p + 2, Min(|src|, p + 19))
  }

  predicate DirectiveContinued(src: string, newline: nat)
    requires newline < |src|
  {
    newline != 0 &&
    (src[newline - 1] == '\\' ||
     (newline >= 2 && src[newline - 1] == '\r' && src[newline - 2] == '\\'))
  }

  function Closing(delimiter: string): string {
    ")" + delimiter + "\""
  }

  predicate NextIs(src: string, p: nat, c: char) {
    p + 1 < |src| && src[p + 1] == c
  }

  predicate ClosesRaw(src: string, p: nat, delimiter: string) {
    p + |delimiter| + 2 <= |src| && src[p..p + |delimiter| + 2] == Closing(delimiter)
  }

  function StepCode(src: string, p: nat, atLineStart: bool): (s: Step)
    requires p < |src|
    ensures s.Move? && 1 <= s.length && p + s.length <= |src|
    ensures s.keep ==> s.length == 1 && s.mode == Code
  {
    var c := src[p];
    if c == '\n' then Move(1, Code, true, true)
    else if atLineStart && (c == ' ' || c == '\t' || c == '\r') then Move(1, Code, true, true)
    else if atLineStart && c == '#' then Move(1, Directive, false, false)
    else if c == '/' && NextIs(src, p, '/') then Move(2, LineComment, false, false)
    else if c == '/' && NextIs(src, p, '*') then Move(2, BlockComment(p), false, false)
    else
      match RawOpening(src, p)
      case Some(q) => Move(q + 1 - p, RawString(p, src[p + 2..q]), false, false)
      case None =>
        if c == '"' then Move(1, StringLiteral(p), false, false)
        else if c == '\'' then Move(1, CharacterLiteral(p), false, false)
        else Move(1, Code, false, true)
  }

  /** How many bytes a quoted literal consumes at `p` when it is not closed there. */
  function QuotedLength(src: string, p: nat): (n: nat)
    requires p < |src|
    ensures 1 <= n && p + n <= |src|
  {
    if src[p] != '\\' || p + 1 >= |src| then 1
    else if src[p + 1] == '\r' && p + 2 < |src| && src[p + 2] == '\n' then 3
    else 2
  }

  function StepQuoted(src: string, c: Config, quote: char, error: LexError, start: int): (s: Step)
    requires 0 <= c.pos < |src|
    ensures s.Move? ==> 1 <= s.length && c.pos + s.length <= |src| && !s.keep
  {
    if src[c.pos] == '\n' then Fail(error, start)
    else if src[c.pos] == quote then Move(1, Code, c.atLineStart, false)
    else Move(QuotedLength(src, c.pos), c.mode, c.atLineStart, false)
  }

  function NextStep(src: string, c: Config): (s: Step)
    requires 0 <= c.pos < |src|
    ensures s.Move? ==> 1 <= s.length && c.pos + s.length <= |src|
    ensures s.Move? && s.keep ==> s.length == 1 && s.mode == Code && c.mode == Code
  {
    var ch := src[c.pos];
    match c.mode
    case Code => StepCode(src, c.pos, c.atLineStart)
    case LineComment =>
      if ch == '\n' then Move(1, Code, true, false) else Move(1, LineComment, c.atLineStart, false)
    case BlockComment(_) =>
      if ch == '*' && NextIs(src, c.pos, '/') then Move(2, Code, c.atLineStart, false)
      else Move(1, c.mode, ch == '\n' || c.atLineStart, false)
    case StringLiteral(start) => StepQuoted(src, c, '"', UnterminatedStringLiteral, start)
    case CharacterLiteral(start) => StepQuoted(src, c, '\'', UnterminatedCharacterLiteral, start)
    case RawString(_, delimiter) =>
      if ch == ')' && ClosesRaw(src, c.pos, delimiter) then Move(|delimiter| + 2, Code, c.atLineStart, false)
      else Move(1, c.mode, c.atLineStart, false)
    case Directive =>
      if ch == '\n' && !DirectiveContinued(src, c.pos) then Move(1, Code, true, false)
      else Move(1, Directive, c.atLineStart, false)
  }

  function Emitted(src: string, p: nat, s: Step): (r: string)
    requires s.Move? && p + s.length <= |src|
    ensures |r| == s.length
  {
    if s.keep then src[p..p + s.length] else BlankAll(src[p..p + s.length])
  }

  function After(c: Config, s: Step): Config
    requires s.Move?
  {
    Config(s.mode, c.pos + s.length, s.atLineStart)
  }

  function Prepend(text: string, r: Reached): Reached {
    match r
    case At(c, rest) => At(c, text + rest)
    case Stuck(_, _) => r
  }

  /** Runs the scanner from `c` until its position is at least `stop`. */
  function RunTo(src: string, c: Config, stop: nat): (r: Reached)
    requires 0 <= c.pos <= |src| && stop <= |src|
    ensures r.At? ==> stop <= r.config.pos <= |src| && c.pos <= r.config.pos
    ensures r.At? ==> |r.text| == r.config.pos - c.pos
    decreases |src| - c.pos
  {
    if c.pos >= stop then At(c, "")
    else
      var s := NextStep(src, c);
      match s
      case Fail(e, at) => Stuck(e, at)
      case Move(_, _, _, _) => Prepend(Emitted(src, c.pos, s), RunTo(src, After(c, s), stop))
  }

  function Finish(r: Reached): Lexed {
    match r
    case Stuck(e, at) => Err((e, at))
    case At(c, text) =>
      match c.mode
      case BlockComment(start) => Err((UnterminatedBlockComment, start))
      case StringLiteral(start) => Err((UnterminatedStringLiteral, start))
      case CharacterLiteral(start) => Err((UnterminatedCharacterLiteral, start))
      case RawString(start, _) => Err((UnterminatedRawStringLiteral, start))
      case _ => Ok(text)
  }

  /** The sanitized text of a source file, or the construct left open. */
  function Lex(src: string): (r: Lexed)
    ensures r.Ok? ==> |r.value| == |src|
  {
    Finish(RunTo(src, START, |src|))
  }

  // ------------------------------------------------------------------
  // General facts about runs
  // ------------------------------------------------------------------

  /** A run may be cut at any intermediate stopping point. */
  lemma {:induction false} RunSplit(src: string, c: Config, mid: nat, stop: nat)
    requires 0 <= c.pos <= |src| && mid <= stop <= |src|
    ensures RunTo(src, c, mid).Stuck? ==> RunTo(src, c, stop) == RunTo(src, c, mid)
    ensures RunTo(src, c, mid).At? ==>
      RunTo(src, c, stop) == Prepend(RunTo(src, c, mid).text, RunTo(src, RunTo(src, c, mid).config, stop))
    decreases |src| - c.pos
  {
    hide NextStep;
    hide Emitted;
    if c.pos >= mid {
      assert RunTo(src, c, mid) == At(c, "");
      match RunTo(src, c, stop)
      case At(_, t) => assert "" + t == t;
      case Stuck(_, _) =>
    } else {
      var s := NextStep(src, c);
      if s.Move? {
        RunSplit(src, After(c, s), mid, stop);
        var e := Emitted(src, c.pos, s);
        var first := RunTo(src, After(c, s), mid);
        if first.At? {
          var rest := RunTo(src, first.config, stop);
          if rest.At? {
            assert e + (first.text + rest.text) == (e + first.text) + rest.text;
          }
        }
      }
    }
  }

  /** Each sanitized byte is the original byte or its blank, and a byte that is
      neither a space nor a line break is original code. */
  lemma {:induction false} RunBytes(src: string, c: Config, stop: nat, k: nat)
    requires 0 <= c.pos <= |src| && stop <= |src|
    requires RunTo(src, c, stop).At? && k < |RunTo(src, c, stop).text|
    ensures RunTo(src, c, stop).text[k] == src[c.pos + k] || RunTo(src, c, stop).text[k] == Blank(src[c.pos + k])
    decreases |src| - c.pos
  {
    hide NextStep;
    if c.pos < stop {
      var s := NextStep(src, c);
      if k >= s.length {
        RunBytes(src, After(c, s), stop, k - s.length);
      }
    }
  }

  lemma KeepingStep(src: string, c: Config)
    requires 0 <= c.pos < |src|
    requires src[c.pos] != ' ' && src[c.pos] != '\n' && src[c.pos] != '\r'
    requires NextStep(src, c).Move? && NextStep(src, c).keep
    ensures src[c.pos] != '\t' || !c.atLineStart ==> NextStep(src, c) == Move(1, Code, false, true)
  {
  }

  /** A byte that survived as something other than blank space was consumed by
      an iteration that started exactly there in code mode. */
  lemma {:induction false} KeptByte(src: string, c: Config, stop: nat, k: nat)
    requires 0 <= c.pos <= |src| && stop <= |src|
    requires RunTo(src, c, stop).At? && k < |RunTo(src, c, stop).text|
    requires var ch := RunTo(src, c, stop).text[k]; !IsSpace(ch)
    ensures c.pos + k < stop
    ensures var r := RunTo(src, c, c.pos + k);
            r.At? && r.config.pos == c.pos + k && r.config.mode == Code &&
            NextStep(src, r.config) == Move(1, Code, false, true) &&
            src[c.pos + k] == RunTo(src, c, stop).text[k]
    decreases |src| - c.pos
  {
    hide NextStep;
    var s := NextStep(src, c);
    if k >= s.length {
      KeptByte(src, After(c, s), stop, k - s.length);
    } else {
      assert RunTo(src, c, stop).text[k] == Emitted(src, c.pos, s)[k];
      assert s.keep;
      assert k == 0;
      KeepingStep(src, c);
      assert RunTo(src, c, c.pos) == At(c, "");
    }
  }

  /** Sanitizing keeps the length and every line break, and otherwise changes
      bytes only to spaces. */
  lemma LexPreservesLayout(src: string, i: nat)
    requires Lex(src).Ok? && i < |src|
    ensures Lex(src).value[i] == src[i] || Lex(src).value[i] == ' '
    ensures (src[i] == '\n' || src[i] == '\r') ==> Lex(src).value[i] == src[i]
  {
    RunBytes(src, START, |src|, i);
  }

  // ------------------------------------------------------------------
  // The scanner as it runs: one loop over a buffer blanked in place
  // ------------------------------------------------------------------

  datatype LexerState =
    | InCode | InLineComment | InBlockComment | InString | InCharacter | InRawString | InDirective

  function ModeOf(state: LexerState, constructStart: int, delimiter: string): Mode {
    match state
    case InCode => Code
    case InLineComment => LineComment
    case InBlockComment => BlockComment(constructStart)
    case InString => StringLiteral(constructStart)
    case InCharacter => CharacterLiteral(constructStart)
    case InRawString => RawString(constructStart, delimiter)
    case InDirective => Directive
  }

  method BlankRange(buffer: array<char>, from: nat, to: nat)
    requires from <= to <= buffer.Length
    modifies buffer
    ensures buffer[..from] == old(buffer[..from])
    ensures buffer[from..to] == BlankAll(old(buffer[from..to]))
    ensures buffer[to..] == old(buffer[to..])
  {
    var current := from;
    while current < to
      invariant from <= current <= to
      invariant forall i :: 0 <= i < from || current <= i < buffer.Length ==> buffer[i] == old(buffer[i])
      invariant forall i :: from <= i < current ==> buffer[i] == Blank(old(buffer[i]))
    {
      if buffer[current] != '\n' && buffer[current] != '\r' {
        buffer[current] := ' ';
      }
      current := current + 1;
    }
  }

  method FindRawStringOpening(source: string, rawStart: nat) returns (opening: Option<nat>)
    ensures opening == RawOpening(source, rawStart)
  {
    if rawStart + 1 >= |source| || source[rawStart] != 'R' || source[rawStart + 1] != '"' {
      return None;
    }
    var limit := if |source| <= rawStart + 19 then |source| else rawStart + 19;
    var offset := rawStart + 2;
    while offset < limit
      invariant rawStart + 2 <= offset <= limit
      invariant ScanDelimiter(source, rawStart + 2, limit) == ScanDelimiter(source, offset, limit)
    {
      if source[offset] == '(' {
        return Some(offset);
      }
      if !IsRawDelimiterCharacter(source[offset]) {
        return None;
      }
      offset := offset + 1;
    }
    return None;
  }

  /** Blanks the bytes of one iteration unless they are code. */
  method EmitStep(buffer: array<char>, source: string, offset: nat, length: nat, keep: bool, ghost step: Step)
    requires step.Move? && step.length == length && step.keep == keep
    requires offset + length <= buffer.Length == |source|
    requires buffer[offset..] == source[offset..]
    modifies buffer
    ensures buffer[..offset + length] == old(buffer[..offset]) + Emitted(source, offset, step)
    ensures buffer[offset + length..] == source[offset + length..]
  {
    ghost var tail := buffer[offset..];
    assert buffer[offset..offset + length] == tail[..length] == source[offset..offset + length];
    assert buffer[offset + length..] == tail[length..] == source[offset + length..];
    if !keep {
      BlankRange(buffer, offset, offset + length);
    }
    assert buffer[..offset + length] == buffer[..offset] + buffer[offset..offset + length];
  }

  /** Absorbs one iteration into the part of the run already done. */
  lemma Advance(src: string, done: string, c: Config, s: Step, emitted: string)
    requires 0 <= c.pos < |src| && s == NextStep(src, c) && s.Move?
    requires emitted == Emitted(src, c.pos, s)
    requires RunTo(src, START, |src|) == Prepend(done, RunTo(src, c, |src|))
    ensures RunTo(src, START, |src|) == Prepend(done + emitted, RunTo(src, After(c, s), |src|))
  {
    hide NextStep;
    match RunTo(src, After(c, s), |src|)
    case At(_, rest) => assert done + (emitted + rest) == (done + emitted) + rest;
    case Stuck(_, _) =>
  }

  /** One turn of the loop: the new state, how many bytes it consumed, and
      whether they are code. */
  method ScanOne(source: string, offset: nat, state0: LexerState, start0: int, delimiter0: string, atLineStart0: bool)
    returns (state: LexerState, constructStart: int, delimiter: string, atLineStart: bool,
             length: nat, keep: bool, error: Option<LexError>)
    requires offset < |source|
    ensures NextStep(source, Config(ModeOf(state0, start0, delimiter0), offset, atLineStart0)) ==
            if error.Some? then Fail(error.value, constructStart)
            else Move(length, ModeOf(state, constructStart, delimiter), atLineStart, keep)
  {
    state, constructStart, delimiter, atLineStart := state0, start0, delimiter0, atLineStart0;
    length, keep, error := 1, false, None;
    var character := source[offset];
    match state {
      case InCode =>
        if character == '\n' {
          atLineStart, keep := true, true;
        } else if atLineStart && (character == ' ' || character == '\t' || character == '\r') {
          keep := true;
        } else if atLineStart && character == '#' {
          state, atLineStart := InDirective, false;
        } else {
          atLineStart := false;
          if character == '/' && offset + 1 < |source| && source[offset + 1] == '/' {
            state, constructStart, length := InLineComment, offset, 2;
          } else if character == '/' && offset + 1 < |source| && source[offset + 1] == '*' {
            state, constructStart, length := InBlockComment, offset, 2;
          } else {
            var opening := FindRawStringOpening(source, offset);
            if opening.Some? {
              state, constructStart := InRawString, offset;
              delimiter := source[offset + 2..opening.value];
              length := opening.value + 1 - offset;
            } else if character == '"' {
              state, constructStart := InString, offset;
            } else if character == '\'' {
              state, constructStart := InCharacter, offset;
            } else {
              keep := true;
            }
          }
        }
      case InLineComment =>
        if character == '\n' {
          state, atLineStart := InCode, true;
        }
      case InBlockComment =>
        if character == '*' && offset + 1 < |source| && source[offset + 1] == '/' {
          state, length := InCode, 2;
        } else if character == '\n' {
          atLineStart := true;
        }
      case InString =>
        if character == '\n' {
          return state, constructStart, delimiter, atLineStart, length, keep, Some(UnterminatedStringLiteral);
        }
        if character == '\\' && offset + 1 < |source| {
          length := QuotedLength(source, offset);
        } else if character == '"' {
          state := InCode;
        }
      case InCharacter =>
        if character == '\n' {
          return state, constructStart, delimiter, atLineStart, length, keep, Some(UnterminatedCharacterLiteral);
        }
        if character == '\\' && offset + 1 < |source| {
          length := QuotedLength(source, offset);
        } else if character == '\'' {
          state := InCode;
        }
      case InRawString =>
        if character == ')' && ClosesRaw(source, offset, delimiter) {
          length := |delimiter| + 2;
          delimiter := "";
          state := InCode;
        }
      case InDirective =>
        if character == '\n' && !DirectiveContinued(source, offset) {
          state, atLineStart := InCode, true;
        }
    }
  }

  /** The run is over, stuck or complete. */
  lemma LastTurn(src: string, done: string, c: Config)
    requires 0 <= c.pos <= |src|
    requires RunTo(src, START, |src|) == Prepend(done, RunTo(src, c, |src|))
    ensures c.pos == |src| ==> Lex(src) == Finish(At(c, done))
    ensures c.pos < |src| && NextStep(src, c).Fail? ==>
              Lex(src) == Err((NextStep(src, c).error, NextStep(src, c).at))
  {
    hide NextStep;
    assert done + "" == done;
  }

  lemma FirstTurn(src: string)
    ensures RunTo(src, START, |src|) == Prepend("", RunTo(src, START, |src|))
  {
    hide NextStep;
    match RunTo(src, START, |src|)
    case At(_, text) => assert "" + text == text;
    case Stuck(_, _) =>
  }

  method LexSource(source: string) returns (r: Lexed)
    ensures r == Lex(source)
  {
    hide NextStep;
    hide RunTo;
    hide Lex;
    var sanitized := new char[|source|](i requires 0 <= i < |source| => source[i]);
    var state, constructStart, delimiter, atLineStart := InCode, 0, "", true;
    var offset := 0;
    FirstTurn(source);
    assert sanitized[..0] == "";
    while offset < |source|
      invariant 0 <= offset <= |source| && sanitized.Length == |source|
      invariant sanitized[offset..] == source[offset..]
      invariant RunTo(source, START, |source|) ==
                Prepend(sanitized[..offset],
                        RunTo(source, Config(ModeOf(state, constructStart, delimiter), offset, atLineStart), |source|))
    {
      ghost var before := Config(ModeOf(state, constructStart, delimiter), offset, atLineStart);
      ghost var done := sanitized[..offset];
      var length, keep, error;
      state, constructStart, delimiter, atLineStart, length, keep, error :=
        ScanOne(source, offset, state, constructStart, delimiter, atLineStart);
      if error.Some? {
        LastTurn(source, done, before);
        return Err((error.value, constructStart));
      }
      ghost var step := Move(length, ModeOf(state, constructStart, delimiter), atLineStart, keep);
      EmitStep(sanitized, source, offset, length, keep, step);
      Advance(source, done, before, step, Emitted(source, offset, step));
      offset := offset + length;
    }
    assert sanitized[..offset] == sanitized[..];
    LastTurn(source, sanitized[..], Config(ModeOf(state, constructStart, delimiter), offset, atLineStart));
    match state {
      case InBlockComment => return Err((UnterminatedBlockComment, constructStart));
      case InString => return Err((UnterminatedStringLiteral, constructStart));
      case InCharacter => return Err((UnterminatedCharacterLiteral, constructStart));
      case InRawString => return Err((UnterminatedRawStringLiteral, constructStart));
      case _ => return Ok(sanitized[..]);
    }
  }
}
