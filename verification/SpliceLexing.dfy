/** Replacing the bytes between two body braces: what the scanner then sees. */
module SpliceLexing {
  import opened Common
  import opened Lexer

  /** `y` repeats the bytes `[lo, hi)` of `x`, displaced by `d`. */
  ghost predicate Agree(x: string, y: string, lo: int, hi: int, d: int) {
    0 <= lo <= hi <= |x| && 0 <= lo + d && hi + d <= |y| &&
    forall i :: lo <= i < hi ==> x[i] == y[i + d]
  }

  function ShiftMode(m: Mode, d: int): Mode {
    match m
    case BlockComment(start) => BlockComment(start + d)
    case StringLiteral(start) => StringLiteral(start + d)
    case CharacterLiteral(start) => CharacterLiteral(start + d)
    case RawString(start, delimiter) => RawString(start + d, delimiter)
    case _ => m
  }

  function Shift(c: Config, d: int): Config {
    Config(ShiftMode(c.mode, d), c.pos + d, c.atLineStart)
  }

  function ShiftStep(s: Step, d: int): Step {
    match s
    case Move(n, m, l, k) => Move(n, ShiftMode(m, d), l, k)
    case Fail(e, at) => Fail(e, at + d)
  }

  function ShiftReached(r: Reached, d: int): Reached {
    match r
    case At(c, text) => At(Shift(c, d), text)
    case Stuck(e, at) => Stuck(e, at + d)
  }

  predicate IsBrace(c: char) {
    c == '{' || c == '}'
  }

  /** The scanner is at `c`, where looking back stays within the agreeing bytes. */
  ghost predicate Anchored(c: Config, lo: int, d: int) {
    (lo == 0 && d == 0) || (lo + 1 <= c.pos && (c.mode == Directive ==> lo + 2 <= c.pos))
  }

  /** The scan for a raw-string delimiter that begins at `p` runs over `cut`. */
  predicate RawCrosses(src: string, p: nat, cut: nat) {
    RawOpening(src, p).Some? && RawOpening(src, p).value > cut
  }

  // ------------------------------------------------------------------
  // One step
  // ------------------------------------------------------------------

  ghost predicate OpensRawAt(src: string, p: nat, q: nat) {
    p + 2 <= q < p + 19 && q < |src| && src[p] == 'R' && src[p + 1] == '"' && src[q] == '(' &&
    forall k :: p + 2 <= k < q ==> IsRawDelimiterCharacter(src[k])
  }

  lemma {:induction false} ScanFinds(src: string, i: nat, limit: nat, q: nat)
    requires i <= q < limit <= |src| && src[q] == '('
    requires forall k :: i <= k < q ==> IsRawDelimiterCharacter(src[k])
    ensures ScanDelimiter(src, i, limit) == Some(q)
    decreases q - i
  {
    if i < q {
      ScanFinds(src, i + 1, limit, q);
    }
  }

  lemma RawOpeningFinds(src: string, p: nat, q: nat)
    requires OpensRawAt(src, p, q)
    ensures RawOpening(src, p) == Some(q)
  {
    ScanFinds(src, p + 2, Min(|src|, p + 19), q);
  }

  lemma RawOpeningAgrees(x: string, y: string, lo: int, hi: int, d: int, p: nat)
    requires Agree(x, y, lo, hi, d) && lo <= p && p + 1 < hi
    requires RawOpening(x, p).Some? ==> RawOpening(x, p).value < hi
    requires RawOpening(y, p + d).Some? ==> RawOpening(y, p + d).value < hi + d
    ensures RawOpening(x, p).None? <==> RawOpening(y, p + d).None?
    ensures RawOpening(x, p).Some? ==>
              RawOpening(y, p + d) == Some(RawOpening(x, p).value + d) &&
              x[p + 2..RawOpening(x, p).value] == y[p + 2 + d..RawOpening(x, p).value + d]
  {
    if RawOpening(x, p).Some? {
      assert forall k :: p + d + 2 <= k < RawOpening(x, p).value + d ==> y[k] == x[k - d];
      RawOpeningFinds(y, p + d, RawOpening(x, p).value + d);
    } else if RawOpening(y, p + d).Some? {
      RawOpeningFinds(x, p, RawOpening(y, p + d).value - d);
    }
  }

  lemma CodeStepAgrees(x: string, y: string, lo: int, hi: int, d: int, p: nat, l: bool)
    requires Agree(x, y, lo, hi, d) && lo <= p < hi && (p + 1 < hi || (hi == |x| && hi + d == |y|))
    requires x[p] == 'R' && p + 1 < hi ==>
               (RawOpening(x, p).Some? ==> RawOpening(x, p).value < hi) &&
               (RawOpening(y, p + d).Some? ==> RawOpening(y, p + d).value < hi + d)
    ensures StepCode(y, p + d, l) == ShiftStep(StepCode(x, p, l), d)
  {
    hide RawOpening;
    if x[p] == 'R' && p + 1 < hi {
      RawOpeningAgrees(x, y, lo, hi, d, p);
    } else {
      NotRaw(x, p);
      NotRaw(y, p + d);
    }
  }

  lemma NotRaw(src: string, p: nat)
    requires p < |src| && (src[p] != 'R' || p + 1 >= |src|)
    ensures RawOpening(src, p).None?
  {
  }

  /** Two sources that agree up to a brace take the same step, as long as the
      step stays before the brace and no raw-string scan runs over it. */
  lemma StepBeforeCut(x: string, y: string, lo: int, hi: int, d: int, c: Config)
    requires Agree(x, y, lo, hi, d) && lo <= c.pos && c.pos + 1 < hi && Anchored(c, lo, d)
    requires NextStep(x, c).Move? && c.pos + NextStep(x, c).length < hi
    requires c.mode == Code && NextStep(x, c).keep && x[c.pos] == 'R' ==> !RawCrosses(y, c.pos + d, hi - 1 + d)
    requires IsBrace(x[hi - 1])
    requires c.mode.RawString? ==>
               (ClosesRaw(x, c.pos, c.mode.delimiter) <==> ClosesRaw(y, c.pos + d, c.mode.delimiter))
    ensures NextStep(y, Shift(c, d)) == ShiftStep(NextStep(x, c), d)
  {
    hide RawOpening;
    hide ClosesRaw;
    match c.mode {
      case Code =>
        if x[c.pos] == 'R' {
          RawStepInside(x, y, lo, hi, d, c);
        }
        hide StepCode;
        CodeStepAgrees(x, y, lo, hi, d, c.pos, c.atLineStart);
      case _ =>
        hide StepCode;
    }
  }

  lemma RawStepInside(x: string, y: string, lo: int, hi: int, d: int, c: Config)
    requires Agree(x, y, lo, hi, d) && lo <= c.pos && c.pos + 1 < hi && c.mode == Code && x[c.pos] == 'R'
    requires var s := NextStep(x, c); c.pos + s.length < hi && (s.keep ==> !RawCrosses(y, c.pos + d, hi - 1 + d))
    requires IsBrace(x[hi - 1])
    ensures RawOpening(x, c.pos).Some? ==> RawOpening(x, c.pos).value < hi
    ensures RawOpening(y, c.pos + d).Some? ==> RawOpening(y, c.pos + d).value < hi + d
  {
    hide ScanDelimiter;
    var r := RawOpening(x, c.pos);
    if r.Some? {
      assert NextStep(x, c).length == r.value + 1 - c.pos;
      assert forall k :: c.pos + d + 2 <= k < r.value + d ==> y[k] == x[k - d];
      RawOpeningFinds(y, c.pos + d, r.value + d);
    } else if RawOpening(y, c.pos + d).Some? {
      assert NextStep(x, c).keep;
      assert y[hi - 1 + d] != '(';
    }
  }

  /** The same for two sources that agree up to their ends. */
  lemma StepBeforeEnd(x: string, y: string, lo: int, d: int, c: Config)
    requires Agree(x, y, lo, |x|, d) && |y| == |x| + d && lo <= c.pos < |x| && Anchored(c, lo, d)
    ensures NextStep(y, Shift(c, d)) == ShiftStep(NextStep(x, c), d)
  {
    hide RawOpening;
    hide StepCode;
    match c.mode {
      case Code =>
        CodeStepAgrees(x, y, lo, |x|, d, c.pos, c.atLineStart);
      case RawString(_, delimiter) =>
        ClosesRawAgrees(x, y, lo, d, c.pos, delimiter);
        hide ClosesRaw;
      case _ =>
    }
  }

  lemma ClosesRawAgrees(x: string, y: string, lo: int, d: int, p: nat, delimiter: string)
    requires Agree(x, y, lo, |x|, d) && |y| == |x| + d && lo <= p < |x|
    ensures ClosesRaw(x, p, delimiter) <==> ClosesRaw(y, p + d, delimiter)
  {
    var n := |delimiter| + 2;
    if p + n <= |x| {
      assert x[p..p + n] == y[p + d..p + d + n];
    }
  }

  lemma NextAnchored(src: string, c: Config, lo: int, d: int)
    requires 0 <= c.pos < |src| && lo <= c.pos && Anchored(c, lo, d)
    requires NextStep(src, c).Move?
    ensures Anchored(After(c, NextStep(src, c)), lo, d)
  {
    hide ScanDelimiter;
  }

  lemma KeptFirst(x: string, p: nat, s: Step)
    requires s.Move? && s.keep && 1 <= s.length && p + s.length <= |x|
    ensures Emitted(x, p, s)[0] == x[p]
  {
  }

  lemma EmitsAgree(x: string, y: string, lo: int, hi: int, d: int, p: nat, s: Step)
    requires Agree(x, y, lo, hi, d) && lo <= p && s.Move? && p + s.length <= hi
    ensures Emitted(x, p, s) == Emitted(y, p + d, ShiftStep(s, d))
  {
    assert x[p..p + s.length] == y[p + d..p + d + s.length];
  }

  // ------------------------------------------------------------------
  // Raw strings: a literal that is closed before the brace in one source
  // cannot be closed earlier in the other
  // ------------------------------------------------------------------

  lemma {:induction false} RawClosesLater(src: string, c: Config, stop: nat) returns (q: nat)
    requires 0 <= c.pos <= |src| && stop <= |src| && c.mode.RawString?
    requires var r := RunTo(src, c, stop); r.At? && r.config.pos == stop && r.config.mode == Code
    ensures c.pos <= q && q + |c.mode.delimiter| + 2 <= stop && ClosesRaw(src, q, c.mode.delimiter)
    decreases |src| - c.pos
  {
    if ClosesRaw(src, c.pos, c.mode.delimiter) && src[c.pos] == ')' {
      q := c.pos;
    } else {
      q := RawClosesLater(src, After(c, NextStep(src, c)), stop);
    }
  }

  lemma RawClosingAgrees(x: string, y: string, lo: int, hi: int, d: int, c: Config)
    requires Agree(x, y, lo, hi, d) && lo <= c.pos < hi && c.mode.RawString?
    requires var r := RunTo(x, c, hi - 1); r.At? && r.config.pos == hi - 1 && r.config.mode == Code
    ensures ClosesRaw(x, c.pos, c.mode.delimiter) <==> ClosesRaw(y, c.pos + d, c.mode.delimiter)
  {
    hide NextStep;
    hide RunTo;
    var delimiter := c.mode.delimiter;
    var n := |delimiter| + 2;
    var q := RawClosesLater(x, c, hi - 1);
    assert x[c.pos..c.pos + n] == y[c.pos + d..c.pos + d + n];
  }

  // ------------------------------------------------------------------
  // Whole runs
  // ------------------------------------------------------------------

  /** No code byte `R` of `text` (which starts at `from`) begins a raw-string
      scan in `src` that runs over `cut`. */
  predicate NoRawOver(src: string, from: nat, text: string, cut: nat) {
    forall k :: 0 <= k < |text| && text[k] == 'R' ==> !RawCrosses(src, from + k, cut)
  }

  lemma {:induction false} RunBeforeCut(x: string, y: string, lo: int, hi: int, d: int, c: Config)
    requires Agree(x, y, lo, hi, d) && lo <= c.pos < hi && IsBrace(x[hi - 1])
    requires Anchored(c, lo, d)
    requires var r := RunTo(x, c, hi - 1); r.At? && r.config.pos == hi - 1 && r.config.mode == Code
    requires NoRawOver(y, c.pos + d, RunTo(x, c, hi - 1).text, hi - 1 + d)
    ensures RunTo(y, Shift(c, d), hi - 1 + d) == ShiftReached(RunTo(x, c, hi - 1), d)
    decreases hi - c.pos
  {
    hide NextStep;
    hide Emitted;
    hide RawOpening;
    hide ClosesRaw;
    hide Anchored;
    if c.pos < hi - 1 {
      var s := NextStep(x, c);
      var next := After(c, s);
      var out, rest := RunTo(x, c, hi - 1).text, RunTo(x, next, hi - 1).text;
      assert out == Emitted(x, c.pos, s) + rest;
      if c.mode.RawString? {
        RawClosingAgrees(x, y, lo, hi, d, c);
      }
      if s.keep && x[c.pos] == 'R' {
        KeptFirst(x, c.pos, s);
        assert out[0] == 'R';
      }
      StepBeforeCut(x, y, lo, hi, d, c);
      NextAnchored(x, c, lo, d);
      EmitsAgree(x, y, lo, hi, d, c.pos, s);
      forall k | 0 <= k < |rest| && rest[k] == 'R' ensures !RawCrosses(y, next.pos + d + k, hi - 1 + d) {
        assert out[s.length + k] == 'R';
      }
      RunBeforeCut(x, y, lo, hi, d, next);
    }
  }

  lemma {:induction false} RunBeforeEnd(x: string, y: string, lo: int, d: int, c: Config)
    requires Agree(x, y, lo, |x|, d) && |y| == |x| + d && lo <= c.pos <= |x|
    requires Anchored(c, lo, d)
    ensures RunTo(y, Shift(c, d), |y|) == ShiftReached(RunTo(x, c, |x|), d)
    decreases |x| - c.pos
  {
    hide NextStep;
    hide Emitted;
    hide RawOpening;
    hide ClosesRaw;
    hide Anchored;
    if c.pos < |x| {
      var s := NextStep(x, c);
      StepBeforeEnd(x, y, lo, d, c);
      if s.Move? {
        NextAnchored(x, c, lo, d);
        EmitsAgree(x, y, lo, |x|, d, c.pos, s);
        RunBeforeEnd(x, y, lo, d, After(c, s));
      }
    }
  }

  /** Runs from the start compose. */
  lemma JoinRuns(src: string, c: Config, text: string, stop: nat)
    requires 0 <= c.pos <= stop <= |src| && RunTo(src, START, c.pos) == At(c, text)
    ensures RunTo(src, START, stop) == Prepend(text, RunTo(src, c, stop))
  {
    RunSplit(src, START, c.pos, stop);
  }

  lemma BraceIsCode(src: string, c: Config)
    requires 0 <= c.pos < |src| && c.mode == Code && IsBrace(src[c.pos])
    ensures NextStep(src, c) == Move(1, Code, false, true)
  {
    hide ScanDelimiter;
  }

  lemma BraceStep(src: string, c: Config)
    requires 0 <= c.pos < |src| && c.mode == Code && IsBrace(src[c.pos])
    ensures RunTo(src, c, c.pos + 1) == At(Config(Code, c.pos + 1, false), [src[c.pos]])
  {
    hide NextStep;
    BraceIsCode(src, c);
    var next := Config(Code, c.pos + 1, false);
    assert RunTo(src, next, c.pos + 1) == At(next, "");
    assert [src[c.pos]] + "" == [src[c.pos]];
  }

  /** A brace that is code splits the scan of its file in two. */
  lemma CutAtBrace(src: string, t: string, p: nat) returns (c: Config)
    requires Lex(src) == Ok(t) && p < |src| && IsBrace(t[p])
    ensures c.pos == p && c.mode == Code && src[p] == t[p]
    ensures RunTo(src, START, p) == At(c, t[..p])
    ensures RunTo(src, START, p + 1) == At(Config(Code, p + 1, false), t[..p + 1])
    ensures Finish(RunTo(src, Config(Code, p + 1, false), |src|)) == Ok(t[p + 1..])
  {
    hide NextStep;
    hide RunTo;
    KeptByte(src, START, |src|, p);
    c := RunTo(src, START, p).config;
    var head := RunTo(src, START, p).text;
    JoinRuns(src, c, head, |src|);
    assert head == t[..p];
    BraceStep(src, c);
    JoinRuns(src, c, head, p + 1);
    var after := Config(Code, p + 1, false);
    assert t[..p + 1] == head + [t[p]];
    JoinRuns(src, after, head + [src[p]], |src|);
    assert t == t[..p + 1] + t[p + 1..];
  }

  // ------------------------------------------------------------------
  // The splice
  // ------------------------------------------------------------------

  /** The file after the bytes strictly between `begin` and `close` were replaced. */
  function Patched(file: string, begin: nat, close: nat, answer: string): string
    requires begin < close < |file|
  {
    file[..begin + 1] + answer + file[close..]
  }

  function Wrapped(answer: string): string {
    "{" + answer + "}"
  }

  /** The old sanitized text with the body replaced by the sanitized wrapped answer. */
  function PatchedText(text: string, begin: nat, close: nat, wrapped: string): string
    requires begin < close < |text|
  {
    text[..begin] + wrapped + text[close + 1..]
  }

  /** No raw-string scan of the patched file, started by a code byte `R` of the old
      prefix or of the answer, runs over a body brace. */
  predicate NoRawCrossing(patched: string, text: string, begin: nat, wrapped: string)
    requires begin <= |text| && |wrapped| >= 1
  {
    NoRawOver(patched, 0, text[..begin], begin) &&
    NoRawOver(patched, begin, wrapped, begin + |wrapped| - 1)
  }

  lemma PrefixRun(file: string, text: string, begin: nat, patched: string) returns (c: Config)
    requires begin < |file| && Lex(file) == Ok(text) && text[begin] == '{'
    requires Agree(file, patched, 0, begin + 1, 0)
    requires NoRawOver(patched, 0, text[..begin], begin)
    ensures RunTo(patched, START, begin + 1) == At(Config(Code, begin + 1, false), text[..begin + 1])
  {
    hide NextStep;
    hide RunTo;
    hide RawOpening;
    hide Lex;
    c := CutAtBrace(file, text, begin);
    RunBeforeCut(file, patched, 0, begin + 1, 0, START);
    BraceStep(patched, c);
    JoinRuns(patched, c, text[..begin], begin + 1);
    assert text[..begin + 1] == text[..begin] + [text[begin]];
  }

  lemma BodyRun(answer: string, wrapped: string, patched: string, d: nat)
    requires var w := Wrapped(answer); Lex(w) == Ok(wrapped) && wrapped[|w| - 1] == '}' && Agree(w, patched, 0, |w|, d)
    requires NoRawOver(patched, d, wrapped, d + |wrapped| - 1)
    ensures RunTo(patched, Config(Code, d + 1, false), d + |wrapped|) ==
            At(Config(Code, d + |wrapped|, false), wrapped[1..])
  {
    hide NextStep;
    hide RunTo;
    hide RawOpening;
    hide Lex;
    var w := Wrapped(answer);
    var n := |w| - 1;
    var inner := Config(Code, 1, false);
    var c := CutAtBrace(w, wrapped, n);
    BraceStep(w, START);
    JoinRuns(w, inner, "{", n);
    var r := RunTo(w, inner, n);
    assert wrapped[..n] == "{" + r.text;
    assert wrapped[1..n] == r.text;
    forall k | 0 <= k < |r.text| && r.text[k] == 'R' ensures !RawCrosses(patched, d + 1 + k, d + n) {
      assert wrapped[k + 1] == 'R';
    }
    RunBeforeCut(w, patched, 0, n + 1, d, inner);
    var c' := Shift(c, d);
    BraceStep(patched, c');
    RunSplit(patched, Config(Code, d + 1, false), d + n, d + n + 1);
    assert wrapped[1..] == wrapped[1..n] + [wrapped[n]];
  }

  lemma FinishShifts(r: Reached, d: int)
    requires Finish(r).Ok?
    ensures Finish(ShiftReached(r, d)) == Finish(r)
  {
  }

  lemma SuffixRun(file: string, text: string, close: nat, patched: string)
    requires close < |file| && Lex(file) == Ok(text) && text[close] == '}'
    requires Agree(file, patched, close, |file|, |patched| - |file|)
    ensures var close' := close + |patched| - |file|;
            Finish(RunTo(patched, Config(Code, close' + 1, false), |patched|)) == Ok(text[close + 1..])
  {
    hide NextStep;
    hide RunTo;
    hide RawOpening;
    hide Lex;
    hide Finish;
    hide ShiftReached;
    var d := |patched| - |file|;
    var after := Config(Code, close + 1, false);
    var c := CutAtBrace(file, text, close);
    RunBeforeEnd(file, patched, close, d, after);
    FinishShifts(RunTo(file, after, |file|), d);
  }

  /** Lexing the answer on its own is enough to know what lexing the patched file
      gives, exactly when no raw-string scan runs over a body brace. */
  lemma SpliceLexes(file: string, text: string, begin: nat, close: nat, answer: string, wrapped: string)
    requires begin < close < |file| && Lex(file) == Ok(text)
    requires text[begin] == '{' && text[close] == '}'
    requires Lex(Wrapped(answer)) == Ok(wrapped) && wrapped[|wrapped| - 1] == '}'
    ensures Lex(Patched(file, begin, close, answer)) == Ok(PatchedText(text, begin, close, wrapped)) <==>
            NoRawCrossing(Patched(file, begin, close, answer), text, begin, wrapped)
  {
    var patched := Patched(file, begin, close, answer);
    if NoRawCrossing(patched, text, begin, wrapped) {
      SpliceForward(file, text, begin, close, answer, wrapped);
    }
    if Lex(patched) == Ok(PatchedText(text, begin, close, wrapped)) {
      SpliceBackward(patched, text, begin, close, wrapped);
    }
  }

  lemma SpliceForward(file: string, text: string, begin: nat, close: nat, answer: string, wrapped: string)
    requires begin < close < |file| && Lex(file) == Ok(text)
    requires text[begin] == '{' && text[close] == '}'
    requires Lex(Wrapped(answer)) == Ok(wrapped) && wrapped[|wrapped| - 1] == '}'
    requires NoRawCrossing(Patched(file, begin, close, answer), text, begin, wrapped)
    ensures Lex(Patched(file, begin, close, answer)) == Ok(PatchedText(text, begin, close, wrapped))
  {
    hide NextStep;
    hide RunTo;
    hide RawOpening;
    var patched := Patched(file, begin, close, answer);
    var c0 := CutAtBrace(file, text, begin);
    var c1 := CutAtBrace(file, text, close);
    var _ := PrefixRun(file, text, begin, patched);
    assert Agree(Wrapped(answer), patched, 0, |wrapped|, begin);
    BodyRun(answer, wrapped, patched, begin);
    SuffixRun(file, text, close, patched);
    var atBody := Config(Code, begin + 1, false);
    var afterBody := Config(Code, begin + |wrapped|, false);
    JoinRuns(patched, atBody, text[..begin + 1], begin + |wrapped|);
    JoinRuns(patched, afterBody, text[..begin + 1] + wrapped[1..], |patched|);
    FirstKept(answer, wrapped);
    assert text[..begin + 1] + wrapped[1..] == text[..begin] + wrapped;
  }

  lemma FirstKept(answer: string, wrapped: string)
    requires Lex(Wrapped(answer)) == Ok(wrapped)
    ensures wrapped[0] == '{'
  {
    hide NextStep;
    hide RunTo;
    hide RawOpening;
    var w := Wrapped(answer);
    BraceStep(w, START);
    JoinRuns(w, Config(Code, 1, false), "{", |w|);
  }

  lemma KeptIsNotRaw(src: string, t: string, k: nat)
    requires Lex(src) == Ok(t) && k < |t| && t[k] == 'R'
    ensures RawOpening(src, k).None?
  {
    hide RunTo;
    hide ScanDelimiter;
    KeptByte(src, START, |src|, k);
  }

  lemma SpliceBackward(patched: string, text: string, begin: nat, close: nat, wrapped: string)
    requires begin < close < |text| && |wrapped| >= 1
    requires Lex(patched) == Ok(PatchedText(text, begin, close, wrapped))
    ensures NoRawCrossing(patched, text, begin, wrapped)
  {
    var t := PatchedText(text, begin, close, wrapped);
    hide RawOpening;
    forall k | 0 <= k < |t| && t[k] == 'R' ensures RawOpening(patched, k).None? {
      KeptIsNotRaw(patched, t, k);
    }
    assert forall k :: 0 <= k < begin ==> text[..begin][k] == t[k];
    assert forall k :: 0 <= k < |wrapped| ==> wrapped[k] == t[begin + k];
  }
}
