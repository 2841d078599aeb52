/** Replacing the bytes between two body braces: what the bracket matcher then sees. */
module SpliceMatching {
  import opened Common
  import opened Brackets
  import opened SpliceLexing

  /** Where a byte outside the replaced body ends up. */
  function Moved(i: int, begin: int, d: int): int {
    if i <= begin then i else i + d
  }

  predicate Outside(i: int, begin: int, close: int) {
    i <= begin || close <= i
  }

  /** No pair of kind `k` has exactly one end inside the body. */
  ghost predicate NoStraddle(s: string, k: Kind, begin: int, close: int) {
    forall i, j :: Pair(s, k, i, j) ==> (begin < i < close <==> begin < j < close)
  }

  lemma {:induction false} DepthAgrees(x: string, y: string, k: Kind, lo: nat, hi: nat, d: int, m: nat)
    requires Agree(x, y, lo, hi, d) && lo <= m <= hi
    ensures Depth(y, k, m + d) - Depth(y, k, lo + d) == Depth(x, k, m) - Depth(x, k, lo)
    decreases m
  {
    if m > lo {
      DepthAgrees(x, y, k, lo, hi, d, m - 1);
      DepthStep(x, k, m - 1);
      DepthStep(y, k, m + d - 1);
    }
  }

  /** The three parts of a spliced text, `g` standing where `[begin, close]` stood. */
  ghost predicate Spliced(f: string, begin: int, close: int, g: string, t: string) {
    0 <= begin < close < |f| && |g| >= 2 && |t| == |f| - (close + 1 - begin) + |g| &&
    Agree(f, t, 0, begin, 0) && Agree(g, t, 0, |g|, begin) && Agree(f, t, close + 1, |f|, |t| - |f|)
  }

  /** Depths of the spliced text in terms of the old text and the new body. */
  lemma SplicedDepth(f: string, k: Kind, begin: int, close: int, g: string, t: string, m: nat)
    requires Spliced(f, begin, close, g, t)
    ensures m <= begin ==> Depth(t, k, m) == Depth(f, k, m)
    ensures m <= |g| ==> Depth(t, k, begin + m) == Depth(f, k, begin) + Depth(g, k, m)
    ensures close < m <= |f| ==>
              Depth(t, k, m + |t| - |f|) ==
              Depth(f, k, begin) + Depth(g, k, |g|) + Depth(f, k, m) - Depth(f, k, close + 1)
  {
    DepthAgrees(f, t, k, 0, begin, 0, if m <= begin then m else begin);
    DepthAgrees(f, t, k, 0, begin, 0, begin);
    DepthAgrees(g, t, k, 0, |g|, begin, if m <= |g| then m else 0);
    DepthAgrees(g, t, k, 0, |g|, begin, |g|);
    if close < m <= |f| {
      DepthAgrees(f, t, k, close + 1, |f|, |t| - |f|, m);
    }
  }

  /** The spliced text is balanced exactly when the old body had as many openers
      as closers, whatever balanced body replaces it. */
  lemma SpliceBalances(f: string, k: Kind, begin: int, close: int, g: string, t: string)
    requires Spliced(f, begin, close, g, t) && Balanced(f, k) && Balanced(g, k)
    ensures Balanced(t, k) <==> Depth(f, k, close + 1) == Depth(f, k, begin)
  {
    SplicedDepth(f, k, begin, close, g, t, |f|);
    if Depth(f, k, close + 1) == Depth(f, k, begin) {
      forall m | 0 <= m <= |t| ensures Depth(t, k, m) >= 0 {
        SplicedDepth(f, k, begin, close, g, t, m);
        if begin <= m <= begin + |g| {
          SplicedDepth(f, k, begin, close, g, t, m - begin);
        } else if begin + |g| < m {
          SplicedDepth(f, k, begin, close, g, t, m - (|t| - |f|));
        }
      }
    }
  }

  /** In balanced text, no pair straddles the body exactly when the body is level. */
  lemma NoStraddleIsLevel(s: string, k: Kind, begin: nat, close: nat)
    requires begin < close < |s| && Balanced(s, k)
    requires k == Parentheses && IsBrace(s[begin]) && IsBrace(s[close])
    ensures NoStraddle(s, k, begin, close) <==> Level(s, k, begin, close + 1)
  {
    DepthStep(s, k, begin);
    DepthStep(s, k, close);
    if Level(s, k, begin, close + 1) {
      LevelHasNoStraddle(s, k, begin, close);
    }
    if NoStraddle(s, k, begin, close) {
      NoStraddleNoDrop(s, k, begin, close, close);
      NoStraddleNoRise(s, k, begin, close, begin);
      forall m | begin <= m <= close ensures Depth(s, k, m) >= Depth(s, k, begin) {
        NoStraddleNoDrop(s, k, begin, close, m);
      }
    }
  }

  lemma LevelHasNoStraddle(s: string, k: Kind, begin: nat, close: nat)
    requires begin < close < |s| && Level(s, k, begin, close + 1)
    requires k == Parentheses && IsBrace(s[begin]) && IsBrace(s[close])
    ensures NoStraddle(s, k, begin, close)
  {
    forall i, j | Pair(s, k, i, j) ensures begin < i < close <==> begin < j < close {
      PairDepth(s, k, i, j);
    }
  }

  lemma {:induction false} NoStraddleNoDrop(s: string, k: Kind, begin: nat, close: nat, m: nat)
    requires begin < close < |s| && Balanced(s, k) && NoStraddle(s, k, begin, close) && begin <= m <= close
    requires k == Parentheses && IsBrace(s[begin])
    ensures Depth(s, k, m) >= Depth(s, k, begin)
    decreases m
  {
    hide Level;
    hide NonNegative;
    if m > begin {
      NoStraddleNoDrop(s, k, begin, close, m - 1);
      DepthStep(s, k, m - 1);
      if s[m - 1] == Closer(k) {
        var i := CloserHasPair(s, k, m - 1);
        PairDepth(s, k, i, m - 1);
        NoStraddleNoDrop(s, k, begin, close, i);
      }
    }
  }

  lemma {:induction false} NoStraddleNoRise(s: string, k: Kind, begin: nat, close: nat, m: nat)
    requires begin < close < |s| && Balanced(s, k) && NoStraddle(s, k, begin, close) && begin <= m <= close
    requires k == Parentheses && IsBrace(s[begin])
    ensures Depth(s, k, m) >= Depth(s, k, close)
    decreases close - m
  {
    hide Level;
    hide NonNegative;
    if m < close {
      DepthStep(s, k, m);
      NoStraddleNoRise(s, k, begin, close, m + 1);
      if s[m] == Opener(k) {
        var j := OpenerHasPair(s, k, m);
        PairDepth(s, k, m, j);
        NoStraddleNoRise(s, k, begin, close, j + 1);
      }
    }
  }

  // ------------------------------------------------------------------
  // Pairs outside the body
  // ------------------------------------------------------------------

  /** Two texts that differ only between `begin` and their closing brace, where
      both bodies are level. The relation is symmetric. */
  ghost predicate SameOutside(f: string, t: string, k: Kind, begin: nat, close: nat, close': nat) {
    begin < close < |f| && begin < close' < |t| && |t| - close' == |f| - close &&
    f[begin] == t[begin] && f[close] == t[close'] &&
    (forall m :: 0 <= m < begin ==> f[m] == t[m]) &&
    (forall m :: 0 <= m <= begin ==> Depth(f, k, m) == Depth(t, k, m)) &&
    (forall m :: close < m < |f| ==> f[m] == t[m + close' - close]) &&
    (forall m :: close < m <= |f| ==> Depth(f, k, m) == Depth(t, k, m + close' - close)) &&
    Level(f, k, begin, close + 1) && Level(t, k, begin, close' + 1)
  }

  lemma SameOutsideSymmetric(f: string, t: string, k: Kind, begin: nat, close: nat, close': nat)
    requires SameOutside(f, t, k, begin, close, close')
    ensures SameOutside(t, f, k, begin, close', close)
  {
    forall m | close' < m <= |t|
      ensures Depth(t, k, m) == Depth(f, k, m + close - close') && (m < |t| ==> t[m] == f[m + close - close']) {
      var n := m + close - close';
      assert Depth(f, k, n) == Depth(t, k, n + close' - close);
      assert n < |f| ==> f[n] == t[n + close' - close];
    }
  }

  lemma SplicedSameOutside(f: string, k: Kind, begin: nat, close: nat, g: string, t: string)
    requires Spliced(f, begin, close, g, t) && Level(f, k, begin, close + 1) && Balanced(g, k)
    requires f[begin] == g[0] && f[close] == g[|g| - 1]
    ensures SameOutside(f, t, k, begin, close, begin + |g| - 1)
  {
    forall m | 0 <= m <= begin ensures Depth(f, k, m) == Depth(t, k, m) {
      SplicedDepth(f, k, begin, close, g, t, m);
    }
    forall m | close < m <= |f| ensures Depth(f, k, m) == Depth(t, k, m + |t| - |f|) {
      SplicedDepth(f, k, begin, close, g, t, m);
    }
    forall m | begin <= m <= begin + |g| ensures Depth(t, k, m) >= Depth(t, k, begin) {
      SplicedDepth(f, k, begin, close, g, t, m - begin);
    }
    SplicedDepth(f, k, begin, close, g, t, |g|);
    assert t[begin] == g[0] && t[begin + |g| - 1] == g[|g| - 1];
  }

  ghost predicate StrictlyOutside(i: int, begin: int, close: int) {
    i < begin || close < i
  }

  lemma PairMoves(f: string, t: string, k: Kind, begin: nat, close: nat, close': nat, i: int, j: int)
    requires SameOutside(f, t, k, begin, close, close') && Pair(f, k, i, j)
    requires StrictlyOutside(i, begin, close) && StrictlyOutside(j, begin, close)
    ensures Pair(t, k, Moved(i, begin, close' - close), Moved(j, begin, close' - close))
  {
    var d := close' - close;
    var i', j' := Moved(i, begin, d), Moved(j, begin, d);
    assert Depth(t, k, i' + 1) == Depth(f, k, i + 1) by {
      DepthStep(f, k, i);
      DepthStep(t, k, i');
    }
    assert Depth(t, k, j') == Depth(f, k, j);
    forall m | i' + 1 <= m <= j' ensures Depth(t, k, m) >= Depth(t, k, i' + 1) {
      if m <= begin {
        assert Depth(f, k, m) == Depth(t, k, m);
      } else if m > close' {
        assert Depth(f, k, m - d) == Depth(t, k, m - d + d);
      } else {
        assert Depth(f, k, begin) >= Depth(f, k, i + 1);
        assert Depth(t, k, m) >= Depth(t, k, begin);
      }
    }
  }

  /** Among brackets outside the body the matching is unchanged. */
  lemma PairsOutside(f: string, t: string, k: Kind, begin: nat, close: nat, close': nat, i: int, j: int)
    requires SameOutside(f, t, k, begin, close, close')
    requires StrictlyOutside(i, begin, close) && StrictlyOutside(j, begin, close)
    ensures Pair(f, k, i, j) <==> Pair(t, k, Moved(i, begin, close' - close), Moved(j, begin, close' - close))
  {
    if Pair(f, k, i, j) {
      PairMoves(f, t, k, begin, close, close', i, j);
    }
    if Pair(t, k, Moved(i, begin, close' - close), Moved(j, begin, close' - close)) {
      SameOutsideSymmetric(f, t, k, begin, close, close');
      PairMoves(t, f, k, begin, close', close, Moved(i, begin, close' - close), Moved(j, begin, close' - close));
    }
  }

  /** The matching of parentheses outside the body is exactly the old one. */
  ghost predicate KeepsPairs(f: string, t: string, k: Kind, begin: int, close: int, close': int) {
    forall i, j ::
      StrictlyOutside(i, begin, close) && StrictlyOutside(j, begin, close) ==>
        (Pair(f, k, i, j) <==> Pair(t, k, Moved(i, begin, close' - close), Moved(j, begin, close' - close)))
  }

  /** Replacing a body by a balanced one keeps the file matched and every outside
      pair in place exactly when no parenthesis pair straddled the old body. */
  lemma SpliceKeepsParentheses(f: string, begin: nat, close: nat, g: string, t: string)
    requires Spliced(f, begin, close, g, t) && Balanced(f, Parentheses) && Balanced(g, Parentheses)
    requires IsBrace(f[begin]) && IsBrace(f[close]) && f[begin] == g[0] && f[close] == g[|g| - 1]
    ensures Balanced(t, Parentheses) && KeepsPairs(f, t, Parentheses, begin, close, begin + |g| - 1) <==>
            NoStraddle(f, Parentheses, begin, close)
  {
    var close' := begin + |g| - 1;
    if NoStraddle(f, Parentheses, begin, close) {
      NoStraddleIsLevel(f, Parentheses, begin, close);
      SpliceBalances(f, Parentheses, begin, close, g, t);
      SplicedSameOutside(f, Parentheses, begin, close, g, t);
      forall i, j | StrictlyOutside(i, begin, close) && StrictlyOutside(j, begin, close)
        ensures Pair(f, Parentheses, i, j) <==>
                Pair(t, Parentheses, Moved(i, begin, close' - close), Moved(j, begin, close' - close)) {
        PairsOutside(f, t, Parentheses, begin, close, close', i, j);
      }
    }
    if Balanced(t, Parentheses) && KeepsPairs(f, t, Parentheses, begin, close, close') {
      forall i, j | Pair(f, Parentheses, i, j) ensures begin < i < close <==> begin < j < close {
        KeptPairDoesNotStraddle(f, begin, close, g, t, i, j);
      }
    }
  }

  lemma BodyIsLevel(f: string, k: Kind, begin: nat, close: nat, g: string, t: string)
    requires Spliced(f, begin, close, g, t) && Balanced(g, k)
    ensures Level(t, k, begin, begin + |g|)
  {
    forall m | begin <= m <= begin + |g| ensures Depth(t, k, m) >= Depth(t, k, begin) {
      SplicedDepth(f, k, begin, close, g, t, m - begin);
      SplicedDepth(f, k, begin, close, g, t, 0);
    }
    SplicedDepth(f, k, begin, close, g, t, |g|);
    SplicedDepth(f, k, begin, close, g, t, 0);
  }

  lemma KeptPairDoesNotStraddle(f: string, begin: nat, close: nat, g: string, t: string, i: int, j: int)
    requires Spliced(f, begin, close, g, t) && Balanced(g, Parentheses) && Balanced(t, Parentheses)
    requires IsBrace(f[begin]) && IsBrace(f[close]) && f[begin] == g[0] && f[close] == g[|g| - 1]
    requires KeepsPairs(f, t, Parentheses, begin, close, begin + |g| - 1) && Pair(f, Parentheses, i, j)
    ensures begin < i < close <==> begin < j < close
  {
    var k, close' := Parentheses, begin + |g| - 1;
    var d := close' - close;
    hide Level;
    BodyIsLevel(f, k, begin, close, g, t);
    assert t[begin] == g[0] && t[close'] == g[|g| - 1];
    LevelHasNoStraddle(t, k, begin, close');
    PairDepth(f, k, i, j);
    if i < begin && begin < j < close {
      assert t[i] == f[i];
      var y := OpenerHasPair(t, k, i);
      PairDepth(t, k, i, y);
      assert !(begin < y < close');
      var y0 := if y <= begin then y else y - d;
      assert Moved(y0, begin, d) == y && Moved(i, begin, d) == i;
      assert Pair(f, k, i, y0);
      PairUnique(f, k, i, j, i, y0);
    }
    if begin < i < close && close < j {
      assert t[j + d] == f[j];
      var x := CloserHasPair(t, k, j + d);
      PairDepth(t, k, x, j + d);
      assert !(begin < x < close');
      var x0 := if x <= begin then x else x - d;
      assert Moved(x0, begin, d) == x && Moved(j, begin, d) == j + d;
      assert Pair(f, k, x0, j);
      PairUnique(f, k, i, j, x0, j);
    }
  }

  // ------------------------------------------------------------------
  // Tables
  // ------------------------------------------------------------------

  function MovedEntry(entry: int, begin: int, d: int): int {
    if entry == NO_OFFSET then NO_OFFSET else Moved(entry, begin, d)
  }

  /** A pair has both ends in a level stretch or none. */
  lemma LevelIsClosed(s: string, k: Kind, begin: nat, close: nat, i: int, j: int)
    requires begin < close < |s| && Level(s, k, begin, close + 1) && Pair(s, k, i, j)
    ensures StrictlyOutside(i, begin, close) <==> StrictlyOutside(j, begin, close)
  {
    PairDepth(s, k, i, j);
  }

  /** Outside the body, the table of the patched text is the old one up to the shift. */
  lemma TableMoves(f: string, t: string, k: Kind, begin: nat, close: nat, close': nat,
                   table: seq<int>, table': seq<int>, i: nat)
    requires SameOutside(f, t, k, begin, close, close') && IsTable(f, k, table) && IsTable(t, k, table')
    requires i < |f| && StrictlyOutside(i, begin, close)
    ensures table[i] == NO_OFFSET || StrictlyOutside(table[i], begin, close)
    ensures table'[Moved(i, begin, close' - close)] == MovedEntry(table[i], begin, close' - close)
  {
    hide Depth; hide Balanced;
    var d := close' - close;
    var i' := Moved(i, begin, d);
    if table[i] != NO_OFFSET {
      var lo, hi := Min(i, table[i]), Max(i, table[i]);
      assert Pair(f, k, lo, hi);
      LevelIsClosed(f, k, begin, close, lo, hi);
      PairMoves(f, t, k, begin, close, close', lo, hi);
    } else if table'[i'] != NO_OFFSET {
      var lo, hi := Min(i', table'[i']), Max(i', table'[i']);
      assert Pair(t, k, lo, hi);
      LevelIsClosed(t, k, begin, close', lo, hi);
      SameOutsideSymmetric(f, t, k, begin, close, close');
      PairMoves(t, f, k, begin, close', close, lo, hi);
    }
  }
}
