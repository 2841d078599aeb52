/** The byte stream that identifies a project tree. Each byte is one character. */
module TreeEncoding {
  import opened Common

  /** One visited name, in walk order; `Special` is anything that is neither directory nor
      regular file. */
  datatype Entry = Dir(path: string) | File(path: string, content: string) | Special(path: string)

  predicate Regular(tree: seq<Entry>) {
    forall i :: 0 <= i < |tree| ==> !tree[i].Special?
  }

  // ------------------------------------------------------------------
  // The encoding
  // ------------------------------------------------------------------

  predicate IsDigit(c: char) {
    '0' <= c <= '9'
  }

  function Digit(d: nat): (c: char)
    requires d < 10
    ensures IsDigit(c)
  {
    '0' + d as char
  }

  function Decimal(n: nat): (s: string)
    ensures |s| > 0 && forall i :: 0 <= i < |s| ==> IsDigit(s[i])
  {
    if n < 10 then [Digit(n)] else Decimal(n / 10) + [Digit(n % 10)]
  }

  /** A length-prefixed name: what both kinds of entry hold. */
  function Name(path: string): string {
    Decimal(|path|) + (":" + (path + ":"))
  }

  function Code(e: Entry): string {
    match e
    case Dir(path) => "dir:" + Name(path)
    case File(path, content) => Name(path) + (Decimal(|content|) + (":" + content))
    case Special(_) => ""
  }

  function Encoding(tree: seq<Entry>): string {
    if tree == [] then "" else Code(tree[0]) + Encoding(tree[1..])
  }

  // ------------------------------------------------------------------
  // Reading it back
  // ------------------------------------------------------------------

  function Value(s: string): nat {
    if s == [] || !IsDigit(s[|s| - 1]) then 0 else 10 * Value(s[..|s| - 1]) + (s[|s| - 1] - '0') as nat
  }

  lemma {:induction false} DecimalValue(n: nat)
    ensures Value(Decimal(n)) == n
  {
    var s := Decimal(n);
    if n < 10 {
      assert s[..0] == [];
      assert Value(s[..0]) == 0;
    } else {
      assert s[..|s| - 1] == Decimal(n / 10);
      DecimalValue(n / 10);
    }
  }

  lemma DecimalInjective(m: nat, n: nat)
    requires Decimal(m) == Decimal(n)
    ensures m == n
  {
    DecimalValue(m);
    DecimalValue(n);
  }

  /** A number followed by a colon reads back in one way only. */
  lemma NumberReadsBack(m: nat, x: string, n: nat, y: string)
    requires Decimal(m) + (":" + x) == Decimal(n) + (":" + y)
    ensures m == n && x == y
  {
    hide Decimal;
    var a, b := Decimal(m), Decimal(n);
    var s := a + (":" + x);
    assert s[|a|] == ':' && s[|b|] == ':';
    assert |a| == |b|;
    assert a == s[..|a|] && b == s[..|b|];
    DecimalInjective(m, n);
    assert x == s[|a| + 1..] && y == s[|b| + 1..];
  }

  lemma NameReadsBack(p: string, x: string, q: string, y: string)
    requires Name(p) + x == Name(q) + y
    ensures p == q && x == y
  {
    hide Decimal;
    assert Name(p) + x == Decimal(|p|) + (":" + (p + (":" + x)));
    assert Name(q) + y == Decimal(|q|) + (":" + (q + (":" + y)));
    NumberReadsBack(|p|, p + (":" + x), |q|, q + (":" + y));
    var s := p + (":" + x);
    assert p == s[..|p|] && q == s[..|q|];
    assert x == s[|p| + 1..] && y == s[|q| + 1..];
  }

  lemma FirstOfName(p: string, x: string)
    ensures |Name(p) + x| > 0 && IsDigit((Name(p) + x)[0])
  {
    hide Decimal;
  }

  lemma FileReadsBack(p: string, c: string, x: string, q: string, d: string, y: string)
    requires Code(File(p, c)) + x == Code(File(q, d)) + y
    ensures p == q && c == d && x == y
  {
    hide Decimal; hide Name;
    assert Code(File(p, c)) + x == Name(p) + (Decimal(|c|) + (":" + (c + x)));
    assert Code(File(q, d)) + y == Name(q) + (Decimal(|d|) + (":" + (d + y)));
    NameReadsBack(p, Decimal(|c|) + (":" + (c + x)), q, Decimal(|d|) + (":" + (d + y)));
    NumberReadsBack(|c|, c + x, |d|, d + y);
    var s := c + x;
    assert c == s[..|c|] && d == s[..|d|] && x == s[|c|..] && y == s[|d|..];
  }

  lemma DirReadsBack(p: string, x: string, q: string, y: string)
    requires Code(Dir(p)) + x == Code(Dir(q)) + y
    ensures p == q && x == y
  {
    hide Decimal; hide Name;
    var s, t := Code(Dir(p)) + x, Code(Dir(q)) + y;
    assert s[4..] == Name(p) + x && t[4..] == Name(q) + y;
    NameReadsBack(p, x, q, y);
  }

  /** The first entry of a stream, and where it ends, are determined by the stream. */
  lemma EntryReadsBack(a: Entry, x: string, b: Entry, y: string)
    requires !a.Special? && !b.Special? && Code(a) + x == Code(b) + y
    ensures a == b && x == y
  {
    hide Decimal; hide Name;
    FirstOfFile(a, x);
    FirstOfFile(b, y);
    if a.File? && b.File? {
      FileReadsBack(a.path, a.content, x, b.path, b.content, y);
    } else {
      DirReadsBack(a.path, x, b.path, y);
    }
  }

  lemma FirstOfFile(a: Entry, x: string)
    requires !a.Special?
    ensures |Code(a) + x| > 0 && (a.File? <==> IsDigit((Code(a) + x)[0]))
  {
    hide Decimal; hide Name;
    if a.File? {
      assert Code(a) + x == Name(a.path) + (Decimal(|a.content|) + (":" + a.content) + x);
      FirstOfName(a.path, Decimal(|a.content|) + (":" + a.content) + x);
    }
  }

  lemma EncodingUnfolds(tree: seq<Entry>)
    requires tree != []
    ensures Encoding(tree) == Code(tree[0]) + Encoding(tree[1..])
  {
  }

  lemma PrefixAfterCode(e: Entry, x: string, y: string)
    ensures Code(e) + x <= Code(e) + y <==> x <= y
  {
    hide Code;
    var c := Code(e);
    assert (c + x)[|c|..] == x && (c + y)[|c|..] == y;
    if x <= y {
      assert c + y == (c + x) + y[|x|..];
    }
  }

  /** A stream that goes on: the first entries agree and so do the rests. */
  lemma FirstDecodes(a: seq<Entry>, b: seq<Entry>)
    requires Regular(a) && Regular(b) && a != [] && b != []
    ensures Encoding(a) <= Encoding(b) <==> a[0] == b[0] && Encoding(a[1..]) <= Encoding(b[1..])
  {
    hide Code; hide Encoding;
    var x, y := Encoding(a[1..]), Encoding(b[1..]);
    EncodingUnfolds(a);
    EncodingUnfolds(b);
    PrefixAfterCode(a[0], x, y);
    if Encoding(a) <= Encoding(b) {
      SameFirst(a[0], x, b[0], y);
    }
  }

  lemma SameFirst(a: Entry, x: string, b: Entry, y: string)
    requires !a.Special? && !b.Special? && Code(a) + x <= Code(b) + y
    ensures a == b
  {
    hide Code;
    var s, t := Code(a) + x, Code(b) + y;
    var rest := t[|s|..];
    assert t == s + rest;
    assert s + rest == Code(a) + (x + rest);
    EntryReadsBack(a, x + rest, b, y);
  }

  /** Streams are in the prefix order exactly when the trees are: no terminator is needed. */
  lemma {:induction false} PrefixDecodes(a: seq<Entry>, b: seq<Entry>)
    requires Regular(a) && Regular(b)
    ensures Encoding(a) <= Encoding(b) <==> a <= b
    decreases |a|
  {
    hide Code; hide Encoding;
    if a == [] || b == [] {
      EmptyTree(a);
      EmptyTree(b);
    } else {
      assert a <= b <==> a[0] == b[0] && a[1..] <= b[1..] by {
        assert a == [a[0]] + a[1..] && b == [b[0]] + b[1..];
      }
      FirstDecodes(a, b);
      PrefixDecodes(a[1..], b[1..]);
    }
  }

  lemma EmptyTree(a: seq<Entry>)
    requires Regular(a)
    ensures Encoding(a) == "" <==> a == []
  {
    hide Code;
    if a != [] {
      FirstOfFile(a[0], Encoding(a[1..]));
    }
  }

  /** Different trees give different streams. */
  lemma UniquelyDecodable(a: seq<Entry>, b: seq<Entry>)
    requires Regular(a) && Regular(b)
    ensures Encoding(a) == Encoding(b) <==> a == b
  {
    PrefixDecodes(a, b);
    PrefixDecodes(b, a);
  }

  // ------------------------------------------------------------------
  // The walk
  // ------------------------------------------------------------------

  lemma {:induction false} EncodingGrows(tree: seq<Entry>, k: nat)
    requires k < |tree|
    ensures Encoding(tree[..k + 1]) == Encoding(tree[..k]) + Code(tree[k])
  {
    hide Code;
    if k == 0 {
      assert tree[..1] == [tree[0]] && tree[..0] == [];
    } else {
      assert tree[..k + 1][1..] == tree[1..][..k] && tree[..k][1..] == tree[1..][..k - 1];
      EncodingGrows(tree[1..], k - 1);
    }
  }

  lemma NothingEncoded(tree: seq<Entry>)
    ensures Encoding(tree[..0]) == ""
  {
  }

  /** What the walk feeds to the running hash; it stops at the first special file. */
  method ProjectStream(tree: seq<Entry>) returns (r: Option<string>)
    ensures r.Some? <==> Regular(tree)
    ensures r.Some? ==> r.value == Encoding(tree)
  {
    hide Decimal; hide Name; hide Encoding;
    var stream := "";
    var k := 0;
    NothingEncoded(tree);
    while k < |tree|
      invariant 0 <= k <= |tree|
      invariant forall i :: 0 <= i < k ==> !tree[i].Special?
      invariant stream == Encoding(tree[..k])
    {
      EncodingGrows(tree, k);
      match tree[k] {
        case Dir(path) =>
          stream := stream + ("dir:" + Name(path));
        case File(path, content) =>
          stream := stream + (Name(path) + (Decimal(|content|) + (":" + content)));
        case Special(_) =>
          return None;
      }
      k := k + 1;
    }
    assert tree[..k] == tree;
    return Some(stream);
  }
}
