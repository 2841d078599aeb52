/** Well-formed UTF-8 (section 4 of RFC 3629), as the backend's validity test decides it. */
module Utf8 {

  type Byte = x: int | 0 <= x < 256

  type Bytes = seq<Byte>

  predicate IsTail(b: Byte) {
    0x80 <= b <= 0xBF
  }

  predicate TailsFrom(s: Bytes, i: nat, n: nat)
    requires n <= |s|
  {
    forall k :: i <= k < n ==> IsTail(s[k])
  }

  /** Length of the character at the front of `s`, 0 when there is none. */
  function FirstLength(s: Bytes): (n: nat)
    ensures n <= |s|
    ensures n > 0 ==> !IsTail(s[0]) && TailsFrom(s, 1, n)
  {
    if s == [] then 0
    else if s[0] <= 0x7F then 1
    else if 0xC2 <= s[0] <= 0xDF then
      if |s| >= 2 && IsTail(s[1]) then 2 else 0
    else if 0xE0 <= s[0] <= 0xEF then
      if |s| >= 3 && IsTail(s[1]) && IsTail(s[2]) &&
         (s[0] == 0xE0 ==> s[1] >= 0xA0) && (s[0] == 0xED ==> s[1] <= 0x9F) then 3 else 0
    else if 0xF0 <= s[0] <= 0xF4 then
      if |s| >= 4 && IsTail(s[1]) && IsTail(s[2]) && IsTail(s[3]) &&
         (s[0] == 0xF0 ==> s[1] >= 0x90) && (s[0] == 0xF4 ==> s[1] <= 0x8F) then 4 else 0
    else 0
  }

  predicate Valid(s: Bytes)
    decreases |s|
  {
    s == [] || (FirstLength(s) > 0 && Valid(s[FirstLength(s)..]))
  }

  /** The first character does not depend on what follows it. */
  lemma FirstOfConcat(a: Bytes, b: Bytes)
    requires FirstLength(a) > 0
    ensures FirstLength(a + b) == FirstLength(a)
  {
  }

  lemma {:induction false} ConcatValid(a: Bytes, b: Bytes)
    requires Valid(a) && Valid(b)
    ensures Valid(a + b)
    decreases |a|
  {
    hide FirstLength;
    if a == [] {
      assert a + b == b;
    } else {
      var n := FirstLength(a);
      FirstOfConcat(a, b);
      assert (a + b)[n..] == a[n..] + b;
      ConcatValid(a[n..], b);
    }
  }

  /** What follows a valid prefix of a valid text is valid. */
  lemma {:induction false} RestValid(a: Bytes, b: Bytes)
    requires Valid(a) && Valid(a + b)
    ensures Valid(b)
    decreases |a|
  {
    hide FirstLength;
    if a == [] {
      assert a + b == b;
    } else {
      var n := FirstLength(a);
      FirstOfConcat(a, b);
      assert (a + b)[n..] == a[n..] + b;
      RestValid(a[n..], b);
    }
  }

  /** A byte that is not a continuation byte starts a character: the text may be cut there. */
  lemma {:induction false} CutAtCharacter(s: Bytes, p: nat)
    requires Valid(s) && p < |s| && !IsTail(s[p])
    ensures Valid(s[..p]) && Valid(s[p..])
    decreases |s|
  {
    hide FirstLength;
    var n := FirstLength(s);
    if p == 0 {
      assert s[p..] == s;
    } else {
      assert p >= n;
      var rest := s[n..];
      if p == n {
        FirstAlone(s);
      } else {
        CutAtCharacter(rest, p - n);
        FirstAlone(s);
        ConcatValid(s[..n], rest[..p - n]);
        assert s[..p] == s[..n] + rest[..p - n];
        assert s[p..] == rest[p - n..];
      }
    }
  }

  lemma FirstAlone(s: Bytes)
    requires FirstLength(s) > 0
    ensures Valid(s[..FirstLength(s)])
  {
    var n := FirstLength(s);
    var head := s[..n];
    assert FirstLength(head) == n;
    assert head[n..] == [];
  }

  /** Inside a valid text, a non-empty valid fragment starts and ends on character boundaries. */
  lemma FragmentOnBoundaries(s: Bytes, p: nat, q: nat)
    requires p < q <= |s| && Valid(s) && Valid(s[p..q])
    ensures Valid(s[..p]) && Valid(s[q..])
  {
    var fragment := s[p..q];
    assert fragment[0] == s[p];
    CutAtCharacter(s, p);
    assert s[p..] == fragment + s[q..];
    RestValid(fragment, s[q..]);
  }

  // ------------------------------------------------------------------
  // Characters (section 3 of RFC 3629)
  // ------------------------------------------------------------------

  /** A character number that may be encoded: up to 10FFFF, surrogates excluded. */
  predicate IsScalar(c: nat) {
    c <= 0x10FFFF && !(0xD800 <= c <= 0xDFFF)
  }

  /** The bits of the number, six in each continuation byte. */
  function Encoded(c: nat): Bytes
    requires IsScalar(c)
  {
    if c <= 0x7F then [c]
    else if c <= 0x7FF then [0xC0 + c / 64, 0x80 + c % 64]
    else if c <= 0xFFFF then [0xE0 + c / 4096, 0x80 + c / 64 % 64, 0x80 + c % 64]
    else [0xF0 + c / 262144, 0x80 + c / 4096 % 64, 0x80 + c / 64 % 64, 0x80 + c % 64]
  }

  predicate AreScalars(text: seq<nat>) {
    forall i :: 0 <= i < |text| ==> IsScalar(text[i])
  }

  function EncodedAll(text: seq<nat>): Bytes
    requires AreScalars(text)
  {
    if text == [] then [] else Encoded(text[0]) + EncodedAll(text[1..])
  }

  lemma ShortIsFirst(c: nat)
    requires c <= 0x7FF
    ensures FirstLength(Encoded(c)) == |Encoded(c)|
  {
  }

  lemma ThreeIsFirst(c: nat)
    requires 0x800 <= c <= 0xFFFF && IsScalar(c)
    ensures FirstLength(Encoded(c)) == 3 == |Encoded(c)|
  {
    var high, low := c / 4096, c % 4096;
    assert c == high * 4096 + low && c / 64 == high * 64 + low / 64;
    assert c / 64 % 64 == low / 64;
  }

  lemma FourIsFirst(c: nat)
    requires 0x10000 <= c <= 0x10FFFF
    ensures FirstLength(Encoded(c)) == 4 == |Encoded(c)|
  {
    var high, low := c / 262144, c % 262144;
    assert c == high * 262144 + low && c / 4096 == high * 64 + low / 4096;
    assert c / 4096 % 64 == low / 4096;
  }

  lemma EncodedIsFirst(c: nat, rest: Bytes)
    requires IsScalar(c)
    ensures |Encoded(c)| > 0 && FirstLength(Encoded(c) + rest) == |Encoded(c)|
  {
    if c <= 0x7FF {
      ShortIsFirst(c);
    } else if c <= 0xFFFF {
      ThreeIsFirst(c);
    } else {
      FourIsFirst(c);
    }
    hide FirstLength;
    FirstOfConcat(Encoded(c), rest);
  }

  /** Two, three or four groups of bits as one number. */
  function Number(a: int, b: int, c: int, d: int): int {
    a * 262144 + b * 4096 + c * 64 + d
  }

  lemma By64(q: int, r: int)
    requires 0 <= r < 64
    ensures (q * 64 + r) / 64 == q && (q * 64 + r) % 64 == r
  {
  }

  lemma By4096(q: int, r: int)
    requires 0 <= r < 4096
    ensures (q * 4096 + r) / 4096 == q
  {
  }

  lemma By262144(q: int, r: int)
    requires 0 <= r < 262144
    ensures (q * 262144 + r) / 262144 == q
  {
  }

  lemma NumberDigits(a: int, b: int, c: int, d: int)
    requires 0 <= a && 0 <= b < 64 && 0 <= c < 64 && 0 <= d < 64
    ensures var n := Number(a, b, c, d);
            n % 64 == d && n / 64 % 64 == c && n / 4096 % 64 == b && n / 262144 == a &&
            (a == 0 ==> n / 4096 == b) && (a == 0 && b == 0 ==> n / 64 == c)
  {
    var upper := a * 64 + b;
    By64(upper * 64 + c, d);
    By64(upper, c);
    By64(a, b);
    By4096(upper, c * 64 + d);
    By262144(a, b * 4096 + c * 64 + d);
  }

  /** The character number that the first bytes spell. */
  function FirstNumber(s: Bytes): int
    requires FirstLength(s) > 0
  {
    match FirstLength(s)
    case 1 => Number(0, 0, 0, s[0])
    case 2 => Number(0, 0, s[0] as int - 0xC0, s[1] as int - 0x80)
    case 3 => Number(0, s[0] as int - 0xE0, s[1] as int - 0x80, s[2] as int - 0x80)
    case _ => Number(s[0] as int - 0xF0, s[1] as int - 0x80, s[2] as int - 0x80, s[3] as int - 0x80)
  }

  ghost predicate IsFirstEncoded(s: Bytes)
    requires FirstLength(s) > 0
  {
    var c := FirstNumber(s);
    c >= 0 && IsScalar(c) && Encoded(c) == s[..FirstLength(s)]
  }

  lemma ShortIsEncoded(s: Bytes)
    requires 1 <= FirstLength(s) <= 2
    ensures IsFirstEncoded(s)
  {
    if FirstLength(s) == 2 {
      NumberDigits(0, 0, s[0] as int - 0xC0, s[1] as int - 0x80);
    }
  }

  lemma ThreeAreEncoded(s: Bytes)
    requires FirstLength(s) == 3
    ensures IsFirstEncoded(s)
  {
    NumberDigits(0, s[0] as int - 0xE0, s[1] as int - 0x80, s[2] as int - 0x80);
  }

  lemma FourAreEncoded(s: Bytes)
    requires FirstLength(s) == 4
    ensures IsFirstEncoded(s)
  {
    NumberDigits(s[0] as int - 0xF0, s[1] as int - 0x80, s[2] as int - 0x80, s[3] as int - 0x80);
  }

  lemma FirstIsEncoded(s: Bytes)
    requires FirstLength(s) > 0
    ensures IsFirstEncoded(s)
  {
    if FirstLength(s) <= 2 {
      ShortIsEncoded(s);
    } else if FirstLength(s) == 3 {
      ThreeAreEncoded(s);
    } else {
      FourAreEncoded(s);
    }
  }

  lemma {:induction false} EncodedIsValid(text: seq<nat>)
    requires AreScalars(text)
    ensures Valid(EncodedAll(text))
  {
    hide FirstLength; hide Encoded;
    if text != [] {
      var first, rest := Encoded(text[0]), EncodedAll(text[1..]);
      EncodedIsValid(text[1..]);
      EncodedIsFirst(text[0], rest);
      assert (first + rest)[|first|..] == rest;
    }
  }

  lemma {:induction false} ValidIsEncoded(s: Bytes) returns (text: seq<nat>)
    requires Valid(s)
    ensures AreScalars(text) && EncodedAll(text) == s
    decreases |s|
  {
    hide FirstLength; hide Encoded; hide FirstNumber;
    text := [];
    if s != [] {
      var n := FirstLength(s);
      FirstIsEncoded(s);
      var rest := ValidIsEncoded(s[n..]);
      text := [FirstNumber(s)] + rest;
      assert text[1..] == rest;
      assert s == s[..n] + s[n..];
    }
  }

  ghost predicate Spells(text: seq<nat>, s: Bytes) {
    AreScalars(text) && EncodedAll(text) == s
  }

  /** A text is valid exactly when it is the encoding of a sequence of characters. */
  lemma ValidIsEncoding(s: Bytes)
    ensures Valid(s) <==> exists text :: Spells(text, s)
  {
    if Valid(s) {
      var text := ValidIsEncoded(s);
      assert Spells(text, s);
    }
    if text :| Spells(text, s) {
      EncodedIsValid(text);
    }
  }
}
