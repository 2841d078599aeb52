/** SHA-256 as section 6.2 of FIPS 180-4 defines it, and the in-place computation. */
module Sha256 {
  import opened Utf8

  type Word = bv32

  /** The working variables, and the hash value between blocks. */
  datatype Registers = Registers(a: Word, b: Word, c: Word, d: Word, e: Word, f: Word, g: Word, h: Word)

  const K: seq<seq<Word>> := [
    [0x428a2f98, 0x71374491, 0xb5c0fbcf, 0xe9b5dba5, 0x3956c25b, 0x59f111f1, 0x923f82a4, 0xab1c5ed5],
    [0xd807aa98, 0x12835b01, 0x243185be, 0x550c7dc3, 0x72be5d74, 0x80deb1fe, 0x9bdc06a7, 0xc19bf174],
    [0xe49b69c1, 0xefbe4786, 0x0fc19dc6, 0x240ca1cc, 0x2de92c6f, 0x4a7484aa, 0x5cb0a9dc, 0x76f988da],
    [0x983e5152, 0xa831c66d, 0xb00327c8, 0xbf597fc7, 0xc6e00bf3, 0xd5a79147, 0x06ca6351, 0x14292967],
    [0x27b70a85, 0x2e1b2138, 0x4d2c6dfc, 0x53380d13, 0x650a7354, 0x766a0abb, 0x81c2c92e, 0x92722c85],
    [0xa2bfe8a1, 0xa81a664b, 0xc24b8b70, 0xc76c51a3, 0xd192e819, 0xd6990624, 0xf40e3585, 0x106aa070],
    [0x19a4c116, 0x1e376c08, 0x2748774c, 0x34b0bcb5, 0x391c0cb3, 0x4ed8aa4a, 0x5b9cca4f, 0x682e6ff3],
    [0x748f82ee, 0x78a5636f, 0x84c87814, 0x8cc70208, 0x90befffa, 0xa4506ceb, 0xbef9a3f7, 0xc67178f2]]

  const INITIAL := Registers(
    0x6a09e667, 0xbb67ae85, 0x3c6ef372, 0xa54ff53a, 0x510e527f, 0x9b05688c, 0x1f83d9ab, 0x5be0cd19)

  function RoundConstant(t: nat): Word
    requires t < 64
  {
    K[t / 8][t % 8]
  }

  // ------------------------------------------------------------------
  // Padding (section 5.1.1 of FIPS 180-4)
  // ------------------------------------------------------------------

  const TWO64: nat := 0x1_0000_0000_0000_0000

  /** The number of zero bytes, the smallest that brings the length to 56 modulo 64. */
  function Zeros(n: nat): (k: nat)
    ensures (n + 1 + k) % 64 == 56
    ensures forall j: nat {:trigger n + 1 + j} :: j < k ==> (n + 1 + j) % 64 != 56
  {
    (119 - n % 64) % 64
  }

  /** `count` bytes of `n`, most significant first. */
  function BigEndian(n: nat, count: nat): (r: Bytes)
    ensures |r| == count
  {
    if count == 0 then [] else BigEndian(n / 256, count - 1) + [n % 256]
  }

  function Value(s: Bytes): nat {
    if s == [] then 0 else 256 * Value(s[..|s| - 1]) + s[|s| - 1]
  }

  function ZeroBytes(k: nat): (r: Bytes)
    ensures |r| == k
  {
    seq(k, _ => 0)
  }

  function Padded(message: Bytes): (r: Bytes)
    ensures |r| == |message| + 1 + Zeros(|message|) + 8
  {
    message + [0x80] + ZeroBytes(Zeros(|message|)) + BigEndian((8 * |message|) % TWO64, 8)
  }

  /** Padding makes whole blocks. */
  lemma PaddedBlocks(message: Bytes)
    ensures |Padded(message)| % 64 == 0
  {
    hide Padded;
  }

  function Power(count: nat): nat {
    if count == 0 then 1 else 256 * Power(count - 1)
  }

  lemma {:induction false} BigEndianValue(n: nat, count: nat)
    requires n < Power(count)
    ensures Value(BigEndian(n, count)) == n
  {
    if count > 0 {
      BigEndianValue(n / 256, count - 1);
      var r := BigEndian(n, count);
      assert r[..|r| - 1] == BigEndian(n / 256, count - 1);
    }
  }

  lemma EightBytes()
    ensures Power(8) == TWO64
  {
    assert Power(2) == 0x10000;
    assert Power(4) == 0x1_0000_0000;
    assert Power(6) == 0x1_0000_0000_0000;
  }

  /** Different messages have different paddings. */
  lemma PaddingInjective(a: Bytes, b: Bytes)
    requires Padded(a) == Padded(b)
    ensures a == b
  {
    hide BigEndian;
    var p := Padded(a);
    var m, n := (8 * |a|) % TWO64, (8 * |b|) % TWO64;
    assert p[|p| - 8..] == BigEndian(m, 8) && p[|p| - 8..] == BigEndian(n, 8);
    EightBytes();
    BigEndianValue(m, 8);
    BigEndianValue(n, 8);
    LengthsAgree(|a|, |b|);
    assert a == p[..|a|] && b == p[..|b|];
  }

  lemma LengthsAgree(a: nat, b: nat)
    requires a + Zeros(a) == b + Zeros(b) && (8 * a) % TWO64 == (8 * b) % TWO64
    ensures a == b
  {
    assert -64 < a - b < 64;
  }

  // ------------------------------------------------------------------
  // Functions, schedule and rounds (sections 4.1.2 and 6.2.2 of FIPS 180-4)
  // ------------------------------------------------------------------

  /** Addition modulo 2^32. */
  function Add(x: Word, y: Word): Word {
    x + y
  }

  function Ch(x: Word, y: Word, z: Word): Word {
    (x & y) ^ (!x & z)
  }

  function Maj(x: Word, y: Word, z: Word): Word {
    (x & y) ^ (x & z) ^ (y & z)
  }

  function BigSigma0(x: Word): Word {
    ((x >> 2) | (x << 30)) ^ ((x >> 13) | (x << 19)) ^ ((x >> 22) | (x << 10))
  }

  function BigSigma1(x: Word): Word {
    ((x >> 6) | (x << 26)) ^ ((x >> 11) | (x << 21)) ^ ((x >> 25) | (x << 7))
  }

  function SmallSigma0(x: Word): Word {
    ((x >> 7) | (x << 25)) ^ ((x >> 18) | (x << 14)) ^ (x >> 3)
  }

  function SmallSigma1(x: Word): Word {
    ((x >> 17) | (x << 15)) ^ ((x >> 19) | (x << 13)) ^ (x >> 10)
  }

  function BlockWord(block: Bytes, t: nat): Word
    requires |block| == 64 && t < 16
  {
    ((block[4 * t] as bv32) << 24) | ((block[4 * t + 1] as bv32) << 16) |
    ((block[4 * t + 2] as bv32) << 8) | (block[4 * t + 3] as bv32)
  }

  /** A word of the schedule from the words 16, 15, 7 and 2 places before it. */
  function Extended(w16: Word, w15: Word, w7: Word, w2: Word): Word {
    Add(Add(Add(SmallSigma1(w2), w7), SmallSigma0(w15)), w16)
  }

  function Schedule(block: Bytes, t: nat): Word
    requires |block| == 64
  {
    if t < 16 then BlockWord(block, t)
    else Extended(Schedule(block, t - 16), Schedule(block, t - 15), Schedule(block, t - 7), Schedule(block, t - 2))
  }

  function Temporary1(r: Registers, k: Word, w: Word): Word {
    Add(Add(Add(Add(r.h, BigSigma1(r.e)), Ch(r.e, r.f, r.g)), k), w)
  }

  function Temporary2(r: Registers): Word {
    Add(BigSigma0(r.a), Maj(r.a, r.b, r.c))
  }

  function Round(r: Registers, k: Word, w: Word): Registers {
    var t1 := Temporary1(r, k, w);
    Registers(Add(t1, Temporary2(r)), r.a, r.b, r.c, Add(r.d, t1), r.e, r.f, r.g)
  }

  /** The working variables after `t` rounds. */
  function Rounds(start: Registers, block: Bytes, t: nat): Registers
    requires |block| == 64 && t <= 64
  {
    if t == 0 then start else Round(Rounds(start, block, t - 1), RoundConstant(t - 1), Schedule(block, t - 1))
  }

  function Added(x: Registers, y: Registers): Registers {
    Registers(Add(x.a, y.a), Add(x.b, y.b), Add(x.c, y.c), Add(x.d, y.d), Add(x.e, y.e), Add(x.f, y.f), Add(x.g, y.g),
              Add(x.h, y.h))
  }

  function Block(data: Bytes, i: nat): (r: Bytes)
    requires 64 * (i + 1) <= |data|
    ensures |r| == 64
  {
    data[64 * i..64 * (i + 1)]
  }

  /** The hash value after the first `n` blocks. */
  function HashAfter(data: Bytes, n: nat): Registers
    requires 64 * n <= |data|
  {
    if n == 0 then INITIAL
    else
      var before := HashAfter(data, n - 1);
      Added(before, Rounds(before, Block(data, n - 1), 64))
  }

  function Hash(message: Bytes): Registers {
    HashAfter(Padded(message), |Padded(message)| / 64)
  }

  // ------------------------------------------------------------------
  // The in-place computation
  // ------------------------------------------------------------------

  method LowerSigma0(x: Word) returns (r: Word)
    ensures r == SmallSigma0(x)
  {
    r := x.RotateRight(7) ^ x.RotateRight(18) ^ (x >> 3);
  }

  method LowerSigma1(x: Word) returns (r: Word)
    ensures r == SmallSigma1(x)
  {
    r := x.RotateRight(17) ^ x.RotateRight(19) ^ (x >> 10);
  }

  method UpperSigma0(x: Word) returns (r: Word)
    ensures r == BigSigma0(x)
  {
    r := x.RotateRight(2) ^ x.RotateRight(13) ^ x.RotateRight(22);
  }

  method UpperSigma1(x: Word) returns (r: Word)
    ensures r == BigSigma1(x)
  {
    r := x.RotateRight(6) ^ x.RotateRight(11) ^ x.RotateRight(25);
  }

  lemma Swapped(a: Word, b: Word)
    ensures Add(a, b) == Add(b, a)
  {
  }

  lemma PlainRegrouped(a: Word, b: Word, c: Word)
    ensures (a + b) + c == a + (b + c)
  {
  }

  lemma Regrouped(a: Word, b: Word, c: Word)
    ensures Add(Add(a, b), c) == Add(a, Add(b, c))
  {
    calc {
      Add(Add(a, b), c);
      { assert Add(a, b) == a + b; }
      Add(a + b, c);
      (a + b) + c;
      { PlainRegrouped(a, b, c); }
      a + (b + c);
      Add(a, b + c);
      { assert Add(b, c) == b + c; }
      Add(a, Add(b, c));
    }
  }

  lemma Reordered(a: Word, b: Word, c: Word, d: Word)
    ensures Add(Add(Add(a, b), c), d) == Add(Add(Add(d, c), b), a)
  {
    hide Add;
    Swapped(Add(Add(a, b), c), d);
    Swapped(Add(a, b), c);
    Swapped(a, b);
    Regrouped(d, c, Add(b, a));
    Regrouped(Add(d, c), b, a);
  }

  function Appended(w: Word, b: Byte): Word {
    (w << 8) | (b as bv32)
  }

  lemma Shifted(a: Word, b: Word, c: Word, d: Word)
    ensures (((((((((0 as bv32) << 8) | a) << 8) | b) << 8) | c) << 8) | d) == ((a << 24) | (b << 16) | (c << 8) | d)
  {
  }

  lemma BlockWordShifted(block: Bytes, t: nat)
    requires |block| == 64 && t < 16
    ensures Appended(Appended(Appended(Appended(0, block[4 * t]), block[4 * t + 1]), block[4 * t + 2]),
                     block[4 * t + 3]) == BlockWord(block, t)
  {
    Shifted(block[4 * t] as bv32, block[4 * t + 1] as bv32, block[4 * t + 2] as bv32, block[4 * t + 3] as bv32);
  }

  /** Grow the buffer: the marker byte, zeros up to 56 modulo 64, and the 64-bit length. */
  method Pad(bytes: Bytes) returns (data: Bytes)
    ensures data == Padded(bytes)
  {
    hide BigEndian;
    data := bytes;
    var bits: nat := (|data| * 8) % TWO64;
    data := data + [0x80];
    ghost var k := 0;
    while |data| % 64 != 56
      invariant data == bytes + [0x80] + ZeroBytes(k) && k <= Zeros(|bytes|)
      decreases Zeros(|bytes|) - k
    {
      assert |data| == |bytes| + 1 + k;
      data := data + [0];
      k := k + 1;
    }
    assert k == Zeros(|bytes|);
    ghost var before := data;
    var i := 7;
    NoBytes(ByteShift(bits, 8));
    while i >= 0
      invariant -1 <= i <= 7
      invariant data == before + BigEndian(ByteShift(bits, i + 1), 7 - i)
      decreases i
    {
      NextByte(bits, i);
      data := data + [ByteShift(bits, i) % 256];
      i := i - 1;
    }
  }

  /** `n` shifted right by `i` bytes. */
  function ByteShift(n: nat, i: nat): nat {
    if i == 0 then n else ByteShift(n, i - 1) / 256
  }

  lemma NoBytes(n: nat)
    ensures BigEndian(n, 0) == []
  {
  }

  lemma NextByte(n: nat, i: int)
    requires 0 <= i <= 7
    ensures BigEndian(ByteShift(n, i), 8 - i) == BigEndian(ByteShift(n, i + 1), 7 - i) + [ByteShift(n, i) % 256]
  {
  }

  /** The word schedule, filled in place. */
  method FillSchedule(data: Bytes, offset: nat, w: array<Word>)
    requires w.Length == 64 && offset % 64 == 0 && offset + 64 <= |data|
    modifies w
    ensures forall t :: 0 <= t < 64 ==> w[t] == Schedule(Block(data, offset / 64), t)
  {
    hide BlockWord; hide Extended; hide Schedule; hide Appended;
    ghost var block := Block(data, offset / 64);
    var i := 0;
    while i < 16
      invariant 0 <= i <= 16
      invariant forall t :: 0 <= t < i ==> w[t] == Schedule(block, t)
    {
      BlockWordShifted(block, i);
      ScheduleUnfolds(block, i);
      w[i] := LoadWord(data, offset + 4 * i);
      i := i + 1;
    }
    while i < 64
      invariant 16 <= i <= 64
      invariant forall t :: 0 <= t < i ==> w[t] == Schedule(block, t)
    {
      var next := ScheduleStep(w[i - 16], w[i - 15], w[i - 7], w[i - 2]);
      ScheduleUnfolds(block, i);
      w[i] := next;
      i := i + 1;
    }
  }

  lemma ScheduleUnfolds(block: Bytes, t: nat)
    requires |block| == 64
    ensures t < 16 ==> Schedule(block, t) == BlockWord(block, t)
    ensures t >= 16 ==> Schedule(block, t) ==
                          Extended(Schedule(block, t - 16), Schedule(block, t - 15), Schedule(block, t - 7),
                                   Schedule(block, t - 2))
  {
    hide BlockWord; hide Extended;
  }

  method ScheduleStep(w16: Word, w15: Word, w7: Word, w2: Word) returns (w: Word)
    ensures w == Extended(w16, w15, w7, w2)
  {
    hide SmallSigma0; hide SmallSigma1; hide Add;
    var s0 := LowerSigma0(w15);
    var s1 := LowerSigma1(w2);
    Reordered(w16, s0, w7, s1);
    w := Add(Add(Add(w16, s0), w7), s1);
  }

  method LoadWord(data: Bytes, at: nat) returns (w: Word)
    requires at + 4 <= |data|
    ensures w == Appended(Appended(Appended(Appended(0, data[at]), data[at + 1]), data[at + 2]), data[at + 3])
  {
    w := 0;
    var j := 0;
    while j < 4
      invariant 0 <= j <= 4
      invariant w == AppendedAll(data[at..at + j])
    {
      assert data[at..at + j + 1][..j] == data[at..at + j];
      w := Appended(w, data[at + j]);
      j := j + 1;
    }
    AppendedFour(data[at..at + 4]);
  }

  function AppendedAll(s: Bytes): Word {
    if s == [] then 0 else Appended(AppendedAll(s[..|s| - 1]), s[|s| - 1])
  }

  lemma AppendedFour(s: Bytes)
    requires |s| == 4
    ensures AppendedAll(s) == Appended(Appended(Appended(Appended(0, s[0]), s[1]), s[2]), s[3])
  {
    assert s[..3][..2] == s[..2] && s[..2][..1] == s[..1] && s[..1][..0] == [];
    assert AppendedAll(s[..1]) == Appended(0, s[0]);
    assert AppendedAll(s[..2]) == Appended(AppendedAll(s[..1]), s[1]);
    assert AppendedAll(s[..3]) == Appended(AppendedAll(s[..2]), s[2]);
  }

  /** One round: the registers move down by one. */
  method Rotate(r: Registers, k: Word, w: Word) returns (n: Registers)
    ensures n == Round(r, k, w)
  {
    var a, b, c, d, e, f, g, hh := r.a, r.b, r.c, r.d, r.e, r.f, r.g, r.h;
    hide BigSigma0; hide BigSigma1; hide Ch; hide Maj; hide Add;
    var s1 := UpperSigma1(e);
    var t1 := Add(Add(Add(Add(hh, s1), Ch(e, f, g)), k), w);
    var s0 := UpperSigma0(a);
    var t2 := Add(s0, Maj(a, b, c));
    hh := g; g := f; f := e; e := Add(d, t1); d := c; c := b; b := a; a := Add(t1, t2);
    return Registers(a, b, c, d, e, f, g, hh);
  }

  method Compress(h: Registers, ghost block: Bytes, w: array<Word>) returns (r: Registers)
    requires |block| == 64 && w.Length == 64 && forall t :: 0 <= t < 64 ==> w[t] == Schedule(block, t)
    ensures r == Rounds(h, block, 64)
  {
    hide Schedule; hide Round; hide RoundConstant;
    r := h;
    var i := 0;
    while i < 64
      invariant 0 <= i <= 64
      invariant r == Rounds(h, block, i)
    {
      r := Rotate(r, RoundConstant(i), w[i]);
      i := i + 1;
    }
  }

  // ------------------------------------------------------------------
  // Hexadecimal output
  // ------------------------------------------------------------------

  const DIGITS := "0123456789abcdef"

  predicate IsHex(c: char) {
    '0' <= c <= '9' || 'a' <= c <= 'f'
  }

  /** A word without its last digit. */
  function Front(w: Word): Word {
    w >> 4
  }

  /** The last digit of a word. */
  function Last(w: Word): Word {
    w & 15
  }

  /** `w` shifted right by `i` digits. */
  function DigitShift(w: Word, i: nat): Word {
    if i == 0 then w else Front(DigitShift(w, i - 1))
  }

  function Nibble(w: Word, i: nat): (n: Word)
    requires i < 8
  {
    Last(DigitShift(w, i))
  }

  function Digit(n: Word): (c: char)
    ensures n < 16 ==> IsHex(c)
  {
    if n < 16 then DIGITS[n as nat] else '?'
  }

  /** The `count` most significant digits of a word. */
  function Digits(w: Word, count: nat): (s: string)
    requires count <= 8
    ensures |s| == count
  {
    if count == 0 then "" else Digits(w, count - 1) + [Digit(Nibble(w, 8 - count))]
  }

  function Words(r: Registers): (s: seq<Word>)
    ensures |s| == 8
  {
    [r.a, r.b, r.c, r.d, r.e, r.f, r.g, r.h]
  }

  function HexOf(words: seq<Word>): (s: string)
    ensures |s| == 8 * |words|
  {
    if words == [] then "" else HexOf(words[..|words| - 1]) + Digits(words[|words| - 1], 8)
  }

  function Hex(r: Registers): (s: string)
    ensures |s| == 64
  {
    HexOf(Words(r))
  }

  lemma LastSmall(v: Word)
    ensures Last(v) < 16
  {
  }

  lemma NibbleSmall(w: Word, i: nat)
    requires i < 8
    ensures Nibble(w, i) < 16
  {
    hide DigitShift;
    LastSmall(DigitShift(w, i));
  }

  lemma DigitInjective(m: Word, n: Word)
    requires m < 16 && n < 16 && Digit(m) == Digit(n)
    ensures m == n
  {
    assert m as nat == n as nat;
  }

  lemma {:induction false} DigitsAt(w: Word, count: nat, k: nat)
    requires k < count <= 8
    ensures Digits(w, count)[k] == Digit(Nibble(w, 7 - k)) && IsHex(Digits(w, count)[k])
  {
    hide Digit; hide Nibble;
    if k == count - 1 {
      NibbleSmall(w, 7 - k);
    } else {
      DigitsAt(w, count - 1, k);
    }
  }

  /** A word is its last digit and the digits before it. */
  lemma LastDigit(v: Word, w: Word)
    requires Last(v) == Last(w) && Front(v) == Front(w)
    ensures v == w
  {
  }

  lemma SmallIsDigit(v: Word)
    requires v <= 15
    ensures Last(v) == v
  {
  }

  predicate Below(v: Word, m: Word) {
    v <= m
  }

  lemma BelowTop(v: Word)
    ensures Below(v, 0xffff_ffff)
  {
  }

  lemma ShiftGrows(v: Word, m: Word)
    requires Below(v, m)
    ensures Below(Front(v), Front(m))
  {
  }

  lemma {:induction false} ShiftBounded(v: Word, m: Word, i: nat)
    requires Below(v, m)
    ensures Below(DigitShift(v, i), DigitShift(m, i))
  {
    hide Front; hide Below;
    if i > 0 {
      ShiftBounded(v, m, i - 1);
      ShiftGrows(DigitShift(v, i - 1), DigitShift(m, i - 1));
    }
  }

  lemma SevenShifts(v: Word)
    ensures DigitShift(v, 7) <= 15
  {
    BelowTop(v);
    ShiftBounded(v, 0xffff_ffff, 7);
    assert DigitShift(0xffff_ffff, 4) == 0xffff;
  }

  lemma {:induction false} SameShift(v: Word, w: Word, i: nat)
    requires i <= 7 && forall k: nat :: i <= k < 8 ==> Nibble(v, k) == Nibble(w, k)
    ensures DigitShift(v, i) == DigitShift(w, i)
    decreases 7 - i
  {
    hide Front; hide Last;
    assert Nibble(v, i) == Nibble(w, i);
    if i == 7 {
      hide DigitShift;
      SevenShifts(v);
      SevenShifts(w);
      SmallIsDigit(DigitShift(v, 7));
      SmallIsDigit(DigitShift(w, 7));
    } else {
      SameShift(v, w, i + 1);
      LastDigit(DigitShift(v, i), DigitShift(w, i));
    }
  }

  lemma SameNibble(v: Word, w: Word, k: nat)
    requires k < 8 && Digits(v, 8) == Digits(w, 8)
    ensures Nibble(v, 7 - k) == Nibble(w, 7 - k)
  {
    hide Nibble; hide Digit;
    DigitsAt(v, 8, k);
    DigitsAt(w, 8, k);
    NibbleSmall(v, 7 - k);
    NibbleSmall(w, 7 - k);
    DigitInjective(Nibble(v, 7 - k), Nibble(w, 7 - k));
  }

  lemma DigitsInjective(v: Word, w: Word)
    requires Digits(v, 8) == Digits(w, 8)
    ensures v == w
  {
    hide Nibble; hide Digits;
    forall k: nat | k < 8 ensures Nibble(v, k) == Nibble(w, k) {
      SameNibble(v, w, 7 - k);
    }
    SameShift(v, w, 0);
    assert DigitShift(v, 0) == v && DigitShift(w, 0) == w;
  }

  lemma {:induction false} HexOfInjective(x: seq<Word>, y: seq<Word>)
    requires HexOf(x) == HexOf(y)
    ensures x == y
    decreases |x|
  {
    hide Digits;
    assert |x| == |y|;
    if x != [] {
      var p, q, v, w := x[..|x| - 1], y[..|y| - 1], x[|x| - 1], y[|y| - 1];
      var s := HexOf(x);
      assert HexOf(p) == s[..|s| - 8] && HexOf(q) == s[..|s| - 8];
      assert Digits(v, 8) == s[|s| - 8..] && Digits(w, 8) == s[|s| - 8..];
      HexOfInjective(p, q);
      DigitsInjective(v, w);
      assert x == p + [v] && y == q + [w];
    }
  }

  /** The printed digest is 64 lower-case hexadecimal digits and determines the hash value. */
  lemma HexInjective(x: Registers, y: Registers)
    ensures Hex(x) == Hex(y) <==> x == y
  {
    hide HexOf;
    if Hex(x) == Hex(y) {
      HexOfInjective(Words(x), Words(y));
      var s, t := Words(x), Words(y);
      assert s[0] == t[0] && s[1] == t[1] && s[2] == t[2] && s[3] == t[3];
      assert s[4] == t[4] && s[5] == t[5] && s[6] == t[6] && s[7] == t[7];
    }
  }

  lemma {:induction false} HexOfIsHex(words: seq<Word>, i: nat)
    requires i < 8 * |words|
    ensures IsHex(HexOf(words)[i])
  {
    hide Digits;
    var n := |words| - 1;
    if i < 8 * n {
      HexOfIsHex(words[..n], i);
    } else {
      DigitsAt(words[n], 8, i - 8 * n);
    }
  }

  method PrintWord(value: Word) returns (s: string)
    ensures s == Digits(value, 8)
  {
    hide Digit; hide Nibble;
    s := "";
    var i := 7;
    while i >= 0
      invariant -1 <= i <= 7
      invariant s == Digits(value, 7 - i)
      decreases i
    {
      s := s + [Digit(Nibble(value, i))];
      i := i - 1;
    }
  }

  method PrintHex(h: Registers) returns (result: string)
    ensures result == Hex(h)
  {
    hide Digits;
    var values := Words(h);
    result := "";
    var n := 0;
    while n < 8
      invariant 0 <= n <= 8
      invariant result == HexOf(values[..n])
    {
      var s := PrintWord(values[n]);
      assert values[..n + 1][..n] == values[..n];
      result := result + s;
      n := n + 1;
    }
    assert values[..8] == values;
  }

  /** The digest of any message, as the standard defines it, printed in hexadecimal. */
  method Digest(bytes: Bytes) returns (result: string)
    ensures result == Hex(Hash(bytes))
    ensures |result| == 64 && forall i :: 0 <= i < 64 ==> IsHex(result[i])
  {
    hide Rounds; hide Padded; hide Hex; hide Added;
    var data := Pad(bytes);
    PaddedBlocks(bytes);
    var h := INITIAL;
    var offset := 0;
    ghost var n := 0;
    var w := new Word[64];
    while offset < |data|
      invariant offset == 64 * n && 0 <= offset <= |data|
      invariant h == HashAfter(data, n)
    {
      FillSchedule(data, offset, w);
      var r := Compress(h, Block(data, n), w);
      h := Added(h, r);
      offset := offset + 64;
      n := n + 1;
    }
    result := PrintHex(h);
    HexDigits(h);
  }

  lemma HexDigits(h: Registers)
    ensures forall i :: 0 <= i < 64 ==> IsHex(Hex(h)[i])
  {
    hide HexOf;
    forall i | 0 <= i < 64 ensures IsHex(Hex(h)[i]) {
      HexOfIsHex(Words(h), i);
    }
  }
}
