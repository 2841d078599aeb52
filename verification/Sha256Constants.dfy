/** Where the constants of SHA-256 come from. */
module Sha256Constants {
  import opened Sha256

  /** The first 64 primes. */
  const PRIMES: seq<seq<nat>> := [
    [2, 3, 5, 7, 11, 13, 17, 19],
    [23, 29, 31, 37, 41, 43, 47, 53],
    [59, 61, 67, 71, 73, 79, 83, 89],
    [97, 101, 103, 107, 109, 113, 127, 131],
    [137, 139, 149, 151, 157, 163, 167, 173],
    [179, 181, 191, 193, 197, 199, 211, 223],
    [227, 229, 233, 239, 241, 251, 257, 263],
    [269, 271, 277, 281, 283, 293, 307, 311]]

  const TWO32: nat := 0x1_0000_0000

  /** `k` is the first 32 bits of the fractional part of the cube root of `p`, whose integer part is `n`. */
  ghost predicate IsCubeRoot(p: nat, n: nat, k: int) {
    0 <= k < TWO32 &&
    var c := n * TWO32 + k;
    c * c * c <= p * (TWO32 * TWO32 * TWO32) < (c + 1) * (c + 1) * (c + 1)
  }

  ghost predicate IsSquareRoot(p: nat, n: nat, k: int) {
    0 <= k < TWO32 &&
    var c := n * TWO32 + k;
    c * c <= p * (TWO32 * TWO32) < (c + 1) * (c + 1)
  }

  /** The integer part of the cube root of a prime below 343. */
  function CubeRoot(p: nat): nat {
    if p < 8 then 1 else if p < 27 then 2 else if p < 64 then 3 else if p < 125 then 4 else if p < 216 then 5 else 6
  }

  ghost predicate IsRootConstant(t: nat) {
    t < 64 && IsCubeRoot(PRIMES[t / 8][t % 8], CubeRoot(PRIMES[t / 8][t % 8]), RoundConstant(t) as int)
  }

  lemma RootRow0()
    ensures IsRootConstant(0) && IsRootConstant(1) && IsRootConstant(2) && IsRootConstant(3) &&
            IsRootConstant(4) && IsRootConstant(5) && IsRootConstant(6) && IsRootConstant(7)
  {
    assert RoundConstant(0) as int == 0x428a2f98;
    assert RoundConstant(1) as int == 0x71374491;
    assert RoundConstant(2) as int == 0xb5c0fbcf;
    assert RoundConstant(3) as int == 0xe9b5dba5;
    assert RoundConstant(4) as int == 0x3956c25b;
    assert RoundConstant(5) as int == 0x59f111f1;
    assert RoundConstant(6) as int == 0x923f82a4;
    assert RoundConstant(7) as int == 0xab1c5ed5;
  }

  lemma RootRow1()
    ensures IsRootConstant(8) && IsRootConstant(9) && IsRootConstant(10) && IsRootConstant(11) &&
            IsRootConstant(12) && IsRootConstant(13) && IsRootConstant(14) && IsRootConstant(15)
  {
    assert RoundConstant(8) as int == 0xd807aa98;
    assert RoundConstant(9) as int == 0x12835b01;
    assert RoundConstant(10) as int == 0x243185be;
    assert RoundConstant(11) as int == 0x550c7dc3;
    assert RoundConstant(12) as int == 0x72be5d74;
    assert RoundConstant(13) as int == 0x80deb1fe;
    assert RoundConstant(14) as int == 0x9bdc06a7;
    assert RoundConstant(15) as int == 0xc19bf174;
  }

  lemma RootRow2()
    ensures IsRootConstant(16) && IsRootConstant(17) && IsRootConstant(18) && IsRootConstant(19) &&
            IsRootConstant(20) && IsRootConstant(21) && IsRootConstant(22) && IsRootConstant(23)
  {
    assert RoundConstant(16) as int == 0xe49b69c1;
    assert RoundConstant(17) as int == 0xefbe4786;
    assert RoundConstant(18) as int == 0x0fc19dc6;
    assert RoundConstant(19) as int == 0x240ca1cc;
    assert RoundConstant(20) as int == 0x2de92c6f;
    assert RoundConstant(21) as int == 0x4a7484aa;
    assert RoundConstant(22) as int == 0x5cb0a9dc;
    assert RoundConstant(23) as int == 0x76f988da;
  }

  lemma RootRow3()
    ensures IsRootConstant(24) && IsRootConstant(25) && IsRootConstant(26) && IsRootConstant(27) &&
            IsRootConstant(28) && IsRootConstant(29) && IsRootConstant(30) && IsRootConstant(31)
  {
    assert RoundConstant(24) as int == 0x983e5152;
    assert RoundConstant(25) as int == 0xa831c66d;
    assert RoundConstant(26) as int == 0xb00327c8;
    assert RoundConstant(27) as int == 0xbf597fc7;
    assert RoundConstant(28) as int == 0xc6e00bf3;
    assert RoundConstant(29) as int == 0xd5a79147;
    assert RoundConstant(30) as int == 0x06ca6351;
    assert RoundConstant(31) as int == 0x14292967;
  }

  lemma RootRow4()
    ensures IsRootConstant(32) && IsRootConstant(33) && IsRootConstant(34) && IsRootConstant(35) &&
            IsRootConstant(36) && IsRootConstant(37) && IsRootConstant(38) && IsRootConstant(39)
  {
    assert RoundConstant(32) as int == 0x27b70a85;
    assert RoundConstant(33) as int == 0x2e1b2138;
    assert RoundConstant(34) as int == 0x4d2c6dfc;
    assert RoundConstant(35) as int == 0x53380d13;
    assert RoundConstant(36) as int == 0x650a7354;
    assert RoundConstant(37) as int == 0x766a0abb;
    assert RoundConstant(38) as int == 0x81c2c92e;
    assert RoundConstant(39) as int == 0x92722c85;
  }

  lemma RootRow5()
    ensures IsRootConstant(40) && IsRootConstant(41) && IsRootConstant(42) && IsRootConstant(43) &&
            IsRootConstant(44) && IsRootConstant(45) && IsRootConstant(46) && IsRootConstant(47)
  {
    assert RoundConstant(40) as int == 0xa2bfe8a1;
    assert RoundConstant(41) as int == 0xa81a664b;
    assert RoundConstant(42) as int == 0xc24b8b70;
    assert RoundConstant(43) as int == 0xc76c51a3;
    assert RoundConstant(44) as int == 0xd192e819;
    assert RoundConstant(45) as int == 0xd6990624;
    assert RoundConstant(46) as int == 0xf40e3585;
    assert RoundConstant(47) as int == 0x106aa070;
  }

  lemma RootRow6()
    ensures IsRootConstant(48) && IsRootConstant(49) && IsRootConstant(50) && IsRootConstant(51) &&
            IsRootConstant(52) && IsRootConstant(53) && IsRootConstant(54) && IsRootConstant(55)
  {
    assert RoundConstant(48) as int == 0x19a4c116;
    assert RoundConstant(49) as int == 0x1e376c08;
    assert RoundConstant(50) as int == 0x2748774c;
    assert RoundConstant(51) as int == 0x34b0bcb5;
    assert RoundConstant(52) as int == 0x391c0cb3;
    assert RoundConstant(53) as int == 0x4ed8aa4a;
    assert RoundConstant(54) as int == 0x5b9cca4f;
    assert RoundConstant(55) as int == 0x682e6ff3;
  }

  lemma RootRow7()
    ensures IsRootConstant(56) && IsRootConstant(57) && IsRootConstant(58) && IsRootConstant(59) &&
            IsRootConstant(60) && IsRootConstant(61) && IsRootConstant(62) && IsRootConstant(63)
  {
    assert RoundConstant(56) as int == 0x748f82ee;
    assert RoundConstant(57) as int == 0x78a5636f;
    assert RoundConstant(58) as int == 0x84c87814;
    assert RoundConstant(59) as int == 0x8cc70208;
    assert RoundConstant(60) as int == 0x90befffa;
    assert RoundConstant(61) as int == 0xa4506ceb;
    assert RoundConstant(62) as int == 0xbef9a3f7;
    assert RoundConstant(63) as int == 0xc67178f2;
  }

  lemma RootRows0(t: nat)
    requires 0 <= t < 32
    ensures IsRootConstant(t)
  {
    hide IsRootConstant;
    if t < 8 {
      RootRow0();
    } else if t < 16 {
      RootRow1();
    } else if t < 24 {
      RootRow2();
    } else {
      RootRow3();
    }
  }

  lemma RootRows4(t: nat)
    requires 32 <= t < 64
    ensures IsRootConstant(t)
  {
    hide IsRootConstant;
    if t < 40 {
      RootRow4();
    } else if t < 48 {
      RootRow5();
    } else if t < 56 {
      RootRow6();
    } else {
      RootRow7();
    }
  }

  /** The round constants are the fractional parts of the cube roots of the first 64 primes
      (section 4.2.2 of FIPS 180-4). */
  lemma ConstantsAreRoots(t: nat)
    requires t < 64
    ensures IsRootConstant(t)
  {
    hide IsRootConstant;
    if t < 32 {
      RootRows0(t);
    } else {
      RootRows4(t);
    }
  }

  /** The initial hash value is made of the square roots of the first eight primes
      (section 5.3.3 of FIPS 180-4). */
  lemma InitialIsRoots()
    ensures IsSquareRoot(2, 1, INITIAL.a as int) && IsSquareRoot(3, 1, INITIAL.b as int) &&
            IsSquareRoot(5, 2, INITIAL.c as int) && IsSquareRoot(7, 2, INITIAL.d as int) &&
            IsSquareRoot(11, 3, INITIAL.e as int) && IsSquareRoot(13, 3, INITIAL.f as int) &&
            IsSquareRoot(17, 4, INITIAL.g as int) && IsSquareRoot(19, 4, INITIAL.h as int)
  {
  }
}
