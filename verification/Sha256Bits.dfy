/** What the logical functions of SHA-256 mean bit by bit (section 4.1.2 of FIPS 180-4). Bits are counted
    from the least significant. */
module Sha256Bits {
  import opened Sha256

  lemma Chosen(x: Word, y: Word, z: Word, c: Word)
    requires c == (x & y) ^ (!x & z)
    ensures c & x == y & x && c & !x == z & !x
  {
  }

  /** Where `x` has a one the choice takes the bit of `y`, elsewhere that of `z`. */
  lemma ChoiceOfBits(x: Word, y: Word, z: Word)
    ensures Ch(x, y, z) & x == y & x && Ch(x, y, z) & !x == z & !x
  {
    Chosen(x, y, z, Ch(x, y, z));
  }

  lemma Outvoted(x: Word, y: Word, z: Word)
    ensures (x & y) ^ (x & z) ^ (y & z) == (x & y) | (y & z) | (z & x)
  {
  }

  /** The majority has a one exactly where two of its arguments do. */
  lemma MajorityOfBits(x: Word, y: Word, z: Word)
    ensures Maj(x, y, z) == (x & y) | (y & z) | (z & x)
  {
    assert Maj(x, y, z) == (x & y) ^ (x & z) ^ (y & z);
    hide Maj;
    Outvoted(x, y, z);
  }

  /** Where a single top bit goes: down by the amounts of the standard. */
  lemma SigmasOfTopBit()
    ensures BigSigma0(0x8000_0000) == (1 << 29) | (1 << 18) | (1 << 9)
    ensures BigSigma1(0x8000_0000) == (1 << 25) | (1 << 20) | (1 << 6)
    ensures SmallSigma0(0x8000_0000) == (1 << 24) | (1 << 13) | (1 << 28)
    ensures SmallSigma1(0x8000_0000) == (1 << 14) | (1 << 12) | (1 << 21)
  {
  }
}
