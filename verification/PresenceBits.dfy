/** The presence word of a C++ message. The masks of messageHeader: type 1, arr 2, userId 4, arrSize 8. */
module PresenceBits {

  predicate Has(word: bv32, mask: bv32) {
    word & mask != 0
  }

  predicate HasAny(word: bv32) {
    word & 0x0f != 0
  }

  function With(word: bv32, mask: bv32): bv32 {
    word | mask
  }

  function Without(word: bv32, mask: bv32): bv32 {
    word & !mask
  }

  predicate IsMask(mask: bv32) {
    mask == 1 || mask == 2 || mask == 4 || mask == 8
  }

  /** Setting a bit leaves the others alone. */
  lemma BitSet(word: bv32, mask: bv32)
    requires IsMask(mask)
    ensures Has(With(word, mask), 1) == (Has(word, 1) || mask == 1)
    ensures Has(With(word, mask), 2) == (Has(word, 2) || mask == 2)
    ensures Has(With(word, mask), 4) == (Has(word, 4) || mask == 4)
    ensures Has(With(word, mask), 8) == (Has(word, 8) || mask == 8)
  {}

  lemma BitCleared(word: bv32, mask: bv32)
    requires IsMask(mask)
    ensures Has(Without(word, mask), 1) == (Has(word, 1) && mask != 1)
    ensures Has(Without(word, mask), 2) == (Has(word, 2) && mask != 2)
    ensures Has(Without(word, mask), 4) == (Has(word, 4) && mask != 4)
    ensures Has(Without(word, mask), 8) == (Has(word, 8) && mask != 8)
  {}

  lemma BitJoined(a: bv32, b: bv32, mask: bv32)
    requires IsMask(mask)
    ensures Has(With(a, b), mask) == (Has(a, mask) || Has(b, mask))
  {
    if mask == 1 {
    } else if mask == 2 {
    } else if mask == 4 {
    } else {
      assert mask == 8;
    }
  }

  /** Two words joined have the bits of both. */
  lemma BitsJoined(a: bv32, b: bv32)
    ensures Has(With(a, b), 1) == (Has(a, 1) || Has(b, 1))
    ensures Has(With(a, b), 2) == (Has(a, 2) || Has(b, 2))
    ensures Has(With(a, b), 4) == (Has(a, 4) || Has(b, 4))
    ensures Has(With(a, b), 8) == (Has(a, 8) || Has(b, 8))
  {
    hide Has, With;
    BitJoined(a, b, 1);
    BitJoined(a, b, 2);
    BitJoined(a, b, 4);
    BitJoined(a, b, 8);
  }

  lemma NoBits()
    ensures !Has(0, 1) && !Has(0, 2) && !Has(0, 4) && !Has(0, 8)
  {}

  lemma AnyBit(word: bv32)
    ensures HasAny(word) == (Has(word, 1) || Has(word, 2) || Has(word, 4) || Has(word, 8))
  {}
}
