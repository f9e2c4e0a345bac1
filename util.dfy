/**
 * The byte-rotation macros of util.h. The macros are applied to bytes, but C promotes a byte to
 * a 32-bit int before shifting and nothing masks the result back to eight bits, so the model
 * returns the full 32-bit value and says separately what its low byte is.
 */
module Util {

  /** rol8(b, n): `(b << n) | (b >> (8 - n))` on the promoted byte. */
  function Rol8(b: bv8, n: nat): bv32
    requires n <= 8
  {
    ((b as bv32) << n) | ((b as bv32) >> (8 - n))
  }

  /** ror8(b, n): `(b >> n) | (b << (8 - n))` on the promoted byte. */
  function Ror8(b: bv8, n: nat): bv32
    requires n <= 8
  {
    ((b as bv32) >> n) | ((b as bv32) << (8 - n))
  }

  /** What a caller keeps when it stores the macro's value in a uint8_t. */
  function Low8(x: bv32): bv8
  {
    (x & 0xFF) as bv8
  }

  /** Stored in a byte, rol8 is the left rotation of bitvector arithmetic. */
  lemma Rol8Rotates(b: bv8, n: nat)
    requires n <= 8
    ensures Low8(Rol8(b, n)) == b.RotateLeft(n)
  {
    // one shift amount at a time, so that every shift is by a constant
    if n == 0 {
    } else if n == 1 {
    } else if n == 2 {
    } else if n == 3 {
    } else if n == 4 {
    } else if n == 5 {
    } else if n == 6 {
    } else if n == 7 {
    } else {
    }
  }

  /** Stored in a byte, ror8 is the right rotation of bitvector arithmetic. */
  lemma Ror8Rotates(b: bv8, n: nat)
    requires n <= 8
    ensures Low8(Ror8(b, n)) == b.RotateRight(n)
  {
    if n == 0 {
    } else if n == 1 {
    } else if n == 2 {
    } else if n == 3 {
    } else if n == 4 {
    } else if n == 5 {
    } else if n == 6 {
    } else if n == 7 {
    } else {
    }
  }

  /** Rotating right and then left by the same amount, each result stored in a byte, gives back the byte. */
  lemma RolUndoesRor(b: bv8, n: nat)
    requires n <= 8
    ensures Low8(Rol8(Low8(Ror8(b, n)), n)) == b
  {
    if n == 0 {
    } else if n == 1 {
    } else if n == 2 {
    } else if n == 3 {
    } else if n == 4 {
    } else if n == 5 {
    } else if n == 6 {
    } else if n == 7 {
    } else {
    }
  }

  /** Rotating left and then right by the same amount, each result stored in a byte, gives back the byte. */
  lemma RorUndoesRol(b: bv8, n: nat)
    requires n <= 8
    ensures Low8(Ror8(Low8(Rol8(b, n)), n)) == b
  {
    if n == 0 {
    } else if n == 1 {
    } else if n == 2 {
    } else if n == 3 {
    } else if n == 4 {
    } else if n == 5 {
    } else if n == 6 {
    } else if n == 7 {
    } else {
    }
  }

  /**
   * ror8 is not masked: above the rotated byte its value carries b shifted right by n, so it
   * exceeds 0xFF exactly when b has a set bit at or above position n.
   */
  lemma Ror8Unmasked(b: bv8, n: nat)
    requires n <= 8
    ensures Ror8(b, n) == (((b >> n) as bv32) << 8) | (Low8(Ror8(b, n)) as bv32)
    ensures Ror8(b, n) > 0xFF <==> b >> n != 0
  {
    if n == 0 {
    } else if n == 1 {
    } else if n == 2 {
    } else if n == 3 {
    } else if n == 4 {
    } else if n == 5 {
    } else if n == 6 {
    } else if n == 7 {
    } else {
    }
  }

  /** rol8 is not masked either: above the rotated byte its value carries the top n bits of b. */
  lemma Rol8Unmasked(b: bv8, n: nat)
    requires n <= 8
    ensures Rol8(b, n) == (((b >> (8 - n)) as bv32) << 8) | (Low8(Rol8(b, n)) as bv32)
    ensures Rol8(b, n) > 0xFF <==> b >> (8 - n) != 0
  {
    if n == 0 {
    } else if n == 1 {
    } else if n == 2 {
    } else if n == 3 {
    } else if n == 4 {
    } else if n == 5 {
    } else if n == 6 {
    } else if n == 7 {
    } else {
    }
  }

  /** A concrete unmasked value: ror8(0xFF, 1) is 0x7FFF, and only its low byte 0xFF is the rotation. */
  lemma Ror8OfAllOnes()
    ensures Ror8(0xFF, 1) == 0x7FFF && Low8(Ror8(0xFF, 1)) == 0xFF
  {
  }
}
