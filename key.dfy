/**
 * Security access: the key main.c derives from the ECU's challenge (calc_key), and the
 * big-endian byte order in which the challenge arrives and the key is sent back.
 */
module Key {
  import opened Types

  /** The four bytes of x, most significant first (htonl followed by memcpy). */
  function ToBe32(x: uint32): seq<uint8>
  {
    [x / 0x100_0000, (x / 0x1_0000) % 0x100, (x / 0x100) % 0x100, x % 0x100]
  }

  /** The 32-bit value of four bytes read most significant first (ntohl of a uint32_t load). */
  function Be32(b: seq<uint8>): uint32
    requires |b| == 4
  {
    (b[0] as int) * 0x100_0000 + (b[1] as int) * 0x1_0000 + (b[2] as int) * 0x100 + b[3] as int
  }

  /** `(a >> 8) | (a << 8)` assigned to a uint16_t: the two bit groups do not overlap, so `|` is `+`, and the assignment drops bits above 16. */
  function ByteSwap16(a: uint16): uint16
  {
    (a / 0x100 + a * 0x100) % 0x1_0000
  }

  /**
   * calc_key on a little-endian host, where q[0] is the low half of the challenge and q[1] the
   * high half. b1 and b2 occupy disjoint bytes of the result, so the `|`s are `+`s.
   */
  function CalcKey(challenge: uint32): uint32
  {
    var lo := challenge % 0x1_0000;
    var hi := challenge / 0x1_0000;
    var w := ByteSwap16(lo);
    var b1 := (w / 0xA1) % 0x100;
    var b2 := (hi % 0xC8) % 0x100;
    b1 * 0x100_0000 + b2 * 0x1_0000 + 0x69 * 0x100 + 0x27
  }

  /** Reading back the bytes of a value gives the value. */
  lemma Be32OfToBe32(x: uint32)
    ensures Be32(ToBe32(x)) == x
  {
    var y := x / 0x100;
    var z := y / 0x100;
    DivMod(x, y, x % 0x100);
    assert x / 0x1_0000 == z;
    assert x / 0x100_0000 == z / 0x100;
  }

  /** Writing out the value of four bytes gives the bytes. */
  lemma ToBe32OfBe32(b: seq<uint8>)
    requires |b| == 4
    ensures ToBe32(Be32(b)) == b
  {
    var x := Be32(b);
    var y := (b[0] as int) * 0x1_0000 + (b[1] as int) * 0x100 + b[2];
    var z := (b[0] as int) * 0x100 + b[1];
    DivMod(x, y, b[3]);
    DivMod(y, z, b[2]);
    DivMod(z, b[0], b[1]);
    assert x / 0x1_0000 == z;
    assert x / 0x100_0000 == b[0];
  }

  /** Swapping the bytes of a 16-bit value twice gives it back. */
  lemma ByteSwap16Twice(a: uint16)
    ensures ByteSwap16(a) == (a % 0x100) * 0x100 + a / 0x100
    ensures ByteSwap16(ByteSwap16(a)) == a
  {
    var h, l := a / 0x100, a % 0x100;
    DivMod(a, h, l);
    DivMod16(a / 0x100 + (a as int) * 0x100, h, l * 0x100 + h);
    var w := ByteSwap16(a);
    DivMod(w, l, h);
    DivMod16(w / 0x100 + (w as int) * 0x100, l, h * 0x100 + l);
  }

  /**
   * The key as sent, most significant byte first: the byte-swapped low half of the challenge
   * divided by 0xA1 (kept to eight bits), the high half of the challenge modulo 200 (so below
   * 200), then the constants 0x69 and 0x27.
   */
  lemma KeyLayout(challenge: uint32)
    ensures ToBe32(CalcKey(challenge)) ==
              [(ByteSwap16(challenge % 0x1_0000) / 0xA1) % 0x100, (challenge / 0x1_0000) % 0xC8, 0x69, 0x27]
    ensures ToBe32(CalcKey(challenge))[1] < 200
  {
    var bytes := [(ByteSwap16(challenge % 0x1_0000) / 0xA1) % 0x100, (challenge / 0x1_0000) % 0xC8, 0x69, 0x27];
    assert CalcKey(challenge) == Be32(bytes);
    ToBe32OfBe32(bytes);
  }

  /** The key depends on the challenge only through the two bytes KeyLayout names. */
  lemma KeyDependsOnHalves(c1: uint32, c2: uint32)
    requires (ByteSwap16(c1 % 0x1_0000) / 0xA1) % 0x100 == (ByteSwap16(c2 % 0x1_0000) / 0xA1) % 0x100
    requires (c1 / 0x1_0000) % 0xC8 == (c2 / 0x1_0000) % 0xC8
    ensures CalcKey(c1) == CalcKey(c2)
  {
  }

  /** A pinned vector: challenge 0x0139F7B3 gives key 0x1E716927. */
  lemma KeyVector()
    ensures CalcKey(0x0139_F7B3) == 0x1E71_6927
  {
    DivMod16(0x0139_F7B3, 0x0139, 0xF7B3);
    DivMod(0xF7B3, 0xF7, 0xB3);
    DivMod16(0xF7 + 0xF7B3 * 0x100, 0xF7, 0xB3F7);
    assert ByteSwap16(0xF7B3) == 0xB3F7;
    assert 0xB3F7 / 0xA1 == 286;
    DivMod(286, 1, 0x1E);
    assert 0x0139 % 0xC8 == 0x71;
  }

  /** Division with remainder by 0x100 is unique. */
  lemma DivMod(x: int, q: int, r: int)
    requires 0 <= r < 0x100 && x == q * 0x100 + r
    ensures x / 0x100 == q && x % 0x100 == r
  {
  }

  /** Division with remainder by 0x10000 is unique. */
  lemma DivMod16(x: int, q: int, r: int)
    requires 0 <= r < 0x1_0000 && x == q * 0x1_0000 + r
    ensures x / 0x1_0000 == q && x % 0x1_0000 == r
  {
  }
}
