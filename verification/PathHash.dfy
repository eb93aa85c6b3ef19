/** The 32-bit FNV-1a path hash that names value columns. */
module PathHash {

  import opened LittleEndian

  type U32 = n: nat | n < U32_LIMIT

  const ROOT_PATH_HASH: U32 := 0x811c9dc5
  const FNV_PRIME: U32 := 0x01000193
  const TAG_LIMIT: nat := 0x8000_0000

  /** Bitwise exclusive or. */
  function Xor(a: nat, b: nat): nat
    decreases a + b
  {
    if a == 0 && b == 0 then 0 else (a % 2 + b % 2) % 2 + 2 * Xor(a / 2, b / 2)
  }

  function Fnv(hash: U32, value: U32): U32 {
    Xor(hash, value) * FNV_PRIME % U32_LIMIT
  }

  function ExtendPathHash(pathHash: U32, fieldNumber: U32): U32 {
    var h0 := Fnv(pathHash, fieldNumber % 256);
    var h1 := Fnv(h0, fieldNumber / 256 % 256);
    var h2 := Fnv(h1, fieldNumber / 65536 % 256);
    Fnv(h2, fieldNumber / 16777216 % 256)
  }

  function FieldTag(pathHash: U32, fieldNumber: U32): (tag: int)
    ensures 1 <= tag < TAG_LIMIT
  {
    var tag := ExtendPathHash(pathHash, fieldNumber) % TAG_LIMIT;
    if tag == 0 then 1 else tag
  }

  // ----- separation of sibling paths -----

  lemma {:induction false} XorZero(a: nat)
    ensures Xor(a, 0) == a
    decreases a
  {
    if a > 0 {
      XorZero(a / 2);
    }
  }

  lemma BitXorInjective(x: nat, a: nat, b: nat, p: nat, q: nat)
    requires x < 2 && a < 2 && b < 2
    requires (x + a) % 2 + 2 * p == (x + b) % 2 + 2 * q
    ensures a == b && p == q
  {
  }

  lemma {:induction false} XorInjective(x: nat, a: nat, b: nat)
    requires Xor(x, a) == Xor(x, b)
    ensures a == b
    decreases x + a + b
  {
    if x + a + b > 0 {
      BitXorInjective(x % 2, a % 2, b % 2, Xor(x / 2, a / 2), Xor(x / 2, b / 2));
      XorInjective(x / 2, a / 2, b / 2);
    }
  }

  function DropBits(a: nat, k: nat): nat {
    if k == 0 then a else DropBits(a / 2, k - 1)
  }

  lemma DropTwo(a: nat, k: nat)
    ensures DropBits(a, k + 2) == DropBits(a / 4, k)
  {
    assert DropBits(a, k + 2) == DropBits(a / 2, k + 1);
    assert a / 2 / 2 == a / 4;
  }

  lemma DropByte(a: nat)
    ensures DropBits(a, 8) == a / 256
  {
    DropTwo(a, 6);
    DropTwo(a / 4, 4);
    DropTwo(a / 16, 2);
    DropTwo(a / 64, 0);
    assert DropBits(a / 256, 0) == a / 256;
    hide DropBits;
    assert a / 4 / 4 == a / 16 && a / 16 / 4 == a / 64 && a / 64 / 4 == a / 256;
  }

  /** A value of k bits leaves the bits above alone. */
  lemma {:induction false} XorKeepsHighBits(a: nat, v: nat, k: nat)
    requires DropBits(v, k) == 0
    ensures DropBits(Xor(a, v), k) == DropBits(a, k)
    decreases k
  {
    if k == 0 {
      XorZero(a);
    } else if a + v > 0 {
      XorKeepsHighBits(a / 2, v / 2, k - 1);
      assert Xor(a, v) / 2 == Xor(a / 2, v / 2);
    }
  }

  lemma XorByteKeepsBlock(a: nat, v: Byte)
    ensures Xor(a, v) / 256 == a / 256
  {
    DropByte(v);
    XorKeepsHighBits(a, v, 8);
    DropByte(a);
    DropByte(Xor(a, v));
  }

  // ----- exclusive or, digit by digit -----

  function Shifted(q: nat, k: nat): nat {
    if k == 0 then q else 2 * Shifted(q, k - 1)
  }

  /** Exclusive or works on the upper and on the lower bits by themselves. */
  lemma {:induction false} XorSplit(q: nat, p: nat, r: nat, v: nat, k: nat)
    requires DropBits(r, k) == 0 && DropBits(v, k) == 0
    ensures Xor(Shifted(q, k) + r, Shifted(p, k) + v) == Shifted(Xor(q, p), k) + Xor(r, v)
    decreases k
  {
    assert k == 0 ==> r == 0 && v == 0;
    assert k > 0 ==> DropBits(r / 2, k - 1) == 0 && DropBits(v / 2, k - 1) == 0;
    hide Xor, DropBits;
    if k == 0 {
      XorZero(0);
    } else {
      XorSplit(q, p, r / 2, v / 2, k - 1);
      XorStep(Shifted(q, k - 1), Shifted(p, k - 1), Shifted(Xor(q, p), k - 1), r, v);
    }
  }

  lemma XorStep(a: nat, b: nat, c: nat, r: nat, v: nat)
    requires Xor(a + r / 2, b + v / 2) == c + Xor(r / 2, v / 2)
    ensures Xor(2 * a + r, 2 * b + v) == 2 * c + Xor(r, v)
  {
    hide Xor, BitXor;
    XorHalf(a, b, r, v);
    XorHalf(0, 0, r, v);
  }

  lemma XorHalf(a: nat, b: nat, r: nat, v: nat)
    ensures Xor(2 * a + r, 2 * b + v) == BitXor(r, v) + 2 * Xor(a + r / 2, b + v / 2)
  {
    assert (2 * a + r) / 2 == a + r / 2 && (2 * a + r) % 2 == r % 2;
    assert (2 * b + v) / 2 == b + v / 2 && (2 * b + v) % 2 == v % 2;
  }

  function BitXor(a: nat, b: nat): nat {
    (a % 2 + b % 2) % 2
  }

  lemma ShiftedFour(q: nat)
    ensures Shifted(q, 4) == 16 * q && Shifted(q, 8) == 256 * q
  {
    assert Shifted(q, 2) == 4 * q by { assert Shifted(q, 1) == 2 * q; }
    assert Shifted(q, 4) == 4 * Shifted(q, 2);
    assert Shifted(q, 6) == 4 * Shifted(q, 4);
    assert Shifted(q, 8) == 4 * Shifted(q, 6);
  }

  lemma XorByte(q: nat, r: Byte, v: Byte)
    ensures Xor(256 * q + r, v) == 256 * q + Xor(r, v)
  {
    DropByte(r);
    DropByte(v);
    ShiftedFour(q);
    ShiftedFour(0);
    XorZero(q);
    hide Xor, Shifted, DropBits;
    XorSplit(q, 0, r, v, 8);
  }

  type Bit = b: nat | b < 2

  lemma XorBit(a: nat, b: nat, x: Bit, y: Bit)
    ensures Xor(2 * a + x, 2 * b + y) == (x + y) % 2 + 2 * Xor(a, b)
  {
    assert (2 * a + x) / 2 == a && (2 * b + y) / 2 == b;
  }

  lemma XorNibble(a: nat, b: nat, a3: Bit, a2: Bit, a1: Bit, a0: Bit, b3: Bit, b2: Bit, b1: Bit, b0: Bit)
    ensures Xor(16 * a + 8 * a3 + 4 * a2 + 2 * a1 + a0, 16 * b + 8 * b3 + 4 * b2 + 2 * b1 + b0)
            == 16 * Xor(a, b) + 8 * ((a3 + b3) % 2) + 4 * ((a2 + b2) % 2) + 2 * ((a1 + b1) % 2) + (a0 + b0) % 2
  {
    hide Xor;
    XorBit(a, b, a3, b3);
    XorBit(2 * a + a3, 2 * b + b3, a2, b2);
    XorBit(4 * a + 2 * a3 + a2, 4 * b + 2 * b3 + b2, a1, b1);
    XorBit(8 * a + 4 * a3 + 2 * a2 + a1, 8 * b + 4 * b3 + 2 * b2 + b1, a0, b0);
  }
}
