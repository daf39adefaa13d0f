/** Bytes and unsigned 32-bit words as bounded naturals, with C's wrap-around made explicit,
    and bitwise operations defined bit by bit. */
module Words {

  type Byte = b: nat | b < 256
  type Word16 = w: nat | w < 0x1_0000
  type Word32 = w: nat | w < 0x1_0000_0000

  // ---------- modular arithmetic ----------

  /** Addition of two uint32 values. */
  function Add32(x: Word32, y: Word32): Word32 {
    if x + y >= 0x1_0000_0000 then x + y - 0x1_0000_0000 else x + y
  }

  /** Subtraction of two uint32 values. */
  function Sub32(x: Word32, y: Word32): Word32 {
    if x >= y then x - y else x + 0x1_0000_0000 - y
  }

  /** What a uint32 keeps of an unbounded number. */
  function Wrap32(n: nat): Word32 {
    n % 0x1_0000_0000
  }

  lemma WrapSmall(n: nat)
    requires n < 0x1_0000_0000
    ensures Wrap32(n) == n
  {
  }

  /** Right shift of a uint32. */
  function Shr(x: Word32, k: nat): (r: Word32)
    ensures r <= x
    decreases k, x
  {
    if k == 0 then x else Shr(x / 2, k - 1)
  }

  /** Left shift of a uint32: bits that leave the word are lost. */
  function Shl(x: Word32, k: nat): Word32
    decreases k, x
  {
    if k == 0 then x else Shl(Add32(x, x), k - 1)
  }

  // ---------- bitwise operations ----------

  function Xor(x: nat, y: nat): nat
    decreases x + y
  {
    if x == 0 && y == 0 then 0
    else 2 * Xor(x / 2, y / 2) + (if x % 2 == y % 2 then 0 else 1)
  }

  function Or(x: nat, y: nat): nat
    decreases x + y
  {
    if x == 0 && y == 0 then 0
    else 2 * Or(x / 2, y / 2) + (if x % 2 == 1 || y % 2 == 1 then 1 else 0)
  }

  function Pow2(k: nat): (r: nat)
    ensures r > 0
  {
    if k == 0 then 1 else 2 * Pow2(k - 1)
  }

  lemma {:induction false} XorBound(x: nat, y: nat, k: nat)
    requires x < Pow2(k) && y < Pow2(k)
    ensures Xor(x, y) < Pow2(k)
    decreases k
  {
    if k > 0 {
      XorBound(x / 2, y / 2, k - 1);
    }
  }

  lemma {:induction false} OrBound(x: nat, y: nat, k: nat)
    requires x < Pow2(k) && y < Pow2(k)
    ensures Or(x, y) < Pow2(k)
    decreases k
  {
    if k > 0 {
      OrBound(x / 2, y / 2, k - 1);
    }
  }

  lemma DoubleProduct(x: nat, y: nat)
    ensures 2 * (x * y) == (2 * x) * y
  {
  }

  lemma {:induction false} Pow2Sum(j: nat, k: nat)
    ensures Pow2(j + k) == Pow2(j) * Pow2(k)
  {
    if j > 0 {
      Pow2Sum(j - 1, k);
      assert Pow2(j + k) == 2 * Pow2(j - 1 + k);
      DoubleProduct(Pow2(j - 1), Pow2(k));
    }
  }

  lemma Pow2Of32()
    ensures Pow2(32) == 0x1_0000_0000
  {
    assert Pow2(8) == 256;
    Pow2Sum(8, 8);
    Pow2Sum(16, 16);
  }

  lemma XorBits(x: nat, y: nat)
    ensures Xor(x, y) / 2 == Xor(x / 2, y / 2)
    ensures Xor(x, y) % 2 == if x % 2 == y % 2 then 0 else 1
  {
  }

  /** Xor with the same number twice gives the first number back. */
  lemma {:induction false} XorTwice(x: nat, y: nat)
    ensures Xor(Xor(x, y), y) == x
    decreases x + y
  {
    if x + y > 0 {
      XorBits(x, y);
      XorBits(Xor(x, y), y);
      XorTwice(x / 2, y / 2);
    }
  }

  function Xor32(x: Word32, y: Word32): Word32 {
    Pow2Of32();
    XorBound(x, y, 32);
    Xor(x, y)
  }

  function Or32(x: Word32, y: Word32): Word32 {
    Pow2Of32();
    OrBound(x, y, 32);
    Or(x, y)
  }
}
