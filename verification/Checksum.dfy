/** The Internet checksum (RFC 1071) as the packet program computes it: a little-endian sum
    with a single carry fold, and exactly when that is enough. */
module Checksum {
  import opened NumberTheory
  import opened Words

  /** Sum of the 16-bit words, read with the low byte first. */
  function LeSum(h: seq<Byte>): nat {
    if |h| < 2 then 0 else h[0] + 0x100 * h[1] + LeSum(h[2..])
  }

  /** Sum of the 16-bit words, read with the high byte first. */
  function BeSum(h: seq<Byte>): nat {
    if |h| < 2 then 0 else 0x100 * h[0] + h[1] + BeSum(h[2..])
  }

  /** `(sum & 0xffff) + (sum >> 16)`. */
  function Fold(s: nat): nat {
    s % 0x1_0000 + s / 0x1_0000
  }

  /** The low 16 bits of `~sum`. */
  function Complement(s: nat): Word16 {
    0xffff - s % 0x1_0000
  }

  function Swap(w: Word16): Word16 {
    w % 0x100 * 0x100 + w / 0x100
  }

  /** The ones' complement sum: carries are added back until none is left. */
  function OnesSum(s: nat): (r: Word16) {
    if s < 0x1_0000 then s else OnesSum(Fold(s))
  }

  /** A header verifies if the ones' complement sum of all its words is all ones (section 1 of RFC 1071). */
  predicate Verifies(h: seq<Byte>) {
    OnesSum(LeSum(h)) == 0xffff
  }

  /** The header with `w` stored low byte first in its checksum field. */
  function WithChecksum(h: seq<Byte>, w: Word16): (r: seq<Byte>)
    requires |h| == 20
    ensures |r| == 20
  {
    h[10 := w % 0x100][11 := w / 0x100]
  }

  // ---------- sums ----------

  lemma {:induction false} LeSumConcat(g: seq<Byte>, h: seq<Byte>)
    requires |g| % 2 == 0
    ensures LeSum(g + h) == LeSum(g) + LeSum(h)
  {
    if g == [] {
      assert g + h == h;
    } else {
      assert (g + h)[2..] == g[2..] + h;
      LeSumConcat(g[2..], h);
    }
  }

  lemma LeSumFrom(h: seq<Byte>, i: nat)
    requires i + 2 <= |h|
    ensures LeSum(h[i..]) == h[i] + 0x100 * h[i + 1] + LeSum(h[i + 2..])
  {
  }

  lemma LeSumOfHeader(h: seq<Byte>)
    requires |h| == 20
    ensures LeSum(h) == (h[0] as int + h[2] + h[4] + h[6] + h[8] + h[10] + h[12] + h[14] + h[16] + h[18])
                      + 0x100 * (h[1] as int + h[3] + h[5] + h[7] + h[9] + h[11] + h[13] + h[15] + h[17] + h[19])
  {
    assert h[0..] == h;
    LeSumFrom(h, 0); LeSumFrom(h, 2); LeSumFrom(h, 4); LeSumFrom(h, 6); LeSumFrom(h, 8);
    LeSumFrom(h, 10); LeSumFrom(h, 12); LeSumFrom(h, 14); LeSumFrom(h, 16); LeSumFrom(h, 18);
  }

  lemma {:induction false} LeSumBound(h: seq<Byte>)
    ensures LeSum(h) <= |h| / 2 * 0xffff
  {
    if |h| >= 2 {
      LeSumBound(h[2..]);
    }
  }

  lemma LeSumOfThree(a: seq<Byte>, x: Byte, y: Byte, c: seq<Byte>)
    requires |a| % 2 == 0
    ensures LeSum(a + [x, y] + c) == LeSum(a) + (x + 0x100 * y) + LeSum(c)
  {
    LeSumConcat(a + [x, y], c);
    LeSumConcat(a, [x, y]);
    assert [x, y][2..] == [];
  }

  lemma ChecksumSum(h: seq<Byte>, w: Word16)
    requires |h| == 20 && h[10] == 0 && h[11] == 0
    ensures LeSum(WithChecksum(h, w)) == LeSum(h) + w
  {
    assert h == h[..10] + [0, 0] + h[12..];
    assert WithChecksum(h, w) == h[..10] + [w % 0x100, w / 0x100] + h[12..];
    LeSumOfThree(h[..10], 0, 0, h[12..]);
    LeSumOfThree(h[..10], w % 0x100, w / 0x100, h[12..]);
  }

  lemma {:induction false} OnesSumResidue(s: nat)
    ensures OnesSum(s) % 0xffff == s % 0xffff
    ensures OnesSum(s) == 0 <==> s == 0
  {
    if s >= 0x1_0000 {
      OnesSumResidue(Fold(s));
      FoldResidue(s);
    }
  }

  lemma FoldResidue(s: nat)
    ensures Fold(s) % 0xffff == s % 0xffff
  {
    assert s == Fold(s) + s / 0x1_0000 * 0xffff;
    ModAddMultiple(Fold(s), s / 0x1_0000, 0xffff);
  }

  lemma AllOnes(s: nat)
    ensures OnesSum(s) == 0xffff <==> s > 0 && s % 0xffff == 0
  {
  }

  // ---------- the two theorems ----------

  /** The checksum written verifies exactly when the single fold leaves no carry. */
  lemma ChecksumVerifies(h: seq<Byte>)
    requires |h| == 20 && h[0] > 0 && h[10] == 0 && h[11] == 0
    ensures Verifies(WithChecksum(h, Complement(Fold(LeSum(h))))) <==> Fold(LeSum(h)) < 0x1_0000
  {
    var s := LeSum(h);
    var w := Complement(Fold(s));
    ChecksumSum(h, w);
    LeSumBound(h);
    AllOnes(s + w);
    assert s > 0;
    SumWithComplement(s);
  }

  lemma SumWithComplement(s: nat)
    requires s <= 10 * 0xffff
    ensures (s + Complement(Fold(s))) % 0xffff == if Fold(s) < 0x1_0000 then 0 else 1
  {
  }

  /** Reading the words in either byte order multiplies the sum by 256 modulo 65535. */
  lemma {:induction false} ByteOrder(h: seq<Byte>) returns (e: nat)
    ensures 0x100 * BeSum(h) == LeSum(h) + 0xffff * e
    ensures BeSum(h) <= |h| / 2 * 0xffff
    ensures BeSum(h) == 0 <==> LeSum(h) == 0
  {
    e := 0;
    if |h| >= 2 {
      var rest := ByteOrder(h[2..]);
      e := h[0] + rest;
      BeSumStep(h);
      assert 0x100 * BeSum(h) == LeSum(h) + 0xffff * e;
    }
  }

  lemma BeSumStep(h: seq<Byte>)
    requires |h| >= 2
    ensures BeSum(h) == 0x100 * h[0] as nat + h[1] as nat + BeSum(h[2..])
    ensures LeSum(h) == h[0] as nat + 0x100 * h[1] as nat + LeSum(h[2..])
    ensures |h| / 2 == |h[2..]| / 2 + 1
  {
  }

  /** A receiver may add the words in either byte order (section 2 of RFC 1071). */
  lemma VerifiesInEitherOrder(h: seq<Byte>)
    ensures Verifies(h) <==> OnesSum(BeSum(h)) == 0xffff
  {
    var e := ByteOrder(h);
    AllOnes(LeSum(h));
    AllOnes(BeSum(h));
    SameMultiples(LeSum(h), BeSum(h), e);
  }

  lemma SameMultiples(l: nat, b: nat, e: nat)
    requires 0x100 * b == l + 0xffff * e
    ensures l % 0xffff == 0 <==> b % 0xffff == 0
  {
    var m := 0xffff;
    if l % m == 0 {
      var q := 0x100 * (l / m) + 0x100 * e - b;
      assert b == q * m + 0;
      ModUnique(b, m, q, 0);
    }
    if b % m == 0 {
      var q := 0x100 * (b / m) - e;
      assert l == q * m + 0;
      ModUnique(l, m, q, 0);
    }
  }

  /** A checksum computed in network byte order puts the same two bytes into the header
      exactly when neither computation leaves a carry after its single fold. */
  lemma SameBytesInEitherOrder(h: seq<Byte>)
    requires |h| == 20 && h[0] > 0
    ensures Complement(Fold(LeSum(h))) == Swap(Complement(Fold(BeSum(h))))
       <==> Fold(LeSum(h)) < 0x1_0000 && Fold(BeSum(h)) < 0x1_0000
  {
    var l, b := LeSum(h), BeSum(h);
    var e := ByteOrder(h);
    LeSumBound(h);
    assert l > 0;
    SwapFolds(l, b, e);
  }

  lemma SwapFolds(l: nat, b: nat, e: nat)
    requires 0 < l <= 10 * 0xffff && 0 < b <= 10 * 0xffff
    requires 0x100 * b == l + 0xffff * e
    ensures Complement(Fold(l)) == Swap(Complement(Fold(b)))
       <==> Fold(l) < 0x1_0000 && Fold(b) < 0x1_0000
  {
    var f, g := Fold(l), Fold(b);
    var w := Complement(g);
    var ql, qb, qw := l / 0x1_0000, b / 0x1_0000, w / 0x100;
    assert l == f + 0xffff * ql && b == g + 0xffff * qb;
    var carryL, carryB := if f < 0x1_0000 then 0 else 1, if g < 0x1_0000 then 0 else 1;
    ComplementValue(l, carryL);
    ComplementValue(b, carryB);
    SwapResidue(w);
    var k := qw - (0x100 * qb - ql - e) - 0xff + carryL - 0x100 * carryB;
    SmallDifference(Complement(f), Swap(w), k, carryL, carryB);
  }

  lemma ComplementValue(s: nat, carry: nat)
    requires 0 < s <= 10 * 0xffff && carry == if Fold(s) < 0x1_0000 then 0 else 1
    ensures Complement(Fold(s)) == 0xffff - Fold(s) + 0x1_0000 * carry
    ensures carry == 0 ==> Complement(Fold(s)) < 0xffff
  {
  }

  lemma SmallDifference(x: int, y: int, k: int, carryL: int, carryB: int)
    requires x - y == 0xffff * k + carryL - 0x100 * carryB
    requires 0 <= x <= 0xffff && 0 <= y <= 0xffff && 0 <= carryL <= 1 && 0 <= carryB <= 1
    requires carryL == 0 ==> x < 0xffff
    requires carryB == 0 ==> y < 0xffff
    ensures x == y <==> carryL == 0 && carryB == 0
  {
  }

  lemma SwapResidue(w: Word16)
    ensures (Swap(w) as int) == (0x100 * (w as int)) - (0xffff * (w / 0x100) as int)
    ensures w < 0xffff ==> Swap(w) < 0xffff
  {
  }
}
