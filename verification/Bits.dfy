/** Bitwise operators on natural numbers, as the kernel applies them to its
    unsigned words, and the few laws of masks the other modules use. */
module Bits {

  function Pow2(k: nat): (r: nat)
    ensures r >= 1
  {
    if k == 0 then 1 else 2 * Pow2(k - 1)
  }

  type Byte = b: nat | b < 0x100
  type U32 = w: nat | w < 0x1_0000_0000
  type U64 = w: nat | w < 0x1_0000_0000_0000_0000

  lemma Pow2Values()
    ensures Pow2(8) == 0x100 && Pow2(20) == 0x10_0000 && Pow2(32) == 0x1_0000_0000
    ensures Pow2(40) == 0x100_0000_0000 && Pow2(64) == 0x1_0000_0000_0000_0000
  {
    assert Pow2(8) == 0x100;
    assert Pow2(16) == 0x1_0000;
    assert Pow2(20) == 0x10_0000;
    assert Pow2(24) == 0x100_0000;
    assert Pow2(32) == 0x1_0000_0000;
    assert Pow2(40) == 0x100_0000_0000;
    assert Pow2(48) == 0x1_0000_0000_0000;
    assert Pow2(56) == 0x100_0000_0000_0000;
    assert Pow2(64) == 0x1_0000_0000_0000_0000;
  }

  /** a & b */
  function And(a: nat, b: nat): (r: nat)
    ensures r <= a && r <= b
  {
    if a == 0 || b == 0 then 0
    else 2 * And(a / 2, b / 2) + (if a % 2 == 1 && b % 2 == 1 then 1 else 0)
  }

  /** a | b */
  function Or(a: nat, b: nat): nat {
    if a == 0 then b
    else if b == 0 then a
    else 2 * Or(a / 2, b / 2) + (if a % 2 == 1 || b % 2 == 1 then 1 else 0)
  }

  /** Bit k of x, that is (x >> k) & 1. */
  predicate Bit(x: nat, k: nat) {
    if k == 0 then x % 2 == 1 else Bit(x / 2, k - 1)
  }

  lemma {:induction false} AndSymmetric(a: nat, b: nat)
    ensures And(a, b) == And(b, a)
  {
    if a != 0 && b != 0 { AndSymmetric(a / 2, b / 2); }
  }

  lemma {:induction false} AndTwice(a: nat, m: nat)
    ensures And(And(a, m), m) == And(a, m)
  {
    if a != 0 && m != 0 {
      AndTwice(a / 2, m / 2);
      assert And(a, m) / 2 == And(a / 2, m / 2);
    }
  }

  lemma {:induction false} AndOverOr(a: nat, b: nat, m: nat)
    ensures And(Or(a, b), m) == Or(And(a, m), And(b, m))
  {
    if a != 0 && b != 0 && m != 0 {
      AndOverOr(a / 2, b / 2, m / 2);
      assert Or(a, b) / 2 == Or(a / 2, b / 2);
      assert And(a, m) / 2 == And(a / 2, m / 2) && And(b, m) / 2 == And(b / 2, m / 2);
    }
  }

  /** A full low mask keeps a number that fits under it. */
  lemma {:induction false} AndFull(x: nat, k: nat)
    requires x < Pow2(k)
    ensures And(x, Pow2(k) - 1) == x
  {
    if k > 0 {
      AndFull(x / 2, k - 1);
      assert Pow2(k) - 1 == 2 * (Pow2(k - 1) - 1) + 1;
    }
  }

  /** One digit of a & b, for numbers given as 2a + i and 2b + j. */
  lemma AndDigit(a: nat, i: nat, b: nat, j: nat)
    requires i < 2 && j < 2
    ensures And(2 * a + i, 2 * b + j) == 2 * And(a, b) + (if i == 1 && j == 1 then 1 else 0)
  {
    assert (2 * a + i) / 2 == a && (2 * b + j) / 2 == b;
    if a == 0 && b == 0 { assert And(0, 0) == 0; }
  }

  lemma AndLow3(a: nat, r: nat, m: nat)
    requires r < 8
    ensures And(8 * a + r, 8 * m + 7) == 8 * And(a, m) + r
  {
    hide And;
    var b2, b1, b0 := r / 4, r / 2 % 2, r % 2;
    assert r == 4 * b2 + 2 * b1 + b0;
    AndDigit(4 * a + 2 * b2 + b1, b0, 4 * m + 3, 1);
    AndDigit(2 * a + b2, b1, 2 * m + 1, 1);
    AndDigit(a, b2, m, 1);
  }

  lemma AndLow6(a: nat, r: nat, m: nat)
    requires r < 64
    ensures And(64 * a + r, 64 * m + 63) == 64 * And(a, m) + r
  {
    hide And;
    var r1, r0 := r / 8, r % 8;
    AndLow3(8 * a + r1, r0, 8 * m + 7);
    AndLow3(a, r1, m);
  }

  lemma AndNothing(a: nat)
    ensures And(a, 0) == 0
  {
  }

  /** Nine more bits of a low mask. */
  lemma AndNineBits(x: nat, m: nat)
    ensures And(x, 0x200 * m + 0x1FF) == 0x200 * And(x / 0x200, m) + x % 0x200
  {
    hide And;
    var a, r := x / 0x200, x % 0x200;
    var r1, r0 := r / 64, r % 64;
    AndLow6(8 * a + r1, r0, 8 * m + 7);
    AndLow3(a, r1, m);
  }

  lemma AndLow9(x: nat)
    ensures And(x, 0x1FF) == x % 0x200
  {
    hide And;
    AndNineBits(x, 0);
    AndNothing(x / 0x200);
  }

  lemma AndLow10(x: nat)
    ensures And(x, 0x3FF) == x % 0x400
  {
    hide And;
    var a, r := x / 0x400, x % 0x400;
    var b, r1, r0 := r / 512, r / 64 % 8, r % 64;
    assert r == 512 * b + 64 * r1 + r0;
    AndLow6(16 * a + 8 * b + r1, r0, 15);
    AndLow3(2 * a + b, r1, 1);
    AndDigit(a, b, 0, 1);
    AndNothing(a);
  }

  lemma AndLow12(x: nat)
    ensures And(x, 0xFFF) == x % 0x1000
  {
    hide And;
    var a, r := x / 0x1000, x % 0x1000;
    var r1, r0 := r / 64, r % 64;
    AndLow6(64 * a + r1, r0, 63);
    AndLow6(a, r1, 0);
    AndNothing(a);
  }

  lemma AndHigh3(a: nat, r: nat, m: nat)
    requires r < 8
    ensures And(8 * a + r, 8 * m) == 8 * And(a, m)
  {
    hide And;
    var b2, b1, b0 := r / 4, r / 2 % 2, r % 2;
    assert r == 4 * b2 + 2 * b1 + b0;
    AndDigit(4 * a + 2 * b2 + b1, b0, 4 * m, 0);
    AndDigit(2 * a + b2, b1, 2 * m, 0);
    AndDigit(a, b2, m, 0);
  }

  lemma AndHigh6(a: nat, r: nat, m: nat)
    requires r < 64
    ensures And(64 * a + r, 64 * m) == 64 * And(a, m)
  {
    hide And;
    var r1, r0 := r / 8, r % 8;
    AndHigh3(8 * a + r1, r0, 8 * m);
    AndHigh3(a, r1, m);
  }

  /** A mask that starts at bit 12 sees the page number only. */
  lemma AndPage(x: nat, m: nat)
    ensures And(x, 4096 * m) == 4096 * And(x / 4096, m)
  {
    hide And;
    var a, r := x / 4096, x % 4096;
    var r1, r0 := r / 64, r % 64;
    AndHigh6(64 * a + r1, r0, 64 * m);
    AndHigh6(a, r1, m);
  }

  lemma {:induction false} OrDisjoint(a: nat, b: nat)
    requires And(a, b) == 0
    ensures Or(a, b) == a + b
  {
    if a != 0 && b != 0 { OrDisjoint(a / 2, b / 2); }
  }

  lemma {:induction false} OrBelow(a: nat, b: nat, k: nat)
    requires a < Pow2(k) && b < Pow2(k)
    ensures Or(a, b) < Pow2(k)
  {
    if a != 0 && b != 0 { OrBelow(a / 2, b / 2, k - 1); }
  }

  lemma {:induction false} BitOfOr(a: nat, b: nat, k: nat)
    ensures Bit(Or(a, b), k) <==> Bit(a, k) || Bit(b, k)
  {
    if a == 0 || b == 0 {
      NoBits(k);
    } else {
      assert Or(a, b) / 2 == Or(a / 2, b / 2);
      if k > 0 { BitOfOr(a / 2, b / 2, k - 1); }
    }
  }

  lemma {:induction false} BitOfAnd(a: nat, b: nat, k: nat)
    ensures Bit(And(a, b), k) <==> Bit(a, k) && Bit(b, k)
  {
    if a == 0 || b == 0 {
      NoBits(k);
    } else {
      assert And(a, b) / 2 == And(a / 2, b / 2);
      if k > 0 { BitOfAnd(a / 2, b / 2, k - 1); }
    }
  }

  lemma {:induction false} NoBits(k: nat)
    ensures !Bit(0, k)
  {
    if k > 0 { NoBits(k - 1); }
  }

  lemma {:induction false} BitOfPow2(j: nat, k: nat)
    ensures Bit(Pow2(j), k) <==> j == k
  {
    if j == 0 {
      if k > 0 { NoBits(k - 1); }
    } else if k > 0 {
      BitOfPow2(j - 1, k - 1);
    }
  }

  /** Complement under a full mask flips every bit below it. */
  lemma {:induction false} BitOfNot(x: nat, n: nat, k: nat)
    requires x < Pow2(n) && k < n
    ensures Bit(Pow2(n) - 1 - x, k) <==> !Bit(x, k)
  {
    assert Pow2(n) - 1 - x == 2 * (Pow2(n - 1) - 1 - x / 2) + (1 - x % 2);
    if k > 0 { BitOfNot(x / 2, n - 1, k - 1); }
  }

  lemma {:induction false} Pow2Below(j: nat, n: nat)
    requires j < n
    ensures Pow2(j) < Pow2(n)
  {
    if j > 0 { Pow2Below(j - 1, n - 1); }
  }

  /** Testing with a one-bit mask reads that bit. */
  lemma {:induction false} AndPow2(x: nat, k: nat)
    ensures And(x, Pow2(k)) != 0 <==> Bit(x, k)
  {
    if x == 0 {
      NoBits(k);
    } else if k > 0 {
      AndPow2(x / 2, k - 1);
    }
  }

  /** Or with 1 sets bit 0. */
  lemma OrOne(x: nat)
    ensures Or(x, 1) == x - x % 2 + 1
  {
    if x > 1 { assert Or(x / 2, 0) == x / 2; }
  }

  lemma AndSeven(x: nat)
    ensures And(x, 7) == x % 8
  {
    hide And;
    AndLow3(x / 8, x % 8, 0);
    AndNothing(x / 8);
  }

  /** The part of a under a mask has no bit of a number outside it. */
  lemma {:induction false} AndOutside(a: nat, f: nat, m: nat)
    requires And(f, m) == 0
    ensures And(And(a, m), f) == 0
  {
    if a != 0 && f != 0 && m != 0 {
      AndOutside(a / 2, f / 2, m / 2);
      assert And(a, m) / 2 == And(a / 2, m / 2);
    }
  }

  /** Forty more bits of a low mask. */
  lemma AndLow40(x: nat)
    ensures And(x, 0xFF_FFFF_FFFF) == x % 0x100_0000_0000
  {
    hide And;
    var a := x / 0x200;
    var b := a / 0x200;
    var c := b / 0x200;
    var e := c / 0x200;
    AndNineBits(x, 0x7FFF_FFFF);
    AndNineBits(a, 0x3F_FFFF);
    AndNineBits(b, 0x1FFF);
    AndNineBits(c, 0xF);
    AndLow3(e / 8, e % 8, 1);
    AndOneBit(e / 8);
    JoinLow40(x, a, b, c, e);
  }

  lemma AndOneBit(x: nat)
    ensures And(x, 1) == x % 2
  {
    hide And;
    AndDigit(x / 2, x % 2, 0, 1);
    AndNothing(x / 2);
  }

  lemma JoinLow40(x: nat, a: nat, b: nat, c: nat, e: nat)
    requires a == x / 0x200 && b == a / 0x200 && c == b / 0x200 && e == c / 0x200
    ensures x % 0x100_0000_0000 ==
      x % 0x200 + 0x200 * (a % 0x200 + 0x200 * (b % 0x200 + 0x200 * (c % 0x200 + 0x200 * (8 * (e / 8 % 2) + e % 8))))
  {
    Low40(x, a, a / 0x8000_0000);
    Low31(a, b, b / 0x40_0000);
    Low22(b, c, c / 0x2000);
    Low13(c, e, e / 16);
    Low4(e, e / 8, e / 16);
  }

  lemma Low40(x: nat, a: nat, q: nat)
    requires a == x / 0x200 && q == a / 0x8000_0000
    ensures x % 0x100_0000_0000 == x % 0x200 + 0x200 * (a % 0x8000_0000)
  {
    assert x == 0x100_0000_0000 * q + (x % 0x200 + 0x200 * (a % 0x8000_0000));
  }

  lemma Low31(x: nat, a: nat, q: nat)
    requires a == x / 0x200 && q == a / 0x40_0000
    ensures x % 0x8000_0000 == x % 0x200 + 0x200 * (a % 0x40_0000)
  {
    assert x == 0x8000_0000 * q + (x % 0x200 + 0x200 * (a % 0x40_0000));
  }

  lemma Low22(x: nat, a: nat, q: nat)
    requires a == x / 0x200 && q == a / 0x2000
    ensures x % 0x40_0000 == x % 0x200 + 0x200 * (a % 0x2000)
  {
    assert x == 0x40_0000 * q + (x % 0x200 + 0x200 * (a % 0x2000));
  }

  lemma Low13(x: nat, a: nat, q: nat)
    requires a == x / 0x200 && q == a / 16
    ensures x % 0x2000 == x % 0x200 + 0x200 * (a % 16)
  {
    assert x == 0x2000 * q + (x % 0x200 + 0x200 * (a % 16));
  }

  lemma Low4(x: nat, a: nat, q: nat)
    requires a == x / 8 && q == x / 16
    ensures x % 16 == 8 * (a % 2) + x % 8
  {
  }
}
