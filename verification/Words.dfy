/**
 Machine words as bounded integers. Wrap-around is written out with `%`, and the
 bitwise operators the repository uses are defined bit by bit, so that every
 property below is about ordinary integers.
 */
module Words {

  const TWO_TO_THE_32 := 0x1_0000_0000
  const TWO_TO_THE_64 := 0x1_0000_0000_0000_0000

  type Byte = x: int | 0 <= x < 0x100
  type Word32 = x: int | 0 <= x < 0x1_0000_0000
  type Word64 = x: int | 0 <= x < 0x1_0000_0000_0000_0000
  type Int32 = x: int | -0x8000_0000 <= x < 0x8000_0000

  /** The bit pattern of a signed 32-bit integer: an unchecked cast to uint. */
  function Bits32(v: Int32): Word32 {
    v % 0x1_0000_0000
  }

  /** An unchecked conversion of any integer to a signed 32-bit one. */
  function Wrap32(v: int): Int32 {
    var w := v % 0x1_0000_0000;
    if w < 0x8000_0000 then w else w - 0x1_0000_0000
  }

  /** The number in range that differs by a multiple of 2^32; a bit pattern adds 2^32 to the negative ones. */
  lemma WrapMeans(v: int, i: Int32)
    ensures (v - Wrap32(v)) % 4_294_967_296 == 0
    ensures Bits32(i) == if i < 0 then i + 4_294_967_296 else i
  {
  }

  lemma RemainderOfMultiple(x: int, k: int, r: Word64)
    requires x == r + k * TWO_TO_THE_64
    ensures x % TWO_TO_THE_64 == r
  {
  }

  lemma RemainderOfMultiple32(x: int, k: int, r: Word32)
    requires x == r + k * TWO_TO_THE_32
    ensures x % TWO_TO_THE_32 == r
  {
  }

  function Pow2(n: nat): (p: nat)
    ensures p > 0
  {
    if n == 0 then 1 else 2 * Pow2(n - 1)
  }

  lemma {:induction false} Pow2Monotone(m: nat, n: nat)
    requires m <= n
    ensures Pow2(m) <= Pow2(n)
    decreases n
  {
    if m == n {
    } else {
      Pow2Monotone(m, n - 1);
    }
  }

  lemma Pow2Zero()
    ensures Pow2(0) == 1
  {
  }

  lemma FourMoreBits(n: nat)
    ensures Pow2(n + 4) == 16 * Pow2(n)
  {
    assert Pow2(n + 4) == 2 * Pow2(n + 3) && Pow2(n + 3) == 2 * Pow2(n + 2);
    assert Pow2(n + 2) == 2 * Pow2(n + 1) && Pow2(n + 1) == 2 * Pow2(n);
  }

  lemma Pow2Words()
    ensures Pow2(32) == 0x1_0000_0000
    ensures Pow2(64) == 0x1_0000_0000_0000_0000
  {
    hide Pow2;
    Pow2Zero();
    FourMoreBits(0);
    FourMoreBits(4);
    FourMoreBits(8);
    FourMoreBits(12);
    FourMoreBits(16);
    FourMoreBits(20);
    FourMoreBits(24);
    FourMoreBits(28);
    FourMoreBits(32);
    FourMoreBits(36);
    FourMoreBits(40);
    FourMoreBits(44);
    FourMoreBits(48);
    FourMoreBits(52);
    FourMoreBits(56);
    FourMoreBits(60);
  }

  // ---------- single bits of a mask ----------

  predicate Bit(mask: nat, p: nat) {
    if p == 0 then mask % 2 == 1 else Bit(mask / 2, p - 1)
  }

  /** The binary digit of weight 2^p. */
  lemma {:induction false} BitIsDigit(mask: nat, p: nat)
    ensures Bit(mask, p) <==> mask / Pow2(p) % 2 == 1
  {
    if p == 0 {
    } else {
      BitIsDigit(mask / 2, p - 1);
      HalvesOfQuotient(mask, Pow2(p - 1));
    }
  }

  lemma HalvesOfQuotient(mask: nat, q: nat)
    requires q > 0
    ensures mask / 2 / q == mask / (2 * q)
  {
    var h := mask / 2;
    var d, r := h / q, h % q;
    assert h == d * q + r;
    var s := 2 * r + mask % 2;
    assert mask == d * (2 * q) + s && 0 <= s < 2 * q;
    QuotientIs(mask, 2 * q, d, s);
  }

  lemma QuotientIs(x: nat, y: nat, d: nat, r: nat)
    requires x == d * y + r && r < y
    ensures x / y == d
  {
    var e, s := x / y, x % y;
    QuotientAndRest(x, y);
    GapIsWide(e - d, y);
    assert (e - d) * y == r - s;
  }

  lemma QuotientAndRest(x: nat, y: nat)
    requires y > 0
    ensures x == x / y * y + x % y && 0 <= x % y < y
  {
  }

  lemma GapIsWide(gap: int, y: int)
    requires y >= 0
    ensures gap >= 1 ==> gap * y >= y
    ensures gap <= -1 ==> gap * y <= -y
  {
  }

  /** `mask | (1 << p)` */
  function SetBit(mask: nat, p: nat): nat {
    if p == 0 then 2 * (mask / 2) + 1 else mask % 2 + 2 * SetBit(mask / 2, p - 1)
  }

  /** `mask & ~(1 << p)` */
  function ClearBit(mask: nat, p: nat): nat {
    if p == 0 then 2 * (mask / 2) else mask % 2 + 2 * ClearBit(mask / 2, p - 1)
  }

  lemma {:induction false} BitOfSetBit(mask: nat, p: nat, q: nat)
    ensures Bit(SetBit(mask, p), q) == (p == q || Bit(mask, q))
    decreases q
  {
    if p == 0 || q == 0 {
    } else {
      BitOfSetBit(mask / 2, p - 1, q - 1);
    }
  }

  lemma {:induction false} BitOfClearBit(mask: nat, p: nat, q: nat)
    ensures Bit(ClearBit(mask, p), q) == (p != q && Bit(mask, q))
    decreases q
  {
    if p == 0 || q == 0 {
    } else {
      BitOfClearBit(mask / 2, p - 1, q - 1);
    }
  }

  lemma {:induction false} ClearBitShrinks(mask: nat, p: nat)
    requires Bit(mask, p)
    ensures ClearBit(mask, p) < mask
  {
    if p == 0 {
    } else {
      ClearBitShrinks(mask / 2, p - 1);
    }
  }

  lemma {:induction false} NoBitsAbove(mask: nat, n: nat, p: nat)
    requires mask < Pow2(n) && n <= p
    ensures !Bit(mask, p)
  {
    if n > 0 {
      NoBitsAbove(mask / 2, n - 1, p - 1);
    } else if p > 0 {
      NoBitsAbove(0, 0, p - 1);
    }
  }

  lemma {:induction false} SetBitBelow(mask: nat, n: nat, p: nat)
    requires mask < Pow2(n) && p < n
    ensures SetBit(mask, p) < Pow2(n)
  {
    assert Pow2(n) == 2 * Pow2(n - 1) && mask / 2 < Pow2(n - 1);
    if p == 0 {
    } else {
      SetBitBelow(mask / 2, n - 1, p - 1);
    }
  }

  /** Two masks with the same bits are the same number. */
  lemma {:induction false} SameBitsSameMask(a: nat, b: nat)
    requires forall p: nat :: Bit(a, p) == Bit(b, p)
    ensures a == b
    decreases a + b
  {
    assert Bit(a, 0) == Bit(b, 0);
    if a + b <= 1 {
    } else {
      forall p: nat ensures Bit(a / 2, p) == Bit(b / 2, p) {
        assert Bit(a, p + 1) == Bit(b, p + 1);
      }
      SameBitsSameMask(a / 2, b / 2);
    }
  }

  // ---------- exclusive or ----------

  /** The bits of `x` are those in which `a` and `b` differ. */
  predicate IsXor(x: Word64, a: Word64, b: Word64) {
    forall p :: 0 <= p < 64 ==> Bit(x, p) == (Bit(a, p) != Bit(b, p))
  }

  /** The exclusive or, computed from the lowest bit on. */
  function DifferingBits(a: nat, b: nat): nat
    decreases a + b
  {
    if a == 0 && b == 0 then 0 else (a + b) % 2 + 2 * DifferingBits(a / 2, b / 2)
  }

  lemma DifferenceHalves(a: nat, b: nat)
    ensures DifferingBits(a, b) % 2 == (a + b) % 2
    ensures DifferingBits(a, b) / 2 == DifferingBits(a / 2, b / 2)
  {
    BitAndRest((a + b) % 2, DifferingBits(a / 2, b / 2));
  }

  lemma BitAndRest(bit: nat, rest: nat)
    requires bit < 2
    ensures (bit + 2 * rest) % 2 == bit && (bit + 2 * rest) / 2 == rest
  {
  }

  lemma ParityOfSum(a: nat, b: nat)
    ensures (a + b) % 2 == 1 <==> (a % 2 == 1) != (b % 2 == 1)
  {
  }

  lemma {:induction false} BitOfDifference(a: nat, b: nat, p: nat)
    ensures Bit(DifferingBits(a, b), p) == (Bit(a, p) != Bit(b, p))
    decreases p
  {
    hide DifferingBits;
    DifferenceHalves(a, b);
    if p == 0 {
      ParityOfSum(a, b);
    } else {
      BitOfDifference(a / 2, b / 2, p - 1);
    }
  }

  lemma {:induction false} DifferenceBelow(a: nat, b: nat, n: nat)
    requires a < Pow2(n) && b < Pow2(n)
    ensures DifferingBits(a, b) < Pow2(n)
  {
    if n == 0 {
    } else {
      DifferenceBelow(a / 2, b / 2, n - 1);
    }
  }

  lemma XorExists(a: Word64, b: Word64)
    ensures exists x: Word64 :: IsXor(x, a, b)
  {
    Pow2Words();
    DifferenceBelow(a, b, 64);
    var x: Word64 := DifferingBits(a, b);
    forall p: nat ensures Bit(x, p) == (Bit(a, p) != Bit(b, p)) {
      BitOfDifference(a, b, p);
    }
    assert IsXor(x, a, b);
  }

  lemma XorIsUnique(x: Word64, y: Word64, a: Word64, b: Word64)
    requires IsXor(x, a, b) && IsXor(y, a, b)
    ensures x == y
  {
    forall p: nat ensures Bit(x, p) == Bit(y, p) {
      NoBitsBeyond(x, p);
      NoBitsBeyond(y, p);
    }
    SameBitsSameMask(x, y);
  }

  lemma NoBitsBeyond(x: Word64, p: nat)
    ensures p >= 64 ==> !Bit(x, p)
  {
    hide Bit;
    Pow2Words();
    if p >= 64 {
      NoBitsAbove(x, 64, p);
    }
  }

  function Xor64(a: Word64, b: Word64): (x: Word64)
    ensures IsXor(x, a, b)
  {
    XorExists(a, b);
    assert forall x: Word64, y: Word64 :: IsXor(x, a, b) && IsXor(y, a, b) ==> x == y by {
      forall x: Word64, y: Word64 | IsXor(x, a, b) && IsXor(y, a, b) ensures x == y {
        XorIsUnique(x, y, a, b);
      }
    }
    var x: Word64 :| IsXor(x, a, b);
    x
  }

  lemma XorCommutes(a: Word64, b: Word64)
    ensures Xor64(a, b) == Xor64(b, a)
  {
    hide Bit;
    XorIsUnique(Xor64(a, b), Xor64(b, a), a, b);
  }

  lemma XorAssociates(a: Word64, b: Word64, c: Word64)
    ensures Xor64(Xor64(a, b), c) == Xor64(a, Xor64(b, c))
  {
    hide Bit;
    var left, right := Xor64(Xor64(a, b), c), Xor64(a, Xor64(b, c));
    assert IsXor(left, a, Xor64(b, c)) && IsXor(right, a, Xor64(b, c));
    XorIsUnique(left, right, a, Xor64(b, c));
  }

  lemma {:induction false} NoBitsInZero(p: nat)
    ensures !Bit(0, p)
  {
    if p == 0 {
    } else {
      NoBitsInZero(p - 1);
    }
  }

  lemma XorUnits(a: Word64)
    ensures Xor64(a, 0) == a && Xor64(0, a) == a && Xor64(a, a) == 0
  {
    hide Bit;
    forall p: nat ensures !Bit(0, p) {
      NoBitsInZero(p);
    }
    XorIsUnique(Xor64(a, 0), a, a, 0);
    XorIsUnique(Xor64(0, a), a, 0, a);
    XorIsUnique(Xor64(a, a), 0, a, a);
  }

  /** Exclusive or with a fixed operand undoes itself. */
  lemma XorCancels(a: Word64, b: Word64)
    ensures Xor64(Xor64(a, b), b) == a
  {
    hide Bit, IsXor;
    XorAssociates(a, b, b);
    XorUnits(a);
    XorUnits(b);
  }

  lemma XorFits32(a: Word32, b: Word32)
    ensures 0 <= Xor64(a, b) < 0x1_0000_0000
  {
    hide Bit;
    Pow2Words();
    DifferenceBelow(a, b, 32);
    var x := DifferingBits(a, b);
    forall p: nat ensures Bit(x, p) == (Bit(a, p) != Bit(b, p)) {
      BitOfDifference(a, b, p);
    }
    XorIsUnique(Xor64(a, b), x, a, b);
  }

  function Xor32(a: Word32, b: Word32): Word32 {
    XorFits32(a, b);
    Xor64(a, b)
  }
}
