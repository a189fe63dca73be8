/** Machine words as natural numbers below a power of two, with the bitwise operators
    of mempool.c written out digit by digit. */
module Words {

  const WORD_BITS: nat := 32
  const WORD_BUSY: nat := 0xFFFF_FFFF

  function Pow2(n: nat): (p: nat)
    ensures p >= 1
  {
    if n == 0 then 1 else 2 * Pow2(n - 1)
  }

  lemma {:induction false} Pow2Monotone(a: nat, b: nat)
    requires a <= b
    ensures Pow2(a) <= Pow2(b)
    decreases b
  {
    if a < b { Pow2Monotone(a, b - 1); }
  }

  /** Bit number i of x, bit 0 being the least significant. */
  predicate Bit(x: nat, i: nat)
    decreases i
  {
    if i == 0 then x % 2 == 1 else Bit(x / 2, i - 1)
  }

  function And(x: nat, y: nat): (r: nat)
    ensures r <= x && r <= y
    decreases x
  {
    if x == 0 || y == 0 then 0
    else 2 * And(x / 2, y / 2) + (if x % 2 == 1 && y % 2 == 1 then 1 else 0)
  }

  function Or(x: nat, y: nat): (r: nat)
    decreases x
  {
    if x == 0 then y
    else 2 * Or(x / 2, y / 2) + (if x % 2 == 1 || y % 2 == 1 then 1 else 0)
  }

  /** Complement within n bits. */
  function Not(x: nat, n: nat): nat
    requires x < Pow2(n)
  {
    Pow2(n) - 1 - x
  }

  /** MPREGMASK: num ones starting at bit bidx. */
  function RegionMask(num: nat, bidx: nat): nat {
    (Pow2(num) - 1) * Pow2(bidx)
  }

  // ---- Bits of the operators

  lemma AndStep(x: nat, y: nat)
    ensures And(x, y) == 2 * And(x / 2, y / 2) + (if x % 2 == 1 && y % 2 == 1 then 1 else 0)
  {
  }

  lemma {:induction false} BitOfAnd(x: nat, y: nat, i: nat)
    ensures Bit(And(x, y), i) <==> Bit(x, i) && Bit(y, i)
    decreases i
  {
    hide And;
    AndStep(x, y);
    if i != 0 {
      BitOfAnd(x / 2, y / 2, i - 1);
    }
  }

  lemma OrStep(x: nat, y: nat)
    ensures Or(x, y) == 2 * Or(x / 2, y / 2) + (if x % 2 == 1 || y % 2 == 1 then 1 else 0)
  {
  }

  lemma {:induction false} BitOfOr(x: nat, y: nat, i: nat)
    ensures Bit(Or(x, y), i) <==> Bit(x, i) || Bit(y, i)
    decreases i
  {
    hide Or;
    OrStep(x, y);
    if i != 0 {
      BitOfOr(x / 2, y / 2, i - 1);
    }
  }

  lemma NotStep(x: nat, n: nat)
    requires x < Pow2(n) && 0 < n
    ensures x / 2 < Pow2(n - 1)
    ensures Not(x, n) / 2 == Not(x / 2, n - 1) && Not(x, n) % 2 == 1 - x % 2
  {
  }

  lemma {:induction false} BitOfNot(x: nat, n: nat, i: nat)
    requires x < Pow2(n) && i < n
    ensures Bit(Not(x, n), i) <==> !Bit(x, i)
    decreases i
  {
    NotStep(x, n);
    if i != 0 {
      BitOfNot(x / 2, n - 1, i - 1);
    }
  }

  lemma {:induction false} BitOfOnes(n: nat, i: nat)
    ensures Bit(Pow2(n) - 1, i) <==> i < n
    decreases n
  {
    if n == 0 {
      BitOfZero(i);
    } else if i != 0 {
      assert (Pow2(n) - 1) / 2 == Pow2(n - 1) - 1;
      BitOfOnes(n - 1, i - 1);
    }
  }

  lemma {:induction false} BitOfZero(i: nat)
    ensures !Bit(0, i)
  {
    if i != 0 { BitOfZero(i - 1); }
  }

  lemma {:induction false} BitOfShift(x: nat, b: nat, i: nat)
    ensures Bit(x * Pow2(b), i) <==> b <= i && Bit(x, i - b)
    decreases b
  {
    if b != 0 {
      var y := x * Pow2(b - 1);
      assert x * Pow2(b) == 2 * y by { MulShift(x, Pow2(b - 1)); }
      if i != 0 {
        BitOfShift(x, b - 1, i - 1);
      }
    }
  }

  lemma MulShift(x: nat, p: nat)
    ensures x * (2 * p) == 2 * (x * p)
  {
  }

  lemma BitOfRegionMask(num: nat, bidx: nat, i: nat)
    ensures Bit(RegionMask(num, bidx), i) <==> bidx <= i < bidx + num
  {
    BitOfShift(Pow2(num) - 1, bidx, i);
    if bidx <= i { BitOfOnes(num, i - bidx); }
  }

  lemma {:induction false} BitsBelow(x: nat, n: nat, i: nat)
    requires x < Pow2(n) && n <= i
    ensures !Bit(x, i)
    decreases n
  {
    if n == 0 { BitOfZero(i); } else { BitsBelow(x / 2, n - 1, i - 1); }
  }

  /** A word below 2^n is determined by its first n bits. */
  lemma {:induction false} WordExtensional(x: nat, y: nat, n: nat)
    requires x < Pow2(n) && y < Pow2(n)
    requires forall i :: 0 <= i < n ==> Bit(x, i) == Bit(y, i)
    ensures x == y
    decreases n
  {
    if n != 0 {
      assert Bit(x, 0) == Bit(y, 0);
      forall i | 0 <= i < n - 1
        ensures Bit(x / 2, i) == Bit(y / 2, i)
      {
        assert Bit(x, i + 1) == Bit(y, i + 1);
      }
      WordExtensional(x / 2, y / 2, n - 1);
    }
  }

  lemma BusyIsAllOnes()
    ensures WORD_BUSY == Pow2(WORD_BITS) - 1
  {
    assert Pow2(8) == 256;
    assert Pow2(16) == 0x1_0000;
    assert Pow2(24) == 0x100_0000;
  }
}
