/** The population count and find-first-zero tricks of the bitmap allocator. */
module BitTricks {
  import opened Words

  // Octal 033333333333, 011111111111 and 030707070707.
  const MASK3: nat := 0xDB6D_B6DB
  const MASK1: nat := 0x4924_9249
  const MASK07: nat := 0xC71C_71C7

  /** u with the sums of its octal digits in place, under masks m3 and m1. */
  function Sums(u: nat, m3: nat, m1: nat): (c: nat) {
    u - And(u / 2, m3) - And(u / 4, m1)
  }

  function Residue63(u: nat, m3: nat, m1: nat, m7: nat): nat {
    var count := Sums(u, m3, m1);
    And(count + count / 8, m7) % 63
  }

  /** v & -v. */
  function IsolateLowest(v: nat): nat
    requires 0 < v <= WORD_BUSY
  {
    And(v, WORD_BUSY + 1 - v)
  }

  /** The number of ones, counted one bit at a time. */
  function Ones(x: nat): nat
    decreases x
  {
    if x == 0 then 0 else x % 2 + Ones(x / 2)
  }

  // ---- Octal digits, written as three bits

  function B2(a1: bool, a0: bool): nat {
    (if a1 then 2 else 0) + (if a0 then 1 else 0)
  }

  function B3(a2: bool, a1: bool, a0: bool): nat {
    (if a2 then 4 else 0) + B2(a1, a0)
  }

  /** x2 is x with one more low bit. */
  predicate Push(x2: nat, x: nat, a: bool) {
    x2 == 2 * x + (if a then 1 else 0)
  }

  lemma HalfPush(x2: nat, x: nat, a: bool)
    requires Push(x2, x, a)
    ensures x2 / 2 == x && (x2 % 2 == 1 <==> a)
  {
  }

  lemma AndLow(x: nat, y: nat, a: bool, b: bool, x2: nat, y2: nat)
    requires Push(x2, x, a) && Push(y2, y, b)
    ensures Push(And(x2, y2), And(x, y), a && b)
  {
    HalfPush(x2, x, a);
    HalfPush(y2, y, b);
    AndStep(x2, y2);
  }

  lemma Push3(x: nat, a2: bool, a1: bool, a0: bool, x1: nat, x2: nat, x3: nat)
    requires Push(x1, x, a2) && Push(x2, x1, a1) && Push(x3, x2, a0)
    ensures x3 == 8 * x + B3(a2, a1, a0)
  {
  }

  lemma AndDigit(x: nat, y: nat, a2: bool, a1: bool, a0: bool, b2: bool, b1: bool, b0: bool, x3: nat, y3: nat)
    requires x3 == 8 * x + B3(a2, a1, a0) && y3 == 8 * y + B3(b2, b1, b0)
    ensures And(x3, y3) == 8 * And(x, y) + B3(a2 && b2, a1 && b1, a0 && b0)
  {
    hide And;
    var x1, x2 := Push2(x, a2, a1, a0, x3);
    var y1, y2 := Push2(y, b2, b1, b0, y3);
    AndLow(x, y, a2, b2, x1, y1);
    AndLow(x1, y1, a1, b1, x2, y2);
    AndLow(x2, y2, a0, b0, x3, y3);
    Push3(And(x, y), a2 && b2, a1 && b1, a0 && b0, And(x1, y1), And(x2, y2), And(x3, y3));
  }

  lemma Push2(x: nat, a2: bool, a1: bool, a0: bool, x3: nat) returns (x1: nat, x2: nat)
    requires x3 == 8 * x + B3(a2, a1, a0)
    ensures Push(x1, x, a2) && Push(x2, x1, a1) && Push(x3, x2, a0)
  {
    x1 := 2 * x + (if a2 then 1 else 0);
    x2 := 2 * x1 + (if a1 then 1 else 0);
  }

  lemma OnesLow(x: nat, a: bool)
    ensures Ones(2 * x + (if a then 1 else 0)) == Ones(x) + (if a then 1 else 0)
  {
  }

  function Count3(a2: bool, a1: bool, a0: bool): (c: nat)
    ensures c <= 3 && (!a2 ==> c <= 2)
  {
    (if a2 then 1 else 0) + (if a1 then 1 else 0) + (if a0 then 1 else 0)
  }

  lemma {:induction false} OnesDigit(x: nat, a2: bool, a1: bool, a0: bool)
    ensures Ones(8 * x + B3(a2, a1, a0)) == Ones(x) + Count3(a2, a1, a0)
  {
    hide Ones;
    var x1 := 2 * x + (if a2 then 1 else 0);
    var x2 := 2 * x1 + (if a1 then 1 else 0);
    OnesLow(x, a2);
    OnesLow(x1, a1);
    OnesLow(x2, a0);
  }

  /** Every number is an octal digit below some rest. */
  lemma LowDigit(u: nat) returns (x: nat, a2: bool, a1: bool, a0: bool)
    ensures u == 8 * x + B3(a2, a1, a0) && x == u / 8
  {
    x, a2, a1, a0 := u / 8, u / 4 % 2 == 1, u / 2 % 2 == 1, u % 2 == 1;
  }

  /** The word whose k octal digits are all d. */
  function Digits(d: nat, k: nat): nat {
    if k == 0 then 0 else 8 * Digits(d, k - 1) + d
  }

  /** The word of k digit pairs 07 under the highest digit top. */
  function Pairs(top: nat, k: nat): nat {
    if k == 0 then top else 64 * Pairs(top, k - 1) + 7
  }

  /** The sums the trick forms: octal digits of u replaced by their number of ones. */
  function DigitOnes(u: nat): nat
    decreases u
  {
    if u == 0 then 0 else 8 * DigitOnes(u / 8) + Ones(u % 8)
  }

  lemma DigitOnesStep(x: nat, a2: bool, a1: bool, a0: bool)
    ensures DigitOnes(8 * x + B3(a2, a1, a0)) == 8 * DigitOnes(x) + Count3(a2, a1, a0)
  {
    OnesDigit(0, a2, a1, a0);
    assert (8 * x + B3(a2, a1, a0)) % 8 == B3(a2, a1, a0);
  }

  lemma DropDigit(u: nat, k: nat)
    requires u < Pow2(3 * k) && k > 0
    ensures u / 8 < Pow2(3 * (k - 1))
  {
    Pow8(3 * k);
  }

  lemma {:induction false} SumsDigits(u: nat, k: nat, m3: nat, m1: nat)
    requires u < Pow2(3 * k) && m3 == Digits(3, k) && m1 == Digits(1, k)
    ensures Sums(u, m3, m1) == DigitOnes(u)
    decreases k
  {
    hide And;
    if k == 0 {
      assert u == 0;
    } else {
      DropDigit(u, k);
      var x, a2, a1, a0 := LowDigit(u);
      var n3, n1 := Digits(3, k - 1), Digits(1, k - 1);
      SumsDigits(x, k - 1, n3, n1);
      DigitOnesStep(x, a2, a1, a0);
      SumsStep(u, x, a2, a1, a0, n3, n1, m3, m1);
    }
  }

  lemma SumsStep(u: nat, x: nat, a2: bool, a1: bool, a0: bool, m3: nat, m1: nat, n3: nat, n1: nat)
    requires u == 8 * x + B3(a2, a1, a0) && n3 == 8 * m3 + 3 && n1 == 8 * m1 + 1
    ensures Sums(u, n3, n1) == 8 * Sums(x, m3, m1) + Count3(a2, a1, a0)
  {
    hide And;
    HalfDigit(x, a2, a1, a0, m3, u / 2, n3);
    QuarterDigit(x, a2, a1, a0, m1, u / 4, n1);
    DigitSum(x, And(x / 2, m3), And(x / 4, m1), a2, a1, a0, u, And(u / 2, n3), And(u / 4, n1));
  }

  lemma DigitSum(x: nat, h: nat, q: nat, a2: bool, a1: bool, a0: bool, x8: nat, h8: nat, q8: nat)
    requires x8 == 8 * x + B3(a2, a1, a0) && h8 == 8 * h + B2(a2, a1) && q8 == 8 * q + (if a2 then 1 else 0)
    ensures x8 - h8 - q8 == 8 * (x - h - q) + Count3(a2, a1, a0)
  {
  }

  lemma {:induction false} HalfDigit(x: nat, a2: bool, a1: bool, a0: bool, m: nat, h8: nat, m8: nat)
    requires h8 == (8 * x + B3(a2, a1, a0)) / 2 && m8 == 8 * m + 3
    ensures And(h8, m8) == 8 * And(x / 2, m) + B2(a2, a1)
  {
    hide And;
    AndDigit(x / 2, m, x % 2 == 1, a2, a1, false, true, true, h8, m8);
  }

  lemma QuarterDigit(x: nat, a2: bool, a1: bool, a0: bool, m: nat, q8: nat, m8: nat)
    requires q8 == (8 * x + B3(a2, a1, a0)) / 4 && m8 == 8 * m + 1
    ensures And(q8, m8) == 8 * And(x / 4, m) + (if a2 then 1 else 0)
  {
    hide And;
    AndDigit(x / 4, m, x / 2 % 2 == 1, x % 2 == 1, a2, false, false, true, q8, m8);
  }

  lemma Pow8(n: nat)
    requires n >= 3
    ensures Pow2(n) == 8 * Pow2(n - 3)
  {
    assert Pow2(n) == 2 * Pow2(n - 1) && Pow2(n - 1) == 2 * Pow2(n - 2) && Pow2(n - 2) == 2 * Pow2(n - 3);
  }

  /** Pairs of octal digits replaced by their number of ones. */
  function PairOnes(u: nat): nat
    decreases u
  {
    if u == 0 then 0 else 64 * PairOnes(u / 64) + Ones(u % 64)
  }

  /** The two lowest octal digits of u and their numbers of ones. */
  lemma {:induction false} LowPair(u: nat) returns (x: nat, p1: nat, p0: nat)
    ensures x == u / 64 && p0 <= 3 && p1 <= 3
    ensures DigitOnes(u) == 64 * DigitOnes(x) + 8 * p1 + p0
    ensures PairOnes(u) == 64 * PairOnes(x) + p0 + p1
    ensures Ones(u) == Ones(x) + p0 + p1
  {
    hide Ones, DigitOnes, PairOnes, B3;
    var x1, a2, a1, a0 := LowDigit(u);
    var y, b2, b1, b0 := LowDigit(x1);
    x, p1, p0 := y, Count3(b2, b1, b0), Count3(a2, a1, a0);
    DigitOnesStep(x1, a2, a1, a0);
    DigitOnesStep(x, b2, b1, b0);
    OnesDigit(x1, a2, a1, a0);
    OnesDigit(x, b2, b1, b0);
    OnesOfPair(a2, a1, a0, b2, b1, b0);
    PairStep(u, x, 8 * B3(b2, b1, b0) + B3(a2, a1, a0));
  }

  lemma {:induction false} OnesOfPair(a2: bool, a1: bool, a0: bool, b2: bool, b1: bool, b0: bool)
    ensures 8 * B3(b2, b1, b0) + B3(a2, a1, a0) < 64
    ensures Ones(8 * B3(b2, b1, b0) + B3(a2, a1, a0)) == Count3(b2, b1, b0) + Count3(a2, a1, a0)
  {
    assert Ones(0) == 0;
    hide Ones;
    OnesDigit(B3(b2, b1, b0), a2, a1, a0);
    OnesDigit(0, b2, b1, b0);
  }

  lemma DropPair(u: nat, k: nat)
    requires u < 4 * Pow2(6 * k) && k > 0
    ensures u / 64 < 4 * Pow2(6 * (k - 1))
  {
    Pow8(6 * k);
    Pow8(6 * k - 3);
  }

  lemma {:induction false} SumsPairs(u: nat, k: nat)
    requires u < 4 * Pow2(6 * k)
    ensures And(DigitOnes(u) + DigitOnes(u) / 8, Pairs(3, k)) == PairOnes(u)
    decreases k
  {
    hide And, DigitOnes, PairOnes;
    if k == 0 {
      TopDigit(u);
    } else {
      DropPair(u, k);
      var x, p1, p0 := LowPair(u);
      SumsPairs(x, k - 1);
      MaskedPair(x, p1, p0, Pairs(3, k - 1), DigitOnes(u), Pairs(3, k));
    }
  }

  lemma MaskedPair(x: nat, p1: nat, p0: nat, m: nat, c: nat, m': nat)
    requires p0 <= 3 && p1 <= 3 && c == 64 * DigitOnes(x) + 8 * p1 + p0 && m' == 64 * m + 7
    ensures And(c + c / 8, m') == 64 * And(DigitOnes(x) + DigitOnes(x) / 8, m) + p0 + p1
  {
    hide And;
    var y := DigitOnes(x);
    var z, c2, c1, c0 := LowDigit(x);
    DigitOnesStep(z, c2, c1, c0);
    SplitPair(DigitOnes(z), Count3(c2, c1, c0), p1, p0);
    var t, h, l := y + y / 8, p1 + Count3(c2, c1, c0), p0 + p1;
    AndPair(t, h, l, m, 8 * t + h, 8 * m, c + c / 8, m');
  }

  lemma TopDigit(u: nat)
    requires u < 4
    ensures And(DigitOnes(u) + DigitOnes(u) / 8, 3) == PairOnes(u)
  {
    assert u == B3(false, u / 2 == 1, u % 2 == 1);
    DigitOnesStep(0, false, u / 2 == 1, u % 2 == 1);
    OnesDigit(0, false, u / 2 == 1, u % 2 == 1);
    assert PairOnes(u) == Ones(u);
    var c := DigitOnes(u);
    AndDigit(0, 0, false, c / 2 == 1, c % 2 == 1, false, true, true, c + c / 8, 3);
  }

  lemma PairStep(u: nat, x: nat, r: nat)
    requires u == 64 * x + r && r < 64
    ensures PairOnes(u) == 64 * PairOnes(x) + Ones(r) && x == u / 64
  {
    assert u / 64 == x && u % 64 == r;
  }

  lemma SplitPair(z: nat, q: nat, p1: nat, p0: nat)
    requires p0 <= 3 && p1 <= 3 && q <= 3
    ensures var y := 8 * z + q;
            var c := 64 * y + 8 * p1 + p0;
            c + c / 8 == 64 * (y + y / 8) + 8 * (p1 + q) + (p0 + p1)
  {
    var y := 8 * z + q;
    assert (64 * y + 8 * p1 + p0) / 8 == 8 * y + p1;
    assert y / 8 == z;
  }

  lemma SmallDigit(h: nat) returns (a2: bool, a1: bool, a0: bool)
    requires h < 8
    ensures h == B3(a2, a1, a0)
  {
    a2, a1, a0 := h >= 4, h % 4 >= 2, h % 2 == 1;
  }

  /** Masking a pair of digits with 07 keeps the low one. */
  lemma AndPair(x: nat, h: nat, l: nat, m: nat, x1: nat, m1: nat, s: nat, m': nat)
    requires h < 8 && l < 8 && x1 == 8 * x + h && m1 == 8 * m && s == 8 * x1 + l && m' == 8 * m1 + 7
    ensures And(s, m') == 64 * And(x, m) + l
  {
    hide And;
    var l2, l1, l0 := SmallDigit(l);
    var h2, h1, h0 := SmallDigit(h);
    AndDigit(x1, m1, l2, l1, l0, true, true, true, s, m');
    AndDigit(x, m, h2, h1, h0, false, false, false, x1, m1);
  }

  lemma {:induction false} ResidueOfPairs(u: nat)
    ensures PairOnes(u) % 63 == Ones(u) % 63
    decreases u
  {
    if u != 0 {
      var x, p1, p0 := LowPair(u);
      ResidueOfPairs(x);
      Residue(PairOnes(x), Ones(x), p0 + p1);
    }
  }

  lemma ResidueShift(k: int, s: nat)
    ensures (63 * k + s) % 63 == s % 63
  {
  }

  lemma Residue(p: nat, q: nat, r: nat)
    requires p % 63 == q % 63
    ensures (64 * p + r) % 63 == (q + r) % 63
  {
    var k := p + p / 63 - q / 63;
    assert p == 63 * (p / 63) + p % 63 && q == 63 * (q / 63) + q % 63;
    assert 64 * p + r == 63 * k + (q + r);
    ResidueShift(k, q + r);
  }

  lemma {:induction false} OnesBound(u: nat, n: nat)
    requires u < Pow2(n)
    ensures Ones(u) <= n
    decreases n
  {
    if n != 0 { OnesBound(u / 2, n - 1); }
  }

  lemma WordBounds(u: nat)
    requires u <= WORD_BUSY
    ensures u < Pow2(32) && u < Pow2(3 * 11) && u < 4 * Pow2(6 * 5)
  {
    BusyIsAllOnes();
    assert Pow2(33) == 2 * Pow2(32);
    assert Pow2(32) == 2 * Pow2(31) && Pow2(31) == 2 * Pow2(30);
  }

  lemma DigitConstants()
    ensures Digits(3, 11) == MASK3
    ensures Digits(1, 11) == MASK1
    ensures Pairs(3, 5) == MASK07
  {
  }

  lemma {:induction false} Residue63IsOnes(u: nat, m3: nat, m1: nat, m7: nat, k: nat, l: nat, n: nat)
    requires u < Pow2(3 * k) && u < 4 * Pow2(6 * l) && u < Pow2(n) && n < 63
    requires m3 == Digits(3, k) && m1 == Digits(1, k) && m7 == Pairs(3, l)
    ensures Residue63(u, m3, m1, m7) == Ones(u)
  {
    hide And, DigitOnes, PairOnes, Ones, Digits, Pairs;
    var c := Sums(u, m3, m1);
    SumsDigits(u, k, m3, m1);
    SumsPairs(u, l);
    ResidueOfPairs(u);
    OnesBound(u, n);
    SmallResidue(PairOnes(u), Ones(u));
  }

  lemma SmallResidue(p: nat, o: nat)
    requires p % 63 == o % 63 && o < 63
    ensures p % 63 == o
  {
  }

  /** mp_bitmap_bitcount: sums each octal digit, then pairs of digits, then takes the residue. On every 32-bit
      word that is the population count. */
  function BitCount(u: nat): (c: nat)
    requires u <= WORD_BUSY
    ensures c == Ones(u)
  {
    DigitConstants();
    WordBounds(u);
    Residue63IsOnes(u, MASK3, MASK1, MASK07, 11, 5, 32);
    Residue63(u, MASK3, MASK1, MASK07)
  }

  // ---- The lowest zero

  /** Index of the lowest one of a positive number. */
  function LowestOne(v: nat): nat
    requires v > 0
  {
    if v % 2 == 1 then 0 else 1 + LowestOne(v / 2)
  }

  lemma {:induction false} LowestOneIsLowest(v: nat, n: nat)
    requires 0 < v < Pow2(n)
    ensures LowestOne(v) < n && Bit(v, LowestOne(v))
    ensures forall j :: 0 <= j < LowestOne(v) ==> !Bit(v, j)
    decreases n
  {
    if v % 2 == 0 {
      LowestOneIsLowest(v / 2, n - 1);
      forall j | 0 <= j < LowestOne(v)
        ensures !Bit(v, j)
      {
        if j != 0 { assert !Bit(v / 2, j - 1); }
      }
    }
  }

  lemma {:induction false} DisjointComplement(x: nat, n: nat)
    requires x < Pow2(n)
    ensures And(x, Not(x, n)) == 0
    decreases n
  {
    if n != 0 {
      NotStep(x, n);
      AndStep(x, Not(x, n));
      DisjointComplement(x / 2, n - 1);
    }
  }

  lemma {:induction false} Isolate(v: nat, n: nat)
    requires 0 < v < Pow2(n)
    ensures And(v, Pow2(n) - v) == Pow2(LowestOne(v))
    decreases n
  {
    hide And;
    var w, m := v / 2, Pow2(n - 1);
    AndStep(v, 2 * m - v);
    if v % 2 == 1 {
      DisjointComplement(w, n - 1);
      assert (2 * m - v) / 2 == Not(w, n - 1);
    } else {
      Isolate(w, n - 1);
      assert (2 * m - v) / 2 == m - w;
    }
  }

  lemma {:induction false} OnesOfAllOnes(k: nat)
    ensures Ones(Pow2(k) - 1) == k
  {
    if k != 0 {
      assert (Pow2(k) - 1) / 2 == Pow2(k - 1) - 1;
      OnesOfAllOnes(k - 1);
    }
  }

  /** Isolating the lowest one of v leaves a word with as many ones below it as v has zeroes below its own. */
  lemma OnesBelowLowest(v: nat)
    requires 0 < v <= WORD_BUSY
    ensures 1 <= IsolateLowest(v) <= WORD_BUSY + 1
    ensures Ones(IsolateLowest(v) - 1) == LowestOne(v) < WORD_BITS
  {
    hide Pow2, LowestOne, Ones;
    var k := LowestOne(v);
    BusyIsAllOnes();
    LowestOneIsLowest(v, WORD_BITS);
    assert IsolateLowest(v) == Pow2(k) by { Isolate(v, WORD_BITS); }
    Pow2Monotone(k, WORD_BITS);
    OnesOfAllOnes(k);
  }

  lemma BitsOfComplement(u: nat, i: nat)
    requires u <= WORD_BUSY && i < WORD_BITS
    ensures Bit(u, i) <==> !Bit(WORD_BUSY - u, i)
  {
    BusyIsAllOnes();
    BitOfNot(u, WORD_BITS, i);
  }

  /** The index of the lowest zero bit. */
  function LowestZero(u: nat): nat {
    if u % 2 == 0 then 0 else 1 + LowestZero(u / 2)
  }

  lemma {:induction false} LowestZeroIs(u: nat, k: nat)
    requires !Bit(u, k) && forall j :: 0 <= j < k ==> Bit(u, j)
    ensures LowestZero(u) == k
    decreases k
  {
    if k > 0 {
      assert Bit(u, 0);
      forall j | 0 <= j < k - 1 ensures Bit(u / 2, j) { assert Bit(u, j + 1); }
      LowestZeroIs(u / 2, k - 1);
    }
  }

  lemma LowestZeroAt(u: nat, k: nat)
    requires u < WORD_BUSY && k == LowestOne(WORD_BUSY - u) < WORD_BITS
    ensures !Bit(u, k) && forall j :: 0 <= j < k ==> Bit(u, j)
  {
    BusyIsAllOnes();
    LowestOneIsLowest(WORD_BUSY - u, WORD_BITS);
    forall j | 0 <= j <= k
      ensures Bit(u, j) <==> !Bit(WORD_BUSY - u, j)
    {
      BitsOfComplement(u, j);
    }
  }

  /** On every word that is not full. */
  lemma LowestZeroIsLowest(u: nat)
    requires u < WORD_BUSY
    ensures LowestZero(u) == LowestOne(WORD_BUSY - u) < WORD_BITS
    ensures !Bit(u, LowestZero(u)) && forall j :: 0 <= j < LowestZero(u) ==> Bit(u, j)
  {
    hide LowestZero, LowestOne;
    OnesBelowLowest(WORD_BUSY - u);
    LowestZeroAt(u, LowestOne(WORD_BUSY - u));
    LowestZeroIs(u, LowestOne(WORD_BUSY - u));
  }

  /** mp_bitmap_find_one on a word that is not full: the two's complement of v is 2^32 - v. The result is the
      index of the lowest zero. */
  function FindOne(u: nat): (r: nat)
    requires u < WORD_BUSY
    ensures r < WORD_BITS && !Bit(u, r) && forall j :: 0 <= j < r ==> Bit(u, j)
    ensures r == LowestZero(u)
  {
    var v := WORD_BUSY - u;
    OnesBelowLowest(v);
    LowestZeroIsLowest(u);
    BitCount(IsolateLowest(v) - 1)
  }
}
