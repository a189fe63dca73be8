/** How a step's requests are shared out among the workers of a thread pool. */
module Shares {
  import opened Words

  /** What rand() gives, draw by draw, and RAND_MAX, for which the C standard and its type int leave
      these values. */
  datatype Random = Random(rand: nat -> int, max: nat)

  predicate Valid(g: Random) {
    0x7FFF <= g.max <= 0x7FFF_FFFF
  }

  /** 1 << bit as a 32-bit int whose shift count is taken modulo 32. */
  function Shl(bit: nat): int {
    if bit % 32 == 31 then -0x8000_0000 else Pow2(bit % 32)
  }

  /** Where the loop is: at this bit of this draw. */
  datatype Position = Position(bit: nat, draw: nat)

  /** The position at the start of round j, the first round being round 0. */
  function At(g: Random, j: nat): Position {
    if j == 0 then Position(0, 0)
    else
      var p := At(g, j - 1);
      if Shl(p.bit) >= g.max then Position(1, p.draw + 1) else Position(p.bit + 1, p.draw)
  }

  /** Whether round j attaches a request. */
  predicate Attaches(g: Random, j: nat) {
    g.rand(At(g, j).draw) != 0 && Shl(At(g, j).bit) != 0
  }

  /** How many requests the first j rounds attach. */
  function Attached(g: Random, j: nat): nat {
    if j == 0 then 0 else Attached(g, j - 1) + if Attaches(g, j - 1) then 1 else 0
  }

  /** How many of them item i of len gets. */
  function Extra(g: Random, j: nat, len: nat, i: nat): nat
    requires len > 0
  {
    if j == 0 then 0
    else Extra(g, j - 1, len, i) + if Attaches(g, j - 1) && At(g, j - 1).bit % len == i then 1 else 0
  }

  function Share(g: Random, def: nat, j: nat, len: nat): (r: seq<nat>)
    requires len > 0
    ensures |r| == len
  {
    seq(len, i requires 0 <= i < len => def + Extra(g, j, len, i))
  }

  /** distribute_requests. The loop ends exactly if some number of rounds attaches all num0 requests. */
  method DistributeRequests(def: nat, num0: nat, counts: array<nat>, g: Random, ghost rounds: nat)
    requires counts.Length > 0 && Attached(g, rounds) == num0
    modifies counts
    ensures counts[..] == Share(g, def, rounds, counts.Length)
  {
    hide Extra, Attached, At, Shl;
    var len := counts.Length;
    var num, bit, drawn := num0, 0, 1;
    var randValue := g.rand(0);
    for i := 0 to len
      invariant forall j :: 0 <= j < i ==> counts[j] == def
    {
      counts[i] := def;
    }
    AtStart(g, len);
    ghost var k: nat := 0;
    while num > 0
      invariant k <= rounds && num == num0 - Attached(g, k)
      invariant At(g, k) == Position(bit, drawn - 1) && drawn >= 1 && randValue == g.rand(drawn - 1)
      invariant forall i: nat :: i < len ==> counts[i] == def + Extra(g, k, len, i)
      decreases rounds - k
    {
      OneMoreRound(g, k, len);
      if randValue != 0 && Shl(bit) != 0 {
        num := num - 1;
        counts[bit % len] := counts[bit % len] + 1;
      }
      if Shl(bit) >= g.max {
        bit := 0;
        randValue := g.rand(drawn);
        drawn := drawn + 1;
      }
      bit := bit + 1;
      k := k + 1;
    }
    NoMoreAttached(g, k, rounds, len);
  }

  lemma AtStart(g: Random, len: nat)
    requires len > 0
    ensures At(g, 0) == Position(0, 0) && Attached(g, 0) == 0
    ensures forall i: nat {:trigger Extra(g, 0, len, i)} :: Extra(g, 0, len, i) == 0
  {
  }

  lemma OneMoreRound(g: Random, k: nat, len: nat)
    requires len > 0
    ensures At(g, k + 1) == if Shl(At(g, k).bit) >= g.max then Position(1, At(g, k).draw + 1)
                            else Position(At(g, k).bit + 1, At(g, k).draw)
    ensures Attached(g, k + 1) == Attached(g, k) + if Attaches(g, k) then 1 else 0
    ensures forall i: nat {:trigger Extra(g, k + 1, len, i)} ::
              Extra(g, k + 1, len, i) == Extra(g, k, len, i) + if Attaches(g, k) && At(g, k).bit % len == i then 1 else 0
  {
  }

  lemma {:induction false} AttachedGrows(g: Random, a: nat, b: nat)
    requires a <= b
    ensures Attached(g, a) <= Attached(g, b)
  {
    if a < b { AttachedGrows(g, a, b - 1); }
  }

  lemma {:induction false} NoMoreAttached(g: Random, a: nat, b: nat, len: nat)
    requires a <= b && len > 0 && Attached(g, a) == Attached(g, b)
    ensures forall i: nat {:trigger Extra(g, b, len, i)} :: Extra(g, b, len, i) == Extra(g, a, len, i)
  {
    hide At, Attaches;
    if a < b {
      AttachedGrows(g, a, b - 1);
      NoMoreAttached(g, a, b - 1, len);
    }
  }

  // ---- The shares add up

  function Sum(s: seq<nat>): nat {
    if s == [] then 0 else Sum(s[..|s| - 1]) + s[|s| - 1]
  }

  lemma {:induction false} SumOfEqual(s: seq<nat>, c: nat)
    requires forall i :: 0 <= i < |s| ==> s[i] == c
    ensures Sum(s) == c * |s|
  {
    if s != [] { SumOfEqual(s[..|s| - 1], c); }
  }

  lemma {:induction false} SumOfOneMore(s: seq<nat>, i: nat)
    requires i < |s|
    ensures Sum(s[i := s[i] + 1]) == Sum(s) + 1
  {
    var t := s[i := s[i] + 1];
    if i == |s| - 1 {
      assert t[..|s| - 1] == s[..|s| - 1];
    } else {
      assert t[..|s| - 1] == s[..|s| - 1][i := s[i] + 1];
      SumOfOneMore(s[..|s| - 1], i);
    }
  }

  /** The workers' shares sum to the default for each of them plus the attached requests, whatever rand() gives. */
  lemma {:induction false} SumOfShares(g: Random, def: nat, j: nat, len: nat)
    requires len > 0
    ensures Sum(Share(g, def, j, len)) == def * len + Attached(g, j)
  {
    hide At, Attaches, Sum;
    if j == 0 {
      SumOfEqual(Share(g, def, 0, len), def);
    } else {
      SumOfShares(g, def, j - 1, len);
      var s, i := Share(g, def, j - 1, len), At(g, j - 1).bit % len;
      SumOfOneMore(s, i);
      assert Share(g, def, j, len) == if Attaches(g, j - 1) then s[i := s[i] + 1] else s;
    }
  }

  /** Every request of a step goes to some worker. */
  lemma SharesAddUp(g: Random, total: nat, len: nat, rounds: nat)
    requires len > 0 && Attached(g, rounds) == total % len
    ensures Sum(Share(g, total / len, rounds, len)) == total
  {
    hide Extra, Share, Sum, Attached;
    SumOfShares(g, total / len, rounds, len);
  }

  // ---- When the loop ends

  /** The least bit at which the power of two reaches max. */
  function ResetBit(max: nat): (r: nat)
    ensures Pow2(r) >= max && (r > 0 ==> Pow2(r - 1) < max)
  {
    if max <= 1 then 0 else 1 + ResetBit((max + 1) / 2)
  }

  lemma PowersAt()
    ensures Pow2(14) == 0x4000 && Pow2(30) == 0x4000_0000
  {
    assert Pow2(8) == 256;
    assert Pow2(16) == 0x1_0000;
    assert Pow2(24) == 0x100_0000;
  }

  /** Only a RAND_MAX of at most 2^30 is ever reached by the shifted bit: bit 31 is the sign. */
  predicate Resets(g: Random) {
    g.max <= 0x4000_0000
  }

  lemma ResetBitRange(g: Random)
    requires Valid(g)
    ensures ResetBit(g.max) >= 15 && (Resets(g) ==> ResetBit(g.max) <= 30)
  {
    hide Pow2;
    PowersAt();
    var r := ResetBit(g.max);
    if r <= 14 { Pow2Monotone(r, 14); }
    if r > 30 { Pow2Monotone(30, r - 1); }
  }

  lemma ShiftBound(bit: nat)
    ensures Shl(bit) != 0 && Shl(bit) <= 0x4000_0000 && (bit <= 30 ==> Shl(bit) == Pow2(bit))
  {
    hide Pow2;
    PowersAt();
    if bit % 32 < 31 { Pow2Monotone(bit % 32, 30); }
  }

  lemma ShiftedBit(g: Random, bit: nat)
    requires Valid(g)
    ensures Shl(bit) != 0 && (!Resets(g) ==> Shl(bit) < g.max)
    ensures Resets(g) && bit <= ResetBit(g.max) ==> (Shl(bit) >= g.max <==> bit == ResetBit(g.max))
  {
    hide Pow2, Shl, ResetBit;
    ShiftBound(bit);
    ResetBitRange(g);
    if Resets(g) && bit < ResetBit(g.max) { Pow2Monotone(bit, ResetBit(g.max) - 1); }
  }

  /** Where RAND_MAX is larger the first draw is kept: every round attaches a request if it is not zero, and
      otherwise none ever does. */
  lemma {:induction false} FirstDrawDecides(g: Random, j: nat)
    requires Valid(g) && !Resets(g)
    ensures At(g, j) == Position(j, 0) && Attached(g, j) == if g.rand(0) != 0 then j else 0
  {
    hide Shl;
    if j > 0 {
      FirstDrawDecides(g, j - 1);
      ShiftedBit(g, j - 1);
    }
  }

  /** Draws that are never zero attach a request in every round. */
  lemma {:induction false} EachRoundAttaches(g: Random, j: nat)
    requires Valid(g) && forall k :: g.rand(k) != 0
    ensures Attached(g, j) == j
  {
    hide Shl, At;
    if j > 0 {
      EachRoundAttaches(g, j - 1);
      ShiftedBit(g, At(g, j - 1).bit);
    }
  }

  // ---- How even the shares are

  /** 1 if the first draw attaches something, whose bit 0 no other draw uses. */
  function First(g: Random): nat {
    if g.rand(0) != 0 then 1 else 0
  }

  /** Where round j is, and what was attached before it as long as no item got two. */
  predicate Tracked(g: Random, j: nat) {
    var p, a, r := At(g, j), Attached(g, j), ResetBit(g.max);
    && p.bit <= r
    && (p.draw == 0 ==> p.bit == j && a == if First(g) == 1 then j else 0)
    && (p.draw > 0 ==>
          p.bit >= 1 && (a >= r + First(g) || (First(g) == 0 && a == if g.rand(p.draw) != 0 then p.bit - 1 else 0)))
  }

  lemma {:induction false} AlwaysTracked(g: Random, j: nat)
    requires Valid(g) && Resets(g)
    ensures Tracked(g, j)
  {
    hide Shl, ResetBit, Pow2;
    ResetBitRange(g);
    if j > 0 {
      AlwaysTracked(g, j - 1);
      ShiftedBit(g, At(g, j - 1).bit);
    }
  }

  lemma Remains(k: nat, len: nat)
    requires k < len
    ensures k % len == k
  {
  }

  /** As long as no item gets two, the requests are attached in order, to item 1 first if the first draw is zero. */
  lemma {:induction false} ExtraInOrder(g: Random, j: nat, len: nat, i: nat)
    requires Valid(g) && Attached(g, j) < len && (Resets(g) ==> Attached(g, j) <= ResetBit(g.max) + First(g))
    ensures Extra(g, j, len, i) == if 1 - First(g) <= i < Attached(g, j) + 1 - First(g) then 1 else 0
  {
    hide Shl, ResetBit, At;
    if j > 0 {
      ExtraInOrder(g, j - 1, len, i);
      if Resets(g) { AlwaysTracked(g, j - 1); } else { FirstDrawDecides(g, j - 1); }
      if Attaches(g, j - 1) {
        Remains(At(g, j - 1).bit, len);
      }
    }
  }

  lemma {:induction false} NoneBeyondReset(g: Random, j: nat, len: nat, i: nat)
    requires Valid(g) && Resets(g) && ResetBit(g.max) < i < len
    ensures Extra(g, j, len, i) == 0
  {
    hide Shl, ResetBit, At;
    if j > 0 {
      NoneBeyondReset(g, j - 1, len, i);
      AlwaysTracked(g, j - 1);
      Remains(At(g, j - 1).bit, len);
    }
  }

  lemma {:induction false} SomeItemGetsTwo(g: Random, j: nat, len: nat) returns (i: nat)
    requires Valid(g) && Resets(g) && ResetBit(g.max) + First(g) < Attached(g, j) && ResetBit(g.max) + 1 < len
    ensures i < len && Extra(g, j, len, i) >= 2
  {
    hide Shl, ResetBit, At;
    ResetBitRange(g);
    if Attached(g, j - 1) == Attached(g, j) || Attached(g, j - 1) > ResetBit(g.max) + First(g) {
      i := SomeItemGetsTwo(g, j - 1, len);
    } else {
      AlwaysTracked(g, j - 1);
      i := At(g, j - 1).bit;
      Remains(i, len);
      ExtraInOrder(g, j - 1, len, i);
    }
  }

  /** No two workers' shares differ by more than one. */
  predicate Even(s: seq<nat>) {
    forall i, j :: 0 <= i < |s| && 0 <= j < |s| ==> s[i] <= s[j] + 1
  }

  lemma EvenIfFew(g: Random, def: nat, j: nat, len: nat)
    requires Valid(g) && Attached(g, j) < len && (Resets(g) ==> Attached(g, j) <= ResetBit(g.max) + First(g))
    ensures Even(Share(g, def, j, len))
  {
    hide Extra, Attached, ResetBit;
    var s := Share(g, def, j, len);
    forall a, b | 0 <= a < |s| && 0 <= b < |s| ensures s[a] <= s[b] + 1 {
      ExtraInOrder(g, j, len, a);
      ExtraInOrder(g, j, len, b);
    }
  }

  lemma UnevenIfMany(g: Random, def: nat, j: nat, len: nat)
    requires Valid(g) && Resets(g) && ResetBit(g.max) + First(g) < Attached(g, j) < len
    ensures !Even(Share(g, def, j, len))
  {
    hide Extra, Attached, ResetBit;
    var b := ResetBit(g.max) + 1;
    var a := SomeItemGetsTwo(g, j, len);
    NoneBeyondReset(g, j, len, b);
    var s := Share(g, def, j, len);
    assert s[a] >= def + 2 && s[b] == def;
  }

  /** The num requests left over are shared evenly exactly if RAND_MAX is more than 2^30, or they are no more
      than the bits of the first draw that is not zero. */
  lemma EvenExactly(g: Random, def: nat, num: nat, len: nat, rounds: nat)
    requires Valid(g) && num < len && Attached(g, rounds) == num
    ensures Even(Share(g, def, rounds, len)) <==> !Resets(g) || num <= ResetBit(g.max) + First(g)
  {
    hide Even, Share, Attached, ResetBit;
    if !Resets(g) || num <= ResetBit(g.max) + First(g) {
      EvenIfFew(g, def, rounds, len);
    } else {
      UnevenIfMany(g, def, rounds, len);
    }
  }
}
