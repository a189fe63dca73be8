/** The lock-free protocol on one 32-bit bitmap cell: an allocator exchanges the cell for BUSY, decides
    on the saved value alone, and ANDs the decision back; a free is one AND. */
module CellProtocol {
  import opened Words
  import opened BitTricks

  // ---- What one allocator decides from its saved value

  /** mp_bitmap_find_region: the source never updates u, so every round looks at the same zero, which is the
      lowest. */
  function RegionAt(u: nat, num: nat): int {
    if And(u, RegionMask(num, LowestZero(u))) == 0 then LowestZero(u) else -1
  }

  method FindRegion(u: nat, num: nat) returns (bidx: int)
    requires u < WORD_BUSY && 1 <= num < WORD_BITS
    ensures bidx == RegionAt(u, num)
  {
    hide FindOne, LowestZero, And, RegionMask;
    var i := 0;
    while i < WORD_BITS - num
      invariant i != 0 ==> RegionAt(u, num) == -1
      decreases WORD_BITS - i
    {
      bidx := FindOne(u);
      if And(u, RegionMask(num, bidx)) == 0 {
        return;
      }
      i := i + bidx + 1;
    }
    bidx := -1;
  }

  /** The index mp_bitmap_cell_alloc grants from the saved value, or -1. */
  function Grant(saved: nat, num: nat, max: nat): (bidx: int)
    requires saved < WORD_BUSY && 1 <= num <= WORD_BITS
  {
    var bidx: int := if num == 1 then LowestZero(saved)
                     else if num == WORD_BITS then (if saved == 0 then 0 else -1)
                     else RegionAt(saved, num);
    if bidx + num > max then -1 else bidx
  }

  /** Bits [start, start + num) of x are all zero. */
  predicate Clear(x: nat, start: nat, num: nat) {
    forall i :: start <= i < start + num ==> !Bit(x, i)
  }

  lemma {:induction false} ZeroHasNoBits(x: nat, n: nat)
    requires x < Pow2(n) && forall i :: 0 <= i < n ==> !Bit(x, i)
    ensures x == 0
  {
    forall i | 0 <= i < n
      ensures Bit(x, i) == Bit(0, i)
    {
      BitOfZero(i);
    }
    WordExtensional(x, 0, n);
  }

  lemma MaskTestIsClear(u: nat, num: nat, bidx: nat)
    requires u <= WORD_BUSY
    ensures And(u, RegionMask(num, bidx)) == 0 <==> Clear(u, bidx, num)
  {
    hide And, RegionMask;
    BusyIsAllOnes();
    var a := And(u, RegionMask(num, bidx));
    forall i: nat
      ensures Bit(a, i) <==> Bit(u, i) && bidx <= i < bidx + num
    {
      BitOfAnd(u, RegionMask(num, bidx), i);
      BitOfRegionMask(num, bidx, i);
    }
    if a == 0 {
      forall i | bidx <= i < bidx + num
        ensures !Bit(u, i)
      {
        BitOfZero(i);
      }
    }
    if Clear(u, bidx, num) {
      ZeroHasNoBits(a, WORD_BITS);
    }
  }

  /** A granted region was free in the saved value, starts at its lowest zero and ends at or below max. */
  lemma GrantIsFree(saved: nat, num: nat, max: nat)
    requires saved < WORD_BUSY && 1 <= num <= WORD_BITS
    ensures var r := Grant(saved, num, max);
            r == -1 || (0 <= r && r + num <= max && Clear(saved, r, num) && forall j :: 0 <= j < r ==> Bit(saved, j))
  {
    hide LowestZero, And, RegionMask;
    LowestZeroIsLowest(saved);
    if num == WORD_BITS {
      forall i: nat ensures !Bit(0, i) { BitOfZero(i); }
    } else if num != 1 {
      MaskTestIsClear(saved, num, LowestZero(saved));
    }
  }

  /** A request of 2 to 31 bits succeeds exactly when it fits at the lowest zero. */
  lemma GrantExactly(saved: nat, num: nat, max: nat)
    requires saved < WORD_BUSY && 1 <= num < WORD_BITS
    ensures Grant(saved, num, max) != -1
       <==> exists k: nat :: k + num <= max && Clear(saved, k, num) && forall j :: 0 <= j < k ==> Bit(saved, j)
  {
    hide LowestZero, And, RegionMask;
    LowestZeroIsLowest(saved);
    GrantIsFree(saved, num, max);
    var f := LowestZero(saved);
    if k: nat :| k + num <= max && Clear(saved, k, num) && forall j :: 0 <= j < k ==> Bit(saved, j) {
      assert !Bit(saved, k);
      assert k == f by {
        if k < f { assert false; }
        if f < k { assert false; }
      }
      MaskTestIsClear(saved, num, f);
    }
  }

  /** The search is not complete: with only bit 1 taken, two bits are refused though 30 are free above. */
  lemma RegionSearchIncomplete()
    ensures Clear(2, 2, 30) && Grant(2, 2, WORD_BITS) == -1
  {
    assert Bit(2, 1) && !Bit(2, 0);
    forall i | 2 <= i < 32 ensures !Bit(2, i) { BitsBelow(2, 2, i); }
    LowestZeroIsLowest(2);
    assert LowestZero(2) == 0;
    MaskTestIsClear(2, 2, 0);
  }

  // ---- The protocol

  type Thread = nat

  datatype Region = Region(start: nat, num: nat) {
    predicate Has(i: nat) { start <= i < start + num }
    predicate Fits() { 1 <= num && start + num <= WORD_BITS }
  }

  /** An allocator between its exchange and its AND. */
  datatype Pending = Pending(saved: nat, num: nat, max: nat)

  datatype State = State(cell: nat, pending: map<Thread, Pending>, live: set<Region>)

  datatype Step =
    | Exchange(t: Thread, num: nat, max: nat)
    | Return(t: Thread)
    | Free(r: Region)

  const INIT := State(0, map[], {})

  predicate Enabled(s: State, step: Step) {
    match step
    case Exchange(t, num, max) => t !in s.pending && 1 <= num <= WORD_BITS && max <= WORD_BITS
    case Return(t) => t in s.pending && s.pending[t].saved < WORD_BUSY && 1 <= s.pending[t].num <= WORD_BITS
    case Free(r) => r in s.live && r.Fits() && r.num < WORD_BITS
  }

  /** The region an allocator is about to take, if any. */
  function Granted(p: Pending): set<Region>
    requires p.saved < WORD_BUSY && 1 <= p.num <= WORD_BITS
  {
    var r := Grant(p.saved, p.num, p.max);
    if r < 0 then {} else {Region(r, p.num)}
  }

  /** The value an allocator ANDs back: its saved value with the granted bits set. */
  function Decision(p: Pending): nat
    requires p.saved < WORD_BUSY && 1 <= p.num <= WORD_BITS
  {
    var r := Grant(p.saved, p.num, p.max);
    if r < 0 then p.saved else Or(p.saved, RegionMask(p.num, r))
  }

  lemma RegionMaskFits(r: Region)
    requires r.Fits()
    ensures RegionMask(r.num, r.start) < Pow2(WORD_BITS)
  {
    hide Pow2;
    Pow2Sum(r.num, r.start);
    Pow2Monotone(r.num + r.start, WORD_BITS);
    Minus1(Pow2(r.num), Pow2(r.start));
  }

  lemma Minus1(a: nat, b: nat)
    requires a >= 1
    ensures (a - 1) * b == a * b - b
  {
  }

  lemma {:induction false} Pow2Sum(a: nat, b: nat)
    ensures Pow2(a) * Pow2(b) == Pow2(a + b)
    decreases b
  {
    if b != 0 {
      Pow2Sum(a, b - 1);
      MulShift(Pow2(a), Pow2(b - 1));
    }
  }

  function Next(s: State, step: Step): State
    requires Enabled(s, step)
  {
    match step
    case Exchange(t, num, max) =>
      if s.cell == WORD_BUSY then s
      else State(WORD_BUSY, s.pending[t := Pending(s.cell, num, max)], s.live)
    case Return(t) =>
      var p := s.pending[t];
      State(And(s.cell, Decision(p)), s.pending - {t}, s.live + Granted(p))
    case Free(r) =>
      RegionMaskFits(r);
      State(And(s.cell, Not(RegionMask(r.num, r.start), WORD_BITS)), s.pending, s.live - {r})
  }

  // ---- Every bit is in exactly one place

  datatype Place = InCell | HeldBy(t: Thread) | OwnedBy(r: Region)

  predicate At(s: State, i: nat, p: Place) {
    match p
    case InCell => !Bit(s.cell, i)
    case HeldBy(t) => t in s.pending && !Bit(s.pending[t].saved, i)
    case OwnedBy(r) => r in s.live && r.Has(i)
  }

  ghost predicate OnlyAt(s: State, i: nat, p: Place) {
    forall q :: At(s, i, q) <==> q == p
  }

  ghost predicate Placed(s: State, i: nat) {
    exists p :: OnlyAt(s, i, p)
  }

  ghost predicate Sane(s: State) {
    && s.cell <= WORD_BUSY
    && (forall t :: t in s.pending ==>
          s.pending[t].saved < WORD_BUSY && 1 <= s.pending[t].num <= WORD_BITS && s.pending[t].max <= WORD_BITS)
    && (forall r :: r in s.live ==> r.Fits())
  }

  ghost predicate Inv(s: State) {
    && Sane(s)
    && forall i: nat :: i < WORD_BITS ==> Placed(s, i)
  }

  lemma InitHolds()
    ensures Inv(INIT)
  {
    forall i: nat | i < WORD_BITS
      ensures Placed(INIT, i)
    {
      assert OnlyAt(INIT, i, InCell) by { BitOfZero(i); }
    }
  }

  lemma BusyHasAllBits(i: nat)
    requires i < WORD_BITS
    ensures Bit(WORD_BUSY, i)
  {
    BusyIsAllOnes();
    BitOfOnes(WORD_BITS, i);
  }

  /** Where a bit goes in one step. */
  function Moved(s: State, step: Step, i: nat, p: Place): Place
    requires Enabled(s, step)
  {
    match step
    case Exchange(t, _, _) => if s.cell != WORD_BUSY && p == InCell then HeldBy(t) else p
    case Return(t) =>
      if p != HeldBy(t) then p
      else if exists r :: r in Granted(s.pending[t]) && r.Has(i) then
        OwnedBy(Region(Grant(s.pending[t].saved, s.pending[t].num, s.pending[t].max), s.pending[t].num))
      else InCell
    case Free(r) => if p == OwnedBy(r) then InCell else p
  }

  lemma ExchangeMoves(s: State, step: Step, i: nat, p: Place)
    requires Inv(s) && step.Exchange? && Enabled(s, step) && i < WORD_BITS && OnlyAt(s, i, p)
    ensures OnlyAt(Next(s, step), i, Moved(s, step, i, p))
  {
    hide Grant, And, RegionMask;
    BusyHasAllBits(i);
    var s', p' := Next(s, step), Moved(s, step, i, p);
    forall q
      ensures At(s', i, q) <==> q == p'
    {
      assert At(s, i, q) <==> q == p;
      assert At(s, i, InCell) <==> InCell == p;
    }
  }

  lemma ReturnMoves(s: State, step: Step, i: nat, p: Place)
    requires Inv(s) && step.Return? && Enabled(s, step) && i < WORD_BITS && OnlyAt(s, i, p)
    ensures OnlyAt(Next(s, step), i, Moved(s, step, i, p))
  {
    hide Grant, And, RegionMask;
    var t, s', p' := step.t, Next(s, step), Moved(s, step, i, p);
    var w := s.pending[t];
    var r := Grant(w.saved, w.num, w.max);
    GrantIsFree(w.saved, w.num, w.max);
    BitOfAnd(s.cell, Decision(w), i);
    if r >= 0 {
      BitOfOr(w.saved, RegionMask(w.num, r), i);
      BitOfRegionMask(w.num, r, i);
    }
    assert At(s, i, HeldBy(t)) <==> HeldBy(t) == p;
    assert At(s, i, InCell) <==> InCell == p;
    forall q
      ensures At(s', i, q) <==> q == p'
    {
      assert At(s, i, q) <==> q == p;
    }
  }

  lemma FreeMoves(s: State, step: Step, i: nat, p: Place)
    requires Inv(s) && step.Free? && Enabled(s, step) && i < WORD_BITS && OnlyAt(s, i, p)
    ensures OnlyAt(Next(s, step), i, Moved(s, step, i, p))
  {
    hide Grant, And, RegionMask;
    var r, s', p' := step.r, Next(s, step), Moved(s, step, i, p);
    var m := RegionMask(r.num, r.start);
    BitOfAnd(s.cell, Not(m, WORD_BITS), i);
    BitOfNot(m, WORD_BITS, i);
    BitOfRegionMask(r.num, r.start, i);
    assert At(s, i, OwnedBy(r)) <==> OwnedBy(r) == p;
    assert At(s, i, InCell) <==> InCell == p;
    forall q
      ensures At(s', i, q) <==> q == p'
    {
      assert At(s, i, q) <==> q == p;
    }
  }

  lemma StepKeepsSane(s: State, step: Step)
    requires Inv(s) && Enabled(s, step)
    ensures Sane(Next(s, step))
  {
    hide Grant, And, RegionMask;
    if step.Return? {
      var w := s.pending[step.t];
      GrantIsFree(w.saved, w.num, w.max);
    }
    if step.Exchange? {
      assert s.cell <= WORD_BUSY;
    }
  }

  /** Each step moves each bit to the one place it is then in. */
  lemma StepKeepsInv(s: State, step: Step)
    requires Inv(s) && Enabled(s, step)
    ensures Inv(Next(s, step))
  {
    hide Grant, And, RegionMask;
    StepKeepsSane(s, step);
    forall i: nat | i < WORD_BITS
      ensures Placed(Next(s, step), i)
    {
      assert Placed(s, i);
      var p :| OnlyAt(s, i, p);
      match step
      case Exchange(_, _, _) => ExchangeMoves(s, step, i, p);
      case Return(_) => ReturnMoves(s, step, i, p);
      case Free(_) => FreeMoves(s, step, i, p);
    }
  }

  // ---- Whole runs

  /** A run: any interleaving of the atomic steps of any number of threads. */
  predicate Run(states: seq<State>, steps: seq<Step>) {
    && |states| == |steps| + 1
    && states[0] == INIT
    && forall k :: 0 <= k < |steps| ==> Enabled(states[k], steps[k]) && states[k + 1] == Next(states[k], steps[k])
  }

  lemma {:induction false} RunKeepsInv(states: seq<State>, steps: seq<Step>, k: nat)
    requires Run(states, steps) && k <= |steps|
    ensures Inv(states[k])
  {
    if k == 0 {
      InitHolds();
    } else {
      RunKeepsInv(states, steps, k - 1);
      StepKeepsInv(states[k - 1], steps[k - 1]);
    }
  }

  /** In every run live regions never overlap, and no bit a thread may still grant is owned. */
  lemma LiveRegionsDisjoint(states: seq<State>, steps: seq<Step>, k: nat, a: Region, b: Region, i: nat)
    requires Run(states, steps) && k <= |steps|
    requires a in states[k].live && b in states[k].live && a.Has(i) && b.Has(i)
    ensures a == b
  {
    RunKeepsInv(states, steps, k);
    var s := states[k];
    assert i < WORD_BITS by { assert a.Fits(); }
    assert Placed(s, i);
    var p :| OnlyAt(s, i, p);
    assert At(s, i, OwnedBy(a)) && At(s, i, OwnedBy(b));
  }

  /** No free is ever lost: once no allocator is in flight, the set bits are exactly the live ones. */
  lemma QuiescentCellIsExact(states: seq<State>, steps: seq<Step>, k: nat, i: nat)
    requires Run(states, steps) && k <= |steps| && states[k].pending == map[] && i < WORD_BITS
    ensures Bit(states[k].cell, i) <==> exists r :: r in states[k].live && r.Has(i)
  {
    RunKeepsInv(states, steps, k);
    var s := states[k];
    assert Placed(s, i);
    var p :| OnlyAt(s, i, p);
    assert At(s, i, InCell) <==> InCell == p;
    assert At(s, i, p);
    if r :| r in s.live && r.Has(i) {
      assert At(s, i, OwnedBy(r));
    }
  }

  // ---- What becomes of a request

  /** r is num bits long, ends at or below max, is clear in x, and below it x is full. */
  ghost predicate Answers(x: nat, num: nat, max: nat, r: Region) {
    && r.num == num && r.start + num <= max
    && (forall i :: r.start <= i < r.start + num ==> !Bit(x, i))
    && (forall i :: 0 <= i < r.start ==> Bit(x, i))
  }

  lemma GrantedIsAnswer(p: Pending, r: Region)
    requires p.saved < WORD_BUSY && 1 <= p.num <= WORD_BITS && p.max <= WORD_BITS
    ensures r in Granted(p) <==> Answers(p.saved, p.num, p.max, r)
  {
    hide LowestZero, And, RegionMask;
    LowestZeroIsLowest(p.saved);
    GrantIsFree(p.saved, p.num, p.max);
    if Answers(p.saved, p.num, p.max, r) {
      assert !Bit(p.saved, r.start);
      assert r.start == LowestZero(p.saved) by { LowestZeroIs(p.saved, r.start); }
      if p.num == WORD_BITS {
        BusyIsAllOnes();
        ZeroHasNoBits(p.saved, WORD_BITS);
      } else {
        MaskTestIsClear(p.saved, p.num, r.start);
      }
    }
  }

  /** t's saved value and request stay as they are until it returns. */
  lemma {:induction false} StillPending(states: seq<State>, steps: seq<Step>, i: nat, j: nat, t: Thread)
    requires Run(states, steps) && i <= j <= |steps| && t in states[i].pending
    requires forall m :: i <= m < j ==> steps[m] != Return(t)
    ensures t in states[j].pending && states[j].pending[t] == states[i].pending[t]
  {
    hide Granted, Decision;
    if i < j {
      StillPending(states, steps, i, j - 1, t);
      assert Enabled(states[j - 1], steps[j - 1]);
    }
  }

  /** In every run: a request for num of the first max bits that finds the cell at x takes, when it returns, the
      one region that answers it, which nobody owned before, and nothing if there is none. */
  lemma RequestAnswered(states: seq<State>, steps: seq<Step>, i: nat, j: nat, t: Thread, num: nat, max: nat)
    requires Run(states, steps) && i < j < |steps|
    requires steps[i] == Exchange(t, num, max) && steps[j] == Return(t)
    requires states[i].cell != 0xFFFF_FFFF && forall m :: i < m < j ==> steps[m] != Return(t)
    ensures forall r :: r in states[j + 1].live <==> r in states[j].live || Answers(states[i].cell, num, max, r)
    ensures forall r :: Answers(states[i].cell, num, max, r) ==> r !in states[j].live
    ensures forall r, q :: Answers(states[i].cell, num, max, r) && Answers(states[i].cell, num, max, q) ==> r == q
    ensures t !in states[j + 1].pending
  {
    hide Granted, Decision, Answers;
    var x := states[i].cell;
    RunKeepsInv(states, steps, i);
    RunKeepsInv(states, steps, j);
    assert Enabled(states[i], steps[i]) && states[i + 1] == Next(states[i], steps[i]);
    assert Enabled(states[j], steps[j]) && states[j + 1] == Next(states[j], steps[j]);
    StillPending(states, steps, i + 1, j, t);
    var p := Pending(x, num, max);
    assert states[j].pending[t] == p;
    forall r ensures r in Granted(p) <==> Answers(x, num, max, r) { GrantedIsAnswer(p, r); }
    forall r, q | Answers(x, num, max, r) && Answers(x, num, max, q) ensures r == q { OneAnswer(x, num, max, r, q); }
    forall r | Answers(x, num, max, r) ensures r !in states[j].live { AnswerIsNew(states[j], t, r); }
  }

  lemma OneAnswer(x: nat, num: nat, max: nat, r: Region, q: Region)
    requires num >= 1 && Answers(x, num, max, r) && Answers(x, num, max, q)
    ensures r == q
  {
    assert !Bit(x, r.start) && !Bit(x, q.start);
  }

  lemma AnswerIsNew(s: State, t: Thread, r: Region)
    requires Inv(s) && t in s.pending && Answers(s.pending[t].saved, s.pending[t].num, s.pending[t].max, r)
    ensures r !in s.live
  {
    var i := r.start;
    assert At(s, i, HeldBy(t));
    assert Placed(s, i);
    var p :| OnlyAt(s, i, p);
    assert At(s, i, HeldBy(t)) <==> HeldBy(t) == p;
    assert At(s, i, OwnedBy(r)) <==> OwnedBy(r) == p;
  }

  /** Any thread may ask at any time, and return; with nobody in between, the answer is there at once. */
  lemma RequestAlone(s: State, t: Thread, num: nat, max: nat)
    requires Inv(s) && t !in s.pending && 1 <= num <= 32 && max <= 32 && s.cell != 0xFFFF_FFFF
    ensures Enabled(s, Exchange(t, num, max))
    ensures var s1 := Next(s, Exchange(t, num, max));
            && s1.cell == 0xFFFF_FFFF && s1.live == s.live
            && Enabled(s1, Return(t))
            && (forall r :: r in Next(s1, Return(t)).live <==> r in s.live || Answers(s.cell, num, max, r))
            && Next(s1, Return(t)).pending == s.pending
  {
    hide Granted, Decision, Answers;
    var p := Pending(s.cell, num, max);
    forall r ensures r in Granted(p) <==> Answers(s.cell, num, max, r) { GrantedIsAnswer(p, r); }
    assert s.pending[t := p] - {t} == s.pending;
  }

  /** A cell that somebody else has exchanged refuses the request and stays as it is. */
  lemma BusyRefuses(s: State, t: Thread, num: nat, max: nat)
    requires s.cell == 0xFFFF_FFFF && Enabled(s, Exchange(t, num, max))
    ensures Next(s, Exchange(t, num, max)) == s
  {
  }

  /** What a free does: its bits are clear, all others as before, and the region is gone. */
  lemma FreeClears(s: State, r: Region, i: nat)
    requires Inv(s) && r in s.live && r.num < 32 && i < 32
    ensures Enabled(s, Free(r))
    ensures Bit(Next(s, Free(r)).cell, i) <==> Bit(s.cell, i) && !r.Has(i)
    ensures Next(s, Free(r)).live == s.live - {r} && Next(s, Free(r)).pending == s.pending
  {
    hide And, RegionMask;
    RegionMaskFits(r);
    var m := RegionMask(r.num, r.start);
    BitOfAnd(s.cell, Not(m, WORD_BITS), i);
    BitOfNot(m, WORD_BITS, i);
    BitOfRegionMask(r.num, r.start, i);
  }

  /** The first request of a fresh cell gets its first bits. */
  lemma FirstRequest(num: nat, max: nat)
    requires 1 <= num <= max <= 32
    ensures Answers(INIT.cell, num, max, Region(0, num))
  {
    forall i: nat ensures !Bit(0, i) { BitOfZero(i); }
  }
}
