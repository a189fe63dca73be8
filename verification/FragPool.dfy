/** The page-fragment allocator: the descriptor table over one bitmap cell, with every descriptor
    write a separate step, so that allocations and frees of other threads interleave with it. */
module FragPool {
  import opened Words
  import C = CellProtocol

  const UNALLOCATED: int := -2
  const REFERENCE: int := -1

  /** mp_frag_descr_t: value is the union of fd_size and fd_offset. */
  datatype Descr = Descr(kind: int, value: nat)

  /** What the owner of a live region is doing with its descriptors. */
  datatype Phase =
    | Writing(flags: nat, done: nat)
    | Ready(flags: nat)
    | Clearing(size: nat, done: nat)

  datatype Pool = Pool(cell: C.State, descrs: seq<Descr>, phases: map<C.Region, Phase>)

  datatype Step =
    | Exchange(t: C.Thread, num: nat)
    | Return(t: C.Thread, flags: nat)
    | Write(r: C.Region)
    | BeginFree(r: C.Region)
    | Clear(r: C.Region)
    | Release(r: C.Region)

  function Init(): Pool {
    Pool(C.INIT, seq(WORD_BITS, _ => Descr(UNALLOCATED, 0)), map[])
  }

  predicate InPhase(s: Pool, r: C.Region) {
    r in s.phases && r in s.cell.live && r.Fits() && |s.descrs| == WORD_BITS
  }

  predicate Enabled(s: Pool, step: Step) {
    match step
    case Exchange(t, num) => 1 <= num < WORD_BITS && C.Enabled(s.cell, C.Exchange(t, num, WORD_BITS))
    case Return(t, _) => C.Enabled(s.cell, C.Return(t))
    case Write(r) => InPhase(s, r) && s.phases[r].Writing? && s.phases[r].done < r.num
    case BeginFree(r) => InPhase(s, r) && s.phases[r].Ready?
    case Clear(r) => InPhase(s, r) && s.phases[r].Clearing? && s.phases[r].done < s.phases[r].size
                     && r.start + s.phases[r].done < WORD_BITS
    case Release(r) => InPhase(s, r) && s.phases[r].Clearing? && s.phases[r].done == s.phases[r].size
                       && C.Enabled(s.cell, C.Free(C.Region(r.start, s.phases[r].size)))
  }

  /** The i-th descriptor of a fragment of num, as mp_frag_alloc writes it. */
  function Written(flags: nat, num: nat, i: nat): Descr {
    if i == 0 then Descr(flags, num) else Descr(REFERENCE, i)
  }

  function Next(s: Pool, step: Step): Pool
    requires Enabled(s, step)
  {
    match step
    case Exchange(t, num) => s.(cell := C.Next(s.cell, C.Exchange(t, num, WORD_BITS)))
    case Return(t, flags) =>
      s.(cell := C.Next(s.cell, C.Return(t)),
         phases := s.phases + (map r | r in C.Granted(s.cell.pending[t]) :: Writing(flags, 0)))
    case Write(r) =>
      var p := s.phases[r];
      s.(descrs := s.descrs[r.start + p.done := Written(p.flags, r.num, p.done)],
         phases := s.phases[r := if p.done + 1 == r.num then Ready(p.flags) else Writing(p.flags, p.done + 1)])
    case BeginFree(r) =>
      s.(phases := s.phases[r := Clearing(s.descrs[r.start].value, 0)])
    case Clear(r) =>
      var p, i := s.phases[r], r.start + s.phases[r].done;
      s.(descrs := s.descrs[i := s.descrs[i].(kind := UNALLOCATED)],
         phases := s.phases[r := Clearing(p.size, p.done + 1)])
    case Release(r) =>
      s.(cell := C.Next(s.cell, C.Free(C.Region(r.start, s.phases[r].size))), phases := s.phases - {r})
  }

  // ---- The table agrees with the bitmap

  /** What descriptor i must be while region r is in phase p. */
  predicate DescrOk(d: Descr, r: C.Region, p: Phase, i: nat)
    requires r.Has(i)
  {
    match p
    case Writing(flags, done) =>
      if i < r.start + done then d == Written(flags, r.num, i - r.start) else d.kind == UNALLOCATED
    case Ready(flags) => d == Written(flags, r.num, i - r.start)
    case Clearing(_, done) => r.start + done <= i || d.kind == UNALLOCATED
  }

  predicate PhaseOk(r: C.Region, p: Phase) {
    match p
    case Writing(_, done) => done < r.num
    case Ready(_) => true
    case Clearing(size, done) => size == r.num && done <= size
  }

  ghost predicate Unowned(c: C.State, i: nat) {
    forall r :: r in c.live ==> !r.Has(i)
  }

  ghost predicate RegionOk(s: Pool, r: C.Region)
    requires |s.descrs| == WORD_BITS && r in s.phases && r.Fits()
  {
    && PhaseOk(r, s.phases[r])
    && forall i: nat :: r.Has(i) ==> DescrOk(s.descrs[i], r, s.phases[r], i)
  }

  ghost predicate Inv(s: Pool) {
    && C.Inv(s.cell)
    && |s.descrs| == WORD_BITS
    && s.phases.Keys == s.cell.live
    && (forall t :: t in s.cell.pending ==> s.cell.pending[t].num < WORD_BITS)
    && (forall r :: r in s.phases ==> RegionOk(s, r) && r.num < WORD_BITS)
    && forall i: nat :: i < WORD_BITS && Unowned(s.cell, i) ==> s.descrs[i].kind == UNALLOCATED
  }

  lemma Disjoint(c: C.State, a: C.Region, b: C.Region, i: nat)
    requires C.Inv(c) && a in c.live && b in c.live && a.Has(i) && b.Has(i)
    ensures a == b
  {
    assert i < WORD_BITS by { assert a.Fits(); }
    assert C.Placed(c, i);
    var p :| C.OnlyAt(c, i, p);
    assert C.At(c, i, C.OwnedBy(a)) && C.At(c, i, C.OwnedBy(b));
  }

  lemma ReturnKeepsInv(s: Pool, step: Step)
    requires Inv(s) && step.Return? && Enabled(s, step)
    ensures Inv(Next(s, step))
  {
    hide C.Grant, And, RegionMask;
    var p := s.cell.pending[step.t];
    var s' := Next(s, step);
    C.StepKeepsInv(s.cell, C.Return(step.t));
    C.GrantIsFree(p.saved, p.num, p.max);
    forall r, i: nat | r in C.Granted(p) && r.Has(i)
      ensures Unowned(s.cell, i)
    {
      assert C.Placed(s.cell, i);
      var q :| C.OnlyAt(s.cell, i, q);
      assert C.At(s.cell, i, C.HeldBy(step.t));
      forall r2 | r2 in s.cell.live ensures !r2.Has(i) {
        assert C.At(s.cell, i, C.OwnedBy(r2)) <==> C.OwnedBy(r2) == q;
      }
    }
    forall r | r in s'.phases
      ensures RegionOk(s', r) && r.num < WORD_BITS
    {
      if r in C.Granted(p) {
        assert s'.phases[r] == Writing(step.flags, 0);
      } else {
        assert s'.phases[r] == s.phases[r] && RegionOk(s, r);
      }
    }
    forall i: nat | i < WORD_BITS && Unowned(s'.cell, i)
      ensures s'.descrs[i].kind == UNALLOCATED
    {
      assert forall r :: r in s.cell.live ==> r in s'.cell.live;
      assert Unowned(s.cell, i);
    }
  }

  lemma WriteKeepsInv(s: Pool, step: Step)
    requires Inv(s) && (step.Write? || step.Clear?) && Enabled(s, step)
    ensures Inv(Next(s, step))
  {
    hide C.Grant, And, RegionMask;
    var s' := Next(s, step);
    assert RegionOk(s, step.r);
    var j := step.r.start + s.phases[step.r].done;
    assert step.r.Has(j);
    forall r | r in s'.phases
      ensures RegionOk(s', r)
    {
      assert RegionOk(s, r);
      if r != step.r {
        forall i: nat | r.Has(i)
          ensures DescrOk(s'.descrs[i], r, s'.phases[r], i)
        {
          if i == j { Disjoint(s.cell, r, step.r, j); }
        }
      }
    }
    forall i: nat | i < WORD_BITS && Unowned(s'.cell, i)
      ensures s'.descrs[i].kind == UNALLOCATED
    {
      assert i != j;
    }
  }

  lemma BeginFreeKeepsInv(s: Pool, step: Step)
    requires Inv(s) && step.BeginFree? && Enabled(s, step)
    ensures Inv(Next(s, step))
  {
    hide C.Grant, And, RegionMask;
    var s' := Next(s, step);
    assert RegionOk(s, step.r);
    assert step.r.Has(step.r.start);
    forall r | r in s'.phases
      ensures RegionOk(s', r)
    {
      assert RegionOk(s, r);
    }
  }

  lemma ReleaseKeepsInv(s: Pool, step: Step)
    requires Inv(s) && step.Release? && Enabled(s, step)
    ensures Inv(Next(s, step))
  {
    hide C.Grant, And, RegionMask;
    var s' := Next(s, step);
    assert RegionOk(s, step.r);
    assert C.Region(step.r.start, s.phases[step.r].size) == step.r;
    C.StepKeepsInv(s.cell, C.Free(step.r));
    forall r | r in s'.phases
      ensures RegionOk(s', r) && r.num < WORD_BITS
    {
      assert RegionOk(s, r);
    }
    forall i: nat | i < WORD_BITS && Unowned(s'.cell, i)
      ensures s'.descrs[i].kind == UNALLOCATED
    {
      if !step.r.Has(i) {
        forall r | r in s.cell.live ensures !r.Has(i) {
          if r != step.r { assert r in s'.cell.live; }
        }
        assert Unowned(s.cell, i);
      }
    }
  }

  lemma StepKeepsInv(s: Pool, step: Step)
    requires Inv(s) && Enabled(s, step)
    ensures Inv(Next(s, step))
  {
    hide C.Grant, And, RegionMask;
    match step
    case Exchange(t, num) =>
      C.StepKeepsInv(s.cell, C.Exchange(t, num, WORD_BITS));
      var s' := Next(s, step);
      forall r | r in s'.phases ensures RegionOk(s', r) && r.num < WORD_BITS { assert RegionOk(s, r); }
    case Return(_, _) => ReturnKeepsInv(s, step);
    case Write(_) => WriteKeepsInv(s, step);
    case BeginFree(_) => BeginFreeKeepsInv(s, step);
    case Clear(_) => WriteKeepsInv(s, step);
    case Release(_) => ReleaseKeepsInv(s, step);
  }

  // ---- Whole runs over any number of cells

  /** A pool of pages: each step acts on one cell and its 32 descriptors. */
  datatype Action = Action(cell: nat, step: Step)

  predicate Acts(before: seq<Pool>, a: Action, after: seq<Pool>) {
    && a.cell < |before|
    && Enabled(before[a.cell], a.step)
    && after == before[a.cell := Next(before[a.cell], a.step)]
  }

  predicate Run(states: seq<seq<Pool>>, steps: seq<Action>, pages: nat) {
    && |states| == |steps| + 1
    && states[0] == seq(pages, _ => Init())
    && forall k :: 0 <= k < |steps| ==> Acts(states[k], steps[k], states[k + 1])
  }

  lemma InitHolds()
    ensures Inv(Init())
  {
    C.InitHolds();
  }

  lemma {:induction false} RunKeepsInv(states: seq<seq<Pool>>, steps: seq<Action>, pages: nat, k: nat)
    requires Run(states, steps, pages) && k <= |steps|
    ensures |states[k]| == pages && forall c :: 0 <= c < pages ==> Inv(states[k][c])
  {
    if k == 0 {
      InitHolds();
    } else {
      RunKeepsInv(states, steps, pages, k - 1);
      assert Acts(states[k - 1], steps[k - 1], states[k]);
      StepKeepsInv(states[k - 1][steps[k - 1].cell], steps[k - 1].step);
    }
  }

  /** Fragments in use never overlap. */
  lemma FragmentsDisjoint(states: seq<seq<Pool>>, steps: seq<Action>, pages: nat, k: nat, c: nat,
                          a: C.Region, b: C.Region, i: nat)
    requires Run(states, steps, pages) && k <= |steps| && c < |states[k]|
    requires a in states[k][c].phases && b in states[k][c].phases && a.Has(i) && b.Has(i)
    ensures a == b
  {
    RunKeepsInv(states, steps, pages, k);
    Disjoint(states[k][c].cell, a, b, i);
  }

  /** The "descriptor is unallocated" assertion of mp_frag_alloc never fails, in any run. */
  lemma WriteFindsUnallocated(states: seq<seq<Pool>>, steps: seq<Action>, pages: nat, k: nat)
    requires Run(states, steps, pages) && k < |steps| && steps[k].step.Write?
    ensures Acts(states[k], steps[k], states[k + 1])
    ensures var s, r := states[k][steps[k].cell], steps[k].step.r;
            s.descrs[r.start + s.phases[r].done].kind == UNALLOCATED
  {
    assert Acts(states[k], steps[k], states[k + 1]);
    RunKeepsInv(states, steps, pages, k);
    var s, r := states[k][steps[k].cell], steps[k].step.r;
    assert RegionOk(s, r) && r.Has(r.start + s.phases[r].done);
  }

  /** A free that reads its size from the head descriptor always clears and releases exactly its own
      region: neither the descriptor loop nor the final AND can be refused or run past the end. */
  lemma FreeNeverStuck(states: seq<seq<Pool>>, steps: seq<Action>, pages: nat, k: nat, c: nat, r: C.Region)
    requires Run(states, steps, pages) && k <= |steps| && c < |states[k]|
    requires r in states[k][c].phases && states[k][c].phases[r].Clearing?
    ensures states[k][c].phases[r].size == r.num
    ensures Enabled(states[k][c], if states[k][c].phases[r].done < r.num then Clear(r) else Release(r))
  {
    RunKeepsInv(states, steps, pages, k);
    assert RegionOk(states[k][c], r);
  }

  /** mp_frag_get_descr: the index of the descriptor found, or -1 for NULL. */
  function GetDescr(descrs: seq<Descr>, i: nat): int
    requires i < |descrs|
  {
    var d := descrs[i];
    if d.kind == UNALLOCATED then -1
    else if d.kind == REFERENCE then i - d.value
    else i
  }

  /** From any pointer inside a live fragment the head descriptor is found, and it holds the size. */
  lemma GetDescrFindsHead(states: seq<seq<Pool>>, steps: seq<Action>, pages: nat, k: nat, c: nat,
                          r: C.Region, i: nat)
    requires Run(states, steps, pages) && k <= |steps| && c < |states[k]|
    requires r in states[k][c].phases && states[k][c].phases[r].Ready? && r.Has(i)
    ensures |states[k][c].descrs| == WORD_BITS && i < WORD_BITS
    ensures GetDescr(states[k][c].descrs, i) == r.start
    ensures states[k][c].descrs[r.start] == Descr(states[k][c].phases[r].flags, r.num)
  {
    RunKeepsInv(states, steps, pages, k);
    var s := states[k][c];
    assert RegionOk(s, r);
    assert DescrOk(s.descrs[i], r, s.phases[r], i);
    assert r.Has(r.start) && DescrOk(s.descrs[r.start], r, s.phases[r], r.start);
  }

  /** A pointer outside every live fragment is answered NULL. */
  lemma GetDescrOutside(states: seq<seq<Pool>>, steps: seq<Action>, pages: nat, k: nat, c: nat, i: nat)
    requires Run(states, steps, pages) && k <= |steps| && c < |states[k]| && i < WORD_BITS
    requires forall r :: r in states[k][c].phases ==> !r.Has(i)
    ensures |states[k][c].descrs| == WORD_BITS && GetDescr(states[k][c].descrs, i) == -1
  {
    RunKeepsInv(states, steps, pages, k);
    assert Unowned(states[k][c].cell, i);
  }

  // ---- A fragment's life

  /** Where t stands in one cell does not change until it returns there. */
  lemma {:induction false} StillPending(states: seq<seq<Pool>>, steps: seq<Action>, pages: nat, i: nat, j: nat, c: nat, t: C.Thread)
    requires Run(states, steps, pages) && i <= j <= |steps| && c < pages
    requires |states[i]| == pages && t in states[i][c].cell.pending
    requires forall m :: i <= m < j && steps[m].cell == c ==> !(steps[m].step.Return? && steps[m].step.t == t)
    ensures |states[j]| == pages && t in states[j][c].cell.pending
    ensures states[j][c].cell.pending[t] == states[i][c].cell.pending[t]
  {
    hide C.Grant, C.Granted, C.Decision;
    if i < j {
      StillPending(states, steps, pages, i, j - 1, c, t);
      assert Acts(states[j - 1], steps[j - 1], states[j]);
    }
  }

  /** In every run mp_frag_alloc's request for num fragments that finds a page's cell at x gets, when it returns, the
      one region of the page that answers it, with its flags and nothing written yet, and nothing if there is none;
      all other fragments stay as they are. */
  lemma RequestAnswered(states: seq<seq<Pool>>, steps: seq<Action>, pages: nat, i: nat, j: nat, c: nat,
                        t: C.Thread, num: nat, flags: nat)
    requires Run(states, steps, pages) && i < j < |steps| && c < pages
    requires steps[i] == Action(c, Exchange(t, num)) && steps[j] == Action(c, Return(t, flags))
    requires |states[i]| == pages && states[i][c].cell.cell != 0xFFFF_FFFF
    requires forall m :: i < m < j && steps[m].cell == c ==> !(steps[m].step.Return? && steps[m].step.t == t)
    ensures |states[j]| == |states[j + 1]| == pages
    ensures forall r :: r in states[j + 1][c].phases
                   <==> r in states[j][c].phases || C.Answers(states[i][c].cell.cell, num, 32, r)
    ensures forall r :: C.Answers(states[i][c].cell.cell, num, 32, r) ==>
                          r !in states[j][c].phases && states[j + 1][c].phases[r] == Writing(flags, 0)
    ensures forall r :: r in states[j][c].phases ==> states[j + 1][c].phases[r] == states[j][c].phases[r]
  {
    hide C.Grant, C.Granted, C.Decision, C.Answers, Inv;
    RunKeepsInv(states, steps, pages, i);
    RunKeepsInv(states, steps, pages, j);
    assert Acts(states[i], steps[i], states[i + 1]) && Acts(states[j], steps[j], states[j + 1]);
    StillPending(states, steps, pages, i + 1, j, c, t);
    var p := C.Pending(states[i][c].cell.cell, num, 32);
    assert states[j][c].cell.pending[t] == p;
    InvParts(states[j][c]);
    forall r ensures r in C.Granted(p) <==> C.Answers(p.saved, num, 32, r) { C.GrantedIsAnswer(p, r); }
    forall r | C.Answers(p.saved, num, 32, r) ensures r !in states[j][c].phases { C.AnswerIsNew(states[j][c].cell, t, r); }
  }

  lemma InvParts(s: Pool)
    requires Inv(s)
    ensures C.Inv(s.cell) && s.phases.Keys == s.cell.live && |s.descrs| == 32
    ensures forall r :: r in s.phases ==> RegionOk(s, r) && r.Fits() && r.num < 32
  {
  }

  /** mp_frag_alloc's request and return with nobody in between, on a page that is not busy. */
  lemma RequestAlone(s: Pool, t: C.Thread, num: nat, flags: nat)
    requires Inv(s) && t !in s.cell.pending && 1 <= num <= 31 && s.cell.cell != 0xFFFF_FFFF
    ensures Enabled(s, Exchange(t, num)) && Enabled(Next(s, Exchange(t, num)), Return(t, flags))
    ensures var s' := Next(Next(s, Exchange(t, num)), Return(t, flags));
            && (forall r :: r in s'.phases <==> r in s.phases || C.Answers(s.cell.cell, num, 32, r))
            && (forall r :: C.Answers(s.cell.cell, num, 32, r) ==> s'.phases[r] == Writing(flags, 0))
            && s'.descrs == s.descrs
  {
    hide C.Grant, C.Granted, C.Decision, C.Answers, Inv;
    InvParts(s);
    var p := C.Pending(s.cell.cell, num, 32);
    forall r ensures r in C.Granted(p) <==> C.Answers(p.saved, num, 32, r) { C.GrantedIsAnswer(p, r); }
  }

  function WriteStep(s: Pool, r: C.Region): (s': Pool)
    requires Inv(s) && r in s.phases && s.phases[r].Writing?
    ensures Inv(s') && s'.cell == s.cell && s.phases[r].done < r.num
    ensures var p, n := s.phases[r], s.phases[r].done + 1;
            s'.phases == s.phases[r := if n == r.num then Ready(p.flags) else Writing(p.flags, n)]
  {
    OneWrite(s, r);
    Next(s, Write(r))
  }

  /** n writes in a row. */
  function Writes(s: Pool, r: C.Region, n: nat): (s': Pool)
    requires Inv(s) && r in s.phases && s.phases[r].Writing? && s.phases[r].done + n <= r.num
    ensures Inv(s') && r in s'.phases
    ensures s'.phases[r] == if s.phases[r].done + n == r.num then Ready(s.phases[r].flags)
                            else Writing(s.phases[r].flags, s.phases[r].done + n)
    ensures s'.cell == s.cell && s'.phases == s.phases[r := s'.phases[r]]
  {
    hide Inv;
    InvParts(s);
    if n == 0 then s else WriteStep(Writes(s, r, n - 1), r)
  }

  lemma OneWrite(s: Pool, r: C.Region)
    requires Inv(s) && r in s.phases && s.phases[r].Writing?
    ensures Enabled(s, Write(r)) && Inv(Next(s, Write(r)))
    ensures s.phases[r].done < r.num
    ensures var s' := Next(s, Write(r));
            var p, n := s.phases[r], s.phases[r].done + 1;
            && s'.cell == s.cell && |s'.descrs| == |s.descrs| == 32
            && s'.phases == s.phases[r := if n == r.num then Ready(p.flags) else Writing(p.flags, n)]
            && forall i: nat :: i < 32 && !r.Has(i) ==> s'.descrs[i] == s.descrs[i]
  {
    assert RegionOk(s, r);
    StepKeepsInv(s, Write(r));
  }

  lemma {:induction false} WritesKeep(s: Pool, r: C.Region, n: nat, i: nat)
    requires Inv(s) && r in s.phases && s.phases[r].Writing? && s.phases[r].done + n <= r.num && i < 32 && !r.Has(i)
    ensures |s.descrs| == |Writes(s, r, n).descrs| == 32 && Writes(s, r, n).descrs[i] == s.descrs[i]
  {
    hide Inv, Next, Enabled;
    InvParts(s);
    if n > 0 {
      WritesKeep(s, r, n - 1, i);
      OneWrite(Writes(s, r, n - 1), r);
    }
  }

  /** The writes of mp_frag_alloc leave a fragment ready: its first descriptor holds the flags and the size, every
      other one the way back, and no other descriptor is touched. */
  lemma WrittenFragment(s: Pool, r: C.Region, flags: nat, i: nat)
    requires Inv(s) && r in s.phases && s.phases[r] == Writing(flags, 0) && i < 32
    ensures r.num >= 1 && Writes(s, r, r.num).phases[r] == Ready(flags)
    ensures |Writes(s, r, r.num).descrs| == 32
    ensures Writes(s, r, r.num).descrs[i]
            == if !r.Has(i) then s.descrs[i] else if i == r.start then Descr(flags, r.num) else Descr(-1, i - r.start)
  {
    hide C.Inv;
    InvParts(s);
    var s' := Writes(s, r, r.num);
    InvParts(s');
    assert RegionOk(s', r);
    if r.Has(i) { assert DescrOk(s'.descrs[i], r, s'.phases[r], i); } else { WritesKeep(s, r, r.num, i); }
  }

  function ClearStep(s: Pool, r: C.Region): (s': Pool)
    requires Inv(s) && r in s.phases && s.phases[r].Clearing? && s.phases[r].done < r.num
    ensures Inv(s') && s'.cell == s.cell && s'.phases == s.phases[r := Clearing(r.num, s.phases[r].done + 1)]
  {
    OneClear(s, r);
    Next(s, Clear(r))
  }

  /** n clearings in a row. */
  function Clears(s: Pool, r: C.Region, n: nat): (s': Pool)
    requires Inv(s) && r in s.phases && s.phases[r].Clearing? && s.phases[r].done + n <= r.num
    ensures Inv(s') && s'.cell == s.cell && s'.phases.Keys == s.phases.Keys
    ensures s'.phases[r] == Clearing(r.num, s.phases[r].done + n)
    decreases n
  {
    hide Inv, C.Region.Fits, C.Region.Has;
    ClearingSize(s, r);
    if n == 0 then s else Clears(ClearStep(s, r), r, n - 1)
  }

  lemma {:induction false} ClearsKeep(s: Pool, r: C.Region, n: nat, i: nat)
    requires Inv(s) && r in s.phases && s.phases[r].Clearing? && s.phases[r].done + n <= r.num && i < 32
    ensures |s.descrs| == |Clears(s, r, n).descrs| == 32 && (!r.Has(i) ==> Clears(s, r, n).descrs[i] == s.descrs[i])
    ensures Clears(s, r, n).phases - {r} == s.phases - {r}
    decreases n
  {
    hide Inv, Next, Enabled;
    InvParts(s);
    ClearingSize(s, r);
    if n > 0 {
      OneClear(s, r);
      ClearsKeep(ClearStep(s, r), r, n - 1, i);
    }
  }

  lemma ClearingSize(s: Pool, r: C.Region)
    requires Inv(s) && r in s.phases && s.phases[r].Clearing?
    ensures s.phases[r].size == r.num && |s.descrs| == 32
  {
    assert RegionOk(s, r);
  }

  lemma OneClear(s: Pool, r: C.Region)
    requires Inv(s) && r in s.phases && s.phases[r].Clearing? && s.phases[r].done < r.num
    ensures Enabled(s, Clear(r)) && Inv(Next(s, Clear(r)))
    ensures var s' := Next(s, Clear(r));
            && s'.cell == s.cell && s'.phases == s.phases[r := Clearing(r.num, s.phases[r].done + 1)] && |s'.descrs| == |s.descrs| == 32
            && forall i: nat :: i < 32 && !r.Has(i) ==> s'.descrs[i] == s.descrs[i]
  {
    assert RegionOk(s, r);
    StepKeepsInv(s, Clear(r));
  }

  /** mp_frag_free as a whole, from a ready fragment. */
  function Freed(s: Pool, r: C.Region): Pool
    requires Inv(s) && r in s.phases && s.phases[r].Ready?
  {
    hide C.Inv;
    BeginFreeGoes(s, r);
    var m := Clears(Next(s, BeginFree(r)), r, r.num);
    ReleaseGoes(m, r);
    Next(m, Release(r))
  }

  lemma BeginFreeGoes(s: Pool, r: C.Region)
    requires Inv(s) && r in s.phases && s.phases[r].Ready?
    ensures Enabled(s, BeginFree(r)) && Inv(Next(s, BeginFree(r)))
    ensures Next(s, BeginFree(r)).phases == s.phases[r := Clearing(r.num, 0)]
    ensures Next(s, BeginFree(r)).cell == s.cell && Next(s, BeginFree(r)).descrs == s.descrs
  {
    assert RegionOk(s, r) && r.Has(r.start);
    assert DescrOk(s.descrs[r.start], r, s.phases[r], r.start);
    StepKeepsInv(s, BeginFree(r));
  }

  lemma ReleaseGoes(s: Pool, r: C.Region)
    requires Inv(s) && r in s.phases && s.phases[r] == Clearing(r.num, r.num)
    ensures Enabled(s, Release(r)) && Inv(Next(s, Release(r)))
  {
    assert RegionOk(s, r) && C.Region(r.start, r.num) == r;
    StepKeepsInv(s, Release(r));
  }

  /** After it the fragment is gone, its bits are clear and its descriptors unallocated; nothing else has changed. */
  lemma FreedFragment(s: Pool, r: C.Region, i: nat)
    requires Inv(s) && r in s.phases && s.phases[r].Ready? && i < 32
    ensures var s' := Freed(s, r);
            && Inv(s') && |s'.descrs| == 32 && s'.phases == s.phases - {r}
            && (Bit(s'.cell.cell, i) <==> Bit(s.cell.cell, i) && !r.Has(i))
            && (if r.Has(i) then s'.descrs[i].kind == -2 else s'.descrs[i] == s.descrs[i])
            && s'.cell.pending == s.cell.pending
  {
    hide C.Inv, C.Next;
    BeginFreeGoes(s, r);
    var m := Clears(Next(s, BeginFree(r)), r, r.num);
    ReleaseGoes(m, r);
    InvParts(m);
    C.FreeClears(s.cell, r, i);
    if r.Has(i) {
      assert RegionOk(m, r);
      assert DescrOk(m.descrs[i], r, m.phases[r], i);
    }
    ClearsKeep(Next(s, BeginFree(r)), r, r.num, i);
    assert C.Region(r.start, r.num) == r;
  }
}
