/** The ring of request counts of a workload's next steps. */
module StepRing {
  import opened Options

  const QUEUE_SIZE := 16

  type Unsigned = n: int | 0 <= n < 0x1_0000_0000

  datatype Status = StepOk | StepInvalid | QueueFull

  /** wl_current_step, wl_last_step and wl_rqs_per_step. */
  datatype Ring = Ring(current: int, last: int, slots: seq<Unsigned>)

  predicate Bounded(r: Ring) {
    |r.slots| == QUEUE_SIZE && r.last - r.current <= QUEUE_SIZE
  }

  function Offset(stepId: int): nat { stepId % QUEUE_SIZE }

  /** The counts of the steps provided and not yet advanced to, in order. */
  function Pending(r: Ring): seq<Unsigned>
    requires Bounded(r)
  {
    seq(if r.last > r.current then r.last - r.current else 0,
        i requires 0 <= i < (if r.last > r.current then r.last - r.current else 0) => r.slots[Offset(r.current + 1 + i)])
  }

  function Provide(r: Ring, stepId: int, count: Unsigned): (Ring, Status)
    requires Bounded(r)
  {
    if r.last - r.current == QUEUE_SIZE then (r, QueueFull)
    else if stepId != r.last + 1 then (r, StepInvalid)
    else (Ring(r.current, stepId, r.slots[Offset(stepId) := count]), StepOk)
  }

  function Advance(r: Ring): (Ring, Option<Unsigned>)
    requires Bounded(r)
  {
    var next := r.current + 1;
    (Ring(next, r.last, r.slots), if next > r.last then None else Some(r.slots[Offset(next)]))
  }

  /** Steps fewer than a whole ring apart have slots of their own. */
  lemma SlotsApart(a: int, b: int)
    requires a < b < a + QUEUE_SIZE
    ensures Offset(a) != Offset(b)
  {
  }

  /** A provided step goes to the end of the queue and overwrites nothing in it; a step other than the next
      one, or one too many, changes nothing. */
  lemma ProvideAppends(r: Ring, stepId: int, count: Unsigned)
    requires Bounded(r)
    ensures var (r', status) := Provide(r, stepId, count);
            && Bounded(r') && r'.current == r.current
            && (status == QueueFull <==> |Pending(r)| == 16)
            && (status == StepOk <==> |Pending(r)| < 16 && stepId == r.last + 1)
            && (status != StepOk ==> r' == r)
            && (status == StepOk ==> r'.last == stepId)
            && (status == StepOk ==> Pending(r') == if r.last >= r.current then Pending(r) + [count] else [])
  {
    var (r', status) := Provide(r, stepId, count);
    if status == StepOk && r.last >= r.current {
      forall i | 0 <= i < |Pending(r)| ensures Pending(r')[i] == Pending(r)[i] {
        SlotsApart(r.current + 1 + i, stepId);
      }
      assert Pending(r') == Pending(r) + [count];
    }
  }

  /** Advancing takes the first of the queue, or reports that it is empty. */
  lemma AdvanceTakesFirst(r: Ring)
    requires Bounded(r)
    ensures var (r', count) := Advance(r);
            && Bounded(r') && r'.current == r.current + 1 && r'.last == r.last
            && (Pending(r) == [] ==> count == None && Pending(r') == [])
            && (Pending(r) != [] ==> count == Some(Pending(r)[0]) && Pending(r') == Pending(r)[1..])
  {
    var (r', count) := Advance(r);
    if Pending(r) != [] {
      assert Pending(r') == Pending(r)[1..];
    }
  }

  class Workload {
    var currentStep: int
    var lastStep: int
    var currentRq: int
    const rqsPerStep: array<Unsigned>

    ghost predicate Valid()
      reads this, rqsPerStep
    {
      rqsPerStep.Length == QUEUE_SIZE && Bounded(Steps())
    }

    ghost function Steps(): Ring
      reads this, rqsPerStep
    {
      Ring(currentStep, lastStep, rqsPerStep[..])
    }

    constructor ()
      ensures Valid() && fresh(rqsPerStep)
      ensures currentStep == lastStep == -1 && Pending(Steps()) == []
    {
      currentStep, lastStep, currentRq := -1, -1, 0;
      rqsPerStep := new Unsigned[QUEUE_SIZE];
    }

    /** wl_provide_step. */
    method ProvideStep(stepId: int, numRqs: Unsigned) returns (status: Status)
      requires Valid()
      modifies this`lastStep, rqsPerStep
      ensures Valid()
      ensures (Steps(), status) == Provide(old(Steps()), stepId, numRqs)
    {
      var stepOff := stepId % QUEUE_SIZE;
      if lastStep - currentStep == QUEUE_SIZE {
        return QueueFull;
      }
      if stepId != lastStep + 1 {
        return StepInvalid;
      }
      lastStep := stepId;
      rqsPerStep[stepOff] := numRqs;
      return StepOk;
    }

    /** wl_advance_step: the count of the step advanced to; None if there are no steps on the queue. */
    method AdvanceStep() returns (count: Option<Unsigned>)
      requires Valid()
      modifies this`currentStep, this`currentRq
      ensures Valid() && currentRq == 0
      ensures (Steps(), count) == Advance(old(Steps()))
    {
      currentStep := currentStep + 1;
      currentRq := 0;
      if currentStep > lastStep {
        return None;
      }
      var stepOff := currentStep % QUEUE_SIZE;
      return Some(rqsPerStep[stepOff]);
    }
  }
}
