/** How run-tsload feeds one workload with the steps of a file while the control thread consumes them. */
module Feeding {
  import opened Options
  import opened StepRing

  // ---- The steps file

  /** sf_step_id, sf_error and the lines not read yet. A line that is no number is None. */
  datatype StepsFile = StepsFile(stepId: nat, error: bool, lines: seq<Option<nat>>)

  datatype Read = Got(stepId: nat, count: Unsigned) | NoRqs | ReadError

  /** What step_get_step does to the file: the count is stored as unsigned. */
  function ReadStep(f: StepsFile): (StepsFile, Read) {
    if f.error || f.lines == [] then (f.(error := true), NoRqs)
    else
      match f.lines[0]
      case None => (StepsFile(f.stepId, true, f.lines[1..]), ReadError)
      case Some(n) => (StepsFile(f.stepId + 1, false, f.lines[1..]), Got(f.stepId, n % 0x1_0000_0000))
  }

  class StepsReader {
    var sfStepId: nat
    var sfError: bool
    var lines: seq<Option<nat>>

    ghost function File(): StepsFile
      reads this
    {
      StepsFile(sfStepId, sfError, lines)
    }

    constructor (contents: seq<Option<nat>>)
      ensures File() == StepsFile(0, false, contents)
    {
      sfStepId, sfError, lines := 0, false, contents;
    }

    /** step_get_step. */
    method GetStep() returns (r: Read)
      modifies this
      ensures (File(), r) == ReadStep(old(File()))
    {
      if sfError || lines == [] {
        sfError := true;
        return NoRqs;
      }
      var line := lines[0];
      lines := lines[1..];
      if line == None {
        sfError := true;
        return ReadError;
      }
      r := Got(sfStepId, line.value % 0x1_0000_0000);
      sfStepId := sfStepId + 1;
    }
  }

  // ---- The protocol

  /** Starting: the main thread feeds the first steps. Aborted: one of them was an error. Running: the
      workload may start. Finished: it ran out of steps and was detached. */
  datatype Phase = Starting(tries: nat, exhausted: bool) | Aborted | Running | Finished(notices: nat, inHand: bool)

  /** notices: RUNNING notifications not yet handled. hand: the step a feeder has read and not yet provided.
      supplied and executed log the counts in order; answers logs what wl_provide_step answered. */
  datatype State = State(
    ring: Ring, file: StepsFile, phase: Phase, notices: nat, hand: Option<(nat, Unsigned)>,
    supplied: seq<Unsigned>, executed: seq<Unsigned>, answers: seq<Status>)

  /** FeedFirst, HandIn and Schedule are the main thread's until the workload is scheduled; then Notified and
      HandIn are the notification thread's. Consume is the control thread's. */
  datatype Step = FeedFirst | HandIn | Schedule | Consume | Notified

  predicate Initial(s: State) {
    && Bounded(s.ring) && s.ring.current == s.ring.last == -1
    && s.file.stepId == 0 && !s.file.error
    && s.phase == Starting(0, false) && s.notices == 0 && s.hand == None
    && s.supplied == s.executed == [] && s.answers == []
  }

  predicate Enabled(s: State, step: Step) {
    && Bounded(s.ring)
    && match step
       case FeedFirst => s.phase.Starting? && s.phase.tries < QUEUE_SIZE && !s.phase.exhausted && s.hand == None
       case HandIn => s.hand != None
       case Schedule => s.phase.Starting? && (s.phase.tries == QUEUE_SIZE || s.phase.exhausted) && s.hand == None
       case Consume => s.phase == Running
       case Notified => s.notices > 0 && s.hand == None
  }

  /** A feeder reads a step; on an error the main thread gives up. */
  function Take(s: State): State {
    var (file, r) := ReadStep(s.file);
    match r
    case Got(id, count) => s.(file := file, hand := Some((id, count)))
    case NoRqs => s.(file := file)
    case ReadError => s.(file := file, phase := if s.phase.Starting? then Aborted else s.phase)
  }

  function Next(s: State, step: Step): State
    requires Enabled(s, step)
  {
    match step
    case FeedFirst =>
      var t := Take(s);
      if !t.phase.Starting? then t
      else t.(phase := if t.hand == None then Starting(s.phase.tries, true) else Starting(s.phase.tries + 1, false))
    case HandIn =>
      var (ring, status) := Provide(s.ring, s.hand.value.0, s.hand.value.1);
      s.(ring := ring, hand := None, answers := s.answers + [status],
         supplied := if status == StepOk then s.supplied + [s.hand.value.1] else s.supplied)
    case Schedule =>
      s.(phase := Running)
    case Consume =>
      var (ring, count) := Advance(s.ring);
      if count == None then s.(ring := ring, phase := Finished(s.notices, s.hand != None))
      else s.(ring := ring, notices := s.notices + 1, executed := s.executed + [count.value])
    case Notified => Take(s.(notices := s.notices - 1))
  }

  function InHand(s: State): nat { if s.hand == None then 0 else 1 }

  /** Steps on the way: queued, being handed in, or owed for a notice. */
  function OnTheWay(s: State): int {
    s.ring.last - s.ring.current + s.notices + InHand(s)
  }

  predicate PhaseInv(s: State) {
    match s.phase
    case Starting(tries, exhausted) =>
      s.notices == 0 && s.executed == [] && tries == s.ring.last + 1 + InHand(s) <= QUEUE_SIZE && (exhausted ==> s.file.error)
    case Aborted => s.notices == 0
    case Running => s.file.error || OnTheWay(s) == QUEUE_SIZE
    case Finished(notices, inHand) =>
      notices == 0 && !inHand ==> s.file.error && s.hand == None && s.notices == 0 && s.supplied == s.executed
  }

  ghost predicate Inv(s: State) {
    && Bounded(s.ring)
    && s.file.stepId == s.ring.last + 1 + InHand(s) && |s.supplied| == s.ring.last + 1
    && (s.hand != None ==> s.hand.value.0 == s.ring.last + 1)
    && (forall k :: 0 <= k < |s.answers| ==> s.answers[k] == StepOk)
    && OnTheWay(s) <= QUEUE_SIZE
    && PhaseInv(s)
    && s.ring.current == (if s.phase.Finished? then |s.executed| else |s.executed| - 1)
    && (if s.phase.Finished? then s.executed <= s.supplied else s.supplied == s.executed + Pending(s.ring))
  }

  lemma InitialInv(s: State)
    requires Initial(s)
    ensures Inv(s)
  {
  }

  lemma AnswerIsOk(s: State)
    requires Inv(s) && Enabled(s, HandIn)
    ensures Provide(s.ring, s.hand.value.0, s.hand.value.1).1 == StepOk
  {
  }

  lemma HandInKeepsInv(s: State)
    requires Inv(s) && Enabled(s, HandIn)
    ensures Inv(Next(s, HandIn))
  {
    hide Pending, Provide;
    ProvideAppends(s.ring, s.hand.value.0, s.hand.value.1);
    QueueLength(s.ring);
  }

  lemma ConsumeKeepsInv(s: State)
    requires Inv(s) && Enabled(s, Consume)
    ensures Inv(Next(s, Consume))
  {
    hide Pending, Advance;
    AdvanceTakesFirst(s.ring);
    QueueLength(s.ring);
  }

  lemma QueueLength(r: Ring)
    requires Bounded(r)
    ensures |Pending(r)| == if r.last > r.current then r.last - r.current else 0
  {
  }

  lemma {:induction false} StepKeepsInv(s: State, step: Step)
    requires Inv(s) && Enabled(s, step)
    ensures Inv(Next(s, step))
  {
    if step == HandIn {
      HandInKeepsInv(s);
    } else if step == Consume {
      ConsumeKeepsInv(s);
    } else {
      hide Pending, Provide, Advance;
      QueueLength(s.ring);
    }
  }

  // ---- Whole runs

  /** Any interleaving of the main, notification and control threads, with any steps file. */
  predicate Run(states: seq<State>, steps: seq<Step>) {
    && |states| == |steps| + 1
    && Initial(states[0])
    && forall k :: 0 <= k < |steps| ==> Enabled(states[k], steps[k]) && states[k + 1] == Next(states[k], steps[k])
  }

  lemma {:induction false} RunKeepsInv(states: seq<State>, steps: seq<Step>, k: nat)
    requires Run(states, steps) && k <= |steps|
    ensures Inv(states[k])
  {
    hide Inv, Next;
    if k == 0 {
      InitialInv(states[0]);
    } else {
      RunKeepsInv(states, steps, k - 1);
      StepKeepsInv(states[k - 1], steps[k - 1]);
    }
  }

  /** In every run wl_provide_step answers OK each time, so no count still queued is ever overwritten. */
  lemma NeverRefused(states: seq<State>, steps: seq<Step>, k: nat)
    requires Run(states, steps) && k < |steps| && steps[k] == HandIn
    ensures Provide(states[k].ring, states[k].hand.value.0, states[k].hand.value.1).1 == StepOk
    ensures !states[k].phase.Finished? ==> Pending(states[k + 1].ring) == Pending(states[k].ring) + [states[k].hand.value.1]
  {
    RunKeepsInv(states, steps, k);
    RunKeepsInv(states, steps, k + 1);
    var s := states[k];
    ProvideAppends(s.ring, s.hand.value.0, s.hand.value.1);
  }

  // ---- What is executed

  /** The counts of a file, up to its first line that is no number. */
  function Counts(lines: seq<Option<nat>>): seq<Unsigned> {
    if lines == [] || lines[0] == None then [] else [lines[0].value % 0x1_0000_0000] + Counts(lines[1..])
  }

  /** Everything read has been supplied or is in hand, and the rest is still in the file. */
  ghost predicate Accounted(s: State, lines: seq<Option<nat>>) {
    s.supplied + (if s.hand == None then [] else [s.hand.value.1]) + (if s.file.error then [] else Counts(s.file.lines))
    == Counts(lines)
  }

  lemma StepKeepsAccount(s: State, step: Step, lines: seq<Option<nat>>)
    requires Inv(s) && Accounted(s, lines) && Enabled(s, step)
    ensures Accounted(Next(s, step), lines)
  {
    hide Inv, Pending, Provide, Advance;
    if step == HandIn {
      AnswerIsOk(s);
    }
  }

  lemma {:induction false} RunKeepsAccount(states: seq<State>, steps: seq<Step>, k: nat)
    requires Run(states, steps) && k <= |steps|
    ensures Accounted(states[k], states[0].file.lines)
  {
    hide Inv, Next;
    if k > 0 {
      RunKeepsAccount(states, steps, k - 1);
      RunKeepsInv(states, steps, k - 1);
      StepKeepsAccount(states[k - 1], steps[k - 1], states[0].file.lines);
    }
  }

  /** The j-th step executed has exactly the count of the j-th step of the file. */
  lemma ExecutedAsSupplied(states: seq<State>, steps: seq<Step>, k: nat, j: nat)
    requires Run(states, steps) && k <= |steps| && j < |states[k].executed|
    ensures var counts := Counts(states[0].file.lines); j < |counts| && states[k].executed[j] == counts[j]
  {
    RunKeepsInv(states, steps, k);
    RunKeepsAccount(states, steps, k);
    assert states[k].executed <= states[k].supplied <= Counts(states[0].file.lines);
  }

  /** A workload that finishes while no notice is waiting has executed the whole file, up to a bad line. */
  lemma FinishedMeansAllExecuted(states: seq<State>, steps: seq<Step>, k: nat)
    requires Run(states, steps) && k <= |steps| && states[k].phase == Finished(0, false)
    ensures states[k].executed == Counts(states[0].file.lines)
  {
    RunKeepsInv(states, steps, k);
    RunKeepsAccount(states, steps, k);
  }

  // ---- Every run ends, and what it has done then

  /** What a state still has to do: every line is read, handed in, executed and answered by a notice. */
  function Work(s: State): nat {
    6 * |s.file.lines| + 4 * InHand(s) + 3 * (if s.ring.last > s.ring.current then s.ring.last - s.ring.current else 0)
    + s.notices + (match s.phase case Starting(_, exhausted) => (if exhausted then 2 else 3) case Running => 1 case _ => 0)
  }

  lemma StepsFinish(s: State, step: Step)
    requires Inv(s) && Enabled(s, step)
    ensures Work(Next(s, step)) < Work(s)
  {
    hide Pending;
    if step == HandIn { AnswerIsOk(s); }
  }

  /** No run has more steps than that. */
  lemma {:induction false} RunsEnd(states: seq<State>, steps: seq<Step>, k: nat)
    requires Run(states, steps) && k <= |steps|
    ensures k + Work(states[k]) <= Work(states[0])
  {
    hide Inv, Next, Work;
    if k > 0 {
      RunsEnd(states, steps, k - 1);
      RunKeepsInv(states, steps, k - 1);
      StepsFinish(states[k - 1], steps[k - 1]);
    }
  }

  /** While a notice waits or a step is in hand, a feeder can go on; a workload that runs can always advance. */
  lemma NobodyBlocked(s: State)
    requires Inv(s)
    ensures s.notices > 0 || s.hand != None ==> Enabled(s, Notified) || Enabled(s, HandIn)
    ensures s.phase == Running ==> Enabled(s, Consume)
    ensures s.phase.Starting? ==> Enabled(s, FeedFirst) || Enabled(s, HandIn) || Enabled(s, Schedule)
  {
  }

  /** So where nobody can go on the workload was given up or is finished, and no notice is left unanswered. */
  lemma StuckMeansOver(s: State)
    requires Inv(s) && forall step :: !Enabled(s, step)
    ensures s.phase == Aborted || s.phase.Finished?
    ensures s.notices == 0 && s.hand == None
  {
    NobodyBlocked(s);
  }

  /** One of the first 16 lines is no number. */
  predicate BadStart(lines: seq<Option<nat>>) {
    exists i :: 0 <= i < 16 && i < |lines| && lines[i] == None
  }

  /** What has been read while starting, and what is known once that is over. */
  predicate StartInv(s: State, lines: seq<Option<nat>>) {
    match s.phase
    case Starting(tries, exhausted) =>
      && tries <= |lines| && (forall i :: 0 <= i < tries ==> lines[i] != None)
      && s.file.lines == lines[tries..] && s.file.error == exhausted && (exhausted ==> s.file.lines == [])
    case Aborted => BadStart(lines)
    case _ => !BadStart(lines)
  }

  lemma StepKeepsStart(s: State, step: Step, lines: seq<Option<nat>>)
    requires Inv(s) && Enabled(s, step) && StartInv(s, lines)
    ensures StartInv(Next(s, step), lines)
  {
    hide Pending, Provide, Advance;
    if s.phase.Starting? && step == FeedFirst && s.file.lines != [] {
      assert s.file.lines[0] == lines[s.phase.tries] && s.file.lines[1..] == lines[s.phase.tries + 1..];
    }
  }

  /** The main thread gives up if and only if one of the first 16 lines is no number; otherwise the workload runs. */
  lemma {:induction false} AbortedExactly(states: seq<State>, steps: seq<Step>, k: nat)
    requires Run(states, steps) && k <= |steps|
    ensures StartInv(states[k], states[0].file.lines)
    ensures !states[k].phase.Starting? ==> (states[k].phase == Aborted <==> BadStart(states[0].file.lines))
  {
    hide Inv, Next, Enabled, BadStart;
    if k > 0 {
      AbortedExactly(states, steps, k - 1);
      RunKeepsInv(states, steps, k - 1);
      StepKeepsStart(states[k - 1], steps[k - 1], states[0].file.lines);
    } else {
      assert states[0].file.lines == states[0].file.lines[0..];
    }
  }

  /** The control thread only advances when every notice has been answered. */
  predicate Prompt(states: seq<State>, steps: seq<Step>)
    requires |states| == |steps| + 1
  {
    forall k :: 0 <= k < |steps| && steps[k] == Consume ==> states[k].notices == 0 && states[k].hand == None
  }

  lemma {:induction false} PromptFinish(states: seq<State>, steps: seq<Step>, k: nat)
    requires Run(states, steps) && Prompt(states, steps) && k <= |steps|
    ensures states[k].phase.Finished? ==> states[k].phase == Finished(0, false)
  {
    hide Inv, Pending, Provide, Advance;
    if k > 0 {
      PromptFinish(states, steps, k - 1);
      assert Enabled(states[k - 1], steps[k - 1]) && states[k] == Next(states[k - 1], steps[k - 1]);
    }
  }

  /** If feeders are prompt, a run in which nobody can go on has executed the whole file, however long it is, up to a
      line that is no number; if that is one of the first 16, nothing is executed. */
  lemma WholeFileExecuted(states: seq<State>, steps: seq<Step>)
    requires Run(states, steps) && Prompt(states, steps)
    requires forall step :: !Enabled(states[|steps|], step)
    ensures states[|steps|].executed == if BadStart(states[0].file.lines) then [] else Counts(states[0].file.lines)
  {
    hide Inv, Next, Enabled, BadStart;
    var n := |steps|;
    RunKeepsInv(states, steps, n);
    StuckMeansOver(states[n]);
    AbortedExactly(states, steps, n);
    PromptFinish(states, steps, n);
    if states[n].phase.Finished? {
      FinishedMeansAllExecuted(states, steps, n);
    } else {
      NothingExecuted(states, steps, n);
    }
  }

  lemma {:induction false} NothingExecuted(states: seq<State>, steps: seq<Step>, k: nat)
    requires Run(states, steps) && k <= |steps| && (states[k].phase == Aborted || states[k].phase.Starting?)
    ensures states[k].executed == []
  {
    hide Inv, Pending, Provide, Advance;
    if k > 0 {
      assert Enabled(states[k - 1], steps[k - 1]) && states[k] == Next(states[k - 1], steps[k - 1]);
      NothingExecuted(states, steps, k - 1);
    }
  }
}
