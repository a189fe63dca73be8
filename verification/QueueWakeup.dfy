/** Who holds which lock of a synchronized queue, with one consumer and any number of producers. */
module QueueWakeup {
  type Thread = nat
  type Item = nat

  /** Where the consumer is in squeue_pop. The comments say which locks it holds. */
  datatype Consumer =
    | Locking                // about to lock sq_mutex
    | Looking                // sq_mutex: about to look at the head
    | EnteringWait           // sq_mutex: the queue was empty, about to lock te_mutex
    | LeavingQueue           // both: about to unlock sq_mutex
    | AboutToWait            // te_mutex: about to wait on the condition variable
    | Blocked                // waits on the condition variable
    | Signalled              // woken up, about to take te_mutex back
    | LeavingWait            // te_mutex: about to unlock it
    | Unlocking              // sq_mutex: has taken an element, about to unlock

  /** Where a producer is in squeue_push. */
  datatype Producer =
    | Arriving(item: Item)   // about to lock sq_mutex
    | Linking(item: Item)    // sq_mutex: about to link its element
    | Notifying              // sq_mutex: the queue was empty, about to lock te_mutex
    | Signalling             // both: about to signal
    | LeavingEvent           // both: about to unlock te_mutex
    | LeavingPush            // sq_mutex: about to unlock

  datatype Owner = Free | HeldByConsumer | HeldBy(p: Thread)

  datatype State = State(
    sq: Owner, te: Owner, items: seq<Item>, consumer: Consumer, producers: map<Thread, Producer>,
    pushed: seq<Item>, popped: seq<Item>)

  datatype Step = Arrive(p: Thread, item: Item) | Produce(p: Thread) | Consume | WakeUp

  const INIT := State(Free, Free, [], Locking, map[], [], [])

  /** WakeUp is a wake-up no signal asked for, which condition variables allow. */
  predicate Enabled(s: State, step: Step) {
    match step
    case Arrive(p, _) => p !in s.producers
    case Produce(p) =>
      && p in s.producers
      && (s.producers[p].Arriving? ==> s.sq == Free)
      && (s.producers[p].Notifying? ==> s.te == Free)
    case Consume =>
      && s.consumer != Blocked
      && (s.consumer == Locking ==> s.sq == Free)
      && (s.consumer == EnteringWait ==> s.te == Free)
      && (s.consumer == Signalled ==> s.te == Free)
    case WakeUp => s.consumer == Blocked
  }

  function Next(s: State, step: Step): State
    requires Enabled(s, step)
  {
    match step
    case Arrive(p, item) => s.(producers := s.producers[p := Arriving(item)])
    case Produce(p) => ProducerStep(s, p)
    case Consume => ConsumerStep(s)
    case WakeUp => s.(consumer := Signalled)
  }

  function ProducerStep(s: State, p: Thread): State
    requires p in s.producers
  {
    match s.producers[p]
    case Arriving(item) => s.(sq := HeldBy(p), producers := s.producers[p := Linking(item)])
    case Linking(item) =>
      s.(items := s.items + [item], pushed := s.pushed + [item],
         producers := s.producers[p := if s.items == [] then Notifying else LeavingPush])
    case Notifying => s.(te := HeldBy(p), producers := s.producers[p := Signalling])
    case Signalling =>
      s.(consumer := if s.consumer == Blocked then Signalled else s.consumer, producers := s.producers[p := LeavingEvent])
    case LeavingEvent => s.(te := Free, producers := s.producers[p := LeavingPush])
    case LeavingPush => s.(sq := Free, producers := s.producers - {p})
  }

  function ConsumerStep(s: State): State
    requires s.consumer != Blocked
  {
    match s.consumer
    case Locking => s.(sq := HeldByConsumer, consumer := Looking)
    case Looking =>
      if s.items == [] then s.(consumer := EnteringWait)
      else s.(items := s.items[1..], popped := s.popped + [s.items[0]], consumer := Unlocking)
    case EnteringWait => s.(te := HeldByConsumer, consumer := LeavingQueue)
    case LeavingQueue => s.(sq := Free, consumer := AboutToWait)
    case AboutToWait => s.(te := Free, consumer := Blocked)
    case Signalled => s.(te := HeldByConsumer, consumer := LeavingWait)
    case LeavingWait => s.(te := Free, consumer := Locking)
    case Unlocking => s.(sq := Free, consumer := Locking)
  }

  // ---- Locks and wake-ups

  predicate ConsumerHasSq(c: Consumer) { c == Looking || c == EnteringWait || c == LeavingQueue || c == Unlocking }
  predicate ConsumerHasTe(c: Consumer) { c == LeavingQueue || c == AboutToWait || c == LeavingWait }
  predicate ProducerHasTe(p: Producer) { p == Signalling || p == LeavingEvent }

  /** A signal is on its way. */
  predicate SignalComing(s: State, p: Thread) {
    p in s.producers && (s.producers[p] == Notifying || s.producers[p] == Signalling)
  }

  ghost predicate Inv(s: State) {
    && (s.sq == HeldByConsumer <==> ConsumerHasSq(s.consumer))
    && (s.te == HeldByConsumer <==> ConsumerHasTe(s.consumer))
    && (forall p :: p in s.producers ==> (s.sq == HeldBy(p) <==> !s.producers[p].Arriving?))
    && (forall p :: p in s.producers ==> (s.te == HeldBy(p) <==> ProducerHasTe(s.producers[p])))
    && (s.sq.HeldBy? ==> s.sq.p in s.producers)
    && (s.te.HeldBy? ==> s.te.p in s.producers)
    && (s.consumer == EnteringWait || s.consumer == LeavingQueue ==> s.items == [])
    && ((s.consumer == AboutToWait || s.consumer == Blocked) && s.items != [] ==> s.sq.HeldBy? && SignalComing(s, s.sq.p))
    && s.pushed == s.popped + s.items
  }

  lemma ProducerKeepsInv(s: State, p: Thread)
    requires Inv(s) && Enabled(s, Produce(p))
    ensures Inv(ProducerStep(s, p))
  {
  }

  lemma ConsumerKeepsInv(s: State)
    requires Inv(s) && Enabled(s, Consume)
    ensures Inv(ConsumerStep(s))
  {
    if s.consumer == Looking && s.items != [] {
      assert s.popped + s.items == s.popped + [s.items[0]] + s.items[1..];
    }
  }

  lemma StepKeepsInv(s: State, step: Step)
    requires Inv(s) && Enabled(s, step)
    ensures Inv(Next(s, step))
  {
    if step.Produce? {
      hide Inv;
      ProducerKeepsInv(s, step.p);
    } else if step == Consume {
      hide Inv;
      ConsumerKeepsInv(s);
    }
  }

  // ---- Whole runs

  predicate Run(states: seq<State>, steps: seq<Step>) {
    && |states| == |steps| + 1
    && states[0] == INIT
    && forall k :: 0 <= k < |steps| ==> Enabled(states[k], steps[k]) && states[k + 1] == Next(states[k], steps[k])
  }

  lemma {:induction false} RunKeepsInv(states: seq<State>, steps: seq<Step>, k: nat)
    requires Run(states, steps) && k <= |steps|
    ensures Inv(states[k])
  {
    hide Inv, Next;
    if k == 0 {
      InitInv();
    } else {
      RunKeepsInv(states, steps, k - 1);
      StepKeepsInv(states[k - 1], steps[k - 1]);
    }
  }

  lemma InitInv()
    ensures Inv(INIT)
  {
  }

  /** No wake-up is lost: if the consumer is blocked and no producer is inside the lock, the queue is empty. */
  lemma NoLostWakeup(states: seq<State>, steps: seq<Step>, k: nat)
    requires Run(states, steps) && k <= |steps|
    requires states[k].consumer == Blocked && forall p :: p in states[k].producers ==> states[k].producers[p].Arriving?
    ensures states[k].items == []
  {
    RunKeepsInv(states, steps, k);
  }

  /** What is popped is what was pushed, in order. */
  lemma FirstInFirstOut(states: seq<State>, steps: seq<Step>, k: nat)
    requires Run(states, steps) && k <= |steps|
    ensures states[k].popped <= states[k].pushed && states[k].items == states[k].pushed[|states[k].popped|..]
  {
    RunKeepsInv(states, steps, k);
  }

  /** The locks never deadlock: while a producer is under way or the consumer is not blocked, some of them
      can go on. */
  lemma SomebodyCanGoOn(states: seq<State>, steps: seq<Step>, k: nat)
    requires Run(states, steps) && k <= |steps|
    requires states[k].producers != map[] || states[k].consumer != Blocked
    ensures Enabled(states[k], Consume) || exists p :: p in states[k].producers && Enabled(states[k], Produce(p))
  {
    RunKeepsInv(states, steps, k);
    var s := states[k];
    if !Enabled(s, Consume) {
      if s.te.HeldBy? {
        assert Enabled(s, Produce(s.te.p));
      } else if s.sq.HeldBy? {
        assert Enabled(s, Produce(s.sq.p));
      } else {
        assert s.consumer == Blocked && s.sq == Free;
        var p :| p in s.producers;
        assert Enabled(s, Produce(p));
      }
    }
  }

  /** Only one thread is ever linking or unlinking. */
  lemma QueueIsExclusive(states: seq<State>, steps: seq<Step>, k: nat, p: Thread, q: Thread)
    requires Run(states, steps) && k <= |steps|
    requires p in states[k].producers && states[k].producers[p].Linking?
    ensures states[k].consumer != Looking
    ensures q in states[k].producers && states[k].producers[q].Linking? ==> q == p
  {
    RunKeepsInv(states, steps, k);
  }

  // ---- Everything pushed, and everything popped

  /** The items producers have arrived with. */
  function Arrived(steps: seq<Step>, k: nat): multiset<Item>
    requires k <= |steps|
  {
    if k == 0 then multiset{}
    else Arrived(steps, k - 1) + if steps[k - 1].Arrive? then multiset{steps[k - 1].item} else multiset{}
  }

  /** The producers with an item x that they have not linked yet. */
  function Waiting(producers: map<Thread, Producer>, x: Item): set<Thread> {
    set p | p in producers && HasItem(producers[p], x)
  }

  predicate HasItem(p: Producer, x: Item) {
    p == Arriving(x) || p == Linking(x)
  }

  lemma WaitingAfter(m: map<Thread, Producer>, p: Thread, v: Producer, x: Item)
    ensures Waiting(m[p := v], x) == if HasItem(v, x) then Waiting(m, x) + {p} else Waiting(m, x) - {p}
  {
  }

  lemma WaitingWithout(m: map<Thread, Producer>, p: Thread, x: Item)
    ensures Waiting(m - {p}, x) == Waiting(m, x) - {p}
  {
  }

  /** In every run each item a producer came with was pushed once, or is still waiting to be. */
  lemma {:induction false} PushedAreArrived(states: seq<State>, steps: seq<Step>, k: nat, x: Item)
    requires Run(states, steps) && k <= |steps|
    ensures Arrived(steps, k)[x] == multiset(states[k].pushed)[x] + |Waiting(states[k].producers, x)|
  {
    if k > 0 {
      hide Waiting;
      PushedAreArrived(states, steps, k - 1, x);
      var s, step := states[k - 1], steps[k - 1];
      assert Enabled(s, step) && states[k] == Next(s, step);
      StepPushes(s, step, x);
    }
  }

  lemma StepPushes(s: State, step: Step, x: Item)
    requires Enabled(s, step)
    ensures var t := Next(s, step);
            multiset(t.pushed)[x] + |Waiting(t.producers, x)| ==
              multiset(s.pushed)[x] + |Waiting(s.producers, x)| + if step.Arrive? && step.item == x then 1 else 0
  {
    if step.Arrive? {
      WaitingAfter(s.producers, step.p, Arriving(step.item), x);
    } else if step.Produce? {
      ProducerPushes(s, step.p, x);
    }
  }

  lemma ProducerPushes(s: State, p: Thread, x: Item)
    requires p in s.producers
    ensures var t := ProducerStep(s, p);
            multiset(t.pushed)[x] + |Waiting(t.producers, x)| == multiset(s.pushed)[x] + |Waiting(s.producers, x)|
  {
    var t := ProducerStep(s, p);
    assert p in Waiting(s.producers, x) <==> HasItem(s.producers[p], x);
    if p in t.producers {
      WaitingAfter(s.producers, p, t.producers[p], x);
    } else {
      WaitingWithout(s.producers, p, x);
    }
  }

  /** The times the consumer came back from squeue_pop with an element. */
  function Returned(states: seq<State>, steps: seq<Step>, k: nat): nat
    requires |states| == |steps| + 1 && k <= |steps|
  {
    if k == 0 then 0
    else Returned(states, steps, k - 1) + if steps[k - 1] == Consume && states[k - 1].consumer == Unlocking then 1 else 0
  }

  /** Each time it has taken one element. */
  lemma {:induction false} EachReturnPopsOne(states: seq<State>, steps: seq<Step>, k: nat)
    requires Run(states, steps) && k <= |steps|
    ensures |states[k].popped| == Returned(states, steps, k) + if states[k].consumer == Unlocking then 1 else 0
  {
    if k > 0 {
      EachReturnPopsOne(states, steps, k - 1);
      assert Enabled(states[k - 1], steps[k - 1]) && states[k] == Next(states[k - 1], steps[k - 1]);
    }
  }

  // ---- Who gets on

  /** The consumer looks, and takes the first item, if nobody is in its way. */
  lemma PopAlone(s: State)
    requires Inv(s) && s.consumer == Locking && s.sq == Free && s.items != []
    ensures Enabled(s, Consume)
    ensures var t := Next(s, Consume);
            && Enabled(t, Consume)
            && var u := Next(t, Consume);
               && Enabled(u, Consume)
               && Next(u, Consume) == s.(items := s.items[1..], popped := s.popped + [s.items[0]])
  {
  }

  /** With nothing to take it goes to sleep, and leaves both locks free. */
  lemma SleepAlone(s: State)
    requires Inv(s) && s.consumer == Locking && s.sq == s.te == Free && s.items == []
    ensures Enabled(s, Consume)
    ensures var a := Next(s, Consume);
            && Enabled(a, Consume)
            && var b := Next(a, Consume);
               && Enabled(b, Consume)
               && var c := Next(b, Consume);
                  && Enabled(c, Consume)
                  && var d := Next(c, Consume);
                     Enabled(d, Consume) && Next(d, Consume) == s.(consumer := Blocked)
  {
  }

  /** Three steps of a producer that has arrived and finds the queue not empty: its item is last, and it is gone. */
  lemma PushAlone(s: State, p: Thread, item: Item)
    requires Inv(s) && p !in s.producers && s.sq == Free && s.items != []
    ensures Enabled(s, Arrive(p, item))
    ensures var a := Next(s, Arrive(p, item));
            && Enabled(a, Produce(p))
            && var b := Next(a, Produce(p));
               && Enabled(b, Produce(p))
               && var c := Next(b, Produce(p));
                  && Enabled(c, Produce(p))
                  && Next(c, Produce(p)) == s.(items := s.items + [item], pushed := s.pushed + [item])
  {
    var d := Next(Next(Next(Next(s, Arrive(p, item)), Produce(p)), Produce(p)), Produce(p));
    assert d.producers == s.producers;
  }

  /** If it finds the queue empty and the consumer asleep, it wakes it up as well. */
  lemma PushWakes(s: State, p: Thread, item: Item)
    requires Inv(s) && p !in s.producers && s.sq == s.te == Free && s.items == []
    ensures Enabled(s, Arrive(p, item))
    ensures var t := SixSteps(Next(s, Arrive(p, item)), p);
            t == s.(items := [item], pushed := s.pushed + [item],
                    consumer := if s.consumer == Blocked then Signalled else s.consumer)
  {
    var a := Next(s, Arrive(p, item));
    var t := SixSteps(a, p);
    assert t.producers == s.producers;
  }

  /** A producer's way through squeue_push when it has to signal. */
  function SixSteps(s: State, p: Thread): State
    requires p in s.producers && s.producers[p].Arriving? && s.sq == s.te == Free && s.items == []
  {
    var b := Next(s, Produce(p));
    var c := Next(b, Produce(p));
    var d := Next(c, Produce(p));
    var e := Next(d, Produce(p));
    var f := Next(e, Produce(p));
    Next(f, Produce(p))
  }

  /** A woken consumer takes the lock back and looks again. */
  lemma WokenLooks(s: State)
    requires Inv(s) && s.consumer == Signalled && s.te == Free
    ensures Enabled(s, Consume)
    ensures Enabled(Next(s, Consume), Consume) && Next(Next(s, Consume), Consume) == s.(consumer := Locking)
  {
  }
}
