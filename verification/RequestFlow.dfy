/** The hand-off of requests between the control thread, the workers and the report thread, step by step. */
module RequestFlow {
  import opened Shares
  import opened Requests

  /** A private chain of requests, of which a worker has run the first ones. */
  datatype Chain = Chain(rqs: seq<Rq>, done: nat)

  /** Where a worker is in its loop. Running: about to run a request. Ran: about to look at its state.
      Leaving: about to push its chain. */
  datatype Worker =
    | Idle
    | Running(chain: Chain)
    | Ran(chain: Chain)
    | Leaving(chain: Chain)

  /** interrupt: w_state is INTERRUPT. latest: wl_current_step of each workload. counts: the requests of
      each step that was started. finished: the requests with RQF_FINISHED. runs: what wl_run_request was
      called with. */
  datatype State = State(
    lists: seq<seq<Rq>>, workers: seq<Worker>, interrupt: seq<bool>,
    queue: seq<Chain>, reported: seq<Chain>,
    latest: map<nat, nat>, counts: map<(nat, nat), nat>, created: set<Rq>,
    finished: set<Rq>, runs: multiset<Rq>)

  /** StartStep gives each worker its share of a step's requests. It and Interrupt are the control thread's,
      Report is the report thread's, the others are the worker's. StartStep holds every worker's mutex, Splice
      that of its own. */
  datatype Step =
    | StartStep(workload: nat, shares: seq<nat>)
    | Interrupt(w: nat)
    | Splice(w: nat)
    | RunRequest(w: nat)
    | LookAtState(w: nat)
    | Push(w: nat)
    | Report

  function ChainOf(w: Worker): Chain {
    if w.Idle? then Chain([], 0) else w.chain
  }

  predicate Initial(s: State) {
    && |s.lists| == |s.workers| == |s.interrupt| > 0
    && (forall t :: 0 <= t < |s.lists| ==> s.lists[t] == [])
    && (forall t :: 0 <= t < |s.workers| ==> s.workers[t] == Idle)
    && s.queue == s.reported == []
    && s.latest == map[] && s.counts == map[] && s.created == s.finished == {} && s.runs == multiset{}
  }

  predicate Shaped(s: State) {
    && |s.lists| == |s.workers| == |s.interrupt| > 0
    && (forall t :: 0 <= t < |s.workers| ==> ChainOf(s.workers[t]).done <= |ChainOf(s.workers[t]).rqs|)
    && (forall t :: 0 <= t < |s.workers| && s.workers[t].Running? ==> s.workers[t].chain.done < |s.workers[t].chain.rqs|)
    && (forall c :: c in s.queue ==> c.done <= |c.rqs|)
    && (forall c :: c in s.reported ==> c.done <= |c.rqs|)
  }

  predicate Enabled(s: State, step: Step) {
    && Shaped(s)
    && match step
       case StartStep(_, shares) => |shares| == |s.lists|
       case Interrupt(w) => w < |s.workers|
       case Splice(w) => w < |s.workers| && s.workers[w] == Idle
       case RunRequest(w) => w < |s.workers| && s.workers[w].Running?
       case LookAtState(w) => w < |s.workers| && s.workers[w].Ran?
       case Push(w) => w < |s.workers| && s.workers[w].Leaving?
       case Report => s.queue != []
  }

  /** wl_advance_step: the first step is step 0. */
  function StepAfter(s: State, workload: nat): nat {
    if workload in s.latest then s.latest[workload] + 1 else 0
  }

  function Next(s: State, step: Step): State
    requires Enabled(s, step)
  {
    match step
    case StartStep(wl, shares) =>
      var id := StepAfter(s, wl);
      s.(latest := s.latest[wl := id],
         counts := s.counts[(wl, id) := Sum(shares)],
         created := s.created + StepRequests(wl, id, Sum(shares)),
         lists := Appended(s.lists, NewLists(wl, id, shares)))
    case Interrupt(w) =>
      s.(interrupt := s.interrupt[w := true])
    case Splice(w) =>
      var t := s.(interrupt := s.interrupt[w := false]);
      if s.lists[w] == [] then t
      else t.(lists := s.lists[w := []], workers := s.workers[w := Running(Chain(s.lists[w], 0))])
    case RunRequest(w) =>
      var c := s.workers[w].chain;
      var rq := c.rqs[c.done];
      s.(workers := s.workers[w := Ran(Chain(c.rqs, c.done + 1))],
         finished := s.finished + {rq},
         runs := s.runs + multiset{rq})
    case LookAtState(w) =>
      var c := s.workers[w].chain;
      s.(workers := s.workers[w := if s.interrupt[w] || c.done == |c.rqs| then Leaving(c) else Running(c)])
    case Push(w) =>
      s.(workers := s.workers[w := Idle], queue := s.queue + [s.workers[w].chain])
    case Report =>
      s.(queue := s.queue[1..], reported := s.reported + [s.queue[0]])
  }

  // ---- Conservation

  /** The part of a chain that was run, or the rest of it. */
  function Part(c: Chain, run: bool): seq<Rq>
    requires c.done <= |c.rqs|
  {
    if run then c.rqs[..c.done] else c.rqs[c.done..]
  }

  function Parts(cs: seq<Chain>, run: bool): (r: seq<seq<Rq>>)
    requires forall c :: c in cs ==> c.done <= |c.rqs|
    ensures |r| == |cs|
  {
    seq(|cs|, i requires 0 <= i < |cs| => Part(cs[i], run))
  }

  function WorkerChains(s: State): (r: seq<Chain>)
    requires Shaped(s)
    ensures |r| == |s.workers| && forall c :: c in r ==> c.done <= |c.rqs|
  {
    seq(|s.workers|, t requires 0 <= t < |s.workers| => ChainOf(s.workers[t]))
  }

  /** All requests on private chains, in the report queue and reported, run or not. */
  function OnChains(s: State, run: bool): multiset<Rq>
    requires Shaped(s)
  {
    Flat(Parts(WorkerChains(s), run)) + Flat(Parts(s.queue, run)) + Flat(Parts(s.reported, run))
  }

  /** Every created request is in exactly one place: a worker's list, or a chain, among those run or among
      the others; and the run ones are run once and marked finished. */
  ghost predicate Conserved(s: State)
    requires Shaped(s)
  {
    && Flat(s.lists) + OnChains(s, false) + OnChains(s, true) == multiset(s.created)
    && s.runs == OnChains(s, true)
    && forall r :: r in s.finished <==> r in s.runs
  }

  /** What was created: the ids 0 to n - 1 of each step that was started with n requests. */
  ghost predicate Numbered(s: State) {
    && (forall r :: r in s.created <==> r.step >= 0 && (r.workload, r.step) in s.counts && r.id < s.counts[(r.workload, r.step)])
    && (forall k :: k in s.counts ==> k.0 in s.latest && k.1 <= s.latest[k.0])
  }

  ghost predicate Inv(s: State) {
    Shaped(s) && Conserved(s) && Numbered(s)
  }

  lemma {:induction false} FlatOfEmpties(ss: seq<seq<Rq>>)
    requires forall t :: 0 <= t < |ss| ==> ss[t] == []
    ensures Flat(ss) == multiset{}
  {
    if ss != [] { FlatOfEmpties(ss[..|ss| - 1]); }
  }

  lemma InitialInv(s: State)
    requires Initial(s)
    ensures Inv(s)
  {
    FlatOfEmpties(s.lists);
    FlatOfEmpties(Parts(WorkerChains(s), true));
    FlatOfEmpties(Parts(WorkerChains(s), false));
  }

  /** A worker's chain replaced by another. */
  lemma {:induction false} WorkerMoves(s: State, t: State, w: nat, run: bool)
    requires Shaped(s) && Shaped(t) && w < |s.workers| == |t.workers|
    requires t.workers == s.workers[w := t.workers[w]]
    ensures Flat(Parts(WorkerChains(t), run)) + multiset(Part(ChainOf(s.workers[w]), run))
            == Flat(Parts(WorkerChains(s), run)) + multiset(Part(ChainOf(t.workers[w]), run))
  {
    hide Flat;
    FlatUpdate(Parts(WorkerChains(s), run), w, Part(ChainOf(t.workers[w]), run));
    assert Parts(WorkerChains(t), run) == Parts(WorkerChains(s), run)[w := Part(ChainOf(t.workers[w]), run)];
  }

  /** Sums of multisets, one element at a time. */
  lemma Rearranged(a: multiset<Rq>, a': multiset<Rq>, p: multiset<Rq>, p': multiset<Rq>, b: multiset<Rq>, c: multiset<Rq>)
    requires a' + p == a + p'
    ensures a' + b + c + p == a + b + c + p'
  {
    assert a' + b + c + p == a' + p + b + c && a + b + c + p' == a + p' + b + c;
  }

  /** The same for all chains, when the queue and the report are left alone. */
  lemma {:induction false} OnlyWorkerMoves(s: State, t: State, w: nat, run: bool)
    requires Shaped(s) && Shaped(t) && w < |s.workers| == |t.workers|
    requires t.workers == s.workers[w := t.workers[w]] && t.queue == s.queue && t.reported == s.reported
    ensures OnChains(t, run) + multiset(Part(ChainOf(s.workers[w]), run))
            == OnChains(s, run) + multiset(Part(ChainOf(t.workers[w]), run))
  {
    hide Flat, Parts, Part;
    WorkerMoves(s, t, w, run);
    Rearranged(Flat(Parts(WorkerChains(s), run)), Flat(Parts(WorkerChains(t), run)),
               multiset(Part(ChainOf(s.workers[w]), run)), multiset(Part(ChainOf(t.workers[w]), run)),
               Flat(Parts(s.queue, run)), Flat(Parts(s.reported, run)));
  }

  lemma StartStepNumbers(s: State, step: Step)
    requires Inv(s) && step.StartStep? && Enabled(s, step)
    ensures Numbered(Next(s, step)) && s.created !! StepRequests(step.workload, StepAfter(s, step.workload), Sum(step.shares))
  {
    hide NewLists, Sum, Conserved;
  }

  lemma {:induction false} StartStepConserves(s: State, step: Step)
    requires Inv(s) && step.StartStep? && Enabled(s, step)
    ensures Inv(Next(s, step))
  {
    hide Flat, Parts, Sum, NewLists, Appended, Numbered, StepRequests;
    var s' := Next(s, step);
    var id := StepAfter(s, step.workload);
    StartStepNumbers(s, step);
    FlatAppended(s.lists, NewLists(step.workload, id, step.shares));
    NewListsAreAll(step.workload, id, step.shares);
    assert WorkerChains(s') == WorkerChains(s);
    DisjointUnion(s.created, StepRequests(step.workload, id, Sum(step.shares)));
    var l, f, t, x := Flat(s.lists), OnChains(s, false), OnChains(s, true), multiset(StepRequests(step.workload, id, Sum(step.shares)));
    assert l + x + f + t == l + f + t + x;
  }

  lemma DisjointUnion(a: set<Rq>, b: set<Rq>)
    requires a !! b
    ensures multiset(a + b) == multiset(a) + multiset(b)
  {
  }

  /** A worker takes its whole list as its chain. */
  lemma {:induction false} ListBecomesChain(s: State, s': State, w: nat)
    requires Shaped(s) && Shaped(s') && w < |s.workers| == |s'.workers| && w < |s.lists| && s.workers[w] == Idle
    requires s' == s.(lists := s.lists[w := []], workers := s.workers[w := Running(Chain(s.lists[w], 0))], interrupt := s'.interrupt)
    ensures Flat(s'.lists) + multiset(s.lists[w]) == Flat(s.lists)
    ensures OnChains(s', true) == OnChains(s, true) && OnChains(s', false) == OnChains(s, false) + multiset(s.lists[w])
  {
    hide Flat, Parts, OnChains, Shaped;
    var none: seq<Rq> := [];
    assert multiset(none) == multiset{};
    FlatUpdate(s.lists, w, none);
    assert Flat(s.lists) + multiset{} == Flat(s.lists);
    OnlyWorkerMoves(s, s', w, true);
    OnlyWorkerMoves(s, s', w, false);
    assert Part(Chain(s.lists[w], 0), false) == s.lists[w] && Part(Chain(s.lists[w], 0), true) == none;
    assert Part(Chain(none, 0), false) == Part(Chain(none, 0), true) == none;
    Transferred(OnChains(s, true), OnChains(s', true), multiset{}, multiset{});
    Transferred(OnChains(s, false), OnChains(s', false), multiset{}, multiset(s.lists[w]));
    assert OnChains(s, true) + multiset{} == OnChains(s, true);
  }

  lemma {:induction false} SpliceConserves(s: State, step: Step)
    requires Inv(s) && step.Splice? && Enabled(s, step)
    ensures Inv(Next(s, step))
  {
    hide Flat, Parts, OnChains, Numbered;
    var s', w := Next(s, step), step.w;
    SameNumbers(s, s');
    if s.lists[w] == [] {
      SameChains(s, s');
    } else {
      ListBecomesChain(s, s', w);
      var l, x, f, t := Flat(s'.lists), multiset(s.lists[w]), OnChains(s, false), OnChains(s, true);
      assert l + (f + x) + t == l + x + f + t;
    }
  }

  lemma SameChains(s: State, t: State)
    requires Shaped(s) && Shaped(t) && |s.workers| == |t.workers| && t.queue == s.queue && t.reported == s.reported
    requires forall w :: 0 <= w < |s.workers| ==> ChainOf(s.workers[w]) == ChainOf(t.workers[w])
    ensures OnChains(t, true) == OnChains(s, true) && OnChains(t, false) == OnChains(s, false)
  {
    assert WorkerChains(t) == WorkerChains(s);
  }

  lemma SameNumbers(s: State, t: State)
    requires Numbered(s) && s.created == t.created && s.counts == t.counts && s.latest == t.latest
    ensures Numbered(t)
  {
  }

  /** A chain of which one more request was run. */
  lemma OneRun(c: Chain)
    requires c.done < |c.rqs|
    ensures var d, x := Chain(c.rqs, c.done + 1), multiset{c.rqs[c.done]};
            multiset(Part(d, true)) == multiset(Part(c, true)) + x && multiset(Part(c, false)) == multiset(Part(d, false)) + x
  {
    assert c.rqs[..c.done + 1] == c.rqs[..c.done] + [c.rqs[c.done]];
    assert c.rqs[c.done..] == [c.rqs[c.done]] + c.rqs[c.done + 1..];
  }

  lemma RunConserves(s: State, step: Step)
    requires Inv(s) && step.RunRequest? && Enabled(s, step)
    ensures Inv(Next(s, step))
  {
    hide Flat, Parts, Part, OnChains, Numbered;
    var s', w := Next(s, step), step.w;
    SameNumbers(s, s');
    OnlyWorkerMoves(s, s', w, true);
    OnlyWorkerMoves(s, s', w, false);
    var c := s.workers[w].chain;
    var x := multiset{c.rqs[c.done]};
    var p, q := multiset(Part(c, true)), multiset(Part(ChainOf(s'.workers[w]), false));
    OneRun(c);
    Transferred(OnChains(s, true), OnChains(s', true), p, x);
    Transferred(OnChains(s', false), OnChains(s, false), q, x);
    var l, f, t := Flat(s.lists), OnChains(s', false), OnChains(s, true);
    assert l + f + (t + x) == l + (f + x) + t;
  }

  lemma Transferred(a: multiset<Rq>, b: multiset<Rq>, p: multiset<Rq>, x: multiset<Rq>)
    requires b + p == a + (p + x)
    ensures b == a + x
  {
    forall r ensures b[r] == (a + x)[r] { assert (b + p)[r] == (a + (p + x))[r]; }
  }

  lemma LookConserves(s: State, step: Step)
    requires Inv(s) && step.LookAtState? && Enabled(s, step)
    ensures Inv(Next(s, step))
  {
    hide OnChains, Numbered, Flat;
    SameNumbers(s, Next(s, step));
    SameChains(s, Next(s, step));
  }

  lemma {:induction false} PushConserves(s: State, step: Step)
    requires Inv(s) && step.Push? && Enabled(s, step)
    ensures Inv(Next(s, step))
  {
    hide OnChains, Numbered, Flat;
    SameNumbers(s, Next(s, step));
    PushKeeps(s, step, true);
    PushKeeps(s, step, false);
  }

  lemma {:induction false} PushKeeps(s: State, step: Step, run: bool)
    requires Inv(s) && step.Push? && Enabled(s, step)
    ensures OnChains(Next(s, step), run) == OnChains(s, run)
  {
    hide Flat, Parts, Numbered, Conserved;
    var s', w := Next(s, step), step.w;
    var c := s.workers[w].chain;
    WorkerMoves(s, s', w, run);
    Pushed(s.queue, c, run);
    var p, a, b, r := multiset(Part(c, run)), Flat(Parts(WorkerChains(s'), run)), Flat(Parts(s.queue, run)), Flat(Parts(s.reported, run));
    assert multiset(Part(ChainOf(s'.workers[w]), run)) == multiset{};
    assert a + (b + p) + r == a + p + b + r;
  }

  lemma Pushed(cs: seq<Chain>, c: Chain, run: bool)
    requires c.done <= |c.rqs| && forall d :: d in cs ==> d.done <= |d.rqs|
    ensures Flat(Parts(cs + [c], run)) == Flat(Parts(cs, run)) + multiset(Part(c, run))
  {
    hide Flat;
    FlatPush(Parts(cs, run), Part(c, run));
    assert Parts(cs + [c], run) == Parts(cs, run) + [Part(c, run)];
  }

  lemma Popped(cs: seq<Chain>, run: bool)
    requires cs != [] && forall d :: d in cs ==> d.done <= |d.rqs|
    ensures Flat(Parts(cs, run)) == multiset(Part(cs[0], run)) + Flat(Parts(cs[1..], run))
  {
    hide Flat;
    FlatPop(Parts(cs, run));
    assert Parts(cs, run)[1..] == Parts(cs[1..], run);
  }

  lemma {:induction false} ReportConserves(s: State, step: Step)
    requires Inv(s) && step.Report? && Enabled(s, step)
    ensures Inv(Next(s, step))
  {
    hide OnChains, Numbered, Flat;
    SameNumbers(s, Next(s, step));
    ReportKeeps(s, step, true);
    ReportKeeps(s, step, false);
  }

  lemma {:induction false} ReportKeeps(s: State, step: Step, run: bool)
    requires Inv(s) && step.Report? && Enabled(s, step)
    ensures OnChains(Next(s, step), run) == OnChains(s, run)
  {
    hide Flat, Parts, Part, Numbered, Conserved;
    var s' := Next(s, step);
    Popped(s.queue, run);
    Pushed(s.reported, s.queue[0], run);
    assert WorkerChains(s') == WorkerChains(s);
    var a, p := Flat(Parts(WorkerChains(s), run)), multiset(Part(s.queue[0], run));
    var b, r := Flat(Parts(s'.queue, run)), Flat(Parts(s.reported, run));
    assert a + b + (r + p) == a + (p + b) + r;
  }

  lemma {:induction false} StepKeepsInv(s: State, step: Step)
    requires Inv(s) && Enabled(s, step)
    ensures Inv(Next(s, step))
  {
    hide Inv, Next;
    match step
    case StartStep(_, _) => StartStepConserves(s, step);
    case Interrupt(w) => InterruptConserves(s, step);
    case Splice(_) => SpliceConserves(s, step);
    case RunRequest(_) => RunConserves(s, step);
    case LookAtState(_) => LookConserves(s, step);
    case Push(_) => PushConserves(s, step);
    case Report => ReportConserves(s, step);
  }

  lemma InterruptConserves(s: State, step: Step)
    requires Inv(s) && step.Interrupt? && Enabled(s, step)
    ensures Inv(Next(s, step))
  {
    hide OnChains, Numbered, Flat;
    SameNumbers(s, Next(s, step));
    SameChains(s, Next(s, step));
  }

  // ---- Whole runs

  predicate Run(states: seq<State>, steps: seq<Step>) {
    && |states| == |steps| + 1
    && Initial(states[0])
    && forall k :: 0 <= k < |steps| ==> Enabled(states[k], steps[k]) && states[k + 1] == Next(states[k], steps[k])
  }

  lemma {:induction false} RunKeepsInv(states: seq<State>, steps: seq<Step>, k: nat)
    requires Run(states, steps) && k <= |steps|
    ensures Inv(states[k])
  {
    hide Inv, Next;
    if k == 0 {
      InitialInv(states[0]);
    } else {
      RunKeepsInv(states, steps, k - 1);
      StepKeepsInv(states[k - 1], steps[k - 1]);
    }
  }

  // ---- What that means

  /** In every run and at every moment: each request of a started step is in exactly one place, once; a
      request of no started step is nowhere; and no request is run twice. */
  lemma EachRequestOnce(states: seq<State>, steps: seq<Step>, k: nat, r: Rq)
    requires Run(states, steps) && k <= |steps|
    ensures Shaped(states[k])
    ensures var s := states[k];
            && (Flat(s.lists) + OnChains(s, false) + OnChains(s, true))[r]
               == (if r.step >= 0 && (r.workload, r.step) in s.counts && r.id < s.counts[(r.workload, r.step)] then 1 else 0)
            && s.runs[r] <= 1
            && (r in s.finished <==> s.runs[r] == 1)
  {
    hide OnChains, Flat, Next;
    RunKeepsInv(states, steps, k);
    var s := states[k];
    assert (r in s.created) == (r in multiset(s.created));
  }

  /** A reported chain is divided: the requests before the mark were run and are marked finished, the ones
      behind it, left by an interrupt, were not and are not. */
  lemma ReportedChainDivided(states: seq<State>, steps: seq<Step>, k: nat, i: nat, j: nat)
    requires Run(states, steps) && k <= |steps|
    requires i < |states[k].reported| && j < |states[k].reported[i].rqs|
    ensures states[k].reported[i].rqs[j] in states[k].finished <==> j < states[k].reported[i].done
  {
    hide Flat, Next, Numbered;
    RunKeepsInv(states, steps, k);
    var s := states[k];
    var c := s.reported[i];
    var r := c.rqs[j];
    if j < c.done {
      assert Part(c, true)[j] == r;
      InParts(s.reported, i, true, r);
    } else {
      assert Part(c, false)[j - c.done] == r;
      InParts(s.reported, i, false, r);
      assert multiset(s.created)[r] <= 1;
    }
  }

  lemma InParts(cs: seq<Chain>, i: nat, run: bool, r: Rq)
    requires i < |cs| && (forall c :: c in cs ==> c.done <= |c.rqs|) && r in Part(cs[i], run)
    ensures Flat(Parts(cs, run))[r] > 0
  {
    InFlat(Parts(cs, run), i, r);
  }

  lemma {:induction false} InFlat(ss: seq<seq<Rq>>, i: nat, r: Rq)
    requires i < |ss| && r in ss[i]
    ensures Flat(ss)[r] > 0
  {
    var n := |ss| - 1;
    if i == n {
      assert r in multiset(ss[n]);
    } else {
      InFlat(ss[..n], i, r);
    }
  }

  /** Nothing is lost: once the lists and the queue are empty and the workers idle, the reported chains
      hold every request created, each once. */
  lemma QuiescentAllReported(states: seq<State>, steps: seq<Step>, k: nat)
    requires Run(states, steps) && k <= |steps|
    requires forall t :: 0 <= t < |states[k].lists| ==> states[k].lists[t] == []
    requires forall t :: 0 <= t < |states[k].workers| ==> states[k].workers[t] == Idle
    requires states[k].queue == []
    ensures Shaped(states[k])
    ensures Flat(Parts(states[k].reported, true)) + Flat(Parts(states[k].reported, false)) == multiset(states[k].created)
  {
    hide Next, Numbered;
    RunKeepsInv(states, steps, k);
    var s := states[k];
    FlatOfEmpties(s.lists);
    FlatOfEmpties(Parts(WorkerChains(s), true));
    FlatOfEmpties(Parts(WorkerChains(s), false));
    FlatOfEmpties(Parts(s.queue, true));
    FlatOfEmpties(Parts(s.queue, false));
  }

  // ---- What interrupts a chain

  /** Step i of the run took the chain that worker w has before step k: the whole list of w. */
  ghost predicate Took(states: seq<State>, steps: seq<Step>, i: nat, k: nat, w: nat)
    requires Run(states, steps) && k <= |steps|
  {
    && i < k && steps[i] == Splice(w) && w < |states[k].workers| && w < |states[i].lists|
    && states[k].workers[w] != Idle && states[i].lists[w] != []
    && states[k].workers[w].chain.rqs == states[i].lists[w]
    && forall m :: i < m < k ==> steps[m] != Push(w) && steps[m] != Splice(w)
  }

  /** The same number of workers all along. */
  lemma {:induction false} SameWorkers(states: seq<State>, steps: seq<Step>, k: nat)
    requires Run(states, steps) && k <= |steps|
    ensures |states[k].workers| == |states[k].lists| == |states[k].interrupt| == |states[0].workers|
  {
    if k > 0 {
      SameWorkers(states, steps, k - 1);
      assert Enabled(states[k - 1], steps[k - 1]);
    }
  }

  /** Where a step leaves worker w. */
  function WorkerAfter(s: State, step: Step, w: nat): Worker
    requires Enabled(s, step) && w < |s.workers|
  {
    var v := s.workers[w];
    if step == Splice(w) then (if s.lists[w] == [] then Idle else Running(Chain(s.lists[w], 0)))
    else if step == RunRequest(w) then Ran(Chain(v.chain.rqs, v.chain.done + 1))
    else if step == LookAtState(w) then
      (if s.interrupt[w] || v.chain.done == |v.chain.rqs| then Leaving(v.chain) else Running(v.chain))
    else if step == Push(w) then Idle
    else v
  }

  lemma StepAt(states: seq<State>, steps: seq<Step>, k: nat, w: nat)
    requires Run(states, steps) && k < |steps| && w < |states[0].workers|
    ensures Enabled(states[k], steps[k]) && w < |states[k].workers| && w < |states[k].lists| && w < |states[k].interrupt|
    ensures w < |states[k + 1].workers| && w < |states[k + 1].lists| && w < |states[k + 1].interrupt|
    ensures states[k + 1].workers[w] == WorkerAfter(states[k], steps[k], w)
    ensures states[k + 1].interrupt[w]
            == if steps[k] == Interrupt(w) then true else if steps[k] == Splice(w) then false else states[k].interrupt[w]
    ensures steps[k] == Splice(w) ==> states[k].workers[w] == Idle
    ensures steps[k] == RunRequest(w) ==> states[k].workers[w].Running?
    ensures steps[k] == LookAtState(w) ==> states[k].workers[w].Ran?
    ensures steps[k] == Push(w) ==> states[k].workers[w].Leaving?
  {
    SameWorkers(states, steps, k);
    SameWorkers(states, steps, k + 1);
    assert Enabled(states[k], steps[k]) && states[k + 1] == Next(states[k], steps[k]);
  }

  /** Every worker that is busy has a chain it took, and its flag is set exactly if it was interrupted since. */
  lemma {:induction false} TookChain(states: seq<State>, steps: seq<Step>, k: nat, w: nat) returns (i: nat)
    requires Run(states, steps) && k <= |steps| && w < |states[k].workers| && states[k].workers[w] != Idle
    ensures Took(states, steps, i, k, w)
    ensures w < |states[k].interrupt| && (states[k].interrupt[w] <==> Interrupted(steps, i, k, w))
  {
    hide Next, Enabled, Run;
    SameWorkers(states, steps, k);
    IdleFirst(states, steps, w);
    StepAt(states, steps, k - 1, w);
    if steps[k - 1] == Splice(w) {
      i := k - 1;
    } else {
      i := TookChain(states, steps, k - 1, w);
      if steps[k - 1] == Interrupt(w) { assert i < k - 1 < k; }
    }
  }

  /** There is an interrupt of w between steps i and k. */
  ghost predicate Interrupted(steps: seq<Step>, i: nat, k: nat, w: nat)
    requires k <= |steps|
  {
    exists m :: i < m < k && steps[m] == Interrupt(w)
  }

  lemma IdleFirst(states: seq<State>, steps: seq<Step>, w: nat)
    requires Run(states, steps) && w < |states[0].workers|
    ensures states[0].workers[w] == Idle
  {
  }

  /** A worker that leaves its loop has run its whole chain or was interrupted since it took it. */
  lemma {:induction false} LeavesForAReason(states: seq<State>, steps: seq<Step>, k: nat, w: nat) returns (i: nat)
    requires Run(states, steps) && k <= |steps| && w < |states[k].workers| && states[k].workers[w].Leaving?
    ensures Took(states, steps, i, k, w)
    ensures states[k].workers[w].chain.done == |states[k].workers[w].chain.rqs| || Interrupted(steps, i, k, w)
  {
    hide Next, Enabled, Run;
    SameWorkers(states, steps, k);
    IdleFirst(states, steps, w);
    StepAt(states, steps, k - 1, w);
    i := TookChain(states, steps, k, w);
    if steps[k - 1] != LookAtState(w) {
      var j := LeavesForAReason(states, steps, k - 1, w);
      TookOnce(states, steps, i, j, k, w);
    }
  }

  lemma TookOnce(states: seq<State>, steps: seq<Step>, i: nat, j: nat, k: nat, w: nat)
    requires Run(states, steps) && 0 < k <= |steps| && Took(states, steps, i, k, w) && Took(states, steps, j, k - 1, w)
    requires steps[k - 1] != Splice(w)
    ensures i == j && (Interrupted(steps, j, k - 1, w) ==> Interrupted(steps, i, k, w))
  {
    hide Next, Enabled, Run;
  }

  /** In every run: a chain pushed with requests that were not run was interrupted between the step that took it and
      its push. */
  lemma RestLeftByInterrupt(states: seq<State>, steps: seq<Step>, k: nat, w: nat) returns (i: nat)
    requires Run(states, steps) && k < |steps| && steps[k] == Push(w)
    ensures w < |states[k].workers| && states[k].workers[w] != Idle && Took(states, steps, i, k, w)
    ensures states[k + 1].queue == states[k].queue + [states[k].workers[w].chain]
    ensures states[k].workers[w].chain.done < |states[k].workers[w].chain.rqs| ==> Interrupted(steps, i, k, w)
  {
    assert Enabled(states[k], steps[k]) && states[k + 1] == Next(states[k], steps[k]);
    i := LeavesForAReason(states, steps, k, w);
    RunKeepsInv(states, steps, k);
  }

  /** How much of its chain an interrupted worker will have run when it leaves: at most the request it is about to run
      is still run. */
  function RunToEnd(w: Worker): nat {
    match w
    case Idle => 0
    case Running(c) => c.done + 1
    case Ran(c) => c.done
    case Leaving(c) => c.done
  }

  /** After an interrupt at step m nothing of the chain is run but the request that was about to be. */
  lemma {:induction false} InterruptStops(states: seq<State>, steps: seq<Step>, m: nat, k: nat, w: nat)
    requires Run(states, steps) && m < k <= |steps| && steps[m] == Interrupt(w)
    requires w < |states[m].workers| && states[m].workers[w] != Idle
    requires forall j :: m < j < k ==> steps[j] != Push(w)
    ensures w < |states[k].workers| && states[k].workers[w] != Idle
    ensures states[k].workers[w].chain.rqs == states[m].workers[w].chain.rqs
    ensures RunToEnd(states[k].workers[w]) == RunToEnd(states[m].workers[w])
    ensures w < |states[k].interrupt| && states[k].interrupt[w]
  {
    hide Next, Enabled, Run;
    SameWorkers(states, steps, m);
    StepAt(states, steps, k - 1, w);
    if m < k - 1 {
      InterruptStops(states, steps, m, k - 1, w);
    }
  }

  /** Everything pushed so far, in order. */
  function Pushes(states: seq<State>, steps: seq<Step>, k: nat): seq<Chain>
    requires Run(states, steps) && k <= |steps|
  {
    if k == 0 then []
    else
      var before := Pushes(states, steps, k - 1);
      if steps[k - 1].Push? then before + [states[k - 1].workers[steps[k - 1].w].chain] else before
  }

  /** What is reported is what was pushed, in order; the rest of it is queued. */
  lemma {:induction false} ReportedInOrder(states: seq<State>, steps: seq<Step>, k: nat)
    requires Run(states, steps) && k <= |steps|
    ensures states[k].reported + states[k].queue == Pushes(states, steps, k)
  {
    if k > 0 {
      ReportedInOrder(states, steps, k - 1);
      QueuesAfter(states[k - 1], steps[k - 1]);
    }
  }

  lemma QueuesAfter(s: State, step: Step)
    requires Enabled(s, step)
    ensures var t := Next(s, step);
            t.reported + t.queue == s.reported + s.queue + if step.Push? then [s.workers[step.w].chain] else []
  {
    var t := Next(s, step);
    if step == Report {
      assert s.reported + [s.queue[0]] + s.queue[1..] == s.reported + s.queue;
    }
  }

  ghost predicate AllRun(cs: seq<Chain>) {
    forall c :: c in cs ==> c.done == |c.rqs|
  }

  /** In a run without interrupts every chain that was pushed has been run to its end. */
  lemma {:induction false} NoInterruptNoRest(states: seq<State>, steps: seq<Step>, k: nat)
    requires Run(states, steps) && k <= |steps| && forall m :: 0 <= m < |steps| ==> !steps[m].Interrupt?
    ensures AllRun(states[k].queue) && AllRun(states[k].reported)
  {
    hide Next, Enabled;
    PushesRun(states, steps, k);
    ReportedInOrder(states, steps, k);
    AllRunParts(states[k].reported, states[k].queue);
  }

  lemma AllRunParts(a: seq<Chain>, b: seq<Chain>)
    ensures AllRun(a + b) <==> AllRun(a) && AllRun(b)
  {
    assert forall c :: c in a + b <==> c in a || c in b;
  }

  lemma {:induction false} PushesRun(states: seq<State>, steps: seq<Step>, k: nat)
    requires Run(states, steps) && k <= |steps| && forall m :: 0 <= m < |steps| ==> !steps[m].Interrupt?
    ensures AllRun(Pushes(states, steps, k))
  {
    hide Next, Enabled, AllRun, Took;
    if k == 0 {
      NonePushed();
    } else {
      PushesRun(states, steps, k - 1);
      if steps[k - 1].Push? {
        var w := steps[k - 1].w;
        var i := RestLeftByInterrupt(states, steps, k - 1, w);
        DoneInRun(states, steps, k - 1, w);
        OneRunChain(states[k - 1].workers[w].chain);
        AllRunParts(Pushes(states, steps, k - 1), [states[k - 1].workers[w].chain]);
      }
    }
  }

  lemma NonePushed()
    ensures AllRun([])
  {
  }

  lemma OneRunChain(c: Chain)
    requires c.done == |c.rqs|
    ensures AllRun([c])
  {
  }

  lemma DoneInRun(states: seq<State>, steps: seq<Step>, k: nat, w: nat)
    requires Run(states, steps) && k <= |steps| && w < |states[k].workers| && states[k].workers[w] != Idle
    ensures states[k].workers[w].chain.done <= |states[k].workers[w].chain.rqs|
  {
    hide Next;
    RunKeepsInv(states, steps, k);
    assert ChainOf(states[k].workers[w]) == states[k].workers[w].chain;
  }

  /** So once everything is quiet exactly the requests created are finished. */
  lemma QuiescentAllFinished(states: seq<State>, steps: seq<Step>, k: nat)
    requires Run(states, steps) && k <= |steps| && forall m :: 0 <= m < |steps| ==> !steps[m].Interrupt?
    requires forall t :: 0 <= t < |states[k].lists| ==> states[k].lists[t] == []
    requires forall t :: 0 <= t < |states[k].workers| ==> states[k].workers[t] == Idle
    requires states[k].queue == []
    ensures states[k].finished == states[k].created
  {
    hide Next, Numbered, Flat;
    RunKeepsInv(states, steps, k);
    QuiescentAllReported(states, steps, k);
    NoInterruptNoRest(states, steps, k);
    var s := states[k];
    FlatOfEmpties(Parts(s.reported, false));
    FlatOfEmpties(Parts(WorkerChains(s), true));
    FlatOfEmpties(Parts(s.queue, true));
    assert s.runs == multiset(s.created);
    forall r ensures r in s.finished <==> r in s.created { assert r in multiset(s.created) <==> r in s.created; }
  }

  // ---- Steps of a workload, and a worker's turn

  /** How many steps of the workload were started. */
  function Started(steps: seq<Step>, k: nat, workload: nat): nat
    requires k <= |steps|
  {
    if k == 0 then 0
    else Started(steps, k - 1, workload) + if steps[k - 1].StartStep? && steps[k - 1].workload == workload then 1 else 0
  }

  /** The steps of a workload are numbered 0, 1, 2 and so on. */
  lemma {:induction false} StepsInOrder(states: seq<State>, steps: seq<Step>, k: nat, workload: nat)
    requires Run(states, steps) && k <= |steps|
    ensures workload in states[k].latest <==> Started(steps, k, workload) > 0
    ensures workload in states[k].latest ==> states[k].latest[workload] == Started(steps, k, workload) - 1
  {
    hide Next, Enabled;
    if k > 0 {
      StepsInOrder(states, steps, k - 1, workload);
      LatestAfter(states[k - 1], steps[k - 1]);
    }
  }

  lemma LatestAfter(s: State, step: Step)
    requires Enabled(s, step)
    ensures Next(s, step).latest
            == if step.StartStep? then s.latest[step.workload := StepAfter(s, step.workload)] else s.latest
  {
    hide Sum;
  }

  lemma CountsAfter(s: State, step: Step)
    requires Enabled(s, step)
    ensures Next(s, step).counts
            == if step.StartStep? then s.counts[(step.workload, StepAfter(s, step.workload)) := Sum(step.shares)] else s.counts
  {
    hide Sum;
  }

  /** The n-th step of a workload has as many requests as the workers' shares of it together, at every later moment. */
  lemma {:induction false} StepRecorded(states: seq<State>, steps: seq<Step>, m: nat, k: nat)
    requires Run(states, steps) && m < k <= |steps| && steps[m].StartStep?
    ensures var id := (steps[m].workload, Started(steps, m, steps[m].workload));
            id in states[k].counts && states[k].counts[id] == Sum(steps[m].shares)
  {
    hide Next, Enabled, Sum;
    var wl := steps[m].workload;
    CountsAfter(states[k - 1], steps[k - 1]);
    StepsInOrder(states, steps, k - 1, wl);
    if m < k - 1 {
      StepRecorded(states, steps, m, k - 1);
      StartedGrows(steps, m + 1, k - 1, wl);
    }
  }

  lemma {:induction false} StartedGrows(steps: seq<Step>, a: nat, b: nat, workload: nat)
    requires a <= b <= |steps|
    ensures Started(steps, a, workload) <= Started(steps, b, workload)
  {
    if a < b { StartedGrows(steps, a, b - 1, workload); }
  }

  /** Worker w runs n requests of its chain, with nobody interrupting it. */
  function Rounds(s: State, w: nat, n: nat): (t: State)
    requires Shaped(s) && w < |s.workers| && s.workers[w].Running? && !s.interrupt[w]
    requires var c := s.workers[w].chain; 0 < n <= |c.rqs| - c.done
    ensures Shaped(t) && |t.workers| == |s.workers| && t.workers[w] == AfterRounds(s.workers[w].chain, n)
    ensures t.interrupt == s.interrupt && t.lists == s.lists && t.queue == s.queue && t.reported == s.reported
    decreases n
  {
    hide Shaped;
    if n == 1 then OneRound(s, w) else Rounds(OneRound(s, w), w, n - 1)
  }

  function AfterRounds(c: Chain, n: nat): Worker {
    if c.done + n == |c.rqs| then Leaving(Chain(c.rqs, c.done + n)) else Running(Chain(c.rqs, c.done + n))
  }

  /** They are run once each. */
  lemma {:induction false} RoundsRun(s: State, w: nat, n: nat)
    requires Shaped(s) && w < |s.workers| && s.workers[w].Running? && !s.interrupt[w]
    requires var c := s.workers[w].chain; 0 < n <= |c.rqs| - c.done
    ensures Rounds(s, w, n).runs == s.runs + Slice(s.workers[w].chain, n)
    decreases n
  {
    hide Shaped, Slice, OneRound;
    var c, t := s.workers[w].chain, OneRound(s, w);
    SliceFront(c, n);
    if n > 1 {
      RoundsRun(t, w, n - 1);
      AddedInTurn(s.runs, multiset{c.rqs[c.done]}, Slice(Chain(c.rqs, c.done + 1), n - 1));
    }
  }

  lemma AddedInTurn(a: multiset<Rq>, b: multiset<Rq>, c: multiset<Rq>)
    ensures a + b + c == a + (b + c)
  {
  }

  /** No other worker is touched. */
  lemma {:induction false} OthersStay(s: State, w: nat, n: nat)
    requires Shaped(s) && w < |s.workers| && s.workers[w].Running? && !s.interrupt[w]
    requires var c := s.workers[w].chain; 0 < n <= |c.rqs| - c.done
    ensures forall v :: 0 <= v < |s.workers| && v != w ==> Rounds(s, w, n).workers[v] == s.workers[v]
    decreases n
  {
    hide Shaped, OneRound;
    if n > 1 { OthersStay(OneRound(s, w), w, n - 1); }
  }

  /** The next n requests of a chain. */
  function Slice(c: Chain, n: nat): multiset<Rq>
    requires c.done + n <= |c.rqs|
  {
    multiset(c.rqs[c.done..c.done + n])
  }

  lemma SliceFront(c: Chain, n: nat)
    requires c.done + n <= |c.rqs| && n > 0
    ensures Slice(c, n) == multiset{c.rqs[c.done]} + Slice(Chain(c.rqs, c.done + 1), n - 1)
    ensures n == 1 ==> Slice(c, n) == multiset{c.rqs[c.done]}
  {
    RunsAdd(c.rqs, c.done, n);
    if n == 1 { assert c.rqs[c.done + 1..c.done + 1] == []; }
  }

  lemma RunsAdd(rqs: seq<Rq>, a: nat, n: nat)
    requires a + n <= |rqs| && n > 0
    ensures multiset(rqs[a..a + n]) == multiset{rqs[a]} + multiset(rqs[a + 1..a + n])
  {
    assert rqs[a..a + n] == [rqs[a]] + rqs[a + 1..a + n];
  }

  function OneRound(s: State, w: nat): (t: State)
    requires Shaped(s) && w < |s.workers| && s.workers[w].Running? && !s.interrupt[w]
    ensures Shaped(t) && |t.workers| == |s.workers|
    ensures var c := s.workers[w].chain;
            && c.done < |c.rqs| && t.workers == s.workers[w := AfterRounds(c, 1)]
            && t.interrupt == s.interrupt && t.lists == s.lists && t.queue == s.queue && t.reported == s.reported
            && t.runs == s.runs + multiset{c.rqs[c.done]}
  {
    Next(Next(s, RunRequest(w)), LookAtState(w))
  }

  /** A worker's turn as a whole, if nobody interrupts it: each request of its list is run once, and the list is pushed
      as a chain. */
  lemma WholeTurn(s: State, w: nat)
    requires Shaped(s) && w < |s.workers| && s.workers[w] == Idle && s.lists[w] != []
    ensures Enabled(s, Splice(w)) && Next(s, Splice(w)).workers[w] == Running(Chain(s.lists[w], 0))
    ensures var r := Rounds(Next(s, Splice(w)), w, |s.lists[w]|);
            && Enabled(r, Push(w))
            && var t := Next(r, Push(w));
               && t.workers == s.workers && t.lists == s.lists[w := []]
               && t.queue == s.queue + [Chain(s.lists[w], |s.lists[w]|)]
               && t.runs == s.runs + multiset(s.lists[w])
  {
    hide Rounds;
    var q := s.lists[w];
    var r := Rounds(Next(s, Splice(w)), w, |q|);
    RoundsRun(Next(s, Splice(w)), w, |q|);
    OthersStay(Next(s, Splice(w)), w, |q|);
    assert q[0..|q|] == q;
    assert Next(r, Push(w)).workers == s.workers;
  }
}
