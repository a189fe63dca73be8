/** Requests on their way from the control thread through the workers to the report queue. */
module Requests {
  import opened StepRing
  import opened Shares

  /** request_t by what identifies it; rq_thread_id is the index of the worker it is given to. */
  datatype Rq = Rq(workload: nat, step: int, id: nat)

  function NewRequests(workload: nat, step: int, first: nat, count: nat): seq<Rq> {
    seq(count, i requires 0 <= i < count => Rq(workload, step, first + i))
  }

  /** What each worker gets of a step. */
  function NewLists(workload: nat, step: int, shares: seq<nat>): (r: seq<seq<Rq>>)
    ensures |r| == |shares|
  {
    seq(|shares|, t requires 0 <= t < |shares| => NewRequests(workload, step, Sum(shares[..t]), shares[t]))
  }

  function Appended(lists: seq<seq<Rq>>, more: seq<seq<Rq>>): (r: seq<seq<Rq>>)
    requires |lists| == |more|
    ensures |r| == |lists|
  {
    seq(|lists|, t requires 0 <= t < |lists| => lists[t] + more[t])
  }

  class ThreadPool {
    const workers: array<seq<Rq>>  // w_requests of each worker

    constructor (numThreads: nat)
      requires numThreads > 0
      ensures fresh(workers) && workers.Length == numThreads
      ensures forall t :: 0 <= t < numThreads ==> workers[t] == []
    {
      workers := new seq<Rq>[numThreads](_ => []);
    }

    /** wl_create_request. */
    method CreateRequest(wl: Workload, name: nat) returns (rq: Rq)
      requires wl.currentRq >= 0
      modifies wl`currentRq
      ensures rq == Rq(name, wl.currentStep, old(wl.currentRq))
      ensures wl.currentRq == old(wl.currentRq) + 1
    {
      rq := Rq(name, wl.currentStep, wl.currentRq);
      wl.currentRq := wl.currentRq + 1;
    }

    /** tp_distribute_requests, after wl_advance_step has set the step and cleared the request counter. The
        extra requests are attached in this many rounds. */
    method DistributeRequests(wl: Workload, name: nat, rqCount: nat, g: Random, ghost rounds: nat)
      requires workers.Length > 0 && wl.currentRq == 0 && Attached(g, rounds) == rqCount % workers.Length
      modifies wl`currentRq, workers
      ensures var shares := Share(g, rqCount / workers.Length, rounds, workers.Length);
              && Sum(shares) == rqCount
              && workers[..] == Appended(old(workers[..]), NewLists(name, wl.currentStep, shares))
      ensures wl.currentRq == rqCount
    {
      hide Share, Sum, Attached;
      var n := workers.Length;
      var perWorker, extra := rqCount / n, rqCount % n;
      ghost var shares := Share(g, perWorker, rounds, n);
      ghost var news := NewLists(name, wl.currentStep, shares);
      SharesAddUp(g, rqCount, n, rounds);
      SumTo(shares, n);
      if rqCount == 0 {
        NoneLeft(shares);
        assert forall t :: 0 <= t < n ==> news[t] == [] && workers[t] + news[t] == workers[t];
        return;
      }
      var numRqs := new nat[n];
      Shares.DistributeRequests(perWorker, extra, numRqs, g, rounds);
      assert numRqs[..] == shares;
      SumTo(shares, 0);
      for tid := 0 to n
        invariant wl.currentStep == old(wl.currentStep)
        invariant wl.currentRq == Sum(shares[..tid])
        invariant forall t :: tid <= t < n ==> numRqs[t] == shares[t] && workers[t] == old(workers[t])
        invariant forall t :: 0 <= t < tid ==> workers[t] == old(workers[t]) + news[t]
      {
        SumTo(shares, tid);
        ghost var first := wl.currentRq;
        while numRqs[tid] > 0
          invariant wl.currentStep == old(wl.currentStep)
          invariant numRqs[tid] <= shares[tid]
          invariant wl.currentRq == first + shares[tid] - numRqs[tid]
          invariant workers[tid] == old(workers[tid]) + NewRequests(name, wl.currentStep, first, shares[tid] - numRqs[tid])
          invariant forall t :: tid < t < n ==> numRqs[t] == shares[t] && workers[t] == old(workers[t])
          invariant forall t :: 0 <= t < tid ==> workers[t] == old(workers[t]) + news[t]
          decreases numRqs[tid]
        {
          ghost var k: nat := shares[tid] - numRqs[tid];
          var rq := CreateRequest(wl, name);
          workers[tid] := workers[tid] + [rq];
          numRqs[tid] := numRqs[tid] - 1;
          assert NewRequests(name, wl.currentStep, first, k + 1) == NewRequests(name, wl.currentStep, first, k) + [rq];
        }
      }
    }
  }

  lemma SumTo(s: seq<nat>, t: nat)
    requires t <= |s|
    ensures t == 0 ==> Sum(s[..t]) == 0
    ensures t < |s| ==> Sum(s[..t + 1]) == Sum(s[..t]) + s[t]
    ensures t == |s| ==> s[..t] == s
  {
    if t < |s| { assert s[..t + 1][..t] == s[..t]; }
  }

  lemma {:induction false} NoneLeft(shares: seq<nat>)
    requires Sum(shares) == 0
    ensures forall t :: 0 <= t < |shares| ==> shares[t] == 0
  {
    if shares != [] { NoneLeft(shares[..|shares| - 1]); }
  }

  // ---- All lists together

  function Flat(ss: seq<seq<Rq>>): multiset<Rq> {
    if ss == [] then multiset{} else Flat(ss[..|ss| - 1]) + multiset(ss[|ss| - 1])
  }

  lemma FlatPush(ss: seq<seq<Rq>>, x: seq<Rq>)
    ensures Flat(ss + [x]) == Flat(ss) + multiset(x)
  {
    assert (ss + [x])[..|ss|] == ss;
  }

  lemma FlatLast(ss: seq<seq<Rq>>)
    ensures ss == [] ==> Flat(ss) == multiset{}
    ensures ss != [] ==> Flat(ss) == Flat(ss[..|ss| - 1]) + multiset(ss[|ss| - 1])
  {
  }

  lemma {:induction false} FlatPop(ss: seq<seq<Rq>>)
    requires ss != []
    ensures Flat(ss) == multiset(ss[0]) + Flat(ss[1..])
  {
    hide Flat;
    var n, rest := |ss| - 1, ss[1..];
    FlatLast(ss);
    FlatLast(rest);
    if n == 0 {
      FlatLast(ss[..0]);
      assert multiset{} + multiset(ss[0]) == multiset(ss[0]) + multiset{};
    } else {
      FlatPop(ss[..n]);
      assert rest[n - 1] == ss[n] && ss[..n][1..] == rest[..n - 1];
      Associate(multiset(ss[0]), Flat(rest[..n - 1]), multiset(ss[n]));
    }
  }

  lemma Associate(a: multiset<Rq>, b: multiset<Rq>, c: multiset<Rq>)
    ensures a + b + c == a + (b + c) == a + c + b
  {
  }

  lemma {:induction false} FlatUpdate(ss: seq<seq<Rq>>, i: nat, x: seq<Rq>)
    requires i < |ss|
    ensures Flat(ss[i := x]) + multiset(ss[i]) == Flat(ss) + multiset(x)
  {
    hide Flat;
    var n := |ss| - 1;
    FlatLast(ss);
    FlatLast(ss[i := x]);
    if i == n {
      assert ss[i := x][..n] == ss[..n];
      Associate(Flat(ss[..n]), multiset(x), multiset(ss[n]));
    } else {
      assert ss[i := x][..n] == ss[..n][i := x] && ss[..n][i] == ss[i];
      FlatUpdate(ss[..n], i, x);
      Associate(Flat(ss[..n][i := x]), multiset(ss[n]), multiset(ss[i]));
      Associate(Flat(ss[..n]), multiset(ss[n]), multiset(x));
    }
  }

  lemma {:induction false} FlatAppended(a: seq<seq<Rq>>, b: seq<seq<Rq>>)
    requires |a| == |b|
    ensures Flat(Appended(a, b)) == Flat(a) + Flat(b)
  {
    if a != [] {
      var n := |a| - 1;
      FlatAppended(a[..n], b[..n]);
      assert Appended(a, b)[..n] == Appended(a[..n], b[..n]);
      assert multiset(a[n] + b[n]) == multiset(a[n]) + multiset(b[n]);
    }
  }

  /** The requests of a step with n of them. */
  function StepRequests(workload: nat, step: int, n: nat): set<Rq> {
    set id | 0 <= id < n :: Rq(workload, step, id)
  }

  lemma {:induction false} NewAreAll(workload: nat, step: int, n: nat)
    ensures multiset(NewRequests(workload, step, 0, n)) == multiset(StepRequests(workload, step, n))
  {
    if n > 0 {
      NewAreAll(workload, step, n - 1);
      var last := Rq(workload, step, n - 1);
      assert NewRequests(workload, step, 0, n) == NewRequests(workload, step, 0, n - 1) + [last];
      assert StepRequests(workload, step, n) == StepRequests(workload, step, n - 1) + {last};
    }
  }

  /** The lists the workers get hold the ids 0 to Sum(shares) - 1, each exactly once. */
  lemma {:induction false} NewListsAreAll(workload: nat, step: int, shares: seq<nat>)
    ensures Flat(NewLists(workload, step, shares)) == multiset(StepRequests(workload, step, Sum(shares)))
    decreases |shares|
  {
    NewAreAll(workload, step, Sum(shares));
    NewListsAreSeq(workload, step, shares);
  }

  lemma {:induction false} NewListsAreSeq(workload: nat, step: int, shares: seq<nat>)
    ensures Flat(NewLists(workload, step, shares)) == multiset(NewRequests(workload, step, 0, Sum(shares)))
    decreases |shares|
  {
    hide Flat, NewLists, NewRequests;
    if shares == [] {
      NoLists(workload, step);
    } else {
      var n := |shares| - 1;
      var init := shares[..n];
      NewListsAreSeq(workload, step, init);
      FrontLists(workload, step, shares);
      SplitRequests(workload, step, Sum(init), shares[n]);
      SumTo(shares, n);
    }
  }

  lemma NoLists(workload: nat, step: int)
    ensures Flat(NewLists(workload, step, [])) == multiset(NewRequests(workload, step, 0, 0)) == multiset{}
  {
  }

  lemma FrontLists(workload: nat, step: int, shares: seq<nat>)
    requires shares != []
    ensures var n := |shares| - 1;
            Flat(NewLists(workload, step, shares))
            == Flat(NewLists(workload, step, shares[..n])) + multiset(NewRequests(workload, step, Sum(shares[..n]), shares[n]))
  {
    hide Sum;
    var n := |shares| - 1;
    assert forall t :: 0 <= t < n ==> shares[..n][..t] == shares[..t];
    assert NewLists(workload, step, shares)[..n] == NewLists(workload, step, shares[..n]);
  }

  lemma SplitRequests(workload: nat, step: int, a: nat, b: nat)
    ensures multiset(NewRequests(workload, step, 0, a + b))
            == multiset(NewRequests(workload, step, 0, a)) + multiset(NewRequests(workload, step, a, b))
  {
    assert NewRequests(workload, step, 0, a + b) == NewRequests(workload, step, 0, a) + NewRequests(workload, step, a, b);
  }
}
