/** Every arrival order of a parallel merge is possible, and exactly when it makes a difference. */
module ArrivalOrders {
  import opened Wrappers
  import opened MergeSpec
  import opened WorkerPool
  import opened ParallelMerge

  /** Every unfiltered backend once, in some order. */
  ghost predicate IsArrival(skip: seq<bool>, order: seq<nat>) {
    && |order| == Unfiltered(skip)
    && (forall i, j :: 0 <= i < j < |order| ==> order[i] != order[j])
    && (forall i :: 0 <= i < |order| ==> order[i] < |skip| && !skip[order[i]])
  }

  // ----- building a run

  lemma Extend(skip: seq<bool>, backends: seq<CallResult>, steps: seq<Step>, s: Step)
    requires IsRun(skip, steps) && Undisturbed(backends, steps)
    requires Possible(skip, End(skip, steps), s) && UndisturbedStep(backends, s)
    ensures IsRun(skip, steps + [s]) && Undisturbed(backends, steps + [s])
    ensures End(skip, steps + [s]) == ParallelMerge.After(skip, End(skip, steps), s)
  {
    assert (steps + [s])[..|steps|] == steps;
  }

  function SpawnedWorker(skip: seq<bool>, j: nat, i: nat): Worker
    requires i < |skip|
  {
    if i >= j then Waiting else if skip[i] then Skipped else Calling
  }

  function SpawnedWorkers(skip: seq<bool>, j: nat): (ws: seq<Worker>)
    ensures |ws| == |skip|
  {
    seq(|skip|, i requires 0 <= i < |skip| => SpawnedWorker(skip, j, i))
  }

  lemma NoSteps(skip: seq<bool>, backends: seq<CallResult>)
    ensures IsRun(skip, []) && Undisturbed(backends, [])
    ensures End(skip, []) == State(Spawning(0), Pool(SpawnedWorkers(skip, 0), [], [], [], false), |skip| + Unfiltered(skip[..0]))
  {
    assert Fresh(|skip|).workers == SpawnedWorkers(skip, 0);
  }

  lemma {:induction false} AllSpawned(skip: seq<bool>, backends: seq<CallResult>, j: nat) returns (steps: seq<Step>)
    requires j <= |skip|
    ensures IsRun(skip, steps) && Undisturbed(backends, steps)
    ensures End(skip, steps)
            == State(Spawning(j), Pool(SpawnedWorkers(skip, j), [], [], [], false), |skip| - j + Unfiltered(skip[..j]))
    decreases j
  {
    hide IsRun, End, Undisturbed;
    if j == 0 {
      steps := [];
      NoSteps(skip, backends);
    } else {
      steps := AllSpawned(skip, backends, j - 1);
      Extend(skip, backends, steps, Spawn);
      steps := steps + [Spawn];
      assert SpawnedWorkers(skip, j) == SpawnedWorkers(skip, j - 1)[j - 1 := if skip[j - 1] then Skipped else Calling];
      assert skip[..j][..j - 1] == skip[..j - 1];
    }
  }

  function ArrivedWorker(skip: seq<bool>, backends: seq<CallResult>, done: seq<nat>, i: nat): Worker
    requires i < |skip| == |backends|
  {
    if skip[i] then Skipped else if i in done then Finished(OutcomeOf(backends[i])) else Calling
  }

  function ArrivedWorkers(skip: seq<bool>, backends: seq<CallResult>, done: seq<nat>): (ws: seq<Worker>)
    requires |skip| == |backends|
    ensures |ws| == |skip|
  {
    seq(|skip|, i requires 0 <= i < |skip| => ArrivedWorker(skip, backends, done, i))
  }

  function Messages(backends: seq<CallResult>, done: seq<nat>): (ms: seq<Msg>)
    requires forall i :: 0 <= i < |done| ==> done[i] < |backends|
    ensures |ms| == |done|
  {
    seq(|done|, i requires 0 <= i < |done| => Msg(done[i], OutcomeOf(backends[done[i]])))
  }

  ghost predicate Within(skip: seq<bool>, backends: seq<CallResult>, order: seq<nat>) {
    IsArrival(skip, order) && |backends| == |skip|
  }

  /** The collector has taken the outcomes of the first k arrivals; nothing else has been sent. */
  ghost function Arrived(skip: seq<bool>, backends: seq<CallResult>, order: seq<nat>, k: nat): State
    requires Within(skip, backends, order) && k <= |order|
  {
    var done := order[..k];
    State(Collecting, Pool(ArrivedWorkers(skip, backends, done), [], [], Messages(backends, done), false), Unfiltered(skip))
  }

  function SentPool(p: Pool, i: nat, o: Outcome): Pool
    requires i < |p.workers|
  {
    var ws := p.workers[i := Finished(o)];
    if o.Replied? then p.(workers := ws, results := p.results + [Msg(i, o)])
    else p.(workers := ws, failed := p.failed + [Msg(i, o)])
  }

  /** The call of backend i returns, and its outcome is sent. */
  lemma CallAndSend(skip: seq<bool>, backends: seq<CallResult>, steps: seq<Step>, i: nat) returns (more: seq<Step>)
    requires IsRun(skip, steps) && Undisturbed(backends, steps)
    requires var p := End(skip, steps).pool;
             i < |p.workers| == |backends| && p.workers[i] == Calling && p.results == [] && p.failed == []
    ensures IsRun(skip, more) && Undisturbed(backends, more)
    ensures var st := End(skip, steps); End(skip, more) == st.(pool := SentPool(st.pool, i, OutcomeOf(backends[i])))
  {
    hide IsRun, End, Undisturbed;
    var st, o := End(skip, steps), OutcomeOf(backends[i]);
    var call, send := Other(Return(i, backends[i])), Other(if o.Replied? then SendReply(i) else SendError(i));
    Extend(skip, backends, steps, call);
    more := steps + [call];
    Extend(skip, backends, more, send);
    more := more + [send];
    assert st.pool.workers[i := AfterCall(backends[i])][i := Finished(o)] == st.pool.workers[i := Finished(o)];
  }

  /** The next outcome arrives: the collector takes it as soon as it has been sent. */
  lemma OneArrival(skip: seq<bool>, backends: seq<CallResult>, order: seq<nat>, k: nat, steps: seq<Step>)
    returns (more: seq<Step>)
    requires Within(skip, backends, order) && k < |order|
    requires IsRun(skip, steps) && Undisturbed(backends, steps) && End(skip, steps) == Arrived(skip, backends, order, k)
    ensures IsRun(skip, more) && Undisturbed(backends, more)
    ensures End(skip, more) == Arrived(skip, backends, order, k + 1)
  {
    hide IsRun, End, Undisturbed, OutcomeOf;
    var i := order[k];
    var o := OutcomeOf(backends[i]);
    assert i !in order[..k];
    more := CallAndSend(skip, backends, steps, i);
    Extend(skip, backends, more, Receive(o.Replied?));
    more := more + [Receive(o.Replied?)];
    ArrivedNext(skip, backends, order, k);
    assert [] + [Msg(i, o)] == [Msg(i, o)] && [Msg(i, o)][1..] == [];
  }

  lemma ArrivedNext(skip: seq<bool>, backends: seq<CallResult>, order: seq<nat>, k: nat)
    requires Within(skip, backends, order) && k < |order|
    ensures var i := order[k];
            var o := OutcomeOf(backends[i]);
            && ArrivedWorkers(skip, backends, order[..k + 1]) == ArrivedWorkers(skip, backends, order[..k])[i := Finished(o)]
            && Messages(backends, order[..k + 1]) == Messages(backends, order[..k]) + [Msg(i, o)]
  {
    assert order[..k + 1] == order[..k] + [order[k]];
  }

  lemma {:induction false} AllArrived(skip: seq<bool>, backends: seq<CallResult>, order: seq<nat>, k: nat)
    returns (steps: seq<Step>)
    requires Within(skip, backends, order) && k <= |order|
    ensures IsRun(skip, steps) && Undisturbed(backends, steps) && End(skip, steps) == Arrived(skip, backends, order, k)
    decreases k
  {
    if k == 0 {
      steps := AllSpawned(skip, backends, |skip|);
      Extend(skip, backends, steps, StartCollecting);
      steps := steps + [StartCollecting];
      assert skip[..|skip|] == skip;
      assert SpawnedWorkers(skip, |skip|) == ArrivedWorkers(skip, backends, order[..0]);
    } else {
      steps := AllArrived(skip, backends, order, k - 1);
      steps := OneArrival(skip, backends, order, k - 1, steps);
    }
  }

  function OutcomesIn(backends: seq<CallResult>, order: seq<nat>): (os: seq<Outcome>)
    requires forall i :: 0 <= i < |order| ==> order[i] < |backends|
    ensures |os| == |order|
  {
    seq(|order|, i requires 0 <= i < |order| => OutcomeOf(backends[order[i]]))
  }

  /** Every arrival order of the unfiltered backends is that of an undisturbed run that returns. */
  lemma EveryOrderHappens(skip: seq<bool>, backends: seq<CallResult>, order: seq<nat>) returns (steps: seq<Step>)
    requires IsArrival(skip, order) && |backends| == |skip|
    ensures IsRun(skip, steps) && Undisturbed(backends, steps) && End(skip, steps).main.Returned?
    ensures Outcomes(End(skip, steps).pool.taken) == OutcomesIn(backends, order)
    ensures var acc := Collect(Unfiltered(skip), OutcomesIn(backends, order));
            End(skip, steps).main == Returned(Result(acc), acc.errs)
  {
    steps := AllArrived(skip, backends, order, |order|);
    assert order[..|order|] == order;
    Extend(skip, backends, steps, Finish);
    steps := steps + [Finish];
    assert Outcomes(Messages(backends, order)) == OutcomesIn(backends, order);
  }

  // ----- when the order makes a difference

  function Listing(skip: seq<bool>): seq<nat> {
    if skip == [] then [] else Listing(skip[..|skip| - 1]) + if skip[|skip| - 1] then [] else [|skip| - 1]
  }

  lemma {:induction false} ListingShape(skip: seq<bool>)
    ensures IsArrival(skip, Listing(skip))
    decreases |skip|
  {
    if skip != [] {
      var init := skip[..|skip| - 1];
      ListingShape(init);
      forall k | 0 <= k < |Listing(init)| ensures !skip[Listing(init)[k]] { assert !init[Listing(init)[k]]; }
    }
  }

  lemma {:induction false} ListingHas(skip: seq<bool>, i: nat)
    requires i < |skip| && !skip[i]
    ensures i in Listing(skip)
    decreases |skip|
  {
    if i < |skip| - 1 { ListingHas(skip[..|skip| - 1], i); }
  }

  function Moved(n: nat, k: nat, j: nat): nat {
    if j < k then j else if j + 1 < n then j + 1 else k
  }

  function MoveToEnd(l: seq<nat>, k: nat): (r: seq<nat>)
    requires k < |l|
    ensures |r| == |l| && r[|r| - 1] == l[k]
  {
    seq(|l|, j requires 0 <= j < |l| => l[Moved(|l|, k, j)])
  }

  lemma MoveToEndArrival(skip: seq<bool>, l: seq<nat>, k: nat)
    requires IsArrival(skip, l) && k < |l|
    ensures IsArrival(skip, MoveToEnd(l, k))
  {
    var order := MoveToEnd(l, k);
    forall i, j | 0 <= i < j < |order| ensures order[i] != order[j] {
      var a, b := Moved(|l|, k, i), Moved(|l|, k, j);
      assert order[i] == l[a] && order[j] == l[b] && a != b;
    }
  }

  /** An arrival order in which backend i comes last. */
  lemma ArrivesLast(skip: seq<bool>, i: nat) returns (order: seq<nat>)
    requires i < |skip| && !skip[i]
    ensures IsArrival(skip, order) && order != [] && order[|order| - 1] == i
  {
    var l := Listing(skip);
    ListingShape(skip);
    ListingHas(skip, i);
    var k :| 0 <= k < |l| && l[k] == i;
    MoveToEndArrival(skip, l, k);
    order := MoveToEnd(l, k);
  }

  lemma LastDecides(total: int, os: seq<Outcome>, k: string)
    requires os != [] && Has(os[|os| - 1], k)
    ensures var r := Result(Collect(total, os));
            r.Some? && Look(r.value.data, k) == Some(os[|os| - 1].reply.data.value[k])
  {
    LatestWins(total, os, k);
  }

  /** Any two undisturbed runs that return agree. */
  ghost predicate OrderFree(skip: seq<bool>, backends: seq<CallResult>) {
    forall a, b | IsRun(skip, a) && IsRun(skip, b) && Undisturbed(backends, a) && Undisturbed(backends, b)
                  && End(skip, a).main.Returned? && End(skip, b).main.Returned? ::
      && End(skip, a).main.response == End(skip, b).main.response
      && multiset(End(skip, a).main.errs) == multiset(End(skip, b).main.errs)
  }

  /** Interleavings are irrelevant exactly when unfiltered replies agree on the keys they share. */
  lemma OrderFreeIffAgree(skip: seq<bool>, backends: seq<CallResult>)
    requires |backends| == |skip|
    ensures OrderFree(skip, backends) <==> Agree(skip, backends)
  {
    if Agree(skip, backends) {
      forall a, b | IsRun(skip, a) && IsRun(skip, b) && Undisturbed(backends, a) && Undisturbed(backends, b)
                    && End(skip, a).main.Returned? && End(skip, b).main.Returned?
        ensures End(skip, a).main.response == End(skip, b).main.response
        ensures multiset(End(skip, a).main.errs) == multiset(End(skip, b).main.errs)
      {
        InterleavingIrrelevant(skip, backends, a, b);
      }
    } else {
      var i, j, k :| 0 <= i < |skip| && 0 <= j < |skip| && !skip[i] && !skip[j]
                     && Has(OutcomeOf(backends[i]), k) && Has(OutcomeOf(backends[j]), k)
                     && OutcomeOf(backends[i]).reply.data.value[k] != OutcomeOf(backends[j]).reply.data.value[k];
      var a := RunEndingWith(skip, backends, i, k);
      var b := RunEndingWith(skip, backends, j, k);
      assert End(skip, a).main.response != End(skip, b).main.response;
    }
  }

  lemma RunEndingWith(skip: seq<bool>, backends: seq<CallResult>, i: nat, k: string) returns (steps: seq<Step>)
    requires |backends| == |skip| && i < |skip| && !skip[i] && Has(OutcomeOf(backends[i]), k)
    ensures IsRun(skip, steps) && Undisturbed(backends, steps) && End(skip, steps).main.Returned?
    ensures var r := End(skip, steps).main.response;
            r.Some? && Look(r.value.data, k) == Some(OutcomeOf(backends[i]).reply.data.value[k])
  {
    var order := ArrivesLast(skip, i);
    steps := EveryOrderHappens(skip, backends, order);
    LastDecides(Unfiltered(skip), OutcomesIn(backends, order), k);
  }
}
