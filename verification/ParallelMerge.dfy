/** Parallel merging: all backends at once, one collector, every interleaving. */
module ParallelMerge {
  import opened Wrappers
  import opened MergeSpec
  import opened WorkerPool

  datatype Main = Spawning(next: nat) | Collecting | Returned(response: Option<Reply>, errs: seq<string>)

  /** total is what is left of the proxy count after the filtered backends. */
  datatype State = State(main: Main, pool: Pool, total: int)

  /** Steps of the merging goroutine, or one action of a worker or of the context. */
  datatype Step = Spawn | StartCollecting | Receive(reply: bool) | Finish | Other(a: Action)

  predicate OfWorkers(a: Action) {
    a.Return? || a.SendError? || a.SendReply? || a.GiveUp? || a.Expire?
  }

  function Take(reply: bool): Action { if reply then TakeReply else TakeError }

  predicate Possible(skip: seq<bool>, st: State, s: Step) {
    match s
    case Spawn =>
      st.main.Spawning? && st.main.next < |skip| && Enabled(st.pool, Launch(st.main.next))
    case StartCollecting => st.main.Spawning? && st.main.next == |skip|
    case Receive(reply) => st.main.Collecting? && |st.pool.taken| < st.total && Enabled(st.pool, Take(reply))
    case Finish => st.main.Collecting? && |st.pool.taken| == st.total
    case Other(a) => OfWorkers(a) && Enabled(st.pool, a)
  }

  ghost function After(skip: seq<bool>, st: State, s: Step): State
    requires Possible(skip, st, s)
  {
    match s
    case Spawn =>
      var i := st.main.next;
      if skip[i] then State(Spawning(i + 1), Next(st.pool, Skip(i)), st.total - 1)
      else State(Spawning(i + 1), Next(st.pool, Launch(i)), st.total)
    case StartCollecting => st.(main := Collecting)
    case Receive(reply) => st.(pool := Next(st.pool, Take(reply)))
    case Finish =>
      var acc := Collect(st.total, Outcomes(st.pool.taken));
      State(Returned(Result(acc), acc.errs), st.pool.(ctxDone := true), st.total)
    case Other(a) => st.(pool := Next(st.pool, a))
  }

  function Init(skip: seq<bool>): State {
    State(Spawning(0), Fresh(|skip|), |skip|)
  }

  ghost predicate IsRun(skip: seq<bool>, steps: seq<Step>)
    decreases |steps|, 0
  {
    steps == [] ||
    (IsRun(skip, steps[..|steps| - 1]) && Possible(skip, End(skip, steps[..|steps| - 1]), steps[|steps| - 1]))
  }

  ghost function End(skip: seq<bool>, steps: seq<Step>): State
    requires IsRun(skip, steps)
    decreases |steps|, 1
  {
    if steps == [] then Init(skip)
    else After(skip, End(skip, steps[..|steps| - 1]), steps[|steps| - 1])
  }

  // ----- the invariant

  function Unfiltered(skip: seq<bool>): (n: nat)
    ensures n <= |skip|
  {
    if skip == [] then 0 else Unfiltered(skip[..|skip| - 1]) + if skip[|skip| - 1] then 0 else 1
  }

  ghost predicate Started(skip: seq<bool>, workers: seq<Worker>, n: nat)
    requires n <= |skip| == |workers|
  {
    && (forall i :: 0 <= i < n ==> !workers[i].Waiting? && (workers[i].Skipped? <==> skip[i]))
    && (forall i :: n <= i < |workers| ==> workers[i].Waiting?)
  }

  ghost predicate Inv(skip: seq<bool>, st: State) {
    && |st.pool.workers| == |skip| && Conserved(st.pool)
    && match st.main
       case Spawning(n) =>
         n <= |skip| && Started(skip, st.pool.workers, n) && st.pool.taken == []
         && st.total == |skip| - n + Unfiltered(skip[..n])
       case Collecting =>
         Started(skip, st.pool.workers, |skip|) && st.total == Unfiltered(skip) && |st.pool.taken| <= st.total
       case Returned(r, errs) =>
         var acc := Collect(st.total, Outcomes(st.pool.taken));
         && Started(skip, st.pool.workers, |skip|) && st.total == Unfiltered(skip) && |st.pool.taken| == st.total
         && r == Result(acc) && errs == acc.errs
  }

  lemma WorkersKeepStarted(skip: seq<bool>, p: Pool, a: Action, n: nat)
    requires OfWorkers(a) && Enabled(p, a) && n <= |skip| == |p.workers| && Started(skip, p.workers, n)
    ensures |Next(p, a).workers| == |skip| && Started(skip, Next(p, a).workers, n) && Next(p, a).taken == p.taken
  {
    if !a.Expire? {
      var q := Next(p, a).workers;
      assert a.i < n;
      forall i | 0 <= i < |q| && i != a.i ensures q[i] == p.workers[i] {}
    }
  }

  lemma SpawnKeepsInv(skip: seq<bool>, st: State)
    requires Inv(skip, st) && Possible(skip, st, Spawn)
    ensures Inv(skip, After(skip, st, Spawn))
  {
    hide Conserved, Started;
    var i := st.main.next;
    assert skip[..i + 1][..i] == skip[..i];
    if skip[i] {
      NextConserved(st.pool, Skip(i));
      StartedOneMore(skip, st.pool.workers, i, Skipped);
    } else {
      NextConserved(st.pool, Launch(i));
      StartedOneMore(skip, st.pool.workers, i, Calling);
    }
  }

  lemma StartedOneMore(skip: seq<bool>, workers: seq<Worker>, i: nat, w: Worker)
    requires i < |skip| == |workers| && Started(skip, workers, i)
    requires !w.Waiting? && (w.Skipped? <==> skip[i])
    ensures Started(skip, workers[i := w], i + 1)
  {
  }

  lemma StepKeepsInv(skip: seq<bool>, st: State, s: Step)
    requires Inv(skip, st) && Possible(skip, st, s)
    ensures Inv(skip, After(skip, st, s))
  {
    hide Conserved, Collect, MergeSpec.Result, Outcomes;
    match s
    case Spawn => SpawnKeepsInv(skip, st);
    case StartCollecting =>
      assert skip[..|skip|] == skip;
    case Receive(reply) => NextConserved(st.pool, Take(reply));
    case Finish => ExpiredConserved(st.pool);
    case Other(a) =>
      NextConserved(st.pool, a);
      WorkersKeepStarted(skip, st.pool, a, if st.main.Spawning? then st.main.next else |skip|);
  }

  /** The invariant holds after every run, whatever the interleaving and whatever the backends do. */
  lemma {:induction false} RunKeepsInv(skip: seq<bool>, steps: seq<Step>)
    requires IsRun(skip, steps)
    ensures Inv(skip, End(skip, steps))
    decreases |steps|
  {
    if steps == [] {
      FreshConserved(|skip|);
      assert skip[..0] == [];
    } else {
      RunKeepsInv(skip, steps[..|steps| - 1]);
      StepKeepsInv(skip, End(skip, steps[..|steps| - 1]), steps[|steps| - 1]);
    }
  }

  /**
    Channel discipline: buffered plus collected outcomes are the finished calls, no channel holds more
    than its capacity, and a worker that wants to send can.
   */
  lemma ChannelsNeverBlock(skip: seq<bool>, steps: seq<Step>, i: nat)
    requires IsRun(skip, steps) && i < |skip|
    ensures var p := End(skip, steps).pool;
            && |p.results| + |p.failed| + |p.taken| == CountFinished(p.workers)
            && |p.results| <= Capacity(p) && |p.failed| <= Capacity(p)
            && |p.workers| == |skip|
            && (p.workers[i].Failing? ==> Possible(skip, End(skip, steps), Other(SendError(i))))
            && (p.workers[i].Choosing? ==> Possible(skip, End(skip, steps), Other(SendReply(i))))
  {
    RunKeepsInv(skip, steps);
    var p := End(skip, steps).pool;
    MessagesCount(p);
    if !p.workers[i].Finished? { SendNeverBlocks(p, i); }
  }

  // ----- termination

  function Phase(m: Main): nat {
    match m case Spawning(_) => 2 case Collecting => 1 case Returned(_, _) => 0
  }

  function Fuel(st: State): nat { Energy(st.pool) + Phase(st.main) }

  lemma StepBurnsFuel(skip: seq<bool>, st: State, s: Step)
    requires Possible(skip, st, s)
    ensures Fuel(After(skip, st, s)) < Fuel(st)
  {
    match s
    case Spawn => NextUsesEnergy(st.pool, if skip[st.main.next] then Skip(st.main.next) else Launch(st.main.next));
    case StartCollecting =>
    case Receive(reply) => NextUsesEnergy(st.pool, Take(reply));
    case Finish =>
    case Other(a) => NextUsesEnergy(st.pool, a);
  }

  lemma {:induction false} RunBurnsFuel(skip: seq<bool>, steps: seq<Step>)
    requires IsRun(skip, steps)
    ensures Fuel(End(skip, steps)) + |steps| <= 5 * |skip| + 3
    decreases |steps|
  {
    if steps == [] {
      FreshEnergy(|skip|);
    } else {
      RunBurnsFuel(skip, steps[..|steps| - 1]);
      StepBurnsFuel(skip, End(skip, steps[..|steps| - 1]), steps[|steps| - 1]);
    }
  }

  lemma {:induction false} FinishedCount(skip: seq<bool>, workers: seq<Worker>)
    requires |skip| == |workers| && Started(skip, workers, |skip|)
    ensures CountFinished(workers) <= Unfiltered(skip)
    ensures CountFinished(workers) == Unfiltered(skip) <==>
            forall i :: 0 <= i < |skip| && !skip[i] ==> workers[i].Finished?
    decreases |skip|
  {
    if skip != [] {
      var n := |skip| - 1;
      FinishedCount(skip[..n], workers[..n]);
      assert (forall i :: 0 <= i < |skip| && !skip[i] ==> workers[i].Finished?) <==>
             (forall i :: 0 <= i < n && !skip[..n][i] ==> workers[..n][i].Finished?) && (!skip[n] ==> workers[n].Finished?);
    }
  }

  /**
    Progress: as long as the merge has not returned, some step other than the context's expiry is
    possible, provided the backend calls in progress return (with any result r).
   */
  lemma Progress(skip: seq<bool>, st: State, r: CallResult) returns (s: Step)
    requires Inv(skip, st) && !st.main.Returned?
    ensures Possible(skip, st, s) && s != Other(Expire)
  {
    match st.main
    case Spawning(n) =>
      s := if n < |skip| then Spawn else StartCollecting;
    case Collecting =>
      if |st.pool.taken| == st.total {
        s := Finish;
      } else if st.pool.results != [] {
        s := Receive(true);
      } else if st.pool.failed != [] {
        s := Receive(false);
      } else {
        MessagesCount(st.pool);
        FinishedCount(skip, st.pool.workers);
        var i :| 0 <= i < |skip| && !skip[i] && !st.pool.workers[i].Finished?;
        var a := WorkerCanStep(st.pool, i, r);
        s := Other(a);
      }
  }

  /** A run that no step can prolong has returned, and no run is longer than five steps per backend and three. */
  lemma EveryMaximalRunReturns(skip: seq<bool>, steps: seq<Step>)
    requires IsRun(skip, steps)
    ensures |steps| <= 5 * |skip| + 3
    ensures (forall s :: Possible(skip, End(skip, steps), s) ==> s == Other(Expire)) ==> End(skip, steps).main.Returned?
  {
    RunKeepsInv(skip, steps);
    RunBurnsFuel(skip, steps);
    if !End(skip, steps).main.Returned? {
      var s := Progress(skip, End(skip, steps), NoReply);
    }
  }

  // ----- what is returned

  /**
    When the merge returns, both channels are empty, every unfiltered backend has finished, and the
    collector has taken exactly the one outcome of each of them.
   */
  lemma ReturnedExact(skip: seq<bool>, steps: seq<Step>)
    requires IsRun(skip, steps) && End(skip, steps).main.Returned?
    ensures var st := End(skip, steps);
            && st.pool.results == [] && st.pool.failed == []
            && |st.pool.workers| == |skip|
            && (forall i :: 0 <= i < |skip| ==> if skip[i] then st.pool.workers[i].Skipped? else st.pool.workers[i].Finished?)
            && multiset(st.pool.taken) == Sent(st.pool.workers)
            && |st.pool.taken| == Unfiltered(skip)
  {
    RunKeepsInv(skip, steps);
    var st := End(skip, steps);
    MessagesCount(st.pool);
    FinishedCount(skip, st.pool.workers);
    assert multiset(st.pool.results) == multiset{} && multiset(st.pool.failed) == multiset{};
  }

  ghost predicate BackendsAre(skip: seq<bool>, workers: seq<Worker>, good: Outcome -> bool)
  {
    forall i :: 0 <= i < |skip| && i < |workers| && !skip[i] ==> workers[i].Finished? && good(workers[i].sent)
  }

  /** A property holds of all collected outcomes iff it holds of what every unfiltered backend sent. */
  lemma OutcomesOfBackends(skip: seq<bool>, steps: seq<Step>, good: Outcome -> bool)
    requires IsRun(skip, steps) && End(skip, steps).main.Returned?
    ensures var st := End(skip, steps);
            (forall k :: 0 <= k < |st.pool.taken| ==> good(Outcomes(st.pool.taken)[k]))
            <==> BackendsAre(skip, st.pool.workers, good)
  {
    hide IsRun, End, Sent;
    ReturnedExact(skip, steps);
    var p := End(skip, steps).pool;
    var os := Outcomes(p.taken);
    if BackendsAre(skip, p.workers, good) {
      forall k | 0 <= k < |p.taken| ensures good(os[k]) {
        assert multiset(p.taken)[p.taken[k]] > 0;
        SentExact(p.workers, p.taken[k]);
      }
    }
    if forall k :: 0 <= k < |p.taken| ==> good(os[k]) {
      forall i | 0 <= i < |skip| && !skip[i] ensures good(p.workers[i].sent) {
        var m := Msg(i, p.workers[i].sent);
        SentExact(p.workers, m);
        assert multiset(p.taken)[m] > 0;
        var k :| 0 <= k < |p.taken| && p.taken[k] == m;
        assert good(os[k]);
      }
    }
  }

  /**
    The merged response, in every interleaving: without error exactly when every unfiltered backend's
    outcome is a reply, and complete exactly when moreover there is one, all are complete, and there is
    only one or all carry data.
   */
  lemma ResponseExact(skip: seq<bool>, steps: seq<Step>)
    requires IsRun(skip, steps) && End(skip, steps).main.Returned?
    ensures var st := End(skip, steps);
            && (st.main.errs == [] <==> BackendsAre(skip, st.pool.workers, (o: Outcome) => o.Replied?))
            && (st.main.response.Some? && st.main.response.value.complete <==>
                && Unfiltered(skip) > 0
                && BackendsAre(skip, st.pool.workers, (o: Outcome) => o.Replied? && o.reply.complete)
                && (Unfiltered(skip) == 1
                    || BackendsAre(skip, st.pool.workers, (o: Outcome) => o.Replied? && o.reply.data.Some?)))
  {
    hide IsRun, End, BackendsAre, Sent;
    RunKeepsInv(skip, steps);
    ReturnedExact(skip, steps);
    var st := End(skip, steps);
    ExactCompleteness(st.total, Outcomes(st.pool.taken));
    OutcomesOfBackends(skip, steps, (o: Outcome) => o.Replied?);
    OutcomesOfBackends(skip, steps, (o: Outcome) => o.Replied? && o.reply.complete);
    OutcomesOfBackends(skip, steps, (o: Outcome) => o.Replied? && o.reply.data.Some?);
  }

  /** Under each key the merged response has the value of the latest arriving reply with it; errors are in order of arrival. */
  lemma ReturnedData(skip: seq<bool>, steps: seq<Step>, k: string)
    requires IsRun(skip, steps) && End(skip, steps).main.Returned?
    ensures var st := End(skip, steps);
            && st.main.errs == ErrorsOf(Outcomes(st.pool.taken))
            && (if st.main.response.Some? then Look(st.main.response.value.data, k) else None) == Latest(Outcomes(st.pool.taken), k)
  {
    hide Collect, MergeSpec.Result, Latest, ErrorsOf, Sent;
    RunKeepsInv(skip, steps);
    var st := End(skip, steps);
    ErrorList(st.total, Outcomes(st.pool.taken));
    ResultData(st.total, Outcomes(st.pool.taken), k);
  }

  // ----- the interleaving does not matter

  function OutcomeOf(r: CallResult): Outcome {
    match r
    case CallError(e) => Failed(e)
    case NoReply => Failed(NULL_RESULT)
    case CallReply(rep) => Replied(rep)
  }

  /** Every call returns what its backend always returns, and the context does not expire. */
  predicate Undisturbed(backends: seq<CallResult>, steps: seq<Step>) {
    forall k :: 0 <= k < |steps| ==> UndisturbedStep(backends, steps[k])
  }

  predicate UndisturbedStep(backends: seq<CallResult>, s: Step) {
    s.Other? ==>
      && !s.a.Expire?
      && (s.a.Return? ==> s.a.i < |backends| && s.a.result == backends[s.a.i])
  }

  /** The worker has not departed from what its backend returns. */
  predicate OnCourse(w: Worker, r: CallResult) {
    match w
    case Failing(e) => AfterCall(r) == Failing(e)
    case Choosing(rep) => AfterCall(r) == Choosing(rep)
    case Finished(o) => o == OutcomeOf(r)
    case _ => true
  }

  ghost predicate Faithful(backends: seq<CallResult>, st: State) {
    && |backends| == |st.pool.workers|
    && (st.main.Returned? || !st.pool.ctxDone)
    && forall i :: 0 <= i < |backends| ==> OnCourse(st.pool.workers[i], backends[i])
  }

  lemma StepFaithful(skip: seq<bool>, backends: seq<CallResult>, st: State, s: Step)
    requires Faithful(backends, st) && Possible(skip, st, s) && UndisturbedStep(backends, s)
    requires st.main.Returned? ==>
               forall i :: 0 <= i < |st.pool.workers| ==> st.pool.workers[i].Skipped? || st.pool.workers[i].Finished?
    ensures Faithful(backends, After(skip, st, s))
  {
    var q := After(skip, st, s).pool.workers;
    match s
    case Spawn =>
      forall i | 0 <= i < |q| && i != st.main.next ensures q[i] == st.pool.workers[i] {}
    case Other(a) =>
      if !a.Expire? {
        forall i | 0 <= i < |q| && i != a.i ensures q[i] == st.pool.workers[i] {}
      }
    case _ =>
  }

  /** Every outcome sent is the one its backend stands for. */
  lemma {:induction false} RunFaithful(skip: seq<bool>, backends: seq<CallResult>, steps: seq<Step>)
    requires IsRun(skip, steps) && Undisturbed(backends, steps) && |backends| == |skip|
    ensures Faithful(backends, End(skip, steps))
    decreases |steps|
  {
    if steps != [] {
      var n := |steps| - 1;
      RunFaithful(skip, backends, steps[..n]);
      RunKeepsInv(skip, steps[..n]);
      if End(skip, steps[..n]).main.Returned? {
        ReturnedExact(skip, steps[..n]);
      }
      assert UndisturbedStep(backends, steps[n]);
      StepFaithful(skip, backends, End(skip, steps[..n]), steps[n]);
    }
  }

  lemma FinalWorkers(skip: seq<bool>, backends: seq<CallResult>, steps: seq<Step>)
    requires |backends| == |skip| && IsRun(skip, steps) && Undisturbed(backends, steps)
    requires End(skip, steps).main.Returned?
    ensures var st := End(skip, steps);
            && |st.pool.workers| == |skip|
            && (forall i :: 0 <= i < |skip| ==>
                  st.pool.workers[i] == if skip[i] then Skipped else Finished(OutcomeOf(backends[i])))
            && multiset(st.pool.taken) == Sent(st.pool.workers)
            && st.total == Unfiltered(skip)
            && var acc := Collect(st.total, Outcomes(st.pool.taken));
               st.main == Returned(Result(acc), acc.errs)
  {
    RunKeepsInv(skip, steps);
    ReturnedExact(skip, steps);
    RunFaithful(skip, backends, steps);
    var st := End(skip, steps);
    forall i | 0 <= i < |skip|
      ensures st.pool.workers[i] == if skip[i] then Skipped else Finished(OutcomeOf(backends[i]))
    {
      assert OnCourse(st.pool.workers[i], backends[i]);
    }
  }

  /** Unfiltered backends whose replies share a key agree on its value. */
  ghost predicate Agree(skip: seq<bool>, backends: seq<CallResult>)
    requires |skip| == |backends|
  {
    forall i, j, k :: 0 <= i < |skip| && 0 <= j < |skip| && !skip[i] && !skip[j]
                      && Has(OutcomeOf(backends[i]), k) && Has(OutcomeOf(backends[j]), k) ==>
      OutcomeOf(backends[i]).reply.data.value[k] == OutcomeOf(backends[j]).reply.data.value[k]
  }

  lemma AgreeIsCompatible(skip: seq<bool>, backends: seq<CallResult>, steps: seq<Step>)
    requires |backends| == |skip| && Agree(skip, backends) && IsRun(skip, steps) && Undisturbed(backends, steps)
    requires End(skip, steps).main.Returned?
    ensures Compatible(Outcomes(End(skip, steps).pool.taken))
  {
    hide IsRun, End, Undisturbed, OutcomeOf;
    var p := End(skip, steps).pool;
    forall k | 0 <= k < |p.taken|
      ensures p.taken[k].worker < |skip| && !skip[p.taken[k].worker]
      ensures Outcomes(p.taken)[k] == OutcomeOf(backends[p.taken[k].worker])
    {
      TakenOutcome(skip, backends, steps, k);
    }
  }

  /** What the collector has taken at place k is what its backend returned. */
  lemma TakenOutcome(skip: seq<bool>, backends: seq<CallResult>, steps: seq<Step>, k: nat)
    requires |backends| == |skip| && IsRun(skip, steps) && Undisturbed(backends, steps) && End(skip, steps).main.Returned?
    requires k < |End(skip, steps).pool.taken|
    ensures var m := End(skip, steps).pool.taken[k];
            && m.worker < |skip| && !skip[m.worker]
            && Outcomes(End(skip, steps).pool.taken)[k] == OutcomeOf(backends[m.worker])
  {
    hide IsRun, End, Undisturbed, OutcomeOf, Sent;
    FinalWorkers(skip, backends, steps);
    var p := End(skip, steps).pool;
    assert multiset(p.taken)[p.taken[k]] > 0;
    SentExact(p.workers, p.taken[k]);
  }

  /**
    Two undisturbed runs of the same backends that both return give the same response and the same
    errors (in some order), provided replies that share a key agree on it.
   */
  lemma InterleavingIrrelevant(skip: seq<bool>, backends: seq<CallResult>, a: seq<Step>, b: seq<Step>)
    requires |backends| == |skip| && IsRun(skip, a) && IsRun(skip, b)
    requires Undisturbed(backends, a) && Undisturbed(backends, b)
    requires End(skip, a).main.Returned? && End(skip, b).main.Returned?
    requires Agree(skip, backends)
    ensures End(skip, a).main.response == End(skip, b).main.response
    ensures multiset(End(skip, a).main.errs) == multiset(End(skip, b).main.errs)
  {
    var x, y := End(skip, a), End(skip, b);
    FinalWorkers(skip, backends, a);
    FinalWorkers(skip, backends, b);
    AgreeIsCompatible(skip, backends, a);
    hide IsRun, End, Undisturbed, Sent, Collect, Result, Outcomes, Unfiltered;
    assert x.pool.workers == y.pool.workers;
    SameOutcomes(x.pool.taken, y.pool.taken);
    Confluence(x.total, Outcomes(x.pool.taken), Outcomes(y.pool.taken));
  }

  // ----- what every worker sends, in every run

  /** What the workers and the context do in a run; None stands for a step of the merging goroutine. */
  function Traced(steps: seq<Step>): (t: Trace)
    ensures |t| == |steps|
    ensures forall k :: 0 <= k < |steps| ==> t[k] == if steps[k].Other? then Some(steps[k].a) else None
  {
    seq(|steps|, k requires 0 <= k < |steps| => if steps[k].Other? then Some(steps[k].a) else None)
  }

  /** Until the merge returns, the workers' context is done exactly when it has expired. */
  lemma {:induction false} DoneIff(skip: seq<bool>, steps: seq<Step>)
    requires IsRun(skip, steps) && !End(skip, steps).main.Returned?
    ensures End(skip, steps).pool.ctxDone <==> Other(Expire) in steps
    decreases |steps|
  {
    hide After;
    if steps != [] {
      var init, last := steps[..|steps| - 1], steps[|steps| - 1];
      StepDone(skip, End(skip, init), last);
      DoneIff(skip, init);
      assert steps == init + [last];
    }
  }

  lemma StepDone(skip: seq<bool>, st: State, s: Step)
    requires Possible(skip, st, s)
    ensures var q := After(skip, st, s);
            && (st.main.Returned? ==> q.main.Returned?)
            && (!q.main.Returned? ==> (q.pool.ctxDone <==> st.pool.ctxDone || s == Other(Expire)))
  {
  }

  lemma ChoosingBeforeReturn(skip: seq<bool>, steps: seq<Step>, i: nat)
    requires IsRun(skip, steps) && i < |End(skip, steps).pool.workers| && End(skip, steps).pool.workers[i].Choosing?
    ensures !End(skip, steps).main.Returned? && |End(skip, steps).pool.workers| == |skip|
  {
    RunKeepsInv(skip, steps);
    if End(skip, steps).main.Returned? { ReturnedExact(skip, steps); }
  }

  lemma StepExplained(skip: seq<bool>, st: State, s: Step, i: nat, returned: Option<CallResult>, expired: bool)
    requires Possible(skip, st, s) && i < |st.pool.workers| && Explained(st.pool.workers[i], returned, expired)
    requires s.Other? && s.a.GiveUp? ==> expired
    ensures var q := After(skip, st, s).pool;
            && i < |q.workers|
            && if s.Other? && IsReturn(Some(s.a), i) then returned.None? && Explained(q.workers[i], Some(s.a.result), expired)
               else Explained(q.workers[i], returned, expired)
  {
    hide Explained;
    match s
    case Spawn =>
      NextExplained(st.pool, if skip[st.main.next] then Skip(st.main.next) else Launch(st.main.next), i, returned, expired);
    case Receive(reply) => NextExplained(st.pool, Take(reply), i, returned, expired);
    case Other(a) => NextExplained(st.pool, a, i, returned, expired);
    case _ =>
  }

  lemma {:induction false} RunExplained(skip: seq<bool>, steps: seq<Step>, i: nat)
    requires IsRun(skip, steps) && i < |skip|
    ensures i < |End(skip, steps).pool.workers| && ReturnedOnce(Traced(steps), i)
    ensures Explained(End(skip, steps).pool.workers[i], ReturnOf(Traced(steps), i), Other(Expire) in steps)
    decreases |steps|
  {
    hide Explained, ReturnedOnce, After;
    if steps == [] {
      NothingReturned(skip, i);
    } else {
      var init, last := steps[..|steps| - 1], steps[|steps| - 1];
      var t, returned := Traced(steps), ReturnOf(Traced(init), i);
      assert steps == init + [last] && t[..|init|] == Traced(init);
      RunExplained(skip, init, i);
      if last.Other? && last.a.GiveUp? {
        ChoosingBeforeReturn(skip, init, last.a.i);
        DoneIff(skip, init);
      }
      StepExplained(skip, End(skip, init), last, i, returned, Other(Expire) in init);
      if Other(Expire) !in init && Other(Expire) in steps {
        ExplainedLater(End(skip, steps).pool.workers[i], ReturnOf(t, i));
      }
      OneMoreStep(t, i);
    }
  }

  lemma NothingReturned(skip: seq<bool>, i: nat)
    requires i < |skip|
    ensures i < |End(skip, []).pool.workers| && ReturnedOnce(Traced([]), i)
    ensures Explained(End(skip, []).pool.workers[i], ReturnOf(Traced([]), i), false)
  {
  }

  /**
    In every run, also when the context expires: a worker that has finished is that of an unfiltered
    backend, its call has returned exactly once, and it has sent what the call gave. Only if the call
    replied and the context has expired it may have sent the context's error instead.
   */
  lemma SentIsReturned(skip: seq<bool>, steps: seq<Step>, i: nat)
    requires IsRun(skip, steps) && i < |skip|
    ensures var ws := End(skip, steps).pool.workers;
            && |ws| == |skip|
            && (ws[i].Finished? ==>
                  && !skip[i]
                  && exists k, r :: ReturnsAt(Traced(steps), i, k, r) &&
                       match r
                       case CallError(e) => ws[i].sent == Failed(e)
                       case NoReply => ws[i].sent == Failed(NULL_RESULT)
                       case CallReply(rep) =>
                         ws[i].sent == Replied(rep) || (ws[i].sent == Failed(CTX_ERROR) && Other(Expire) in steps))
  {
    RunKeepsInv(skip, steps);
    RunExplained(skip, steps, i);
    var ws := End(skip, steps).pool.workers;
    if ws[i].Finished? {
      FinishedUnfiltered(skip, End(skip, steps), i);
      var r := ReturnOf(Traced(steps), i).value;
      var k :| ReturnsAt(Traced(steps), i, k, r);
    }
  }

  lemma FinishedUnfiltered(skip: seq<bool>, st: State, i: nat)
    requires Inv(skip, st) && i < |skip| && st.pool.workers[i].Finished?
    ensures !skip[i]
  {
    hide Conserved;
  }

  /** A worker with a reply can give it up for the context's error exactly when the context has expired. */
  lemma GiveUpIff(skip: seq<bool>, steps: seq<Step>, i: nat)
    requires IsRun(skip, steps) && i < |End(skip, steps).pool.workers| && End(skip, steps).pool.workers[i].Choosing?
    ensures Possible(skip, End(skip, steps), Other(GiveUp(i))) <==> Other(Expire) in steps
  {
    ChoosingBeforeReturn(skip, steps, i);
    DoneIff(skip, steps);
  }

  /** The context can expire once, until the merge returns. */
  lemma ExpireIff(skip: seq<bool>, steps: seq<Step>)
    requires IsRun(skip, steps) && !End(skip, steps).main.Returned?
    ensures Possible(skip, End(skip, steps), Other(Expire)) <==> Other(Expire) !in steps
  {
    DoneIff(skip, steps);
  }

  /** The select of the collector can take from either channel that holds something. */
  lemma SelectIff(skip: seq<bool>, steps: seq<Step>)
    requires IsRun(skip, steps) && End(skip, steps).main.Collecting?
    ensures var p := End(skip, steps).pool;
            |p.taken| < Unfiltered(skip) ==>
              && (Possible(skip, End(skip, steps), Receive(true)) <==> p.results != [])
              && (Possible(skip, End(skip, steps), Receive(false)) <==> p.failed != [])
  {
    hide Conserved, Started, Collect, Outcomes;
    RunKeepsInv(skip, steps);
  }

  /** Every error returned is an unfiltered backend's own, that of a missing reply, or after the expiry the context's. */
  lemma ErrorsExplained(skip: seq<bool>, steps: seq<Step>, e: string)
    requires IsRun(skip, steps) && End(skip, steps).main.Returned? && e in End(skip, steps).main.errs
    ensures exists i, k, r :: 0 <= i < |skip| && !skip[i] && ReturnsAt(Traced(steps), i, k, r)
                              && (r == CallError(e) || (r == NoReply && e == NULL_RESULT)
                                  || (r.CallReply? && e == CTX_ERROR && Other(Expire) in steps))
  {
    var i := ErrorSender(skip, steps, e);
    SentIsReturned(skip, steps, i);
  }

  lemma ErrorSender(skip: seq<bool>, steps: seq<Step>, e: string) returns (i: nat)
    requires IsRun(skip, steps) && End(skip, steps).main.Returned? && e in End(skip, steps).main.errs
    ensures i < |skip| == |End(skip, steps).pool.workers| && End(skip, steps).pool.workers[i] == Finished(Failed(e))
  {
    hide IsRun, End, Sent, Collect;
    RunKeepsInv(skip, steps);
    ReturnedExact(skip, steps);
    var st := End(skip, steps);
    var os := Outcomes(st.pool.taken);
    ErrorCount(st.total, os, e);
    assert multiset(st.main.errs)[e] > 0;
    var o :| o in [Failed(e), NullReply] && multiset(os)[o] > 0;
    var k :| 0 <= k < |os| && os[k] == o;
    var m := st.pool.taken[k];
    assert multiset(st.pool.taken)[m] > 0;
    SentExact(st.pool.workers, m);
    i := m.worker;
    SentIsReturned(skip, steps, i);
  }

  // ----- messages are received in the order of sending

  /** In every run both channels hand on what was sent to them in the order of sending. */
  lemma {:induction false} ReceivedInOrder(skip: seq<bool>, steps: seq<Step>)
    requires IsRun(skip, steps)
    ensures var p := End(skip, steps).pool;
            && Senders(OfKind(p.taken, true) + p.results) == SentOf(Traced(steps), true)
            && Senders(OfKind(p.taken, false) + p.failed) == SentOf(Traced(steps), false)
    decreases |steps|
  {
    hide SentOf, Senders, OfKind, Conserved, After;
    if steps == [] {
      NothingReceived(skip);
    } else {
      var init, last := steps[..|steps| - 1], steps[|steps| - 1];
      var t, a := Traced(init), if last.Other? then Some(last.a) else None;
      RunKeepsInv(skip, init);
      ReceivedInOrder(skip, init);
      StepInOrder(skip, End(skip, init), last, SentOf(t, true), SentOf(t, false));
      assert Traced(steps) == t + [a];
      SentOfSnoc(t, a, true);
      SentOfSnoc(t, a, false);
    }
  }

  lemma NothingReceived(skip: seq<bool>)
    ensures var p := End(skip, []).pool;
            && Senders(OfKind(p.taken, true) + p.results) == SentOf(Traced([]), true)
            && Senders(OfKind(p.taken, false) + p.failed) == SentOf(Traced([]), false)
  {
  }

  lemma StepInOrder(skip: seq<bool>, st: State, s: Step, replies: seq<nat>, errors: seq<nat>)
    requires Conserved(st.pool) && Possible(skip, st, s)
    requires Senders(OfKind(st.pool.taken, true) + st.pool.results) == replies
    requires Senders(OfKind(st.pool.taken, false) + st.pool.failed) == errors
    ensures var q := After(skip, st, s).pool;
            && Senders(OfKind(q.taken, true) + q.results) == replies + (if s.Other? && s.a.SendReply? then [s.a.i] else [])
            && Senders(OfKind(q.taken, false) + q.failed) == errors + (if s.Other? && s.a.SendError? then [s.a.i] else [])
  {
    hide OfKind, Conserved;
    match s
    case Spawn => NextFifo(st.pool, if skip[st.main.next] then Skip(st.main.next) else Launch(st.main.next));
    case Receive(reply) => NextFifo(st.pool, Take(reply));
    case Other(a) => NextFifo(st.pool, a);
    case _ =>
  }
}
