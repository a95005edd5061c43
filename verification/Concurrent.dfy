/** Concurrent calls: the same backend n times, the first complete response wins. */
module Concurrent {
  import opened Wrappers
  import opened MergeSpec
  import opened WorkerPool

  datatype Main =
    | Launching(next: nat)
    | Looping(round: nat, response: Option<Reply>, err: Option<string>)
    | Returned(response: Option<Reply>, err: Option<string>)

  /** parentDone is the caller's context; spins counts the rounds in which the loop only saw it done. */
  datatype State = State(main: Main, pool: Pool, parentDone: bool, spins: nat)

  datatype Step = Spawn | StartLoop | ReceiveReply | ReceiveError | SeeDone | GiveBack | ParentExpires | Other(a: Action)

  predicate OfWorkers(a: Action) {
    a.Return? || a.SendError? || a.SendReply? || a.GiveUp? || a.Expire?
  }

  predicate Possible(n: nat, st: State, s: Step) {
    match s
    case Spawn => st.main.Launching? && st.main.next < n && Enabled(st.pool, Launch(st.main.next))
    case StartLoop => st.main.Launching? && st.main.next == n
    case ReceiveReply =>
      st.main.Looping? && st.main.round < n && Enabled(st.pool, TakeReply) && st.pool.results[0].outcome.Replied?
    case ReceiveError =>
      st.main.Looping? && st.main.round < n && Enabled(st.pool, TakeError) && st.pool.failed[0].outcome.Failed?
    case SeeDone => st.main.Looping? && st.main.round < n && st.parentDone
    case GiveBack => st.main.Looping? && st.main.round == n
    case ParentExpires => !st.parentDone
    case Other(a) => OfWorkers(a) && Enabled(st.pool, a)
  }

  function Cancelled(p: Pool): Pool { p.(ctxDone := true) }

  function After(n: nat, st: State, s: Step): State
    requires Possible(n, st, s)
  {
    match s
    case Spawn => st.(main := Launching(st.main.next + 1), pool := Next(st.pool, Launch(st.main.next)))
    case StartLoop => st.(main := Looping(0, None, None))
    case ReceiveReply =>
      var r := st.pool.results[0].outcome.reply;
      var p := Next(st.pool, TakeReply);
      if r.complete then st.(main := Returned(Some(r), None), pool := Cancelled(p))
      else st.(main := Looping(st.main.round + 1, Some(r), st.main.err), pool := p)
    case ReceiveError =>
      var e := st.pool.failed[0].outcome.err;
      st.(main := Looping(st.main.round + 1, st.main.response, Some(e)), pool := Next(st.pool, TakeError))
    case SeeDone => st.(main := Looping(st.main.round + 1, st.main.response, st.main.err), spins := st.spins + 1)
    case GiveBack => st.(main := Returned(st.main.response, st.main.err), pool := Cancelled(st.pool))
    case ParentExpires => st.(parentDone := true, pool := Cancelled(st.pool))
    case Other(a) => st.(pool := Next(st.pool, a))
  }

  function Init(n: nat): State {
    State(Launching(0), Fresh(n), false, 0)
  }

  predicate IsRun(n: nat, steps: seq<Step>)
    decreases |steps|, 0
  {
    steps == [] ||
    (IsRun(n, steps[..|steps| - 1]) && Possible(n, End(n, steps[..|steps| - 1]), steps[|steps| - 1]))
  }

  function End(n: nat, steps: seq<Step>): State
    requires IsRun(n, steps)
    decreases |steps|, 1
  {
    if steps == [] then Init(n)
    else After(n, End(n, steps[..|steps| - 1]), steps[|steps| - 1])
  }

  // ----- the invariant

  ghost predicate CompleteMsg(m: Msg) {
    m.outcome.Replied? && m.outcome.reply.complete
  }

  ghost predicate NoneComplete(ms: seq<Msg>) {
    forall k :: 0 <= k < |ms| ==> !CompleteMsg(ms[k])
  }

  function LastReply(ms: seq<Msg>): Option<Reply> {
    if ms == [] then None
    else if ms[|ms| - 1].outcome.Replied? then Some(ms[|ms| - 1].outcome.reply)
    else LastReply(ms[..|ms| - 1])
  }

  function LastError(ms: seq<Msg>): Option<string> {
    if ms == [] then None
    else if ms[|ms| - 1].outcome.Failed? then Some(ms[|ms| - 1].outcome.err)
    else LastError(ms[..|ms| - 1])
  }

  ghost predicate Launched(workers: seq<Worker>, k: nat)
    requires k <= |workers|
  {
    forall i :: 0 <= i < |workers| ==> (workers[i].Waiting? <==> i >= k) && !workers[i].Skipped?
  }

  /** Returned with the complete response that was taken last. */
  ghost predicate Won(st: State) {
    && st.main.Returned? && st.main.err.None? && st.pool.taken != []
    && CompleteMsg(st.pool.taken[|st.pool.taken| - 1])
    && st.main.response == Some(st.pool.taken[|st.pool.taken| - 1].outcome.reply)
  }

  /** What the loop has gathered so far. */
  ghost predicate Gathered(ms: seq<Msg>, response: Option<Reply>, err: Option<string>) {
    NoneComplete(ms) && response == LastReply(ms) && err == LastError(ms)
  }

  ghost predicate Inv(n: nat, st: State) {
    && |st.pool.workers| == n && Conserved(st.pool)
    && match st.main
       case Launching(k) => k <= n && Launched(st.pool.workers, k) && st.pool.taken == [] && st.spins == 0
       case Looping(round, response, err) =>
         && Launched(st.pool.workers, n) && round == |st.pool.taken| + st.spins <= n
         && Gathered(st.pool.taken, response, err)
       case Returned(response, err) =>
         && Launched(st.pool.workers, n)
         && (Won(st) || (n == |st.pool.taken| + st.spins && Gathered(st.pool.taken, response, err)))
  }

  lemma WorkersKeepLaunched(p: Pool, a: Action, k: nat)
    requires OfWorkers(a) && Enabled(p, a) && k <= |p.workers| && Launched(p.workers, k)
    ensures |Next(p, a).workers| == |p.workers| && Launched(Next(p, a).workers, k) && Next(p, a).taken == p.taken
  {
    if !a.Expire? {
      forall i | 0 <= i < |p.workers| && i != a.i ensures Next(p, a).workers[i] == p.workers[i] {}
    }
  }

  lemma GatherOne(ms: seq<Msg>, m: Msg, response: Option<Reply>, err: Option<string>)
    requires Gathered(ms, response, err) && !CompleteMsg(m) && !m.outcome.NullReply?
    ensures Gathered(ms + [m], if m.outcome.Replied? then Some(m.outcome.reply) else response,
                     if m.outcome.Failed? then Some(m.outcome.err) else err)
  {
    assert (ms + [m])[..|ms|] == ms;
  }

  lemma ReplyKeepsInv(n: nat, st: State)
    requires Inv(n, st) && Possible(n, st, ReceiveReply)
    ensures Inv(n, After(n, st, ReceiveReply))
  {
    hide Conserved, Launched, Gathered;
    NextConserved(st.pool, TakeReply);
    var m := st.pool.results[0];
    if m.outcome.reply.complete {
      CancelConserved(Next(st.pool, TakeReply));
    } else {
      GatherOne(st.pool.taken, m, st.main.response, st.main.err);
    }
  }

  lemma ErrorKeepsInv(n: nat, st: State)
    requires Inv(n, st) && Possible(n, st, ReceiveError)
    ensures Inv(n, After(n, st, ReceiveError))
  {
    hide Conserved, Launched, Gathered;
    NextConserved(st.pool, TakeError);
    GatherOne(st.pool.taken, st.pool.failed[0], st.main.response, st.main.err);
  }

  lemma CancelConserved(p: Pool)
    requires Conserved(p)
    ensures Conserved(Cancelled(p))
  {
  }

  lemma StepKeepsInv(n: nat, st: State, s: Step)
    requires Inv(n, st) && Possible(n, st, s)
    ensures Inv(n, After(n, st, s))
  {
    hide Conserved, Gathered;
    match s
    case Spawn => NextConserved(st.pool, Launch(st.main.next));
    case ReceiveReply => ReplyKeepsInv(n, st);
    case ReceiveError => ErrorKeepsInv(n, st);
    case StartLoop => assert Gathered([], None, None) by { StartGathered(); }
    case GiveBack => CancelConserved(st.pool);
    case ParentExpires => CancelConserved(st.pool);
    case Other(a) =>
      NextConserved(st.pool, a);
      WorkersKeepLaunched(st.pool, a, if st.main.Launching? then st.main.next else n);
    case _ =>
  }

  lemma StartGathered()
    ensures Gathered([], None, None)
  {
  }

  lemma {:induction false} RunKeepsInv(n: nat, steps: seq<Step>)
    requires IsRun(n, steps)
    ensures Inv(n, End(n, steps))
    decreases |steps|
  {
    if steps == [] {
      FreshConserved(n);
    } else {
      RunKeepsInv(n, steps[..|steps| - 1]);
      StepKeepsInv(n, End(n, steps[..|steps| - 1]), steps[|steps| - 1]);
    }
  }

  /**
    In every reachable state, also long after the collector has returned early, a worker that wants to
    send can: no goroutine is ever stuck on its channel.
   */
  lemma SendsNeverBlock(n: nat, steps: seq<Step>, i: nat)
    requires IsRun(n, steps) && i < n
    ensures var st := End(n, steps);
            && |st.pool.workers| == n
            && (st.pool.workers[i].Failing? ==> Possible(n, st, Other(SendError(i))))
            && (st.pool.workers[i].Choosing? ==> Possible(n, st, Other(SendReply(i))))
            && |st.pool.results| <= n && |st.pool.failed| <= n
  {
    RunKeepsInv(n, steps);
    var p := End(n, steps).pool;
    MessagesCount(p);
    if !p.workers[i].Finished? { SendNeverBlocks(p, i); }
  }

  // ----- termination

  function Phase(n: nat, m: Main): nat {
    match m
    case Launching(_) => n + 2
    case Looping(round, _, _) => if round <= n then n + 1 - round else 1
    case Returned(_, _) => 0
  }

  function Fuel(n: nat, st: State): nat {
    Energy(st.pool) + Phase(n, st.main) + if st.parentDone then 0 else 1
  }

  lemma StepBurnsFuel(n: nat, st: State, s: Step)
    requires Possible(n, st, s)
    ensures Fuel(n, After(n, st, s)) < Fuel(n, st)
  {
    match s
    case Spawn => NextUsesEnergy(st.pool, Launch(st.main.next));
    case ReceiveReply => NextUsesEnergy(st.pool, TakeReply);
    case ReceiveError => NextUsesEnergy(st.pool, TakeError);
    case Other(a) => NextUsesEnergy(st.pool, a);
    case _ =>
  }

  lemma {:induction false} RunBurnsFuel(n: nat, steps: seq<Step>)
    requires IsRun(n, steps)
    ensures Fuel(n, End(n, steps)) + |steps| <= 6 * n + 4
    decreases |steps|
  {
    if steps == [] {
      FreshEnergy(n);
    } else {
      RunBurnsFuel(n, steps[..|steps| - 1]);
      StepBurnsFuel(n, End(n, steps[..|steps| - 1]), steps[|steps| - 1]);
    }
  }

  lemma {:induction false} SomeUnfinished(workers: seq<Worker>) returns (i: nat)
    requires CountFinished(workers) < |workers|
    ensures i < |workers| && !workers[i].Finished?
    decreases |workers|
  {
    var n := |workers| - 1;
    if !workers[n].Finished? {
      i := n;
    } else {
      i := SomeUnfinished(workers[..n]);
    }
  }

  /** Until it returns the call can go on without either context expiring, once backend calls return. */
  lemma Progress(n: nat, st: State, r: CallResult) returns (s: Step)
    requires Inv(n, st) && !st.main.Returned?
    ensures Possible(n, st, s) && s != Other(Expire) && s != ParentExpires
  {
    match st.main
    case Launching(k) => s := if k < n then Spawn else StartLoop;
    case Looping(round, _, _) =>
      if round == n {
        s := GiveBack;
      } else if st.pool.results != [] {
        KindHead(st.pool.results, true);
        s := ReceiveReply;
      } else if st.pool.failed != [] {
        KindHead(st.pool.failed, false);
        s := ReceiveError;
      } else {
        MessagesCount(st.pool);
        var i := SomeUnfinished(st.pool.workers);
        var a := WorkerCanStep(st.pool, i, r);
        s := Other(a);
      }
  }

  lemma EveryMaximalRunReturns(n: nat, steps: seq<Step>)
    requires IsRun(n, steps)
    ensures |steps| <= 6 * n + 4
    ensures (forall s :: Possible(n, End(n, steps), s) ==> s == Other(Expire) || s == ParentExpires) ==>
              End(n, steps).main.Returned?
  {
    RunKeepsInv(n, steps);
    RunBurnsFuel(n, steps);
    if !End(n, steps).main.Returned? {
      var s := Progress(n, End(n, steps), NoReply);
    }
  }

  // ----- the result

  ghost predicate SomeCompleteSent(st: State) {
    exists i, r: Reply :: 0 <= i < |st.pool.workers| && st.pool.workers[i] == Finished(Replied(r)) && r.complete
  }

  /**
    A complete response is returned with a nil error, and some worker sent it. When the loop never gave
    a round away to the caller's context being done, this is the case exactly when some worker has sent
    a complete response by then; otherwise the last incomplete response and the last error are returned.
   */
  lemma ResultExact(n: nat, steps: seq<Step>)
    requires IsRun(n, steps) && End(n, steps).main.Returned?
    ensures var st := End(n, steps);
            var won := st.main.response.Some? && st.main.response.value.complete;
            && (won ==> st.main.err.None? && exists i :: 0 <= i < |st.pool.workers|
                                                        && st.pool.workers[i] == Finished(Replied(st.main.response.value)))
            && (st.spins == 0 ==> (won <==> SomeCompleteSent(st)))
            && (!won ==> st.main.response == LastReply(st.pool.taken) && st.main.err == LastError(st.pool.taken))
  {
    RunKeepsInv(n, steps);
    var st := End(n, steps);
    var taken := st.pool.taken;
    hide IsRun, End, Conserved, Launched, SomeCompleteSent, CompleteMsg, LastReply, LastError;
    if Won(st) {
      WonByWorker(st);
    } else {
      LastReplyIncomplete(taken);
      if st.spins == 0 {
        NoCompleteWorker(st);
      }
    }
  }

  lemma WonByWorker(st: State)
    requires Conserved(st.pool) && Won(st)
    ensures st.main.response.Some? && st.main.response.value.complete && SomeCompleteSent(st)
    ensures exists i :: 0 <= i < |st.pool.workers| && st.pool.workers[i] == Finished(Replied(st.main.response.value))
  {
    FromWorker(st, |st.pool.taken| - 1);
  }

  /** When all messages have been taken and none is complete, no worker sent a complete response. */
  lemma NoCompleteWorker(st: State)
    requires Conserved(st.pool) && |st.pool.taken| == |st.pool.workers| && NoneComplete(st.pool.taken)
    ensures !SomeCompleteSent(st)
  {
    EverythingTaken(st);
    forall i, r: Reply | 0 <= i < |st.pool.workers| && st.pool.workers[i] == Finished(Replied(r))
      ensures !r.complete
    {
      var m := Msg(i, Replied(r));
      SentExact(st.pool.workers, m);
      assert multiset(st.pool.taken)[m] > 0;
      var k :| 0 <= k < |st.pool.taken| && st.pool.taken[k] == m;
      assert !CompleteMsg(st.pool.taken[k]);
    }
  }

  lemma FromWorker(st: State, k: nat)
    requires Conserved(st.pool) && k < |st.pool.taken|
    ensures var m := st.pool.taken[k];
            m.worker < |st.pool.workers| && st.pool.workers[m.worker] == Finished(m.outcome)
  {
    assert multiset(st.pool.taken)[st.pool.taken[k]] > 0;
    SentExact(st.pool.workers, st.pool.taken[k]);
  }

  lemma EverythingTaken(st: State)
    requires Conserved(st.pool) && |st.pool.taken| == |st.pool.workers|
    ensures multiset(st.pool.taken) == Sent(st.pool.workers)
  {
    MessagesCount(st.pool);
    assert multiset(st.pool.results) == multiset{} && multiset(st.pool.failed) == multiset{};
  }

  lemma {:induction false} LastReplyIncomplete(ms: seq<Msg>)
    requires NoneComplete(ms)
    ensures LastReply(ms).Some? ==> !LastReply(ms).value.complete
    decreases |ms|
  {
    if ms != [] && !ms[|ms| - 1].outcome.Replied? {
      LastReplyIncomplete(ms[..|ms| - 1]);
    }
  }

  /** While the caller's context is never done the loop gives no round away. */
  lemma {:induction false} NoSpinsWithoutExpiry(n: nat, steps: seq<Step>)
    requires IsRun(n, steps) && ParentExpires !in steps
    ensures !End(n, steps).parentDone && End(n, steps).spins == 0
    decreases |steps|
  {
    if steps != [] {
      var init := steps[..|steps| - 1];
      assert steps == init + [steps[|steps| - 1]];
      NoSpinsWithoutExpiry(n, init);
    }
  }

  /** If the caller's context is never done and a complete response is sent, a complete response is returned. */
  lemma CompleteResponseWins(n: nat, steps: seq<Step>)
    requires IsRun(n, steps) && End(n, steps).main.Returned? && ParentExpires !in steps
    requires SomeCompleteSent(End(n, steps))
    ensures var m := End(n, steps).main; m.response.Some? && m.response.value.complete && m.err.None?
  {
    NoSpinsWithoutExpiry(n, steps);
    ResultExact(n, steps);
  }

  // ----- what every worker sends, in every run

  /** What the workers and their context do in a run; None stands for a step of the caller. */
  function Traced(steps: seq<Step>): (t: Trace)
    ensures |t| == |steps|
    ensures forall k :: 0 <= k < |steps| ==> t[k] == if steps[k].Other? then Some(steps[k].a) else None
  {
    seq(|steps|, k requires 0 <= k < |steps| => if steps[k].Other? then Some(steps[k].a) else None)
  }

  /** The workers' context is done when its time is up, when the caller's context is, or when the call has returned. */
  lemma {:induction false} DoneIff(n: nat, steps: seq<Step>)
    requires IsRun(n, steps)
    ensures End(n, steps).pool.ctxDone <==> Other(Expire) in steps || ParentExpires in steps || End(n, steps).main.Returned?
    ensures End(n, steps).parentDone <==> ParentExpires in steps
    decreases |steps|
  {
    hide After;
    if steps != [] {
      var init, last := steps[..|steps| - 1], steps[|steps| - 1];
      DoneIff(n, init);
      StepDone(n, End(n, init), last);
      assert steps == init + [last];
    }
  }

  lemma StepDone(n: nat, st: State, s: Step)
    requires Possible(n, st, s)
    ensures var q := After(n, st, s);
            && (q.pool.ctxDone <==>
                  st.pool.ctxDone || s == Other(Expire) || s == ParentExpires || (q.main.Returned? && !st.main.Returned?))
            && (st.main.Returned? ==> q.main.Returned?)
            && (q.parentDone <==> st.parentDone || s == ParentExpires)
  {
  }

  lemma StepExplained(n: nat, st: State, s: Step, i: nat, returned: Option<CallResult>, expired: bool)
    requires Possible(n, st, s) && i < |st.pool.workers| && Explained(st.pool.workers[i], returned, expired)
    requires s.Other? && s.a.GiveUp? ==> expired
    ensures var q := After(n, st, s).pool;
            && i < |q.workers|
            && if s.Other? && IsReturn(Some(s.a), i) then returned.None? && Explained(q.workers[i], Some(s.a.result), expired)
               else Explained(q.workers[i], returned, expired)
  {
    hide Explained;
    match s
    case Spawn => NextExplained(st.pool, Launch(st.main.next), i, returned, expired);
    case ReceiveReply => NextExplained(st.pool, TakeReply, i, returned, expired);
    case ReceiveError => NextExplained(st.pool, TakeError, i, returned, expired);
    case Other(a) => NextExplained(st.pool, a, i, returned, expired);
    case _ =>
  }

  lemma {:induction false} RunExplained(n: nat, steps: seq<Step>, i: nat)
    requires IsRun(n, steps) && i < n
    ensures i < |End(n, steps).pool.workers| && ReturnedOnce(Traced(steps), i)
    ensures Explained(End(n, steps).pool.workers[i], ReturnOf(Traced(steps), i), End(n, steps).pool.ctxDone)
    decreases |steps|
  {
    hide Explained, ReturnedOnce, After;
    if steps == [] {
      NothingReturned(n, i);
    } else {
      var init, last := steps[..|steps| - 1], steps[|steps| - 1];
      var t, st, returned := Traced(steps), End(n, init), ReturnOf(Traced(init), i);
      assert steps == init + [last] && t[..|init|] == Traced(init);
      RunExplained(n, init, i);
      StepExplained(n, st, last, i, returned, st.pool.ctxDone);
      StaysDone(n, st, last);
      if !st.pool.ctxDone && End(n, steps).pool.ctxDone { ExplainedLater(End(n, steps).pool.workers[i], ReturnOf(t, i)); }
      OneMoreStep(t, i);
    }
  }

  lemma NothingReturned(n: nat, i: nat)
    requires i < n
    ensures i < |End(n, []).pool.workers| && ReturnedOnce(Traced([]), i)
    ensures Explained(End(n, []).pool.workers[i], ReturnOf(Traced([]), i), End(n, []).pool.ctxDone)
  {
  }

  lemma StaysDone(n: nat, st: State, s: Step)
    requires Possible(n, st, s)
    ensures st.pool.ctxDone ==> After(n, st, s).pool.ctxDone
    ensures s.Other? && s.a.GiveUp? ==> st.pool.ctxDone
  {
  }

  /**
    In every run, also when a context expires: a worker's call returns exactly once before it finishes, and
    it sends what the call gave. Only if the call replied and its context was done by then it may send the
    context's error instead.
   */
  lemma SentIsReturned(n: nat, steps: seq<Step>, i: nat)
    requires IsRun(n, steps) && i < n
    ensures var ws := End(n, steps).pool.workers;
            && |ws| == n
            && (ws[i].Finished? ==>
                  exists k, r :: ReturnsAt(Traced(steps), i, k, r) &&
                    match r
                    case CallError(e) => ws[i].sent == Failed(e)
                    case NoReply => ws[i].sent == Failed(NULL_RESULT)
                    case CallReply(rep) =>
                      || ws[i].sent == Replied(rep)
                      || (ws[i].sent == Failed(CTX_ERROR)
                          && (Other(Expire) in steps || ParentExpires in steps || End(n, steps).main.Returned?)))
  {
    RunKeepsInv(n, steps);
    RunExplained(n, steps, i);
    DoneIff(n, steps);
    var ws := End(n, steps).pool.workers;
    if ws[i].Finished? {
      var r := ReturnOf(Traced(steps), i).value;
      var k :| ReturnsAt(Traced(steps), i, k, r);
    }
  }

  /** A worker with a reply can give it up exactly when one of the contexts has expired or the call has returned. */
  lemma GiveUpIff(n: nat, steps: seq<Step>, i: nat)
    requires IsRun(n, steps) && i < |End(n, steps).pool.workers| && End(n, steps).pool.workers[i].Choosing?
    ensures Possible(n, End(n, steps), Other(GiveUp(i)))
            <==> Other(Expire) in steps || ParentExpires in steps || End(n, steps).main.Returned?
  {
    DoneIff(n, steps);
  }

  /** Either context can expire as long as it is not done. */
  lemma ExpireIff(n: nat, steps: seq<Step>)
    requires IsRun(n, steps)
    ensures Possible(n, End(n, steps), ParentExpires) <==> ParentExpires !in steps
    ensures Possible(n, End(n, steps), Other(Expire))
            <==> Other(Expire) !in steps && ParentExpires !in steps && !End(n, steps).main.Returned?
  {
    DoneIff(n, steps);
  }

  /** The select of the loop can take from either channel that holds something, or see the caller's context done. */
  lemma SelectIff(n: nat, steps: seq<Step>)
    requires IsRun(n, steps) && End(n, steps).main.Looping?
    ensures var st := End(n, steps);
            st.main.round < n ==>
              && (Possible(n, st, ReceiveReply) <==> st.pool.results != [])
              && (Possible(n, st, ReceiveError) <==> st.pool.failed != [])
              && (Possible(n, st, SeeDone) <==> ParentExpires in steps)
  {
    hide Sent, Launched, Gathered;
    RunKeepsInv(n, steps);
    DoneIff(n, steps);
    var p := End(n, steps).pool;
    if p.results != [] { KindHead(p.results, true); }
    if p.failed != [] { KindHead(p.failed, false); }
  }

  /** A call of the run gave the error e, or no reply, or a reply that came too late. */
  ghost predicate ErrorOf(n: nat, steps: seq<Step>, e: string) {
    exists i, r :: 0 <= i < n && Other(Return(i, r)) in steps
                   && (r == CallError(e) || (r == NoReply && e == NULL_RESULT)
                       || (r.CallReply? && e == CTX_ERROR && (Other(Expire) in steps || ParentExpires in steps)))
  }

  /** The error returned is one that a call gave, that of a missing reply, or after an expiry the context's. */
  lemma {:induction false} ErrorExplained(n: nat, steps: seq<Step>)
    requires IsRun(n, steps) && End(n, steps).main.Returned? && End(n, steps).main.err.Some?
    ensures ErrorOf(n, steps, End(n, steps).main.err.value)
    decreases |steps|
  {
    hide ErrorOf, After;
    var init, last := steps[..|steps| - 1], steps[|steps| - 1];
    ErrorWasThere(n, End(n, init), last);
    if End(n, init).main.Returned? {
      ErrorExplained(n, init);
    } else {
      GatheredError(n, init);
    }
    assert steps == init + [last];
    ErrorLater(n, init, last, End(n, init).main.err.value);
  }

  lemma ErrorWasThere(n: nat, st: State, s: Step)
    requires Possible(n, st, s) && After(n, st, s).main.Returned? && After(n, st, s).main.err.Some?
    ensures !st.main.Launching? && st.main.err == After(n, st, s).main.err
  {
  }

  lemma ErrorLater(n: nat, steps: seq<Step>, s: Step, e: string)
    requires ErrorOf(n, steps, e)
    ensures ErrorOf(n, steps + [s], e)
  {
    var i, r :| 0 <= i < n && Other(Return(i, r)) in steps
                && (r == CallError(e) || (r == NoReply && e == NULL_RESULT)
                    || (r.CallReply? && e == CTX_ERROR && (Other(Expire) in steps || ParentExpires in steps)));
    assert Other(Return(i, r)) in steps + [s];
  }

  lemma GatheredError(n: nat, steps: seq<Step>)
    requires IsRun(n, steps) && End(n, steps).main.Looping? && End(n, steps).main.err.Some?
    ensures ErrorOf(n, steps, End(n, steps).main.err.value)
  {
    hide IsRun, End, Sent, LastError, LastReply, Launched, Traced;
    RunKeepsInv(n, steps);
    var st := End(n, steps);
    LastExact(st.pool.taken);
    var j := LastErrorAt(st.pool.taken);
    var i := st.pool.taken[j].worker;
    FromWorker(st, j);
    SentIsReturned(n, steps, i);
    var k: nat, r :| ReturnsAt(Traced(steps), i, k, r);
    assert steps[k] == Other(Return(i, r));
  }

  lemma {:induction false} LastErrorAt(ms: seq<Msg>) returns (j: nat)
    requires LastError(ms).Some?
    ensures j < |ms| && ms[j].outcome == Failed(LastError(ms).value)
    decreases |ms|
  {
    j := |ms| - 1;
    if !ms[j].outcome.Failed? { j := LastErrorAt(ms[..j]); }
  }

  // ----- messages are received in the order of sending

  lemma {:induction false} ReceivedInOrder(n: nat, steps: seq<Step>)
    requires IsRun(n, steps)
    ensures var p := End(n, steps).pool;
            && Senders(OfKind(p.taken, true) + p.results) == SentOf(Traced(steps), true)
            && Senders(OfKind(p.taken, false) + p.failed) == SentOf(Traced(steps), false)
    decreases |steps|
  {
    hide SentOf, Senders, OfKind, Conserved, After;
    if steps == [] {
      NothingReceived(n);
    } else {
      var init, last := steps[..|steps| - 1], steps[|steps| - 1];
      var t, a := Traced(init), if last.Other? then Some(last.a) else None;
      RunKeepsInv(n, init);
      ReceivedInOrder(n, init);
      StepInOrder(n, End(n, init), last, SentOf(t, true), SentOf(t, false));
      assert Traced(steps) == t + [a];
      SentOfSnoc(t, a, true);
      SentOfSnoc(t, a, false);
    }
  }

  lemma NothingReceived(n: nat)
    ensures var p := End(n, []).pool;
            && Senders(OfKind(p.taken, true) + p.results) == SentOf(Traced([]), true)
            && Senders(OfKind(p.taken, false) + p.failed) == SentOf(Traced([]), false)
  {
  }

  lemma StepInOrder(n: nat, st: State, s: Step, replies: seq<nat>, errors: seq<nat>)
    requires Conserved(st.pool) && Possible(n, st, s)
    requires Senders(OfKind(st.pool.taken, true) + st.pool.results) == replies
    requires Senders(OfKind(st.pool.taken, false) + st.pool.failed) == errors
    ensures var q := After(n, st, s).pool;
            && Senders(OfKind(q.taken, true) + q.results) == replies + (if s.Other? && s.a.SendReply? then [s.a.i] else [])
            && Senders(OfKind(q.taken, false) + q.failed) == errors + (if s.Other? && s.a.SendError? then [s.a.i] else [])
  {
    hide OfKind, Conserved;
    match s
    case Spawn => NextFifo(st.pool, Launch(st.main.next));
    case ReceiveReply => NextFifo(st.pool, TakeReply);
    case ReceiveError => NextFifo(st.pool, TakeError);
    case Other(a) => NextFifo(st.pool, a);
    case _ =>
  }

  // ----- the last reply and the last error

  /** Which reply and which error are the last ones. */
  lemma {:induction false} LastExact(ms: seq<Msg>)
    ensures LastReply(ms).None? <==> forall i :: 0 <= i < |ms| ==> !ms[i].outcome.Replied?
    ensures LastError(ms).None? <==> forall i :: 0 <= i < |ms| ==> !ms[i].outcome.Failed?
    ensures forall i :: 0 <= i < |ms| && ms[i].outcome.Replied? && (forall j :: i < j < |ms| ==> !ms[j].outcome.Replied?) ==>
              LastReply(ms) == Some(ms[i].outcome.reply)
    ensures forall i :: 0 <= i < |ms| && ms[i].outcome.Failed? && (forall j :: i < j < |ms| ==> !ms[j].outcome.Failed?) ==>
              LastError(ms) == Some(ms[i].outcome.err)
    decreases |ms|
  {
    if ms != [] {
      var init := ms[..|ms| - 1];
      LastExact(init);
      assert forall i :: 0 <= i < |init| ==> ms[i] == init[i];
    }
  }
}
