/**
  Goroutines that each call a backend and send one outcome into one of two buffered channels. One
  action is one atomic step; every interleaving is a sequence of enabled actions.
 */
module WorkerPool {
  import opened Wrappers
  import opened MergeSpec
  import opened Sequences

  /** What a backend call returns. */
  datatype CallResult = CallError(err: string) | NoReply | CallReply(reply: Reply)

  datatype Worker =
    | Waiting                    // not started
    | Skipped                    // filtered out, never started
    | Calling                    // in the backend
    | Failing(err: string)       // about to send to the error channel
    | Choosing(reply: Reply)     // in the select: send the reply or see the context done
    | Finished(sent: Outcome)

  datatype Msg = Msg(worker: nat, outcome: Outcome)

  /** taken logs what the collector has received, in order; ctxDone is the workers' context. */
  datatype Pool = Pool(workers: seq<Worker>, results: seq<Msg>, failed: seq<Msg>, taken: seq<Msg>, ctxDone: bool)

  datatype Action =
    | Launch(i: nat)
    | Skip(i: nat)
    | Return(i: nat, result: CallResult)
    | SendError(i: nat)
    | SendReply(i: nat)
    | GiveUp(i: nat)
    | Expire
    | TakeReply
    | TakeError

  /** Both channels have room for one message per worker. */
  function Capacity(p: Pool): nat { |p.workers| }

  predicate Enabled(p: Pool, a: Action) {
    match a
    case Launch(i) => i < |p.workers| && p.workers[i].Waiting?
    case Skip(i) => i < |p.workers| && p.workers[i].Waiting?
    case Return(i, _) => i < |p.workers| && p.workers[i].Calling?
    case SendError(i) => i < |p.workers| && p.workers[i].Failing? && |p.failed| < Capacity(p)
    case SendReply(i) => i < |p.workers| && p.workers[i].Choosing? && |p.results| < Capacity(p)
    case GiveUp(i) => i < |p.workers| && p.workers[i].Choosing? && p.ctxDone
    case Expire => !p.ctxDone
    case TakeReply => p.results != []
    case TakeError => p.failed != []
  }

  function AfterCall(r: CallResult): Worker {
    match r
    case CallError(e) => Failing(e)
    case NoReply => Failing(NULL_RESULT)
    case CallReply(rep) => Choosing(rep)
  }

  function Next(p: Pool, a: Action): Pool
    requires Enabled(p, a)
  {
    match a
    case Launch(i) => p.(workers := p.workers[i := Calling])
    case Skip(i) => p.(workers := p.workers[i := Skipped])
    case Return(i, r) => p.(workers := p.workers[i := AfterCall(r)])
    case SendError(i) =>
      var o := Failed(p.workers[i].err);
      p.(workers := p.workers[i := Finished(o)], failed := p.failed + [Msg(i, o)])
    case SendReply(i) =>
      var o := Replied(p.workers[i].reply);
      p.(workers := p.workers[i := Finished(o)], results := p.results + [Msg(i, o)])
    case GiveUp(i) => p.(workers := p.workers[i := Failing(CTX_ERROR)])
    case Expire => p.(ctxDone := true)
    case TakeReply => p.(results := p.results[1..], taken := p.taken + [p.results[0]])
    case TakeError => p.(failed := p.failed[1..], taken := p.taken + [p.failed[0]])
  }

  function Fresh(n: nat): Pool {
    Pool(seq(n, _ => Waiting), [], [], [], false)
  }

  // ----- conservation

  /** Every message sent so far: in a channel or with the collector. */
  ghost function Messages(p: Pool): multiset<Msg> {
    multiset(p.results) + multiset(p.failed) + multiset(p.taken)
  }

  ghost function SentBy(i: nat, w: Worker): multiset<Msg> {
    if w.Finished? then multiset{Msg(i, w.sent)} else multiset{}
  }

  /** One message for each finished worker. */
  ghost function Sent(workers: seq<Worker>): multiset<Msg> {
    if workers == [] then multiset{}
    else
      Sent(workers[..|workers| - 1]) + SentBy(|workers| - 1, workers[|workers| - 1])
  }

  /** Buffered and collected messages are exactly those of the finished workers, each in its channel. */
  ghost predicate Conserved(p: Pool) {
    && Messages(p) == Sent(p.workers)
    && AllOfKind(p.results, true) && AllOfKind(p.failed, false)
  }

  ghost predicate AllOfKind(ms: seq<Msg>, reply: bool) {
    forall k :: 0 <= k < |ms| ==> if reply then ms[k].outcome.Replied? else ms[k].outcome.Failed?
  }

  lemma KindAppend(ms: seq<Msg>, reply: bool, m: Msg)
    requires AllOfKind(ms, reply) && if reply then m.outcome.Replied? else m.outcome.Failed?
    ensures AllOfKind(ms + [m], reply)
    ensures multiset(ms + [m]) == multiset(ms) + multiset{m}
  {
  }

  lemma KindHead(ms: seq<Msg>, reply: bool)
    requires AllOfKind(ms, reply) && ms != []
    ensures AllOfKind(ms[1..], reply)
    ensures if reply then ms[0].outcome.Replied? else ms[0].outcome.Failed?
  {
  }

  function CountFinished(workers: seq<Worker>): (n: nat)
    ensures n <= |workers|
  {
    if workers == [] then 0
    else CountFinished(workers[..|workers| - 1]) + if workers[|workers| - 1].Finished? then 1 else 0
  }

  lemma {:induction false} SentSize(workers: seq<Worker>)
    ensures |Sent(workers)| == CountFinished(workers)
    decreases |workers|
  {
    if workers != [] { SentSize(workers[..|workers| - 1]); }
  }

  lemma {:induction false} SentUpdate(workers: seq<Worker>, i: nat, w: Worker)
    requires i < |workers| && !workers[i].Finished?
    ensures Sent(workers[i := w]) == Sent(workers) + SentBy(i, w)
    decreases |workers|
  {
    hide Sent;
    var n, other := |workers| - 1, workers[i := w];
    SentLast(workers);
    SentLast(other);
    if i < n {
      SentUpdate(workers[..n], i, w);
      assert other[..n] == workers[..n][i := w];
      SwapLast(Sent(workers[..n]), SentBy(i, w), SentBy(n, workers[n]));
    } else {
      assert other[..n] == workers[..n];
      assert SentBy(i, workers[i]) == multiset{};
      assert Sent(workers[..n]) + multiset{} == Sent(workers[..n]);
    }
  }

  lemma SentLast(workers: seq<Worker>)
    requires workers != []
    ensures var n := |workers| - 1; Sent(workers) == Sent(workers[..n]) + SentBy(n, workers[n])
  {
  }

  lemma SwapLast<T>(a: multiset<T>, b: multiset<T>, c: multiset<T>)
    ensures (a + b) + c == (a + c) + b
  {
  }

  lemma {:induction false} CountUpdate(workers: seq<Worker>, i: nat)
    requires i < |workers| && !workers[i].Finished?
    ensures CountFinished(workers) < |workers|
    decreases |workers|
  {
    if i < |workers| - 1 { CountUpdate(workers[..|workers| - 1], i); }
  }

  lemma {:induction false} SentExact(workers: seq<Worker>, m: Msg)
    ensures Sent(workers)[m] == if m.worker < |workers| && workers[m.worker] == Finished(m.outcome) then 1 else 0
    decreases |workers|
  {
    if workers != [] { SentExact(workers[..|workers| - 1], m); }
  }

  /** Buffered plus collected outcomes equal the number of finished calls. */
  lemma MessagesCount(p: Pool)
    requires Conserved(p)
    ensures |p.results| + |p.failed| + |p.taken| == CountFinished(p.workers) <= |p.workers|
  {
    SentSize(p.workers);
    assert |Messages(p)| == |p.results| + |p.failed| + |p.taken|;
  }

  lemma FreshConserved(n: nat)
    ensures Conserved(Fresh(n))
  {
    NoneSent(Fresh(n).workers);
  }

  lemma {:induction false} NoneSent(workers: seq<Worker>)
    requires forall i :: 0 <= i < |workers| ==> workers[i].Waiting?
    ensures Sent(workers) == multiset{}
    decreases |workers|
  {
    if workers != [] { NoneSent(workers[..|workers| - 1]); }
  }

  lemma AddToSum(r: multiset<Msg>, f: multiset<Msg>, t: multiset<Msg>, m: multiset<Msg>)
    ensures (r + m) + f + t == (r + f + t) + m
    ensures r + (f + m) + t == (r + f + t) + m
    ensures r + f + (t + m) == (r + f + t) + m
  {
  }

  /** A worker that moves on without having sent anything. */
  lemma MoveConserved(p: Pool, i: nat, w: Worker)
    requires Conserved(p) && i < |p.workers| && !p.workers[i].Finished? && !w.Finished?
    ensures Conserved(p.(workers := p.workers[i := w]))
  {
    SentUpdate(p.workers, i, w);
    hide Sent, AllOfKind;
    assert SentBy(i, w) == multiset{};
    assert Sent(p.workers) + multiset{} == Sent(p.workers);
  }

  /** Sending moves a worker's outcome into its channel. */
  lemma SendConserved(p: Pool, i: nat, o: Outcome)
    requires Conserved(p) && i < |p.workers| && !p.workers[i].Finished? && !o.NullReply?
    ensures var q := p.(workers := p.workers[i := Finished(o)]);
            Conserved(if o.Replied? then q.(results := p.results + [Msg(i, o)]) else q.(failed := p.failed + [Msg(i, o)]))
  {
    SentUpdate(p.workers, i, Finished(o));
    hide Sent, AllOfKind;
    var m := Msg(i, o);
    AddToSum(multiset(p.results), multiset(p.failed), multiset(p.taken), multiset{m});
    KindAppend(if o.Replied? then p.results else p.failed, o.Replied?, m);
  }

  /** Receiving moves a message from its channel to the log. */
  lemma TakeConserved(p: Pool, reply: bool)
    requires Conserved(p) && (if reply then p.results else p.failed) != []
    ensures Conserved(if reply then p.(results := p.results[1..], taken := p.taken + [p.results[0]])
                      else p.(failed := p.failed[1..], taken := p.taken + [p.failed[0]]))
  {
    hide Sent, AllOfKind;
    var c := if reply then p.results else p.failed;
    TakeFirst(c);
    KindHead(c, reply);
    assert multiset(p.taken + [c[0]]) == multiset(p.taken) + multiset{c[0]};
    var r, f := multiset(p.results), multiset(p.failed);
    AddToSum(if reply then multiset(c[1..]) else r, if reply then f else multiset(c[1..]), multiset(p.taken), multiset{c[0]});
  }

  /** Every step of every worker and of the collector keeps the conservation law. */
  lemma NextConserved(p: Pool, a: Action)
    requires Conserved(p) && Enabled(p, a)
    ensures Conserved(Next(p, a)) && |Next(p, a).workers| == |p.workers|
  {
    hide Sent, AllOfKind, Conserved;
    match a
    case Launch(i) => MoveConserved(p, i, Calling);
    case Skip(i) => MoveConserved(p, i, Skipped);
    case Return(i, r) => MoveConserved(p, i, AfterCall(r));
    case SendError(i) => SendConserved(p, i, Failed(p.workers[i].err));
    case SendReply(i) => SendConserved(p, i, Replied(p.workers[i].reply));
    case GiveUp(i) => MoveConserved(p, i, Failing(CTX_ERROR));
    case Expire => ExpiredConserved(p);
    case TakeReply => TakeConserved(p, true);
    case TakeError => TakeConserved(p, false);
  }

  lemma ExpiredConserved(p: Pool)
    requires Conserved(p)
    ensures Conserved(p.(ctxDone := true))
  {
    hide Sent, AllOfKind;
  }

  /** No worker ever blocks on its send: while it has not sent, both channels have room. */
  lemma SendNeverBlocks(p: Pool, i: nat)
    requires Conserved(p) && i < |p.workers| && !p.workers[i].Finished?
    ensures |p.results| < Capacity(p) && |p.failed| < Capacity(p)
    ensures p.workers[i].Failing? ==> Enabled(p, SendError(i))
    ensures p.workers[i].Choosing? ==> Enabled(p, SendReply(i))
  {
    MessagesCount(p);
    CountUpdate(p.workers, i);
  }

  // ----- what is sent and received

  /** The messages of one kind, in order. */
  function OfKind(ms: seq<Msg>, reply: bool): seq<Msg> {
    if ms == [] then []
    else
      var last := ms[|ms| - 1];
      OfKind(ms[..|ms| - 1], reply) + if last.outcome.Replied? == reply then [last] else []
  }

  lemma OfKindSnoc(ms: seq<Msg>, m: Msg, reply: bool)
    ensures OfKind(ms + [m], reply) == OfKind(ms, reply) + if m.outcome.Replied? == reply then [m] else []
  {
    assert (ms + [m])[..|ms|] == ms;
  }

  /**
    Both channels are queues: what has been received of a kind and then what is buffered is always what
    has been sent of it, in the order of sending; and the log only grows at its end.
   */
  lemma NextFifo(p: Pool, a: Action)
    requires Conserved(p) && Enabled(p, a)
    ensures var q := Next(p, a);
            && p.taken <= q.taken
            && OfKind(q.taken, true) + q.results
               == OfKind(p.taken, true) + p.results
                  + (if a.SendReply? then [Msg(a.i, Replied(p.workers[a.i].reply))] else [])
            && OfKind(q.taken, false) + q.failed
               == OfKind(p.taken, false) + p.failed
                  + (if a.SendError? then [Msg(a.i, Failed(p.workers[a.i].err))] else [])
  {
    hide Sent, OfKind;
    match a
    case TakeReply =>
      KindHead(p.results, true);
      TakenFifo(p.taken, p.results, true);
      OfKindSnoc(p.taken, p.results[0], false);
    case TakeError =>
      KindHead(p.failed, false);
      TakenFifo(p.taken, p.failed, false);
      OfKindSnoc(p.taken, p.failed[0], true);
    case _ =>
  }

  lemma TakenFifo(taken: seq<Msg>, c: seq<Msg>, reply: bool)
    requires c != [] && c[0].outcome.Replied? == reply
    ensures OfKind(taken + [c[0]], reply) + c[1..] == OfKind(taken, reply) + c
  {
    hide OfKind;
    OfKindSnoc(taken, c[0], reply);
    assert c == [c[0]] + c[1..];
  }

  /**
    Where a worker stands when its call has returned this (None: not yet): it sends what the call gave,
    unless the call replied and the context was done by then.
   */
  predicate Explained(w: Worker, returned: Option<CallResult>, expired: bool) {
    match w
    case Failing(e) => returned.Some? && Answers(Failed(e), returned.value, expired)
    case Choosing(rep) => returned == Some(CallReply(rep))
    case Finished(o) => returned.Some? && Answers(o, returned.value, expired)
    case _ => returned.None?
  }

  predicate Answers(o: Outcome, r: CallResult, expired: bool) {
    match r
    case CallError(e) => o == Failed(e)
    case NoReply => o == Failed(NULL_RESULT)
    case CallReply(rep) => o == Replied(rep) || (expired && o == Failed(CTX_ERROR))
  }

  /** One step: a call returns at most once, and only its return and the expiry change what a worker may send. */
  lemma NextExplained(p: Pool, a: Action, i: nat, returned: Option<CallResult>, expired: bool)
    requires Enabled(p, a) && i < |p.workers| && Explained(p.workers[i], returned, expired)
    requires a.GiveUp? ==> expired
    ensures i < |Next(p, a).workers|
    ensures if a.Return? && a.i == i then returned.None? && Explained(Next(p, a).workers[i], Some(a.result), expired)
            else Explained(Next(p, a).workers[i], returned, expired)
  {
  }

  lemma ExplainedLater(w: Worker, returned: Option<CallResult>)
    requires Explained(w, returned, false)
    ensures Explained(w, returned, true)
  {
  }

  // ----- traces

  /** What the workers and the context do, step by step; None stands for a step of the collector. */
  type Trace = seq<Option<Action>>

  predicate IsReturn(a: Option<Action>, i: nat) {
    a.Some? && a.value.Return? && a.value.i == i
  }

  /** What the call of worker i has returned. */
  function ReturnOf(t: Trace, i: nat): Option<CallResult> {
    if t == [] then None
    else if IsReturn(t[|t| - 1], i) then Some(t[|t| - 1].value.result)
    else ReturnOf(t[..|t| - 1], i)
  }

  /** Step k returns the result r for worker i, and no other step returns for it. */
  ghost predicate ReturnsAt(t: Trace, i: nat, k: nat, r: CallResult) {
    && k < |t| && t[k] == Some(Return(i, r))
    && forall j :: 0 <= j < |t| && IsReturn(t[j], i) ==> j == k
  }

  ghost predicate NeverReturns(t: Trace, i: nat) {
    forall j :: 0 <= j < |t| ==> !IsReturn(t[j], i)
  }

  ghost predicate ReturnedOnce(t: Trace, i: nat) {
    if ReturnOf(t, i).None? then NeverReturns(t, i) else exists k :: ReturnsAt(t, i, k, ReturnOf(t, i).value)
  }

  lemma OneMoreStep(t: Trace, i: nat)
    requires t != [] && ReturnedOnce(t[..|t| - 1], i)
    requires IsReturn(t[|t| - 1], i) ==> ReturnOf(t[..|t| - 1], i).None?
    ensures ReturnedOnce(t, i)
  {
    var n := |t| - 1;
    var init := t[..n];
    assert forall j :: 0 <= j < n ==> t[j] == init[j];
    if IsReturn(t[n], i) {
      assert ReturnsAt(t, i, n, t[n].value.result);
    } else if ReturnOf(init, i).Some? {
      var k :| ReturnsAt(init, i, k, ReturnOf(init, i).value);
      assert ReturnsAt(t, i, k, ReturnOf(init, i).value);
    }
  }

  function Senders(ms: seq<Msg>): (ws: seq<nat>)
    ensures |ws| == |ms|
  {
    seq(|ms|, k requires 0 <= k < |ms| => ms[k].worker)
  }

  /** The workers that have sent a reply, or an error, in the order of sending. */
  function SentOf(t: Trace, reply: bool): seq<nat> {
    if t == [] then []
    else
      var a := t[|t| - 1];
      SentOf(t[..|t| - 1], reply)
      + if a.Some? && (if reply then a.value.SendReply? else a.value.SendError?) then [a.value.i] else []
  }

  lemma SentOfSnoc(t: Trace, a: Option<Action>, reply: bool)
    ensures SentOf(t + [a], reply)
            == SentOf(t, reply)
               + if a.Some? && (if reply then a.value.SendReply? else a.value.SendError?) then [a.value.i] else []
  {
    assert (t + [a])[..|t|] == t;
  }

  // ----- progress

  function Rank(w: Worker): nat {
    match w
    case Waiting => 5
    case Calling => 4
    case Choosing(_) => 3
    case Failing(_) => 2
    case _ => 0
  }

  function Ranks(workers: seq<Worker>): nat {
    if workers == [] then 0 else Ranks(workers[..|workers| - 1]) + Rank(workers[|workers| - 1])
  }

  lemma {:induction false} RanksUpdate(workers: seq<Worker>, i: nat, w: Worker)
    requires i < |workers|
    ensures Ranks(workers[i := w]) == Ranks(workers) - Rank(workers[i]) + Rank(w)
    decreases |workers|
  {
    var n := |workers| - 1;
    if i < n {
      RanksUpdate(workers[..n], i, w);
      assert workers[i := w][..n] == workers[..n][i := w];
    } else {
      assert workers[i := w][..n] == workers[..n];
    }
  }

  function Energy(p: Pool): nat {
    Ranks(p.workers) + |p.results| + |p.failed| + if p.ctxDone then 0 else 1
  }

  /** Every step uses up energy, so no schedule goes on for ever. */
  lemma NextUsesEnergy(p: Pool, a: Action)
    requires Enabled(p, a)
    ensures Energy(Next(p, a)) < Energy(p)
  {
    hide Ranks;
    match a
    case Launch(i) => RanksUpdate(p.workers, i, Calling);
    case Skip(i) => RanksUpdate(p.workers, i, Skipped);
    case Return(i, r) => RanksUpdate(p.workers, i, AfterCall(r));
    case SendError(i) => RanksUpdate(p.workers, i, Finished(Failed(p.workers[i].err)));
    case SendReply(i) => RanksUpdate(p.workers, i, Finished(Replied(p.workers[i].reply)));
    case GiveUp(i) => RanksUpdate(p.workers, i, Failing(CTX_ERROR));
    case Expire =>
    case TakeReply =>
    case TakeError =>
  }

  lemma {:induction false} FreshEnergy(n: nat)
    ensures Energy(Fresh(n)) == 5 * n + 1
  {
    WaitingRanks(Fresh(n).workers);
  }

  lemma {:induction false} WaitingRanks(workers: seq<Worker>)
    requires forall i :: 0 <= i < |workers| ==> workers[i].Waiting?
    ensures Ranks(workers) == 5 * |workers|
    decreases |workers|
  {
    if workers != [] { WaitingRanks(workers[..|workers| - 1]); }
  }

  /** A worker that has been started and has not finished always has a step, once its call returns. */
  lemma WorkerCanStep(p: Pool, i: nat, r: CallResult) returns (a: Action)
    requires Conserved(p) && i < |p.workers|
    requires p.workers[i].Calling? || p.workers[i].Failing? || p.workers[i].Choosing?
    ensures Enabled(p, a) && (a == Return(i, r) || a == SendError(i) || a == SendReply(i))
  {
    SendNeverBlocks(p, i);
    match p.workers[i]
    case Calling => a := Return(i, r);
    case Failing(_) => a := SendError(i);
    case Choosing(_) => a := SendReply(i);
  }

  /** The outcomes received, in order of arrival. */
  function Outcomes(ms: seq<Msg>): (os: seq<Outcome>)
    ensures |os| == |ms|
  {
    seq(|ms|, i requires 0 <= i < |ms| => ms[i].outcome)
  }

  lemma SameOutcomes(ms: seq<Msg>, ns: seq<Msg>)
    requires multiset(ms) == multiset(ns)
    ensures multiset(Outcomes(ms)) == multiset(Outcomes(ns))
  {
    var f := (m: Msg) => m.outcome;
    MapSame(f, ms, ns);
    assert Outcomes(ms) == MapSeq(f, ms) && Outcomes(ns) == MapSeq(f, ns);
  }
}
