/** Sequential merging, on values: what is propagated from call to call and what a run amounts to. */
module SequentialSpec {
  import opened Wrappers
  import opened MergeSpec

  type Strings = map<string, string>

  /** Where a parameter comes from: a part of an earlier response's data, or its whole body. */
  datatype Replacement = Replacement(backendIndex: nat, destination: string, source: seq<string>, fullResponse: bool)

  /** The textual value at a source path of some data, as they are at that moment; None when it is missing. */
  type Rendering = (Data, seq<string>) -> Option<string>

  // ----- propagation, on values

  datatype BodyText = BodyText(text: string, fails: bool)

  /** What an earlier response offers: its data now, and its body as it was sent. */
  datatype Offer = Offer(data: Data, body: Option<BodyText>)

  /** The registry of propagated values, and the backends whose body has been read. */
  datatype Memo = Memo(registry: Strings, read: set<nat>)

  const NO_MEMO := Memo(map[], {})

  predicate Settled(registry: Strings, d: string) {
    d in registry && registry[d] != ""
  }

  /** One replacement that reads the offer o. A non-empty propagated value stays; a body can be read once. */
  function Replace(r: Replacement, o: Offer, memo: Memo, render: Rendering): Memo {
    if Settled(memo.registry, r.destination) then memo
    else if r.fullResponse then
      match o.body
      case None => memo
      case Some(b) =>
        Memo(if b.fails then memo.registry
             else memo.registry[r.destination := if r.backendIndex in memo.read then "" else b.text],
             memo.read + {r.backendIndex})
    else
      match render(o.data, r.source)
      case None => memo
      case Some(v) => memo.(registry := memo.registry[r.destination := v])
  }

  lemma ReplaceReads(r: Replacement, o: Offer, memo: Memo, render: Rendering)
    ensures var after := Replace(r, o, memo, render).read; after == memo.read || after == memo.read + {r.backendIndex}
  {
  }

  /** All replacements of a round, in order; those that refer to the round's own or a later backend are ignored. */
  function ReplaceAll(reps: seq<Replacement>, offers: seq<Offer>, memo: Memo, render: Rendering): Memo {
    if reps == [] then memo
    else
      var init, r := ReplaceAll(reps[..|reps| - 1], offers, memo, render), reps[|reps| - 1];
      if r.backendIndex >= |offers| then init else Replace(r, offers[r.backendIndex], init, render)
  }

  /** The value v is what r finds: rendered data, or the body as it was sent or already read. */
  ghost predicate Finds(r: Replacement, offers: seq<Offer>, render: Rendering, v: string) {
    && r.backendIndex < |offers|
    && var o := offers[r.backendIndex];
       if r.fullResponse then o.body.Some? && !o.body.value.fails && v in {o.body.value.text, ""}
       else render(o.data, r.source) == Some(v)
  }

  /** A non-empty value stays, and anything new is what one of the replacements finds at an earlier backend. */
  lemma {:induction false} ReplaceAllSound(reps: seq<Replacement>, offers: seq<Offer>, memo: Memo, render: Rendering, d: string)
    ensures var after := ReplaceAll(reps, offers, memo, render);
            && (d in memo.registry ==> d in after.registry)
            && (Settled(memo.registry, d) ==> after.registry[d] == memo.registry[d])
            && (d in after.registry ==>
                  || (d in memo.registry && after.registry[d] == memo.registry[d])
                  || exists k :: 0 <= k < |reps| && reps[k].destination == d && Finds(reps[k], offers, render, after.registry[d]))
    decreases |reps|
  {
    if reps != [] {
      var init, after := ReplaceAll(reps[..|reps| - 1], offers, memo, render), ReplaceAll(reps, offers, memo, render);
      ReplaceAllSound(reps[..|reps| - 1], offers, memo, render, d);
      if d in after.registry && !(d in init.registry && after.registry[d] == init.registry[d]) {
        var last := reps[|reps| - 1];
        assert last.destination == d && Finds(last, offers, render, after.registry[d]);
      }
    }
  }

  /** Every replacement that finds something leaves its destination set. */
  lemma {:induction false} ReplaceAllComplete(reps: seq<Replacement>, offers: seq<Offer>, memo: Memo, render: Rendering,
                                              k: nat, v: string)
    requires k < |reps| && Finds(reps[k], offers, render, v)
    ensures reps[k].destination in ReplaceAll(reps, offers, memo, render).registry
    decreases |reps|
  {
    if k < |reps| - 1 {
      ReplaceAllComplete(reps[..|reps| - 1], offers, memo, render, k, v);
    }
  }

  /** What the data replacements to d find in a round, in order. */
  function FoundFor(reps: seq<Replacement>, offers: seq<Offer>, render: Rendering, d: string): seq<string> {
    if reps == [] then []
    else
      var r := reps[|reps| - 1];
      FoundFor(reps[..|reps| - 1], offers, render, d)
      + if r.destination != d || r.backendIndex >= |offers| then []
        else match render(offers[r.backendIndex].data, r.source) case None => [] case Some(v) => [v]
  }

  predicate FirstAt(vs: seq<string>, i: nat, v: string)
    requires i < |vs|
  {
    && vs[i] == v && (forall j :: 0 <= j < i ==> vs[j] == "")
    && (v == "" ==> forall j :: 0 <= j < |vs| ==> vs[j] == "")
  }

  /** v is the first non-empty one of these values; empty if all are. */
  ghost predicate FirstNonEmpty(vs: seq<string>, v: string) {
    exists i :: 0 <= i < |vs| && FirstAt(vs, i, v)
  }

  lemma OneMoreFound(vs: seq<string>, v: string, x: string)
    requires FirstNonEmpty(vs, v)
    ensures FirstNonEmpty(vs + [x], if v != "" then v else x)
  {
    var all := vs + [x];
    var i :| 0 <= i < |vs| && FirstAt(vs, i, v);
    assert forall j :: 0 <= j < |vs| ==> all[j] == vs[j];
    var k := if v != "" then i else |vs|;
    assert all[k] == if v != "" then v else x;
    assert FirstAt(all, if v == "" && x == "" then i else k, if v != "" then v else x);
  }

  /**
    A round of data replacements: each destination ends up with the first non-empty one of the value it had
    and the values found for it, in order; with the empty text if all are empty; unset if there are none.
   */
  lemma {:induction false} FirstNonEmptyWins(reps: seq<Replacement>, offers: seq<Offer>, memo: Memo, render: Rendering, d: string)
    requires forall k :: 0 <= k < |reps| ==> reps[k].destination == d ==> !reps[k].fullResponse
    ensures var vs := (if d in memo.registry then [memo.registry[d]] else []) + FoundFor(reps, offers, render, d);
            var after := ReplaceAll(reps, offers, memo, render).registry;
            (d in after <==> vs != []) && (d in after ==> FirstNonEmpty(vs, after[d]))
    decreases |reps|
  {
    hide FirstNonEmpty;
    var was := if d in memo.registry then [memo.registry[d]] else [];
    if reps == [] {
      assert was + [] == was;
      if d in memo.registry { OnlyOne(memo.registry[d]); }
    } else {
      var init, r := reps[..|reps| - 1], reps[|reps| - 1];
      FirstNonEmptyWins(init, offers, memo, render, d);
      var mid, before := ReplaceAll(init, offers, memo, render), was + FoundFor(init, offers, render, d);
      if r.destination == d && r.backendIndex < |offers| && render(offers[r.backendIndex].data, r.source).Some? {
        var x := render(offers[r.backendIndex].data, r.source).value;
        assert was + FoundFor(reps, offers, render, d) == before + [x];
        assert before == [] ==> before + [x] == [x];
        if before == [] { OnlyOne(x); } else { OneMoreFound(before, mid.registry[d], x); }
      } else {
        assert was + FoundFor(reps, offers, render, d) == before;
      }
    }
  }

  lemma OnlyOne(v: string)
    ensures FirstNonEmpty([v], v)
  {
    assert FirstAt([v], 0, v);
  }

  lemma {:induction false} ReadHasBody(reps: seq<Replacement>, offers: seq<Offer>, memo: Memo, render: Rendering, k: nat)
    ensures k in memo.read ==> k in ReplaceAll(reps, offers, memo, render).read
    ensures k in ReplaceAll(reps, offers, memo, render).read ==> k in memo.read || (k < |offers| && offers[k].body.Some?)
    decreases |reps|
  {
    if reps != [] {
      ReadHasBody(reps[..|reps| - 1], offers, memo, render, k);
    }
  }

  lemma ReplaceStep(reps: seq<Replacement>, offers: seq<Offer>, memo: Memo, render: Rendering, k: nat)
    requires k < |reps|
    ensures ReplaceAll(reps[..k + 1], offers, memo, render)
            == var init := ReplaceAll(reps[..k], offers, memo, render);
               if reps[k].backendIndex >= |offers| then init else Replace(reps[k], offers[reps[k].backendIndex], init, render)
  {
    assert reps[..k + 1][..k] == reps[..k];
  }

  // ----- visits

  /** One backend reached: what had been propagated when it was called, and its outcome unless it was filtered. */
  datatype Visit = Visit(memo: Memo, params: Strings, outcome: Option<Outcome>)

  function OutcomesOf(visits: seq<Visit>): seq<Outcome> {
    if visits == [] then []
    else
      OutcomesOf(visits[..|visits| - 1])
      + if visits[|visits| - 1].outcome.Some? then [visits[|visits| - 1].outcome.value] else []
  }

  ghost predicate CompleteOutcome(o: Outcome) {
    o.Replied? && o.reply.complete
  }

  /** The visit may be followed by another one. */
  ghost predicate GoesOn(v: Visit) {
    v.outcome.Some? ==> CompleteOutcome(v.outcome.value)
  }

  /** Every visit but possibly the last was filtered or complete. */
  ghost predicate Uninterrupted(visits: seq<Visit>) {
    forall k :: 0 <= k < |visits| - 1 ==> GoesOn(visits[k])
  }

  lemma {:induction false} OutcomesCount(visits: seq<Visit>)
    ensures |OutcomesOf(visits)| <= |visits|
    ensures forall o :: o in OutcomesOf(visits) ==> exists k :: 0 <= k < |visits| && visits[k].outcome == Some(o)
    ensures forall k :: 0 <= k < |visits| && visits[k].outcome.Some? ==> visits[k].outcome.value in OutcomesOf(visits)
    decreases |visits|
  {
    if visits != [] {
      var init := visits[..|visits| - 1];
      OutcomesCount(init);
      forall o | o in OutcomesOf(init)
        ensures exists k :: 0 <= k < |visits| && visits[k].outcome == Some(o)
      {
        var k :| 0 <= k < |init| && init[k].outcome == Some(o);
        assert visits[k].outcome == Some(o);
      }
      forall k | 0 <= k < |visits| && visits[k].outcome.Some?
        ensures visits[k].outcome.value in OutcomesOf(visits)
      {
        if k < |init| { assert init[k].outcome.Some?; }
      }
    }
  }

  /** What is left pending once the filtered visits have been taken off. */
  function Total(n: nat, visits: seq<Visit>): int {
    n - (|visits| - |OutcomesOf(visits)|)
  }

  /** The accumulator after the visits. */
  ghost function Merged(n: nat, visits: seq<Visit>): Acc {
    Collect(Total(n, visits), OutcomesOf(visits))
  }

  lemma {:induction false} CollectTotal(a: int, b: int, os: seq<Outcome>)
    ensures Collect(a, os) == Collect(b, os).(pending := Collect(b, os).pending + a - b)
    decreases |os|
  {
    if os != [] { CollectTotal(a, b, os[..|os| - 1]); }
  }

  /** A filtered backend lowers the pending count, nothing else. */
  lemma MergedFiltered(n: nat, visits: seq<Visit>, v: Visit)
    requires v.outcome.None?
    ensures Merged(n, visits + [v]) == Merged(n, visits).(pending := Merged(n, visits).pending - 1)
  {
    assert (visits + [v])[..|visits|] == visits;
    assert OutcomesOf(visits) + [] == OutcomesOf(visits);
    CollectTotal(Total(n, visits + [v]), Total(n, visits), OutcomesOf(visits));
  }

  /** A called backend's outcome is merged. */
  lemma MergedCalled(n: nat, visits: seq<Visit>, v: Visit)
    requires v.outcome.Some?
    ensures Merged(n, visits + [v]) == MergeSpec.Merge(Merged(n, visits), v.outcome.value)
  {
    assert (visits + [v])[..|visits|] == visits;
    var os := OutcomesOf(visits);
    assert (os + [v.outcome.value])[..|os|] == os;
  }

  lemma MergedPending(n: nat, visits: seq<Visit>)
    ensures Merged(n, visits).pending == n - |visits|
  {
    CollectShape(Total(n, visits), OutcomesOf(visits));
  }

  /**
    A complete result means that the whole list was processed without an error: exactly, that every
    backend was reached, at least one was called, every called one gave a complete reply, and there was
    only one or all carry data.
   */
  lemma CompleteMeansAll(n: nat, visits: seq<Visit>)
    requires |visits| <= n
    ensures var r, os := Result(Merged(n, visits)), OutcomesOf(visits);
            r.Some? && r.value.complete <==>
            && |visits| == n && os != []
            && (forall k :: 0 <= k < |visits| ==> GoesOn(visits[k]))
            && (|os| == 1 || AllWithData(os))
  {
    var os := OutcomesOf(visits);
    ExactCompleteness(Total(n, visits), os);
    OutcomesCount(visits);
    if AllComplete(os) {
      forall k | 0 <= k < |visits| ensures GoesOn(visits[k]) {
        if visits[k].outcome.Some? { assert visits[k].outcome.value in os; }
      }
    }
    if forall k :: 0 <= k < |visits| ==> GoesOn(visits[k]) {
      forall j | 0 <= j < |os| ensures CompleteOutcome(os[j]) { assert os[j] in os; }
    }
  }

  // ----- which data an earlier response shows

  ghost predicate HasData(acc: Acc) {
    acc.data.Some? && acc.data.value.data.Some?
  }

  function OwnData(v: Visit): Option<Data> {
    if v.outcome.Some? && v.outcome.value.Replied? then v.outcome.value.reply.data else None
  }

  /** The map of visit k's response is the one all later data are merged into. */
  ghost predicate Owner(n: nat, visits: seq<Visit>, k: nat)
    requires k < |visits|
  {
    OwnData(visits[k]).Some? && !HasData(Merged(n, visits[..k]))
  }

  /** The data that visit k's response shows after all visits: its own, unless it lent its map to the merge. */
  ghost function Seen(n: nat, visits: seq<Visit>, k: nat): Data
    requires k < |visits|
  {
    if Owner(n, visits, k) && HasData(Merged(n, visits)) then Merged(n, visits).data.value.data.value
    else if OwnData(visits[k]).Some? then OwnData(visits[k]).value else map[]
  }

  lemma OwnerStays(n: nat, visits: seq<Visit>, v: Visit, k: nat)
    requires k < |visits|
    ensures Owner(n, visits + [v], k) == Owner(n, visits, k)
    ensures OwnData((visits + [v])[k]) == OwnData(visits[k])
  {
    assert (visits + [v])[..k] == visits[..k];
  }

  lemma {:induction false} LentMapStays(n: nat, visits: seq<Visit>, k: nat)
    requires k < |visits| && OwnData(visits[k]).Some?
    ensures HasData(Merged(n, visits))
    decreases |visits|
  {
    var init, last := visits[..|visits| - 1], visits[|visits| - 1];
    assert visits == init + [last];
    if k < |init| {
      LentMapStays(n, init, k);
    }
    if last.outcome.Some? {
      MergedCalled(n, init, last);
    } else {
      MergedFiltered(n, init, last);
    }
  }

  /**
    What a replacement finds under a key of an earlier response: that response's own value, except for the
    response that lent its map to the merge. There it finds the value of the latest backend that has the key.
   */
  lemma ShownData(n: nat, visits: seq<Visit>, k: nat, key: string)
    requires k < |visits|
    ensures Look(Some(Seen(n, visits, k)), key)
            == if Owner(n, visits, k) then Latest(OutcomesOf(visits), key) else Look(OwnData(visits[k]), key)
  {
    if Owner(n, visits, k) {
      LentMapStays(n, visits, k);
      LatestWins(Total(n, visits), OutcomesOf(visits), key);
    }
  }

  // ----- what a run propagates

  /** What the responses of the visits offer to the next round. A filtered backend's placeholder has no body. */
  ghost function OffersOf(n: nat, visits: seq<Visit>, bodies: seq<Option<BodyText>>): (offers: seq<Offer>)
    requires |visits| <= |bodies|
    ensures |offers| == |visits|
  {
    seq(|visits|, k requires 0 <= k < |visits| =>
      Offer(Seen(n, visits, k), if visits[k].outcome.None? then None else bodies[k]))
  }

  function LastMemo(visits: seq<Visit>): Memo {
    if visits == [] then NO_MEMO else visits[|visits| - 1].memo
  }

  /** What a visit saw: the parameters are those given and the registry, and the registry is that of the
      previous visit after the round's replacements. Nothing is replaced before the first call. */
  ghost predicate Propagated(n: nat, before: seq<Visit>, v: Visit, reps: seq<Replacement>, bodies: seq<Option<BodyText>>,
                             given: Strings, render: Rendering)
    requires |before| <= |bodies|
  {
    && v.params == given + v.memo.registry
    && v.memo == if before == [] then NO_MEMO else ReplaceAll(reps, OffersOf(n, before, bodies), LastMemo(before), render)
  }

  ghost predicate AllPropagated(n: nat, visits: seq<Visit>, reps: seq<seq<Replacement>>, bodies: seq<Option<BodyText>>,
                                given: Strings, render: Rendering)
  {
    && |visits| <= |reps| == |bodies|
    && forall k :: 0 <= k < |visits| ==> Propagated(n, visits[..k], visits[k], reps[k], bodies, given, render)
  }

  lemma OneMoreVisit(n: nat, visits: seq<Visit>, v: Visit, reps: seq<seq<Replacement>>, bodies: seq<Option<BodyText>>,
                     given: Strings, render: Rendering)
    requires AllPropagated(n, visits, reps, bodies, given, render) && |visits| < |reps|
    requires Propagated(n, visits, v, reps[|visits|], bodies, given, render)
    ensures AllPropagated(n, visits + [v], reps, bodies, given, render)
  {
    hide Propagated;
    var more := visits + [v];
    forall k | 0 <= k < |more|
      ensures Propagated(n, more[..k], more[k], reps[k], bodies, given, render)
    {
      assert more[..k] == visits[..k];
      assert visits[..|visits|] == visits;
    }
  }

  /** Once a non-empty value has been propagated to a destination, every later backend is called with it. */
  lemma {:induction false} NeverChanges(n: nat, visits: seq<Visit>, reps: seq<seq<Replacement>>, bodies: seq<Option<BodyText>>,
                                        given: Strings, render: Rendering, j: nat, k: nat, d: string)
    requires AllPropagated(n, visits, reps, bodies, given, render) && j <= k < |visits|
    requires Settled(visits[j].memo.registry, d)
    ensures d in visits[k].memo.registry && visits[k].memo.registry[d] == visits[j].memo.registry[d]
    ensures d in visits[k].params && visits[k].params[d] == visits[j].memo.registry[d]
    decreases k
  {
    hide ReplaceAll, OffersOf;
    assert Propagated(n, visits[..k], visits[k], reps[k], bodies, given, render);
    if j < k {
      NeverChanges(n, visits, reps, bodies, given, render, j, k - 1, d);
      assert LastMemo(visits[..k]) == visits[k - 1].memo;
      ReplaceAllSound(reps[k], OffersOf(n, visits[..k], bodies), visits[k - 1].memo, render, d);
    }
  }

  /**
    Whatever a backend is called with at a destination was found, in its own or an earlier round j, by a
    replacement that names a strictly earlier backend than j.
   */
  lemma {:induction false} FoundEarlier(n: nat, visits: seq<Visit>, reps: seq<seq<Replacement>>, bodies: seq<Option<BodyText>>,
                                        given: Strings, render: Rendering, k: nat, d: string)
    requires AllPropagated(n, visits, reps, bodies, given, render) && k < |visits| && d in visits[k].memo.registry
    ensures exists j, m ::
              && 0 < j <= k && 0 <= m < |reps[j]| && reps[j][m].destination == d && reps[j][m].backendIndex < j
              && Finds(reps[j][m], OffersOf(n, visits[..j], bodies), render, visits[k].memo.registry[d])
    decreases k
  {
    hide ReplaceAll;
    assert Propagated(n, visits[..k], visits[k], reps[k], bodies, given, render);
    var prior := LastMemo(visits[..k]);
    if k > 0 {
      assert prior == visits[k - 1].memo;
      ReplaceAllSound(reps[k], OffersOf(n, visits[..k], bodies), prior, render, d);
      if d in prior.registry && visits[k].memo.registry[d] == prior.registry[d] {
        FoundEarlier(n, visits, reps, bodies, given, render, k - 1, d);
      }
    }
  }

  /** The first backend was called and failed. */
  ghost predicate FirstFailed(visits: seq<Visit>) {
    |visits| == 1 && visits[0].outcome.Some? && visits[0].outcome.value.Failed?
  }

  /** The error returned: none, that of the first backend as it is, or the collected ones. */
  datatype RunError = NoError | First(err: string) | Joined(errs: seq<string>)

  lemma AbortedMerge(n: nat, visits: seq<Visit>)
    requires FirstFailed(visits)
    ensures Concluded(n, visits, None, First(visits[0].outcome.value.err))
  {
    assert OutcomesOf(visits[..0]) == [];
    assert OutcomesOf(visits) == [visits[0].outcome.value];
    assert Collect(Total(n, visits), OutcomesOf(visits)[..0]) == Start(Total(n, visits));
  }

  /** What the run returns when the loop has ended. */
  ghost predicate Concluded(n: nat, visits: seq<Visit>, res: Option<Reply>, err: RunError) {
    && res == Result(Merged(n, visits))
    && err == if FirstFailed(visits) then First(visits[0].outcome.value.err)
              else if Merged(n, visits).errs == [] then NoError else Joined(Merged(n, visits).errs)
  }

  /** An uninterrupted run has at most one error, that of its last visit; it is bare exactly when the visit is the first. */
  lemma ErrorOfRun(n: nat, visits: seq<Visit>, res: Option<Reply>, err: RunError)
    requires Uninterrupted(visits) && Concluded(n, visits, res, err)
    ensures visits == [] ==> err == NoError
    ensures visits != [] ==>
              match visits[|visits| - 1].outcome
              case Some(Failed(e)) => if |visits| == 1 then err == First(e) && res == None else err == Joined([e])
              case Some(NullReply) => err == Joined([NULL_RESULT])
              case _ => err == NoError
  {
    var total, os := Total(n, visits), OutcomesOf(visits);
    if visits == [] {
      assert Collect(total, os) == Start(total);
    } else {
      var init, last := visits[..|visits| - 1], visits[|visits| - 1];
      assert visits == init + [last];
      NoErrorsYet(Total(n, visits), init);
      if last.outcome.Some? {
        assert os == OutcomesOf(init) + [last.outcome.value] && os[..|os| - 1] == OutcomesOf(init);
      } else {
        assert os == OutcomesOf(init);
      }
      if FirstFailed(visits) { AbortedMerge(n, visits); }
    }
  }

  lemma {:induction false} NoErrorsYet(total: int, visits: seq<Visit>)
    requires forall k :: 0 <= k < |visits| ==> GoesOn(visits[k])
    ensures Collect(total, OutcomesOf(visits)).errs == []
    decreases |visits|
  {
    if visits != [] {
      var init, last := visits[..|visits| - 1], visits[|visits| - 1];
      NoErrorsYet(total, init);
      if last.outcome.Some? {
        var os := OutcomesOf(init) + [last.outcome.value];
        assert os[..|os| - 1] == OutcomesOf(init);
      } else {
        assert OutcomesOf(init) + [] == OutcomesOf(init);
      }
    }
  }

  /** The log of a run: every visit met the backend's verdict, and saw what was to be propagated. */
  ghost predicate Logged(verdicts: seq<Option<Outcome>>, visits: seq<Visit>, reps: seq<seq<Replacement>>,
                         bodies: seq<Option<BodyText>>, given: Strings, render: Rendering) {
    && |visits| <= |verdicts|
    && (forall k :: 0 <= k < |visits| ==> visits[k].outcome == verdicts[k])
    && AllPropagated(|verdicts|, visits, reps, bodies, given, render)
  }

  lemma NoVisits(verdicts: seq<Option<Outcome>>, reps: seq<seq<Replacement>>, bodies: seq<Option<BodyText>>, given: Strings,
                 render: Rendering)
    requires |reps| == |bodies|
    ensures Logged(verdicts, [], reps, bodies, given, render) && !FirstFailed([]) && LastMemo([]) == NO_MEMO
  {
  }
}
