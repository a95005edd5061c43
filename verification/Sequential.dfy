/** Sequential merging as it runs: one backend after the other, responses kept and written to while they are read. */
module Sequential {
  import opened Wrappers
  import opened MergeSpec
  import opened Accumulator
  import opened SequentialSpec
  import opened Parameters

  // ----- propagation as it runs

  function DataNow(r: Response): Data
    reads r.data
  {
    if r.data == null then map[] else r.data.m
  }

  /** The response offers o; its body is empty once it has been read. */
  ghost predicate Offers(p: Response, o: Offer, read: bool)
    reads p.data, p.io
  {
    && DataNow(p) == o.data
    && (p.io == null <==> o.body.None?)
    && (p.io != null ==> p.io.fails == o.body.value.fails && p.io.rest == if read then "" else o.body.value.text)
  }

  function Streams(parts: seq<Response?>): set<Stream> {
    set r: Response | r in parts && r.io != null :: r.io
  }

  ghost predicate AllOffer(parts: seq<Response?>, offers: seq<Offer>, read: set<nat>)
    reads Maps(parts), Streams(parts)
  {
    && |offers| <= |parts|
    && (forall k :: 0 <= k < |offers| ==> parts[k] != null && Offers(parts[k], offers[k], k in read))
    && (forall j, k :: 0 <= j < k < |offers| && parts[j].io != null ==> parts[j].io != parts[k].io)
  }

  /** A replacement that takes the whole body, which is read to its end even if reading fails. */
  method PropagateBody(r: Replacement, part: Response, params: Params, registry: Strings, ghost given: Strings, ghost o: Offer)
    returns (registry': Strings)
    requires params.m == given + registry && (Offers(part, o, true) || Offers(part, o, false))
    modifies params, part.io
    ensures registry' == if o.body.None? || o.body.value.fails then registry else registry[r.destination := old(part.io.rest)]
    ensures params.m == given + registry'
    ensures if o.body.None? then Offers(part, o, old(Offers(part, o, true))) else Offers(part, o, true)
  {
    registry' := registry;
    if part.io != null {
      var text, ok := part.io.ReadAll();
      if ok {
        params.m := params.m[r.destination := text];
        registry' := registry[r.destination := text];
      }
    }
  }

  /** A replacement that takes a part of the data. */
  method PropagateData(r: Replacement, part: Response, params: Params, render: Rendering, registry: Strings, ghost given: Strings)
    returns (registry': Strings)
    requires params.m == given + registry
    modifies params
    ensures var v := render(DataNow(part), r.source);
            registry' == if v.None? then registry else registry[r.destination := v.value]
    ensures params.m == given + registry'
  {
    registry' := registry;
    var v := render(DataNow(part), r.source);
    if v.Some? {
      params.m := params.m[r.destination := v.value];
      registry' := registry[r.destination := v.value];
    }
  }

  /** One replacement whose response is there. */
  method PropagateOne(r: Replacement, part: Response, params: Params, render: Rendering, registry: Strings,
                      ghost given: Strings, ghost o: Offer, ghost memo: Memo)
    returns (registry': Strings)
    requires params.m == given + registry && registry == memo.registry && Offers(part, o, r.backendIndex in memo.read)
    modifies params, part.io
    ensures registry' == Replace(r, o, memo, render).registry && params.m == given + registry'
    ensures Offers(part, o, r.backendIndex in Replace(r, o, memo, render).read)
  {
    registry' := registry;
    if r.destination in registry && registry[r.destination] != "" {
      params.m := params.m[r.destination := registry[r.destination]];
      return;
    }
    if r.fullResponse {
      registry' := PropagateBody(r, part, params, registry, given, o);
      return;
    }
    registry' := PropagateData(r, part, params, render, registry, given);
  }

  /** The same, seen from all parts. */
  method PropagateFrom(r: Replacement, parts: seq<Response?>, params: Params, render: Rendering, registry: Strings,
                       ghost given: Strings, ghost offers: seq<Offer>, ghost memo: Memo)
    returns (registry': Strings)
    requires params.m == given + registry && registry == memo.registry && AllOffer(parts, offers, memo.read)
    requires r.backendIndex < |offers|
    modifies params, Streams(parts[..|offers|])
    ensures registry' == Replace(r, offers[r.backendIndex], memo, render).registry && params.m == given + registry'
    ensures AllOffer(parts, offers, Replace(r, offers[r.backendIndex], memo, render).read)
  {
    var part := parts[r.backendIndex];
    assert part in parts[..|offers|];
    assert part.io != null ==> part.io in Streams(parts[..|offers|]);
    ReplaceReads(r, offers[r.backendIndex], memo, render);
    hide Replace, Offers, Maps, Streams;
    assert forall k :: 0 <= k < |offers| && k != r.backendIndex && part.io != null ==> parts[k].io != part.io;
    registry' := PropagateOne(r, part, params, render, registry, given, offers[r.backendIndex], memo);
  }

  /** The replacements before the call of backend i; parameters and registry change together. */
  method Propagate(i: nat, reps: seq<Replacement>, parts: seq<Response?>, params: Params, render: Rendering, registry0: Strings,
                   ghost given: Strings, ghost offers: seq<Offer>, ghost memo0: Memo)
    returns (registry: Strings)
    requires params.m == given + registry0 && registry0 == memo0.registry && AllOffer(parts, offers, memo0.read)
    requires i == |offers|
    modifies params, Streams(parts[..i])
    ensures registry == ReplaceAll(reps, offers, memo0, render).registry && params.m == given + registry
    ensures AllOffer(parts, offers, ReplaceAll(reps, offers, memo0, render).read)
  {
    registry := registry0;
    for k := 0 to |reps|
      invariant registry == ReplaceAll(reps[..k], offers, memo0, render).registry && params.m == given + registry
      invariant AllOffer(parts, offers, ReplaceAll(reps[..k], offers, memo0, render).read)
    {
      ReplaceStep(reps, offers, memo0, render, k);
      var r := reps[k];
      if r.backendIndex >= i || parts[r.backendIndex] == null {
        continue;
      }
      registry := PropagateFrom(r, parts, params, render, registry, given, offers, ReplaceAll(reps[..k], offers, memo0, render));
    }
    assert reps[..|reps|] == reps;
  }

  // ----- one call

  /**
    Calls one backend and puts its outcome into one of the two one-slot channels. A reply loses against
    a context that is done if the select picks that branch.
   */
  method SequentialRequestPart(reply: Response?, err: Option<string>, sawDone: bool, out: seq<Response>, failed: seq<string>)
    returns (out': seq<Response>, failed': seq<string>)
    requires |out| < 1 && |failed| < 1          // both have a free slot: the send does not block
    ensures err.Some? ==> out' == [] && failed' == [err.value]
    ensures err.None? && reply == null ==> out' == [] && failed' == [NULL_RESULT]
    ensures err.None? && reply != null && sawDone ==> out' == [] && failed' == [CTX_ERROR]
    ensures err.None? && reply != null && !sawDone ==> out' == [reply] && failed' == []
  {
    out', failed' := out, failed;
    if err.Some? {
      failed' := failed' + [err.value];
      return;
    }
    if reply == null {
      failed' := failed' + [NULL_RESULT];
      return;
    }
    if sawDone {
      failed' := failed' + [CTX_ERROR];
    } else {
      out' := out' + [reply];
    }
  }

  // ----- the run

  /** What the merge meets: for every backend the filter's verdict and what the call gives. */
  datatype Backend = Backend(filtered: bool, reply: Response?, err: Option<string>, sawDone: bool)

  // ----- the state at the loop head

  function Replies(backends: seq<Backend>): set<Response> {
    set b | b in backends && b.reply != null :: b.reply
  }

  function ReplyMaps(backends: seq<Backend>): set<DataMap> {
    set b | b in backends && b.reply != null && b.reply.data != null :: b.reply.data
  }

  function ReplyBodies(backends: seq<Backend>): set<Stream> {
    set b | b in backends && b.reply != null && b.reply.io != null :: b.reply.io
  }

  /** No two replies are the same object or share a data map or a body. */
  ghost predicate Distinct(backends: seq<Backend>) {
    forall i, j :: 0 <= i < j < |backends| && backends[i].reply != null && backends[j].reply != null ==>
      && backends[i].reply != backends[j].reply
      && (backends[i].reply.data != null ==> backends[i].reply.data != backends[j].reply.data)
      && (backends[i].reply.io != null ==> backends[i].reply.io != backends[j].reply.io)
  }

  /** The outcome of a backend; None when the filter rejects the request. */
  ghost function Verdict(b: Backend): Option<Outcome>
    reads b.reply, if b.reply == null then {} else {b.reply.data}
  {
    if b.filtered then None
    else if b.err.Some? then Some(Failed(b.err.value))
    else if b.reply == null then Some(Failed(NULL_RESULT))
    else if b.sawDone then Some(Failed(CTX_ERROR))
    else Some(Replied(b.reply.View()))
  }

  /** The merge has not touched what the backends from i on reply. */
  ghost predicate Ahead(backends: seq<Backend>, verdicts: seq<Option<Outcome>>, acc: IncrementalMergeAccumulator, i: nat)
    requires |verdicts| == |backends|
    reads acc, acc.data, Replies(backends), ReplyMaps(backends)
  {
    forall k :: i <= k < |backends| ==>
      && Verdict(backends[k]) == verdicts[k]
      && (backends[k].reply != null && acc.data != null ==>
            acc.data != backends[k].reply && (acc.data.data != null ==> acc.data.data != backends[k].reply.data))
  }

  /** The part kept for visit k: a placeholder if it was filtered, else the reply; and the data it shows. */
  ghost predicate Kept(n: nat, backends: seq<Backend>, p: Response?, acc: IncrementalMergeAccumulator, visits: seq<Visit>, k: nat)
    requires k < |visits| <= |backends|
    reads acc, if p == null then {} else {p.data}
  {
    && p != null
    && (if visits[k].outcome.None? then
          p !in Replies(backends) && p.io == null && p.data != null && p.data !in ReplyMaps(backends)
        else p == backends[k].reply)
    && DataNow(p) == Seen(n, visits, k)
    && (Owner(n, visits, k) <==> p.data != null && acc.data != null && p.data == acc.data.data)
  }

  ghost predicate State(backends: seq<Backend>, verdicts: seq<Option<Outcome>>, parts: seq<Response?>,
                        acc: IncrementalMergeAccumulator, visits: seq<Visit>)
    reads acc, acc.data, if acc.data == null then {} else {acc.data.data}
    reads Replies(backends), ReplyMaps(backends), Maps(parts)
  {
    && |visits| <= |backends| == |verdicts| == |parts|
    && Distinct(backends)
    && Ahead(backends, verdicts, acc, |visits|)
    && acc.View() == Merged(|backends|, visits)
    && (forall k :: 0 <= k < |visits| ==> Kept(|backends|, backends, parts[k], acc, visits, k))
    && (forall k :: |visits| <= k < |parts| ==> parts[k] == null)
  }

  /** A filtered backend: a placeholder is kept, and one outcome less is pending. */
  method SkipFiltered(ghost backends: seq<Backend>, ghost verdicts: seq<Option<Outcome>>, parts: seq<Response?>,
                      acc: IncrementalMergeAccumulator, ghost visits: seq<Visit>, i: nat, ghost v: Visit)
    returns (parts': seq<Response?>)
    requires State(backends, verdicts, parts, acc, visits) && i == |visits| < |backends|
    requires v.outcome.None?
    modifies acc
    ensures State(backends, verdicts, parts', acc, visits + [v]) && acc.data == old(acc.data)
    ensures acc.View() == Merged(|backends|, visits + [v])
    ensures |parts'| == |parts| && (forall k :: 0 <= k < |parts| && k != i ==> parts'[k] == parts[k])
    ensures parts'[i] != null && fresh(parts'[i]) && parts'[i].complete && parts'[i].data != null && parts'[i].data.m == map[]
    ensures forall p :: p in parts' && p != null && p !in parts ==> fresh(p) && p.io == null
  {
    hide Merged, OutcomesOf, Collect;
    var empty := new DataMap();
    var placeholder := new Response(empty, true);
    parts' := parts[i := placeholder];
    acc.pending := acc.pending - 1;
    MergedFiltered(|backends|, visits, v);
    assert OwnData((visits + [v])[i]).None?;
    forall k | 0 <= k < |visits| + 1
      ensures Kept(|backends|, backends, parts'[k], acc, visits + [v], k)
    {
      if k < i {
        OwnerStays(|backends|, visits, v, k);
        assert Kept(|backends|, backends, parts[k], acc, visits, k);
      }
    }
  }

  /** A reply is merged; a complete one is kept for later replacements. */
  method TakeReply(ghost backends: seq<Backend>, ghost verdicts: seq<Option<Outcome>>, parts: seq<Response?>,
                   acc: IncrementalMergeAccumulator, ghost visits: seq<Visit>, i: nat, response: Response, ghost v: Visit)
    returns (parts': seq<Response?>, goOn: bool)
    requires State(backends, verdicts, parts, acc, visits) && i == |visits| < |backends|
    requires response == backends[i].reply && v.outcome == Verdict(backends[i]) == Some(Replied(response.View()))
    modifies acc, acc.data, if acc.data == null then {} else {acc.data.data}, response, response.data
    ensures acc.View() == Merged(|backends|, visits + [v]) && goOn == response.complete == GoesOn(v)
    ensures goOn ==> State(backends, verdicts, parts', acc, visits + [v]) && parts' == parts[i := response]
    ensures acc.data == response || fresh(acc.data)
    ensures acc.data != null && acc.data.data != null ==>
      acc.data.data == response.data || fresh(acc.data.data) || (old(acc.data) != null && acc.data.data == old(acc.data.data))
  {
    hide Merged, OutcomesOf, Combined, Collect, MergeSpec.Merge;
    MergedCalled(|backends|, visits, v);
    acc.Merge(response, None);
    assert acc.View() == Merged(|backends|, visits + [v]);
    goOn, parts' := response.complete, parts;
    if !goOn {
      return;
    }
    parts' := parts[i := response];
    forall k | 0 <= k < |visits| + 1
      ensures Kept(|backends|, backends, parts'[k], acc, visits + [v], k)
    {
      if k < i {
        assert old(Kept(|backends|, backends, parts[k], acc, visits, k));
        StaysKept(|backends|, backends, parts[k], acc, visits, v, k);
      }
    }
  }

  /** A part whose data are unchanged, or are those of the merge, is kept when the reply of v has been merged. */
  lemma StaysKept(n: nat, backends: seq<Backend>, p: Response, acc: IncrementalMergeAccumulator, visits: seq<Visit>, v: Visit, k: nat)
    requires k < |visits| < |backends| && acc.data != null && acc.View() == Merged(n, visits + [v])
    requires if visits[k].outcome.None? then
               p !in Replies(backends) && p.io == null && p.data != null && p.data !in ReplyMaps(backends)
             else p == backends[k].reply
    requires Owner(n, visits, k) <==> p.data != null && p.data == acc.data.data
    requires !Owner(n, visits, k) ==> DataNow(p) == Seen(n, visits, k)
    ensures Kept(n, backends, p, acc, visits + [v], k)
  {
    hide Merged, Replies, ReplyMaps;
    OwnerStays(n, visits, v, k);
  }

  // ----- the whole run

  function BodyOf(b: Backend): Option<BodyText>
    reads if b.reply == null then {} else {b.reply.io}
  {
    if b.reply == null || b.reply.io == null then None else Some(BodyText(b.reply.io.rest, b.reply.io.fails))
  }

  function Bodies(backends: seq<Backend>): (bodies: seq<Option<BodyText>>)
    reads ReplyBodies(backends)
    ensures |bodies| == |backends|
  {
    seq(|backends|, i requires 0 <= i < |backends| reads ReplyBodies(backends) => BodyOf(backends[i]))
  }

  ghost function Verdicts(backends: seq<Backend>): (vs: seq<Option<Outcome>>)
    reads Replies(backends), ReplyMaps(backends)
    ensures |vs| == |backends|
  {
    seq(|backends|, i requires 0 <= i < |backends| reads Replies(backends), ReplyMaps(backends) => Verdict(backends[i]))
  }

  lemma StateView(backends: seq<Backend>, verdicts: seq<Option<Outcome>>, parts: seq<Response?>,
                  acc: IncrementalMergeAccumulator, visits: seq<Visit>)
    requires State(backends, verdicts, parts, acc, visits)
    ensures acc.View() == Merged(|backends|, visits)
  {
  }

  datatype Next = GoOn | Stop | Abort(err: string)

  /**
    One round of the loop after its replacements: the filter, the call and the select. Both channels are
    empty again afterwards. A failure of the very first call is returned as it is, without being merged.
   */
  method CallAndMerge(backends: seq<Backend>, ghost verdicts: seq<Option<Outcome>>, parts: seq<Response?>,
                      acc: IncrementalMergeAccumulator, ghost visits: seq<Visit>, i: nat, ghost v: Visit,
                      out: seq<Response>, failed: seq<string>)
    returns (parts': seq<Response?>, next: Next, out': seq<Response>, failed': seq<string>)
    requires State(backends, verdicts, parts, acc, visits) && i == |visits| < |backends|
    requires v.outcome == Verdict(backends[i]) && out == [] && failed == []
    modifies acc, acc.data, if acc.data == null then {} else {acc.data.data}
    modifies backends[i].reply, if backends[i].reply == null then {} else {backends[i].reply.data}
    ensures out' == [] && failed' == []
    ensures var b := backends[i];
            next == if b.filtered then GoOn
                    else if b.err.Some? then if i == 0 then Abort(b.err.value) else Stop
                    else if b.reply == null then if i == 0 then Abort(NULL_RESULT) else Stop
                    else if b.sawDone then if i == 0 then Abort(CTX_ERROR) else Stop
                    else if old(b.reply.complete) then GoOn else Stop
    ensures next.GoOn? <==> GoesOn(v)
    ensures next.GoOn? ==> State(backends, verdicts, parts', acc, visits + [v])
    ensures !next.Abort? ==> acc.View() == Merged(|backends|, visits + [v])
    ensures next.Abort? <==> FirstFailed(visits + [v])
    ensures next.Abort? ==> Concluded(|backends|, visits + [v], None, First(next.err))
    ensures acc.data != null ==> acc.data in Replies(backends) || acc.data == old(acc.data) || fresh(acc.data)
    ensures next.GoOn? && acc.data != null && acc.data.data != null ==>
      || acc.data.data in ReplyMaps(backends) || fresh(acc.data.data)
      || (old(acc.data) != null && acc.data.data == old(acc.data.data))
  {
    hide State, Merged, Concluded;
    StateView(backends, verdicts, parts, acc, visits);
    StateAllocated(backends, parts);
    parts', out', failed' := parts, out, failed;
    var b := backends[i];
    if b.filtered {
      parts' := SkipFiltered(backends, verdicts, parts, acc, visits, i, v);
      return parts', GoOn, out', failed';
    }
    out', failed' := SequentialRequestPart(b.reply, b.err, b.sawDone, out, failed);
    if failed' != [] {
      var err := failed'[0];
      failed' := [];
      if i == 0 {
        AbortedMerge(|backends|, visits + [v]);
        return parts', Abort(err), out', failed';
      }
      MergedCalled(|backends|, visits, v);
      acc.Merge(null, Some(err));
      return parts', Stop, out', failed';
    }
    var response := out'[0];
    out' := [];
    var goOn;
    parts', goOn := TakeReply(backends, verdicts, parts, acc, visits, i, response, v);
    next := if goOn then GoOn else Stop;
  }

  /** The body of b's reply is as it was sent, or empty when it has been read. */
  ghost predicate BodyLeft(b: Backend, body: Option<BodyText>, read: bool)
    reads if b.reply == null then {} else {b.reply.io}
  {
    b.reply != null ==>
      && (b.reply.io == null <==> body.None?)
      && (b.reply.io != null ==> b.reply.io.fails == body.value.fails && b.reply.io.rest == if read then "" else body.value.text)
  }

  ghost predicate BodiesLeft(backends: seq<Backend>, bodies: seq<Option<BodyText>>, read: set<nat>)
    requires |backends| == |bodies|
    reads ReplyBodies(backends)
  {
    forall k :: 0 <= k < |backends| ==> BodyLeft(backends[k], bodies[k], k in read)
  }

  /** What the parts kept so far offer is what the visits say. */
  lemma OffersStand(backends: seq<Backend>, verdicts: seq<Option<Outcome>>, parts: seq<Response?>,
                    acc: IncrementalMergeAccumulator, visits: seq<Visit>, bodies: seq<Option<BodyText>>, read: set<nat>)
    requires State(backends, verdicts, parts, acc, visits) && |bodies| == |backends| && BodiesLeft(backends, bodies, read)
    ensures AllOffer(parts, OffersOf(|backends|, visits, bodies), read)
  {
    var offers := OffersOf(|backends|, visits, bodies);
    forall k | 0 <= k < |visits|
      ensures parts[k] != null && Offers(parts[k], offers[k], k in read)
      ensures parts[k].io != null ==> parts[k] == backends[k].reply
    {
      assert Kept(|backends|, backends, parts[k], acc, visits, k);
      assert BodyLeft(backends[k], bodies[k], k in read);
    }
  }

  /** Which bodies the replacements of round i can read. */
  lemma StreamsOfReplies(backends: seq<Backend>, verdicts: seq<Option<Outcome>>, parts: seq<Response?>,
                         acc: IncrementalMergeAccumulator, visits: seq<Visit>)
    requires State(backends, verdicts, parts, acc, visits)
    ensures Streams(parts[..|visits|]) <= ReplyBodies(backends)
    ensures forall k :: 0 <= k < |backends| && backends[k].reply != null && backends[k].reply.io != null
                        && (k >= |visits| || visits[k].outcome.None?) ==>
              backends[k].reply.io !in Streams(parts[..|visits|])
  {
    forall k | 0 <= k < |visits| && parts[k] != null && parts[k].io != null
      ensures parts[k] == backends[k].reply && parts[k].io in ReplyBodies(backends) && visits[k].outcome.Some?
    {
      assert Kept(|backends|, backends, parts[k], acc, visits, k);
      assert backends[k] in backends;
    }
  }

  /** The replacements of round i, if it is not the first. */
  method Prepare(ghost backends: seq<Backend>, ghost verdicts: seq<Option<Outcome>>, parts: seq<Response?>,
                 ghost acc: IncrementalMergeAccumulator, ghost visits: seq<Visit>, i: nat, reps: seq<Replacement>, params: Params,
                 render: Rendering, registry: Strings, ghost given: Strings, ghost bodies: seq<Option<BodyText>>)
    returns (registry': Strings, ghost v: Visit)
    requires State(backends, verdicts, parts, acc, visits) && i == |visits| < |backends|
    requires |bodies| == |backends| && BodiesLeft(backends, bodies, LastMemo(visits).read)
    requires registry == LastMemo(visits).registry && params.m == given + registry
    modifies params, ReplyBodies(backends)
    ensures State(backends, verdicts, parts, acc, visits) && BodiesLeft(backends, bodies, v.memo.read)
    ensures v.outcome == Verdict(backends[i]) == verdicts[i]
    ensures v.memo.registry == registry' && v.params == params.m == given + registry'
    ensures Propagated(|backends|, visits, v, reps, bodies, given, render)
  {
    hide ReplaceAll;
    registry' := registry;
    ghost var memo := LastMemo(visits);
    if i > 0 {
      ghost var offers := OffersOf(|backends|, visits, bodies);
      OffersStand(backends, verdicts, parts, acc, visits, bodies, memo.read);
      registry' :=
        PropagateRound(backends, verdicts, parts, acc, visits, i, reps, params, render, registry, given, bodies, offers, memo);
      memo := ReplaceAll(reps, offers, memo, render);
    }
    v := Visit(memo, params.m, Verdict(backends[i]));
  }

  method PropagateRound(ghost backends: seq<Backend>, ghost verdicts: seq<Option<Outcome>>, parts: seq<Response?>,
                        ghost acc: IncrementalMergeAccumulator, ghost visits: seq<Visit>, i: nat, reps: seq<Replacement>,
                        params: Params, render: Rendering, registry: Strings, ghost given: Strings,
                        ghost bodies: seq<Option<BodyText>>, ghost offers: seq<Offer>, ghost memo: Memo)
    returns (registry': Strings)
    requires State(backends, verdicts, parts, acc, visits) && i == |visits|
    requires |bodies| == |backends| && BodiesLeft(backends, bodies, memo.read)
    requires offers == OffersOf(|backends|, visits, bodies) && AllOffer(parts, offers, memo.read)
    requires registry == memo.registry && params.m == given + registry
    modifies params, ReplyBodies(backends)
    ensures registry' == ReplaceAll(reps, offers, memo, render).registry && params.m == given + registry'
    ensures BodiesLeft(backends, bodies, ReplaceAll(reps, offers, memo, render).read)
    ensures State(backends, verdicts, parts, acc, visits)
  {
    hide ReplaceAll, State, AllOffer, BodiesLeft, OffersOf, Texts;
    StreamsOfReplies(backends, verdicts, parts, acc, visits);
    ghost var texts := TextsNow(backends, bodies, memo.read);
    StateAllocated(backends, parts);
    registry' := Propagate(i, reps, parts, params, render, registry, given, offers, memo);
    ghost var after := ReplaceAll(reps, offers, memo, render);
    forall k: nat ensures k in memo.read ==> k in after.read
      ensures k in after.read ==> k in memo.read || (k < |offers| && offers[k].body.Some?)
    {
      ReadHasBody(reps, offers, memo, render, k);
    }
    BodiesStand(backends, verdicts, parts, acc, visits, bodies, texts, memo.read, after.read);
  }

  /** What the frame of State needs to know. */
  lemma StateAllocated(backends: seq<Backend>, parts: seq<Response?>)
    ensures allocated(Replies(backends)) && allocated(ReplyMaps(backends)) && allocated(Maps(parts))
  {
  }

  /** Bodies that a round's replacements have read are empty, the others are as they were. */
  lemma BodiesStand(backends: seq<Backend>, verdicts: seq<Option<Outcome>>, parts: seq<Response?>,
                    acc: IncrementalMergeAccumulator, visits: seq<Visit>, bodies: seq<Option<BodyText>>,
                    texts: map<Stream, string>, before: set<nat>, read: set<nat>)
    requires State(backends, verdicts, parts, acc, visits) && |bodies| == |backends|
    requires Texts(backends, bodies, before, texts) && AllOffer(parts, OffersOf(|backends|, visits, bodies), read)
    requires forall k: nat :: k in before ==> k in read
    requires forall k: nat :: k in read ==> k in before || (k < |visits| && OffersOf(|backends|, visits, bodies)[k].body.Some?)
    requires forall s :: s in ReplyBodies(backends) && s !in Streams(parts[..|visits|]) ==> s in texts && s.rest == texts[s]
    ensures BodiesLeft(backends, bodies, read)
  {
    var offers := OffersOf(|backends|, visits, bodies);
    StreamsOfReplies(backends, verdicts, parts, acc, visits);
    forall k | 0 <= k < |backends| ensures BodyLeft(backends[k], bodies[k], k in read) {
      if k < |visits| && visits[k].outcome.Some? {
        assert Kept(|backends|, backends, parts[k], acc, visits, k);
        assert Offers(parts[k], offers[k], k in read);
      } else {
        assert backends[k] in backends;
        assert k in read <==> k in before;
      }
    }
  }

  /** The texts that the bodies hold when those in read have been read. */
  ghost predicate Texts(backends: seq<Backend>, bodies: seq<Option<BodyText>>, read: set<nat>, texts: map<Stream, string>)
    requires |backends| == |bodies|
  {
    forall k :: 0 <= k < |backends| && backends[k].reply != null ==>
      && (backends[k].reply.io == null <==> bodies[k].None?)
      && (backends[k].reply.io != null ==>
            && backends[k].reply.io.fails == bodies[k].value.fails && backends[k].reply.io in texts
            && texts[backends[k].reply.io] == if k in read then "" else bodies[k].value.text)
  }

  lemma TextsNow(backends: seq<Backend>, bodies: seq<Option<BodyText>>, read: set<nat>) returns (texts: map<Stream, string>)
    requires |backends| == |bodies| && BodiesLeft(backends, bodies, read)
    ensures Texts(backends, bodies, read, texts)
    ensures forall s :: s in ReplyBodies(backends) ==> s in texts && s.rest == texts[s]
  {
    texts := map s | s in ReplyBodies(backends) :: s.rest;
    forall k | 0 <= k < |backends| ensures backends[k] in backends && BodyLeft(backends[k], bodies[k], k in read) {}
  }

  lemma BodiesAtStart(backends: seq<Backend>, bodies: seq<Option<BodyText>>)
    requires bodies == Bodies(backends)
    ensures BodiesLeft(backends, bodies, {})
  {
  }

  /** The objects the run may write to, besides its own and the parameters. */
  function Written(backends: seq<Backend>): set<object> {
    Replies(backends) + ReplyMaps(backends) + ReplyBodies(backends)
  }

  /** The accumulator writes to replies and their maps, or to objects of its own. */
  twostate predicate Within(backends: seq<Backend>, new acc: IncrementalMergeAccumulator)
    reads acc
  {
    acc.data != null ==>
      && (acc.data in Replies(backends) || fresh(acc.data))
      && (acc.data.data != null ==> acc.data.data in ReplyMaps(backends) || fresh(acc.data.data))
  }

  method Begin(backends: seq<Backend>, ghost verdicts: seq<Option<Outcome>>, ghost bodies: seq<Option<BodyText>>)
    returns (parts: seq<Response?>, acc: IncrementalMergeAccumulator)
    requires Distinct(backends) && verdicts == Verdicts(backends) && bodies == Bodies(backends)
    ensures fresh(acc) && acc.data == null && acc.View() == Merged(|backends|, [])
    ensures State(backends, verdicts, parts, acc, []) && BodiesLeft(backends, bodies, {})
  {
    parts := seq(|backends|, _ => null);
    acc := new IncrementalMergeAccumulator(|backends|);
    BodiesAtStart(backends, bodies);
  }

  method Conclude(ghost n: nat, ghost visits: seq<Visit>, acc: IncrementalMergeAccumulator)
    returns (res: Response?, err: RunError, ghost pending: int)
    requires acc.View() == Merged(n, visits) && !FirstFailed(visits)
    modifies acc.data
    ensures Concluded(n, visits, ViewOf(res), err) && pending == n - |visits|
  {
    MergedPending(n, visits);
    pending := acc.pending;
    var anyFailed, messages;
    res, anyFailed, messages := acc.Result();
    err := if anyFailed then Joined(messages) else NoError;
  }

  /** One round of the loop. */
  method Round(backends: seq<Backend>, ghost verdicts: seq<Option<Outcome>>, parts: seq<Response?>,
               acc: IncrementalMergeAccumulator, ghost visits: seq<Visit>, i: nat, reps: seq<seq<Replacement>>,
               params: Params, render: Rendering, registry: Strings, ghost given: Strings, ghost bodies: seq<Option<BodyText>>,
               out: seq<Response>, failed: seq<string>)
    returns (parts': seq<Response?>, registry': Strings, next: Next, out': seq<Response>, failed': seq<string>,
             ghost visits': seq<Visit>)
    requires State(backends, verdicts, parts, acc, visits) && i == |visits| < |backends| == |reps|
    requires |verdicts| == |bodies| == |backends| && BodiesLeft(backends, bodies, LastMemo(visits).read)
    requires registry == LastMemo(visits).registry && params.m == given + registry && out == [] && failed == []
    requires Logged(verdicts, visits, reps, bodies, given, render)
    modifies params, Written(backends), acc, acc.data, if acc.data == null then {} else {acc.data.data}
    ensures |visits'| == i + 1 && visits'[..i] == visits && Logged(verdicts, visits', reps, bodies, given, render)
    ensures BodiesLeft(backends, bodies, LastMemo(visits').read) && out' == [] && failed' == []
    ensures registry' == LastMemo(visits').registry && params.m == given + registry'
    ensures next.GoOn? <==> GoesOn(visits'[i])
    ensures next.GoOn? ==> State(backends, verdicts, parts', acc, visits')
    ensures !next.Abort? ==> acc.View() == Merged(|backends|, visits')
    ensures next.Abort? <==> FirstFailed(visits')
    ensures next.Abort? ==> Concluded(|backends|, visits', None, First(next.err))
    ensures acc.data != null ==> acc.data in Replies(backends) || acc.data == old(acc.data) || fresh(acc.data)
    ensures next.GoOn? && acc.data != null && acc.data.data != null ==>
      || acc.data.data in ReplyMaps(backends) || fresh(acc.data.data)
      || (old(acc.data) != null && acc.data.data == old(acc.data.data))
  {
    hide Propagated, AllPropagated, GoesOn, Merged, FirstFailed, BodiesLeft, Concluded, State, Verdict;
    ghost var v;
    registry', v := Prepare(backends, verdicts, parts, acc, visits, i, reps[i], params, render, registry, given, bodies);
    OneMoreVisit(|backends|, visits, v, reps, bodies, given, render);
    parts', next, out', failed' := CallAndMerge(backends, verdicts, parts, acc, visits, i, v, out, failed);
    visits' := visits + [v];
  }

  /** The loop over the backends, and what is returned after it. */
  method VisitBackends(backends: seq<Backend>, reps: seq<seq<Replacement>>, params: Params, render: Rendering)
    returns (res: Response?, err: RunError, ghost visits: seq<Visit>, ghost pending: int)
    requires |reps| == |backends| && Distinct(backends)
    modifies params, Written(backends)
    ensures |visits| <= |backends| && Uninterrupted(visits)
    ensures |visits| < |backends| ==> visits != [] && !GoesOn(visits[|visits| - 1])
    ensures Logged(old(Verdicts(backends)), visits, reps, old(Bodies(backends)), old(params.m), render)
    ensures params.m == old(params.m) + LastMemo(visits).registry
    ensures Concluded(|backends|, visits, ViewOf(res), err)
    ensures !FirstFailed(visits) ==> pending == |backends| - |visits|
  {
    hide Logged, State, GoesOn, Merged, FirstFailed, BodiesLeft, Concluded, LastMemo, Distinct, Replies,
      ReplyMaps, ReplyBodies, Bodies, Verdicts;
    ghost var verdicts, bodies, given := Verdicts(backends), Bodies(backends), params.m;
    NoVisits(verdicts, reps, bodies, given, render);
    var out, failed: seq<string>, registry: Strings, next := [], [], map[], GoOn;
    var parts, acc := Begin(backends, verdicts, bodies);
    visits := [];
    for i := 0 to |backends|
      invariant i == |visits| && out == [] && failed == []    // both channels are empty
      invariant State(backends, verdicts, parts, acc, visits) && BodiesLeft(backends, bodies, LastMemo(visits).read)
      invariant forall k :: 0 <= k < i ==> GoesOn(visits[k])
      invariant registry == LastMemo(visits).registry && params.m == given + registry
      invariant Logged(verdicts, visits, reps, bodies, given, render)
      invariant acc.View() == Merged(|backends|, visits) && !FirstFailed(visits)
      invariant fresh(acc) && Within(backends, acc)
    {
      parts, registry, next, out, failed, visits :=
        Round(backends, verdicts, parts, acc, visits, i, reps, params, render, registry, given, bodies, out, failed);
      if next.Abort? {
        return null, First(next.err), visits, acc.pending;
      }
      if next.Stop? {
        break;
      }
    }
    res, err, pending := Conclude(|backends|, visits, acc);
  }

  /** What the verdicts are, in terms of the backends. */
  lemma VerdictsExact(backends: seq<Backend>)
    ensures var vs := Verdicts(backends);
            && (forall k :: 0 <= k < |vs| ==> (vs[k].None? <==> backends[k].filtered))
            && (forall k :: 0 <= k < |vs| && !backends[k].filtered ==>
                  vs[k] == Some(if backends[k].err.Some? then Failed(backends[k].err.value)
                                else if backends[k].reply == null then Failed(NULL_RESULT)
                                else if backends[k].sawDone then Failed(CTX_ERROR)
                                else Replied(Reply(if backends[k].reply.data == null then None else Some(backends[k].reply.data.m),
                                                   backends[k].reply.complete))))
  {
    forall k | 0 <= k < |backends|
      ensures backends[k] in backends
      ensures Verdicts(backends)[k] == Verdict(backends[k])
    {
    }
  }

  lemma LoggedOutcomes(verdicts: seq<Option<Outcome>>, visits: seq<Visit>, reps: seq<seq<Replacement>>,
                       bodies: seq<Option<BodyText>>, given: Strings, render: Rendering)
    requires Logged(verdicts, visits, reps, bodies, given, render)
    ensures |visits| <= |verdicts| && forall k :: 0 <= k < |visits| ==> visits[k].outcome == verdicts[k]
  {
  }

  /**
    A sequential run. The backends are reached in order; a filtered one is passed over without a call, a
    complete reply lets the run go on, anything else ends it. What is returned is exactly the merge of the
    outcomes met; an error of the very first call is returned as it is.
   */
  method SequentialMerge(backends: seq<Backend>, reps: seq<seq<Replacement>>, params: Params, render: Rendering)
    returns (res: Response?, err: RunError, ghost visits: seq<Visit>, ghost pending: int)
    requires |reps| == |backends| && Distinct(backends)
    modifies params, Written(backends)
    ensures |visits| <= |backends|
    ensures forall k :: 0 <= k < |visits| ==> (visits[k].outcome.None? <==> backends[k].filtered)
    ensures forall k :: 0 <= k < |visits| && !backends[k].filtered ==>
      visits[k].outcome == Some(if backends[k].err.Some? then Failed(backends[k].err.value)
                                else if backends[k].reply == null then Failed(NULL_RESULT)
                                else if backends[k].sawDone then Failed(CTX_ERROR)
                                else Replied(Reply(if backends[k].reply.data == null then None
                                                   else Some(old(backends[k].reply.data.m)),
                                                   old(backends[k].reply.complete))))
    ensures forall k :: 0 <= k < |visits| - 1 ==>
      || backends[k].filtered
      || (backends[k].err.None? && backends[k].reply != null && !backends[k].sawDone && old(backends[k].reply.complete))
    ensures |visits| < |backends| ==>
      && visits != []
      && var b := backends[|visits| - 1];
         !b.filtered && !(b.err.None? && b.reply != null && !b.sawDone && old(b.reply.complete))
    ensures Logged(old(Verdicts(backends)), visits, reps, old(Bodies(backends)), old(params.m), render)
    ensures params.m == old(params.m) + LastMemo(visits).registry
    ensures Concluded(|backends|, visits, ViewOf(res), err)
    ensures visits == [] ==> err == NoError
    ensures visits != [] ==>
      match visits[|visits| - 1].outcome
      case Some(Failed(e)) => if |visits| == 1 then err == First(e) && res == null else err == Joined([e])
      case _ => err == NoError
    ensures |backends| > 0 && !backends[0].filtered && backends[0].err.Some? ==>
      res == null && err == First(backends[0].err.value)
    ensures !FirstFailed(visits) ==> pending == |backends| - |visits|
  {
    hide Logged, Concluded, Verdicts, Bodies, Distinct, FirstFailed, LastMemo;
    VerdictsExact(backends);
    ghost var verdicts, bodies, given := Verdicts(backends), Bodies(backends), params.m;
    res, err, visits, pending := VisitBackends(backends, reps, params, render);
    LoggedOutcomes(verdicts, visits, reps, bodies, given, render);
    ErrorOfRun(|backends|, visits, ViewOf(res), err);
  }
}
