/** Whose value a sequential replacement takes: that of the backend it names, or that of a later one. */
module SequentialSources {
  import opened Wrappers
  import opened MergeSpec
  import opened SequentialSpec

  // ----- which response lends its map

  function RepliesIn(visits: seq<Visit>): nat {
    if visits == [] then 0
    else
      var o := visits[|visits| - 1].outcome;
      RepliesIn(visits[..|visits| - 1]) + if o.Some? && o.value.Replied? then 1 else 0
  }

  function DataIn(visits: seq<Visit>): nat {
    if visits == [] then 0
    else DataIn(visits[..|visits| - 1]) + if OwnData(visits[|visits| - 1]).Some? then 1 else 0
  }

  lemma {:induction false} CountsOf(visits: seq<Visit>)
    ensures var os := OutcomesOf(visits);
            && RepliesIn(visits) + CountFailures(os) == |os|
            && DataIn(visits) <= RepliesIn(visits)
            && (SomeNilReply(os) <==> DataIn(visits) < RepliesIn(visits))
            && ((exists i :: 0 <= i < |os| && os[i].Replied?) <==> RepliesIn(visits) > 0)
    decreases |visits|
  {
    if visits != [] {
      var init, last := visits[..|visits| - 1], visits[|visits| - 1];
      CountsOf(init);
      if last.outcome.Some? {
        OneMoreOutcome(OutcomesOf(init), last.outcome.value);
      } else {
        assert OutcomesOf(init) + [] == OutcomesOf(init);
      }
    }
  }

  lemma OneMoreOutcome(os: seq<Outcome>, o: Outcome)
    ensures CountFailures(os + [o]) == CountFailures(os) + if o.Replied? then 0 else 1
    ensures SomeNilReply(os + [o]) <==> SomeNilReply(os) || (o.Replied? && o.reply.data.None?)
    ensures (exists i :: 0 <= i <= |os| && (os + [o])[i].Replied?)
            <==> (exists i :: 0 <= i < |os| && os[i].Replied?) || o.Replied?
  {
    var more := os + [o];
    assert more[..|os|] == os && more[|os|] == o;
    if i :| 0 <= i < |os| && os[i].Replied? { assert more[i].Replied?; }
    if i :| 0 <= i < |os| && os[i].Replied? && os[i].reply.data.None? { assert more[i].Replied? && more[i].reply.data.None?; }
    if o.Replied? { assert more[|os|].Replied?; }
  }

  /** Visit k's response carries data, and before it there was at most one response, without data. */
  predicate Lends(visits: seq<Visit>, k: nat)
    requires k < |visits|
  {
    OwnData(visits[k]).Some? && RepliesIn(visits[..k]) <= 1 && DataIn(visits[..k]) == 0
  }

  lemma OwnerIffLends(n: nat, visits: seq<Visit>, k: nat)
    requires k < |visits|
    ensures Owner(n, visits, k) <==> Lends(visits, k)
  {
    var before := visits[..k];
    var total, os := Total(n, before), OutcomesOf(before);
    CountsOf(before);
    CollectShape(total, os);
    NilData(total, os);
  }

  // ----- which value is found

  /** The entry under the key in the latest visit whose response has one. */
  function LatestEntry(visits: seq<Visit>, key: string): Option<string> {
    if visits == [] then None
    else if Look(OwnData(visits[|visits| - 1]), key).Some? then Look(OwnData(visits[|visits| - 1]), key)
    else LatestEntry(visits[..|visits| - 1], key)
  }

  lemma {:induction false} LatestIsLatestEntry(visits: seq<Visit>, key: string)
    ensures Latest(OutcomesOf(visits), key) == LatestEntry(visits, key)
    decreases |visits|
  {
    if visits != [] {
      var init, last := visits[..|visits| - 1], visits[|visits| - 1];
      LatestIsLatestEntry(init, key);
      if last.outcome.Some? {
        var os := OutcomesOf(init) + [last.outcome.value];
        assert os[..|os| - 1] == OutcomesOf(init);
      } else {
        assert OutcomesOf(init) + [] == OutcomesOf(init);
      }
    }
  }

  /** What a run returns holds, under each key, the entry of the latest visit whose response has one. */
  lemma DataOfRun(n: nat, visits: seq<Visit>, key: string)
    ensures var r := Result(Merged(n, visits)); (if r.Some? then Look(r.value.data, key) else None) == LatestEntry(visits, key)
  {
    ResultData(Total(n, visits), OutcomesOf(visits), key);
    LatestIsLatestEntry(visits, key);
  }

  lemma {:induction false} LatestOfTwoParts(a: seq<Visit>, b: seq<Visit>, key: string)
    ensures LatestEntry(a + b, key) == if LatestEntry(b, key).Some? then LatestEntry(b, key) else LatestEntry(a, key)
    decreases |b|
  {
    if b == [] {
      assert a + b == a;
    } else {
      assert (a + b)[..|a + b| - 1] == a + b[..|b| - 1];
      LatestOfTwoParts(a, b[..|b| - 1], key);
    }
  }

  lemma {:induction false} NoDataNoEntry(visits: seq<Visit>, key: string)
    requires DataIn(visits) == 0
    ensures LatestEntry(visits, key).None?
    decreases |visits|
  {
    if visits != [] { NoDataNoEntry(visits[..|visits| - 1], key); }
  }

  /**
    Visit k's own entry is what it shows: it has not lent its map, or no later response has the key, or
    the latest one that has it agrees with it.
   */
  predicate KeepsOwn(visits: seq<Visit>, k: nat, key: string)
    requires k < |visits|
  {
    || !Lends(visits, k)
    || LatestEntry(visits[k + 1..], key).None?
    || LatestEntry(visits[k + 1..], key) == Look(OwnData(visits[k]), key)
  }

  /** Exactly when an earlier response still shows its own entry under a key. */
  lemma OwnValueIff(n: nat, visits: seq<Visit>, k: nat, key: string)
    requires k < |visits|
    ensures Look(Some(Seen(n, visits, k)), key) == Look(OwnData(visits[k]), key) <==> KeepsOwn(visits, k, key)
  {
    ShownData(n, visits, k, key);
    OwnerIffLends(n, visits, k);
    if Lends(visits, k) {
      LatestIsLatestEntry(visits, key);
      assert visits == visits[..k] + ([visits[k]] + visits[k + 1..]);
      LatestOfTwoParts(visits[..k], [visits[k]] + visits[k + 1..], key);
      LatestOfTwoParts([visits[k]], visits[k + 1..], key);
      NoDataNoEntry(visits[..k], key);
      assert [visits[k]][..0] == [];
    }
  }

  // ----- which value is propagated

  /** The rendering looks at nothing but the top-level entries that its path names. */
  ghost predicate ReadsSource(render: Rendering) {
    forall d, e, source | (forall key :: key in source ==> Look(Some(d), key) == Look(Some(e), key)) ::
      render(d, source) == render(e, source)
  }

  /** What the response of visit k offers by itself. */
  function OwnOffer(visits: seq<Visit>, k: nat, bodies: seq<Option<BodyText>>): Offer
    requires k < |visits| <= |bodies|
  {
    Offer(if OwnData(visits[k]).Some? then OwnData(visits[k]).value else map[],
          if visits[k].outcome.None? then None else bodies[k])
  }

  /** A replacement whose keys keep their own entries propagates what the backend it names has sent. */
  lemma OwnValuePropagated(n: nat, visits: seq<Visit>, bodies: seq<Option<BodyText>>, r: Replacement,
                           memo: Memo, render: Rendering)
    requires |visits| <= |bodies| && r.backendIndex < |visits| && ReadsSource(render)
    requires r.fullResponse || forall key :: key in r.source ==> KeepsOwn(visits, r.backendIndex, key)
    ensures Replace(r, OffersOf(n, visits, bodies)[r.backendIndex], memo, render)
            == Replace(r, OwnOffer(visits, r.backendIndex, bodies), memo, render)
  {
    var k := r.backendIndex;
    var shown, own := Seen(n, visits, k), OwnOffer(visits, k, bodies).data;
    if !r.fullResponse {
      forall key | key in r.source ensures Look(Some(shown), key) == Look(Some(own), key) {
        OwnValueIff(n, visits, k, key);
      }
      assert render(shown, r.source) == render(own, r.source);
    }
  }

  /** Top-level text is rendered as it is. */
  ghost predicate PlainText(render: Rendering) {
    forall d: Data, key :: render(d, [key]) == Look(Some(d), key)
  }

  /** For a top-level text value and a destination not yet set the condition is exact. */
  lemma OwnTextPropagatedIff(n: nat, visits: seq<Visit>, bodies: seq<Option<BodyText>>, r: Replacement, key: string,
                             memo: Memo, render: Rendering)
    requires |visits| <= |bodies| && r.backendIndex < |visits| && PlainText(render)
    requires !r.fullResponse && r.source == [key] && r.destination !in memo.registry
    ensures Replace(r, OffersOf(n, visits, bodies)[r.backendIndex], memo, render)
            == Replace(r, OwnOffer(visits, r.backendIndex, bodies), memo, render)
            <==> KeepsOwn(visits, r.backendIndex, key)
  {
    var k := r.backendIndex;
    var shown, own := Seen(n, visits, k), OwnOffer(visits, k, bodies).data;
    OwnValueIff(n, visits, k, key);
    assert render(shown, [key]) == Look(Some(shown), key) && render(own, [key]) == Look(Some(own), key);
    var a := Replace(r, OffersOf(n, visits, bodies)[k], memo, render);
    var b := Replace(r, OwnOffer(visits, k, bodies), memo, render);
    if a == b && Look(Some(shown), key).Some? { assert a.registry[r.destination] == Look(Some(shown), key).value; }
    if a == b && Look(Some(own), key).Some? { assert b.registry[r.destination] == Look(Some(own), key).value; }
  }

  /** Replies of one entry. */
  function IdReply(id: string): Option<Outcome> {
    Some(Replied(Reply(Some(map["id" := id]), true)))
  }

  const ASKS_FOR_0 := Replacement(0, "Resp0_id", ["id"], false)

  const EXAMPLE_REPS: seq<seq<Replacement>> := [[], [], [ASKS_FOR_0]]

  const NO_BODIES: seq<Option<BodyText>> := [None, None, None]

  /**
    It does happen: in every run where backends 0 and 1 reply with different values of id and backend 2
    asks for that of backend 0, it is called with that of backend 1.
   */
  lemma LaterValueExample(visits: seq<Visit>, render: Rendering)
    requires PlainText(render) && |visits| == 3 && AllPropagated(3, visits, EXAMPLE_REPS, NO_BODIES, map[], render)
    requires visits[0].outcome == IdReply("1") && visits[1].outcome == IdReply("2")
    ensures visits[2].params == map["Resp0_id" := "2"]
  {
    var two := visits[..2];
    assert Propagated(3, visits[..1], visits[1], EXAMPLE_REPS[1], NO_BODIES, map[], render);
    assert Propagated(3, two, visits[2], EXAMPLE_REPS[2], NO_BODIES, map[], render);
    assert Propagated(3, visits[..0], visits[0], EXAMPLE_REPS[0], NO_BODIES, map[], render);
    assert LastMemo(two) == visits[1].memo && LastMemo(visits[..1]) == visits[0].memo == NO_MEMO;
    AsksForTwo(two, render);
    assert map[] + map["Resp0_id" := "2"] == map["Resp0_id" := "2"];
  }

  lemma AsksForTwo(visits: seq<Visit>, render: Rendering)
    requires |visits| == 2 && visits[0].outcome == IdReply("1") && visits[1].outcome == IdReply("2") && PlainText(render)
    ensures ReplaceAll([], OffersOf(3, visits[..1], NO_BODIES), NO_MEMO, render) == NO_MEMO
    ensures ReplaceAll([ASKS_FOR_0], OffersOf(3, visits, NO_BODIES), NO_MEMO, render) == Memo(map["Resp0_id" := "2"], {})
  {
    FirstShowsSecond(visits);
    var shown := OffersOf(3, visits, NO_BODIES)[0].data;
    assert render(shown, ["id"]) == Look(Some(shown), "id") == Some("2");
    assert [ASKS_FOR_0][..0] == [];
  }

  lemma FirstShowsSecond(visits: seq<Visit>)
    requires |visits| == 2 && visits[0].outcome == IdReply("1") && visits[1].outcome == IdReply("2")
    ensures Look(Some(Seen(3, visits, 0)), "id") == Some("2")
  {
    OwnerIffLends(3, visits, 0);
    assert Lends(visits, 0);
    ShownData(3, visits, 0, "id");
    LatestIsLatestEntry(visits, "id");
  }

  /** There is such a run. */
  lemma LaterValueRun(render: Rendering)
    requires PlainText(render)
    ensures var v0, v1 := Visit(NO_MEMO, map[], IdReply("1")), Visit(NO_MEMO, map[], IdReply("2"));
            var v2 := Visit(Memo(map["Resp0_id" := "2"], {}), map["Resp0_id" := "2"], None);
            AllPropagated(3, [v0, v1, v2], EXAMPLE_REPS, NO_BODIES, map[], render)
  {
    var v0, v1 := Visit(NO_MEMO, map[], IdReply("1")), Visit(NO_MEMO, map[], IdReply("2"));
    var v2 := Visit(Memo(map["Resp0_id" := "2"], {}), map["Resp0_id" := "2"], None);
    var visits := [v0, v1, v2];
    assert visits[..0] == [] && visits[..1] == [v0] && visits[..2] == [v0, v1];
    AsksForTwo(visits[..2], render);
  }
}
