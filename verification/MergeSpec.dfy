/** Merging responses, on values: what the accumulator holds after a sequence of outcomes. */
module MergeSpec {

  import opened Wrappers

  type Data = map<string, string>     // top-level keys; the values are never looked into

  datatype Reply = Reply(data: Option<Data>, complete: bool)

  datatype Outcome = Failed(err: string) | NullReply | Replied(reply: Reply)

  const NULL_RESULT := "invalid response"
  const CTX_ERROR := "context done"

  // ----- combineData

  ghost predicate Whole(p: Option<Reply>) {
    p.Some? && p.value.data.Some? && p.value.complete
  }

  /** All data maps laid over each other, later ones on top. */
  function Overlay(parts: seq<Option<Reply>>): Data {
    if parts == [] then map[]
    else
      var last := parts[|parts| - 1];
      Overlay(parts[..|parts| - 1]) + if last.Some? && last.value.data.Some? then last.value.data.value else map[]
  }

  ghost predicate AllWhole(parts: seq<Option<Reply>>) {
    forall i :: 0 <= i < |parts| ==> Whole(parts[i])
  }

  lemma OneMorePart(parts: seq<Option<Reply>>, i: nat)
    requires i < |parts|
    ensures AllWhole(parts[..i + 1]) <==> AllWhole(parts[..i]) && Whole(parts[i])
    ensures Overlay(parts[..i + 1])
            == Overlay(parts[..i]) + if parts[i].Some? && parts[i].value.data.Some? then parts[i].value.data.value else map[]
  {
    assert parts[..i + 1][..i] == parts[..i];
    assert parts[..i + 1] == parts[..i] + [parts[i]];
    if AllWhole(parts[..i + 1]) {
      assert forall k :: 0 <= k < i ==> parts[..i][k] == parts[..i + 1][k];
      assert Whole(parts[..i + 1][i]);
    }
  }

  /** Under each key the overlay holds the value of the last part that has it. */
  lemma {:induction false} OverlayLast(parts: seq<Option<Reply>>, k: string)
    ensures k in Overlay(parts) <==> exists i :: 0 <= i < |parts| && PartHas(parts[i], k)
    ensures forall i :: 0 <= i < |parts| && PartHas(parts[i], k) && (forall j :: i < j < |parts| ==> !PartHas(parts[j], k)) ==>
              Overlay(parts)[k] == parts[i].value.data.value[k]
    decreases |parts|
  {
    if parts != [] {
      var init, last := parts[..|parts| - 1], parts[|parts| - 1];
      OverlayLast(init, k);
      assert forall i :: 0 <= i < |init| ==> init[i] == parts[i];
      if PartHas(last, k) { assert PartHas(parts[|init|], k); }
    }
  }

  predicate PartHas(p: Option<Reply>, k: string) {
    p.Some? && p.value.data.Some? && k in p.value.data.value
  }

  ghost function Combined(total: int, parts: seq<Option<Reply>>): Reply {
    Reply(Some(Overlay(parts)), |parts| == total && AllWhole(parts))
  }

  // ----- the accumulator

  datatype Acc = Acc(pending: int, data: Option<Reply>, errs: seq<string>)

  ghost function Merge(acc: Acc, o: Outcome): Acc {
    match o
    case Failed(e) =>
      Acc(acc.pending - 1, if acc.data.Some? then Some(acc.data.value.(complete := false)) else None, acc.errs + [e])
    case NullReply =>
      Acc(acc.pending - 1, acc.data, acc.errs + [NULL_RESULT])
    case Replied(r) =>
      Acc(acc.pending - 1, Some(if acc.data.None? then r else Combined(2, [acc.data, Some(r)])), acc.errs)
  }

  ghost function Start(total: int): Acc {
    Acc(total, None, [])
  }

  ghost function Collect(total: int, os: seq<Outcome>): Acc {
    if os == [] then Start(total) else Merge(Collect(total, os[..|os| - 1]), os[|os| - 1])
  }

  /** The response returned: incomplete when something is still pending or has failed. */
  ghost function Result(acc: Acc): Option<Reply> {
    if acc.data.Some? && (acc.pending > 0 || acc.errs != []) then Some(acc.data.value.(complete := false)) else acc.data
  }

  // ----- completeness

  ghost predicate AllReplied(os: seq<Outcome>) {
    forall i :: 0 <= i < |os| ==> os[i].Replied?
  }

  ghost predicate AllComplete(os: seq<Outcome>) {
    forall i :: 0 <= i < |os| ==> os[i].Replied? && os[i].reply.complete
  }

  ghost predicate AllWithData(os: seq<Outcome>) {
    forall i :: 0 <= i < |os| ==> os[i].Replied? && os[i].reply.data.Some?
  }

  function CountFailures(os: seq<Outcome>): nat {
    if os == [] then 0 else CountFailures(os[..|os| - 1]) + if os[|os| - 1].Replied? then 0 else 1
  }

  lemma {:induction false} CollectShape(total: int, os: seq<Outcome>)
    ensures var acc := Collect(total, os);
            && acc.pending == total - |os|
            && |acc.errs| == CountFailures(os)
            && (acc.data.Some? <==> exists i :: 0 <= i < |os| && os[i].Replied?)
            && (acc.errs == [] <==> AllReplied(os))
            && (if acc.data.Some? then |acc.errs| < |os| else |acc.errs| == |os|)
    decreases |os|
  {
    if os != [] {
      var init := os[..|os| - 1];
      CollectShape(total, init);
      if i :| 0 <= i < |init| && init[i].Replied? { assert os[i].Replied?; }
      if os[|os| - 1].Replied? && AllReplied(init) {
        forall i | 0 <= i < |os| ensures os[i].Replied? { if i < |init| { assert init[i].Replied?; } }
      }
      if AllReplied(os) { assert forall i :: 0 <= i < |init| ==> init[i] == os[i]; }
    }
  }

  lemma CombinedTwo(a: Reply, b: Reply)
    ensures Combined(2, [Some(a), Some(b)]).complete <==>
            a.complete && b.complete && a.data.Some? && b.data.Some?
  {
    var ps := [Some(a), Some(b)];
    assert ps[0] == Some(a) && ps[1] == Some(b);
    if a.complete && b.complete && a.data.Some? && b.data.Some? {
      assert AllWhole(ps);
    }
    if Combined(2, ps).complete {
      assert Whole(ps[0]) && Whole(ps[1]);
    }
  }

  /** Without failures the flag collected is exact, and nil data survive only in a single response. */
  lemma {:induction false} CollectComplete(total: int, os: seq<Outcome>)
    requires AllReplied(os) && os != []
    ensures var r := Collect(total, os).data;
            && r.Some?
            && (r.value.complete <==> AllComplete(os) && (|os| == 1 || AllWithData(os)))
            && (r.value.data.None? <==> |os| == 1 && os[0].reply.data.None?)
    decreases |os|
  {
    var init, last := os[..|os| - 1], os[|os| - 1];
    assert os == init + [last];
    if init == [] {
      assert Collect(total, init) == Start(total);
    } else {
      CollectComplete(total, init);
      CombinedTwo(Collect(total, init).data.value, last.reply);
      assert AllComplete(os) <==> AllComplete(init) && last.reply.complete;
      assert AllWithData(os) <==> AllWithData(init) && last.reply.data.Some?;
    }
  }

  /**
    Exact completeness of the merged result: there is a response iff some backend replied, there is no
    error iff all did, and the response is complete iff nothing is missing or failed, every reply is
    complete, and either there is just one or all of them carry data.
   */
  lemma ExactCompleteness(total: int, os: seq<Outcome>)
    ensures var acc := Collect(total, os);
            && (Result(acc).None? <==> forall i :: 0 <= i < |os| ==> !os[i].Replied?)
            && (acc.errs == [] <==> AllReplied(os))
            && (Result(acc).Some? && Result(acc).value.complete <==>
                os != [] && total <= |os| && AllComplete(os) && (|os| == 1 || AllWithData(os)))
  {
    CollectShape(total, os);
    if AllReplied(os) && os != [] {
      CollectComplete(total, os);
    }
  }

  // ----- the data

  ghost predicate Has(o: Outcome, k: string) {
    o.Replied? && o.reply.data.Some? && k in o.reply.data.value
  }

  /** The value of key k in the latest outcome that has it. */
  ghost function Latest(os: seq<Outcome>, k: string): Option<string> {
    if os == [] then None
    else if Has(os[|os| - 1], k) then Some(os[|os| - 1].reply.data.value[k])
    else Latest(os[..|os| - 1], k)
  }

  function Look(d: Option<Data>, k: string): Option<string> {
    if d.Some? && k in d.value then Some(d.value[k]) else None
  }

  lemma OverlayTwo(a: Reply, b: Reply, k: string)
    ensures Look(Combined(2, [Some(a), Some(b)]).data, k)
            == if Look(b.data, k).Some? then Look(b.data, k) else Look(a.data, k)
  {
    var ps := [Some(a), Some(b)];
    assert ps[..1] == [Some(a)];
    assert ps[..1][..0] == [];
    assert Overlay(ps[..1]) == Overlay([]) + if a.data.Some? then a.data.value else map[];
    assert Overlay(ps) == Overlay(ps[..1]) + if b.data.Some? then b.data.value else map[];
  }

  /** Each key holds the value of the latest arriving response that has it. */
  lemma {:induction false} LatestWins(total: int, os: seq<Outcome>, k: string)
    ensures var d := Collect(total, os).data;
            (if d.Some? then Look(d.value.data, k) else None) == Latest(os, k)
    decreases |os|
  {
    if os != [] {
      var acc, last := Collect(total, os[..|os| - 1]), os[|os| - 1];
      LatestWins(total, os[..|os| - 1], k);
      if last.Replied? && acc.data.Some? {
        OverlayTwo(acc.data.value, last.reply, k);
      }
    }
  }

  /** The response returned holds, under each key, the value of the latest response that has it. */
  lemma ResultData(total: int, os: seq<Outcome>, k: string)
    ensures var r := Result(Collect(total, os)); (if r.Some? then Look(r.value.data, k) else None) == Latest(os, k)
  {
    LatestWins(total, os, k);
  }

  // ----- arrival order

  /** Responses that share a key agree on its value. */
  ghost predicate Compatible(os: seq<Outcome>) {
    forall i, j, k :: 0 <= i < |os| && 0 <= j < |os| && Has(os[i], k) && Has(os[j], k) ==>
      os[i].reply.data.value[k] == os[j].reply.data.value[k]
  }

  lemma {:induction false} LatestIsSome(os: seq<Outcome>, k: string)
    ensures Latest(os, k).Some? ==>
              exists i :: 0 <= i < |os| && Has(os[i], k) && os[i].reply.data.value[k] == Latest(os, k).value
    ensures Latest(os, k).None? ==> forall i :: 0 <= i < |os| ==> !Has(os[i], k)
    decreases |os|
  {
    if os != [] && !Has(os[|os| - 1], k) {
      var init := os[..|os| - 1];
      LatestIsSome(init, k);
      if Latest(init, k).Some? {
        var i :| 0 <= i < |init| && Has(init[i], k) && init[i].reply.data.value[k] == Latest(init, k).value;
        assert Has(os[i], k);
      } else {
        forall i | 0 <= i < |os| ensures !Has(os[i], k) { if i < |init| { assert !Has(init[i], k); } }
      }
    }
  }

  lemma InBoth(a: seq<Outcome>, b: seq<Outcome>, i: nat) returns (j: nat)
    requires multiset(a) == multiset(b) && i < |a|
    ensures j < |b| && b[j] == a[i]
  {
    assert a[i] in multiset(b);
    j :| 0 <= j < |b| && b[j] == a[i];
  }

  lemma SameLatest(a: seq<Outcome>, b: seq<Outcome>, k: string)
    requires multiset(a) == multiset(b) && Compatible(a)
    ensures Latest(a, k) == Latest(b, k)
  {
    LatestIsSome(a, k);
    LatestIsSome(b, k);
    if Latest(a, k).Some? {
      var i :| 0 <= i < |a| && Has(a[i], k) && a[i].reply.data.value[k] == Latest(a, k).value;
      var j := InBoth(a, b, i);
      assert Has(b[j], k);
    }
    if Latest(b, k).Some? {
      var i :| 0 <= i < |b| && Has(b[i], k) && b[i].reply.data.value[k] == Latest(b, k).value;
      var j := InBoth(b, a, i);
      assert Has(a[j], k);
    }
  }

  lemma CountAppend<T>(s: seq<T>, x: T, y: T)
    ensures multiset(s + [x])[y] == multiset(s)[y] + if x == y then 1 else 0
  {
  }

  /** The error list is what failed, whatever the order. */
  lemma {:induction false} ErrorCount(total: int, os: seq<Outcome>, e: string)
    ensures multiset(Collect(total, os).errs)[e]
            == multiset(os)[Failed(e)] + if e == NULL_RESULT then multiset(os)[NullReply] else 0
    decreases |os|
  {
    if os != [] {
      var init, last := os[..|os| - 1], os[|os| - 1];
      ErrorCount(total, init, e);
      assert os == init + [last];
      CountAppend(init, last, Failed(e));
      CountAppend(init, last, NullReply);
      var errs := Collect(total, init).errs;
      match last
      case Failed(f) => CountAppend(errs, f, e);
      case NullReply => CountAppend(errs, NULL_RESULT, e);
      case Replied(_) =>
    }
  }

  /** The error texts of the outcomes, from the first to the last; a missing reply counts as one. */
  function ErrorsOf(os: seq<Outcome>): seq<string> {
    if os == [] then []
    else
      (match os[0] case Failed(e) => [e] case NullReply => [NULL_RESULT] case Replied(_) => []) + ErrorsOf(os[1..])
  }

  lemma {:induction false} ErrorsSnoc(os: seq<Outcome>, o: Outcome)
    ensures ErrorsOf(os + [o]) == ErrorsOf(os) + ErrorsOf([o])
    decreases |os|
  {
    if os == [] {
      assert os + [o] == [o];
    } else {
      assert (os + [o])[1..] == os[1..] + [o];
      ErrorsSnoc(os[1..], o);
    }
  }

  /** The list of errors, exactly. */
  lemma {:induction false} ErrorList(total: int, os: seq<Outcome>)
    ensures Collect(total, os).errs == ErrorsOf(os)
    decreases |os|
  {
    if os != [] {
      var init, last := os[..|os| - 1], os[|os| - 1];
      ErrorList(total, init);
      ErrorsSnoc(init, last);
      assert os == init + [last];
      assert [last][1..] == [];
    }
  }

  /** Errors are collected in the order of arrival: those of earlier outcomes come first. */
  lemma {:induction false} ErrorsInOrder(total: int, a: seq<Outcome>, b: seq<Outcome>)
    ensures Collect(total, a).errs <= Collect(total, a + b).errs
    decreases |b|
  {
    if b == [] {
      assert a + b == a;
    } else {
      ErrorsInOrder(total, a, b[..|b| - 1]);
      assert (a + b)[..|a + b| - 1] == a + b[..|b| - 1];
    }
  }

  lemma SameErrors(total: int, a: seq<Outcome>, b: seq<Outcome>)
    requires multiset(a) == multiset(b)
    ensures multiset(Collect(total, a).errs) == multiset(Collect(total, b).errs)
    ensures |Collect(total, a).errs| == |Collect(total, b).errs|
  {
    var ea, eb := Collect(total, a).errs, Collect(total, b).errs;
    forall e ensures multiset(ea)[e] == multiset(eb)[e] {
      ErrorCount(total, a, e);
      ErrorCount(total, b, e);
    }
    assert multiset(ea) == multiset(eb);
    assert |multiset(ea)| == |ea| && |multiset(eb)| == |eb|;
  }

  ghost predicate SomeNilReply(os: seq<Outcome>) {
    exists i :: 0 <= i < |os| && os[i].Replied? && os[i].reply.data.None?
  }

  /** Nil data survive exactly when one single response came and has none. */
  lemma {:induction false} NilData(total: int, os: seq<Outcome>)
    ensures var acc := Collect(total, os);
            acc.data.Some? && acc.data.value.data.None? <==> |os| - |acc.errs| == 1 && SomeNilReply(os)
    decreases |os|
  {
    if os != [] {
      var init, last := os[..|os| - 1], os[|os| - 1];
      NilData(total, init);
      CollectShape(total, init);
      assert os == init + [last];
      assert SomeNilReply(os) <==> SomeNilReply(init) || (last.Replied? && last.reply.data.None?) by {
        if SomeNilReply(init) {
          var i :| 0 <= i < |init| && init[i].Replied? && init[i].reply.data.None?;
          assert os[i].Replied?;
        }
        if last.Replied? && last.reply.data.None? { assert os[|init|].Replied?; }
      }
    }
  }

  lemma SameNil(a: seq<Outcome>, b: seq<Outcome>)
    requires multiset(a) == multiset(b)
    ensures SomeNilReply(a) ==> SomeNilReply(b)
    ensures AllReplied(a) ==> AllReplied(b)
    ensures AllComplete(a) ==> AllComplete(b)
    ensures AllWithData(a) ==> AllWithData(b)
    ensures Compatible(a) ==> Compatible(b)
  {
    if i :| 0 <= i < |a| && a[i].Replied? && a[i].reply.data.None? {
      var j := InBoth(a, b, i);
      assert b[j].Replied?;
    }
    forall j | 0 <= j < |b| ensures exists i :: 0 <= i < |a| && a[i] == b[j] {
      var i := InBoth(b, a, j);
    }
  }

  ghost predicate SameResult(total: int, a: seq<Outcome>, b: seq<Outcome>) {
    var x, y := Collect(total, a), Collect(total, b);
    Result(x) == Result(y) && multiset(x.errs) == multiset(y.errs)
  }

  /** The arrival order decides nothing when responses agree on the keys they share. */
  lemma Confluence(total: int, a: seq<Outcome>, b: seq<Outcome>)
    requires multiset(a) == multiset(b) && Compatible(a)
    ensures SameResult(total, a, b)
  {
    var x, y := Collect(total, a), Collect(total, b);
    assert |multiset(a)| == |a| && |multiset(b)| == |b|;
    SameErrors(total, a, b);
    SameNil(a, b);
    SameNil(b, a);
    NilData(total, a);
    NilData(total, b);
    ExactCompleteness(total, a);
    ExactCompleteness(total, b);
    CollectShape(total, a);
    CollectShape(total, b);
    if x.data.Some? {
      SameData(total, a, b);
    }
  }

  lemma SameData(total: int, a: seq<Outcome>, b: seq<Outcome>)
    requires multiset(a) == multiset(b) && Compatible(a)
    requires Collect(total, a).data.Some? && Collect(total, b).data.Some?
    requires Collect(total, a).data.value.data.None? <==> Collect(total, b).data.value.data.None?
    ensures Collect(total, a).data.value.data == Collect(total, b).data.value.data
  {
    var d, e := Collect(total, a).data.value.data, Collect(total, b).data.value.data;
    forall k ensures Look(d, k) == Look(e, k) {
      LatestWins(total, a, k);
      LatestWins(total, b, k);
      SameLatest(a, b, k);
    }
    if d.Some? {
      forall k ensures k in d.value <==> k in e.value
               ensures k in d.value && k in e.value ==> d.value[k] == e.value[k] {
        assert Look(d, k) == Look(e, k);
      }
      assert d.value == e.value;
    }
  }

  /**
    The arrival order is irrelevant exactly when responses agree on every key they share; pairwise
    disjoint keys are the case without any sharing.
   */
  lemma ConfluentIffCompatible(total: int, a: seq<Outcome>)
    ensures (forall b :: multiset(a) == multiset(b) ==> SameResult(total, a, b)) <==> Compatible(a)
  {
    if Compatible(a) {
      forall b | multiset(a) == multiset(b) ensures SameResult(total, a, b) { Confluence(total, a, b); }
    } else {
      var i, j, k :| 0 <= i < |a| && 0 <= j < |a| && Has(a[i], k) && Has(a[j], k)
                     && a[i].reply.data.value[k] != a[j].reply.data.value[k];
      var b := ArriveLast(total, a, i, k);
      var c := ArriveLast(total, a, j, k);
      assert !SameResult(total, a, b) || !SameResult(total, a, c);
    }
  }

  /** The response with key k that arrives last gives the key its value. */
  lemma ArriveLast(total: int, a: seq<Outcome>, i: nat, k: string) returns (b: seq<Outcome>)
    requires i < |a| && Has(a[i], k)
    ensures multiset(a) == multiset(b)
    ensures var r := Result(Collect(total, b));
            r.Some? && Look(r.value.data, k) == Some(a[i].reply.data.value[k])
  {
    b := a[..i] + a[i + 1..] + [a[i]];
    assert a == a[..i] + [a[i]] + a[i + 1..];
    LatestWins(total, b, k);
  }
}
