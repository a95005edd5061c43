/** The collecting loop of the parallel merge on the heap: arrivals are merged one after the other. */
module Collector {
  import opened Wrappers
  import opened MergeSpec
  import opened Accumulator

  /** What one select receives: a response, or an error. */
  datatype Arrival = Arrival(res: Response?, err: Option<string>)

  ghost function OutcomeOf(a: Arrival): Outcome
    reads a.res, if a.res == null then {} else {a.res.data}
  {
    if a.err.Some? then Failed(a.err.value) else if a.res == null then NullReply else Replied(a.res.View())
  }

  function Responses(arrivals: seq<Arrival>): set<Response> {
    set a | a in arrivals && a.res != null :: a.res
  }

  function DataMaps(arrivals: seq<Arrival>): set<DataMap> {
    set a | a in arrivals && a.res != null && a.res.data != null :: a.res.data
  }

  ghost function OutcomesOf(arrivals: seq<Arrival>): (os: seq<Outcome>)
    reads Responses(arrivals), DataMaps(arrivals)
    ensures |os| == |arrivals|
  {
    seq(|arrivals|, i requires 0 <= i < |arrivals| reads Responses(arrivals), DataMaps(arrivals) => OutcomeOf(arrivals[i]))
  }

  /** Responses of different backends share neither the object nor the data map. */
  ghost predicate Separate(arrivals: seq<Arrival>) {
    forall i, j :: 0 <= i < j < |arrivals| && arrivals[i].res != null && arrivals[j].res != null ==>
      && arrivals[i].res != arrivals[j].res
      && (arrivals[i].res.data != null ==> arrivals[i].res.data != arrivals[j].res.data)
  }

  /** The merge has not touched the arrivals from i on, whose outcomes are os. */
  ghost predicate Untouched(arrivals: seq<Arrival>, os: seq<Outcome>, acc: IncrementalMergeAccumulator, i: nat)
    requires |os| == |arrivals|
    reads acc, Responses(arrivals), DataMaps(arrivals)
  {
    forall k :: i <= k < |arrivals| ==>
      && OutcomeOf(arrivals[k]) == os[k]
      && (arrivals[k].res != null && acc.data != null ==>
            acc.data != arrivals[k].res && (acc.data.data != null ==> acc.data.data != arrivals[k].res.data))
  }

  lemma NothingTouched(arrivals: seq<Arrival>, os: seq<Outcome>, acc: IncrementalMergeAccumulator)
    requires os == OutcomesOf(arrivals) && acc.data == null
    ensures Untouched(arrivals, os, acc, 0)
  {
  }

  lemma NextUntouched(arrivals: seq<Arrival>, os: seq<Outcome>, acc: IncrementalMergeAccumulator, i: nat)
    requires i < |arrivals| == |os| && Untouched(arrivals, os, acc, i)
    ensures OutcomeOf(arrivals[i]) == os[i]
  {
  }

  /** Merges one arrival as it shows now; separate arrivals still to come are not touched. */
  method MergeNext(arrivals: seq<Arrival>, i: nat, acc: IncrementalMergeAccumulator, ghost total: int, ghost met: seq<Outcome>,
                   ghost os: seq<Outcome>)
    requires i < |arrivals| == |os| && acc.View() == Collect(total, met)
    modifies acc, acc.data, if acc.data == null then {} else {acc.data.data}
    modifies arrivals[i].res, if arrivals[i].res == null then {} else {arrivals[i].res.data}
    ensures acc.View() == Collect(total, met + [old(OutcomeOf(arrivals[i]))])
    ensures Separate(arrivals) && old(Untouched(arrivals, os, acc, i)) ==> Untouched(arrivals, os, acc, i + 1)
    ensures acc.data != null ==>
      && (acc.data == old(acc.data) || acc.data == arrivals[i].res || fresh(acc.data))
      && (acc.data.data != null ==>
            || (old(acc.data) != null && acc.data.data == old(acc.data.data))
            || (arrivals[i].res != null && acc.data.data == arrivals[i].res.data) || fresh(acc.data.data))
  {
    hide Combined;
    ghost var more := met + [OutcomeOf(arrivals[i])];
    assert more[..|met|] == met;
    acc.Merge(arrivals[i].res, arrivals[i].err);
  }

  /**
    In any order of arrival the loop collects what MergeSpec says of the outcomes as they show when they
    are received, although it writes into the responses it has taken in. If the responses share nothing,
    these are the outcomes as they were sent.
   */
  method CollectAll(total: int, arrivals: seq<Arrival>)
    returns (res: Response?, failed: bool, messages: seq<string>, ghost met: seq<Outcome>)
    modifies Responses(arrivals), DataMaps(arrivals)
    ensures var acc := Collect(total, met);
            ViewOf(res) == Result(acc) && messages == acc.errs && failed == (acc.errs != [])
    ensures |met| == |arrivals| && forall k :: 0 <= k < |met| ==> SameKind(met[k], arrivals[k])
    ensures messages == Complaints(arrivals)
    ensures forall k :: 0 <= k <= |met| ==> Collect(total, met[..k]).errs <= messages
    ensures Separate(arrivals) ==> met == old(OutcomesOf(arrivals))
  {
    hide Merge, Collect, Separate, Untouched, OutcomesOf, OutcomeOf, SameKind, Complaints, ErrorsOf;
    ghost var os := OutcomesOf(arrivals);
    var acc := new IncrementalMergeAccumulator(total);
    met := [];
    NothingCollected(total);
    NothingTouched(arrivals, os, acc);
    for i := 0 to |arrivals|
      invariant fresh(acc) && |met| == i && acc.View() == Collect(total, met)
      invariant forall k :: 0 <= k < i ==> SameKind(met[k], arrivals[k])
      invariant Separate(arrivals) ==> Untouched(arrivals, os, acc, i) && met == os[..i]
      invariant acc.data != null ==>
        && (acc.data in Responses(arrivals) || fresh(acc.data))
        && (acc.data.data != null ==> acc.data.data in DataMaps(arrivals) || fresh(acc.data.data))
    {
      ghost var o := OutcomeOf(arrivals[i]);
      ShowsKind(arrivals[i]);
      if Separate(arrivals) { NextUntouched(arrivals, os, acc, i); }
      MergeNext(arrivals, i, acc, total, met, os);
      met := met + [o];
    }
    res, failed, messages := acc.Result();
    ErrorList(total, met);
    ComplaintsMet(arrivals, met);
    EarlierFirst(total, met);
  }

  lemma EarlierFirst(total: int, met: seq<Outcome>)
    ensures forall k :: 0 <= k <= |met| ==> Collect(total, met[..k]).errs <= Collect(total, met).errs
  {
    hide Collect;
    forall k | 0 <= k <= |met| ensures Collect(total, met[..k]).errs <= Collect(total, met).errs {
      assert met[..k] + met[k..] == met;
      ErrorsInOrder(total, met[..k], met[k..]);
    }
  }

  function Complaint(a: Arrival): seq<string> {
    if a.err.Some? then [a.err.value] else if a.res == null then [NULL_RESULT] else []
  }

  /** The error texts received, in order of arrival; a missing response counts as one. */
  function Complaints(arrivals: seq<Arrival>): seq<string> {
    if arrivals == [] then [] else Complaint(arrivals[0]) + Complaints(arrivals[1..])
  }

  lemma {:induction false} ComplaintsMet(arrivals: seq<Arrival>, met: seq<Outcome>)
    requires |met| == |arrivals| && forall k :: 0 <= k < |met| ==> SameKind(met[k], arrivals[k])
    ensures ErrorsOf(met) == Complaints(arrivals)
    decreases |met|
  {
    if met != [] {
      ComplaintsMet(arrivals[1..], met[1..]);
      assert SameKind(met[0], arrivals[0]);
    }
  }

  /** Whatever the response shows by then, an arrival stays the failure or the reply that it is. */
  ghost predicate SameKind(o: Outcome, a: Arrival) {
    if a.err.Some? then o == Failed(a.err.value)
    else if a.res == null then o == NullReply
    else o.Replied? && (o.reply.data.None? <==> a.res.data == null)
  }

  lemma ShowsKind(a: Arrival)
    ensures SameKind(OutcomeOf(a), a)
    ensures a.err.None? && a.res != null ==>
              OutcomeOf(a) == Replied(Reply(if a.res.data == null then None else Some(a.res.data.m), a.res.complete))
  {
  }

  lemma NothingCollected(total: int)
    ensures Collect(total, []) == Start(total)
  {
  }
}
