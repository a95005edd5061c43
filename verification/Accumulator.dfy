/** The merge accumulator as it runs: responses combined in place, sharing the first one's data map. */
module Accumulator {
  import opened Wrappers
  import opened MergeSpec

  class DataMap {
    var m: Data

    constructor ()
      ensures m == map[]
    {
      m := map[];
    }
  }

  /** A body that can be read once; reading may fail. */
  class Stream {
    var rest: string
    const fails: bool

    constructor (content: string, fails: bool)
      ensures rest == content && this.fails == fails
    {
      this.rest, this.fails := content, fails;
    }

    method ReadAll() returns (text: string, ok: bool)
      modifies this
      ensures text == old(rest) && ok == !fails && rest == ""
    {
      text, ok := rest, !fails;
      rest := "";
    }
  }

  /** Merging replaces neither the map nor the body of a response; it writes into the map and lowers the flag. */
  class Response {
    const data: DataMap?
    var complete: bool
    const io: Stream?

    constructor (data: DataMap?, complete: bool)
      ensures this.data == data && this.complete == complete && io == null
    {
      this.data, this.complete, io := data, complete, null;
    }

    ghost function View(): Reply
      reads this, data
    {
      Reply(if data == null then None else Some(data.m), complete)
    }
  }

  ghost function ViewOf(r: Response?): Option<Reply>
    reads r, if r == null then {} else {r.data}
  {
    if r == null then None else Some(r.View())
  }

  ghost function Maps(parts: seq<Response?>): set<DataMap> {
    set p | p in parts && p != null && p.data != null :: p.data
  }

  ghost function Views(parts: seq<Response?>): (vs: seq<Option<Reply>>)
    reads set p | p in parts && p != null
    reads Maps(parts)
    ensures |vs| == |parts|
  {
    seq(|parts|, i requires 0 <= i < |parts| reads set p | p in parts && p != null reads Maps(parts) =>
      if parts[i] == null then None else Some(parts[i].View()))
  }

  /** No two parts hold the same data map. */
  ghost predicate Unshared(parts: seq<Response?>) {
    forall i, j :: 0 <= i < j < |parts| && parts[i] != null && parts[j] != null && parts[i].data != null ==>
      parts[i].data != parts[j].data
  }

  /** Copies every key of src into dst; the order of the keys is arbitrary. The two may be one map. */
  method CopyInto(dst: DataMap, src: DataMap)
    modifies dst
    ensures dst.m == old(dst.m) + old(src.m)
  {
    var todo := src.m.Keys;
    while todo != {}
      invariant todo <= old(src.m).Keys && src.m == old(src.m)
      invariant dst.m == old(dst.m) + map k | k in old(src.m) && k !in todo :: old(src.m)[k]
      decreases todo
    {
      var k :| k in todo;
      dst.m := dst.m[k := src.m[k]];
      todo := todo - {k};
    }
    assert (map k | k in old(src.m) && k !in todo :: old(src.m)[k]) == old(src.m);
  }

  lemma NoParts()
    ensures AllWhole([]) && Overlay([]) == map[]
  {
  }

  ghost predicate HasMap(part: Response?) {
    part != null && part.data != null
  }

  /** One round of CombineData: starts the result with a part that has data, or lays its data over it. */
  method AddPart(ret: Response?, part: Response?, isComplete: bool) returns (r: Response?, c: bool)
    requires ret != null ==> HasMap(ret)
    modifies if ret == null then {} else {ret.data}
    ensures c <==> isComplete && Whole(ViewOf(part))
    ensures !HasMap(part) ==> r == ret && (ret != null ==> ret.data.m == old(ret.data.m))
    ensures HasMap(part) && ret == null ==> r != null && fresh(r) && r.data == part.data
    ensures HasMap(part) && ret != null ==> r == ret && ret.data.m == old(ret.data.m) + old(part.data.m)
  {
    r, c := ret, isComplete;
    if part == null || part.data == null {
      c := false;
      return;
    }
    c := c && part.complete;
    if ret == null {
      r := new Response(part.data, c);
    } else {
      CopyInto(ret.data, part.data);
    }
  }

  /** None of the first n parts has a data map. */
  ghost predicate NoMapBefore(parts: seq<Response?>, n: nat)
    requires n <= |parts|
  {
    forall j :: 0 <= j < n ==> !HasMap(parts[j])
  }

  /** Part f is the first one with a data map. */
  ghost predicate FirstMap(parts: seq<Response?>, f: nat) {
    f < |parts| && HasMap(parts[f]) && NoMapBefore(parts, f)
  }

  /** Part i has the map that an earlier part has lent to the result, so it adds nothing to it. */
  ghost predicate Repeats(parts: seq<Response?>, i: nat)
    requires i < |parts|
  {
    HasMap(parts[i]) && exists f: nat :: f < i && FirstMap(parts, f) && parts[f].data == parts[i].data
  }

  lemma NoneBefore(parts: seq<Response?>)
    ensures NoMapBefore(parts, 0)
  {
  }

  /** When the loop over the parts reaches part i; f is the part that has lent its map, if there is one. */
  lemma RepeatsWhen(parts: seq<Response?>, f: nat, i: nat, lent: bool)
    requires i < |parts| && if lent then f < i && FirstMap(parts, f) else NoMapBefore(parts, i)
    ensures Repeats(parts, i) <==> HasMap(parts[i]) && lent && parts[i].data == parts[f].data
    ensures !lent ==> if HasMap(parts[i]) then FirstMap(parts, i) else NoMapBefore(parts, i + 1)
  {
  }

  /** What the parts contribute: what they show, but nothing twice from the map of the result. */
  ghost function Contributions(parts: seq<Response?>): (vs: seq<Option<Reply>>)
    reads set p | p in parts && p != null
    reads Maps(parts)
    ensures |vs| == |parts|
  {
    seq(|parts|, i requires 0 <= i < |parts| reads set p | p in parts && p != null reads Maps(parts) =>
      if parts[i] == null then None
      else if Repeats(parts, i) then Some(Reply(Some(map[]), parts[i].complete)) else Some(parts[i].View()))
  }

  lemma WholeContributions(parts: seq<Response?>)
    ensures AllWhole(Contributions(parts))
            <==> forall i :: 0 <= i < |parts| ==> parts[i] != null && parts[i].data != null && parts[i].complete
  {
    var cs := Contributions(parts);
    forall i | 0 <= i < |parts|
      ensures Whole(cs[i]) <==> parts[i] != null && parts[i].data != null && parts[i].complete
    {
    }
  }

  /** Without shared maps every part contributes what it shows. */
  lemma UnsharedContributions(parts: seq<Response?>)
    requires Unshared(parts)
    ensures Contributions(parts) == Views(parts)
  {
  }

  /** Two parts contribute what they show, even if they share a map. */
  lemma TwoContributions(a: Response, b: Response)
    ensures Combined(2, Contributions([a, b])) == Combined(2, [Some(a.View()), Some(b.View())])
  {
    var parts, cs, vs := [a, b], Contributions([a, b]), [Some(a.View()), Some(b.View())];
    assert parts[0] == a && parts[1] == b;
    assert !Repeats(parts, 0) && cs[0] == vs[0];
    assert cs == [cs[0], cs[1]];
    OverlayPair(cs[0], cs[1]);
    OverlayPair(vs[0], vs[1]);
    if Repeats(parts, 1) {
      assert a.data == b.data;
      assert a.data.m + map[] == a.data.m + b.data.m;
    }
  }

  lemma OverlayPair(x: Option<Reply>, y: Option<Reply>)
    ensures Overlay([x, y]) == (if x.Some? && x.value.data.Some? then x.value.data.value else map[])
                               + (if y.Some? && y.value.data.Some? then y.value.data.value else map[])
    ensures AllWhole([x, y]) <==> Whole(x) && Whole(y)
  {
    var ps := [x, y];
    NoParts();
    OneMorePart(ps, 0);
    OneMorePart(ps, 1);
    assert ps[..0] == [] && ps[..2] == ps;
  }

  /**
    The default combiner. The result is a new response whose data are all maps laid over each other.
    The first part with a map lends it: it is written to, and the result shares it. No other map and no
    part is modified.
   */
  method CombineData(total: int, parts: seq<Response?>) returns (r: Response)
    modifies Maps(parts)
    ensures fresh(r) && r.data != null && r.View() == Combined(total, old(Contributions(parts)))
    ensures r.complete <==>
            |parts| == total && forall i :: 0 <= i < |parts| ==> parts[i] != null && parts[i].data != null && old(parts[i].complete)
    ensures NoMapBefore(parts, |parts|) ==> fresh(r.data)
    ensures forall f: nat :: FirstMap(parts, f) ==> r.data == parts[f].data
    ensures forall d :: d in Maps(parts) && d != r.data ==> d.m == old(d.m)
  {
    hide AllWhole, Overlay;
    ghost var vs := Contributions(parts);
    WholeContributions(parts);
    var ret, isComplete, f := CombineParts(total, parts, vs);
    r := Finish(ret, isComplete);
  }

  /** The loop of CombineData; f is the part that lends its map. */
  method CombineParts(total: int, parts: seq<Response?>, ghost vs: seq<Option<Reply>>)
    returns (ret: Response?, isComplete: bool, ghost f: nat)
    requires vs == Contributions(parts)
    modifies Maps(parts)
    ensures isComplete <==> |parts| == total && AllWhole(vs)
    ensures ret == null ==> NoMapBefore(parts, |parts|) && Overlay(vs) == map[]
    ensures ret != null ==> fresh(ret) && ret.data != null && ret.data.m == Overlay(vs)
    ensures ret != null ==> FirstMap(parts, f) && parts[f].data == ret.data
    ensures forall d :: d in Maps(parts) && (ret == null || d != ret.data) ==> d.m == old(d.m)
  {
    hide AllWhole, Overlay, Repeats, FirstMap, NoMapBefore;
    NoParts();
    NoneBefore(parts);
    isComplete, ret, f := |parts| == total, null, 0;
    for i := 0 to |parts|
      invariant isComplete <==> |parts| == total && AllWhole(vs[..i])
      invariant ret == null ==> NoMapBefore(parts, i) && Overlay(vs[..i]) == map[]
      invariant ret != null ==> fresh(ret) && ret.data != null && ret.data.m == Overlay(vs[..i])
      invariant ret != null ==> f < i && FirstMap(parts, f) && HasMap(parts[f]) && parts[f].data == ret.data
      invariant forall d :: d in Maps(parts) && (ret == null || d != ret.data) ==> d.m == old(d.m)
    {
      OneMorePart(vs, i);
      RepeatsWhen(parts, f, i, ret != null);
      assert HasMap(parts[i]) ==> parts[i].data in Maps(parts);
      f := if ret == null then i else f;
      ret, isComplete := AddPart(ret, parts[i], isComplete);
    }
    assert vs[..|parts|] == vs;
  }

  /** The end of CombineData: no nil data in the response. */
  method Finish(ret: Response?, isComplete: bool) returns (r: Response)
    modifies ret
    ensures ret == null ==> fresh(r) && r.data != null && fresh(r.data) && r.data.m == map[]
    ensures ret != null ==> r == ret
    ensures r.complete == isComplete
  {
    if ret == null {
      var empty := new DataMap();
      return new Response(empty, isComplete);
    }
    ret.complete := isComplete;
    r := ret;
  }

  /** CombineData on two responses. */
  method CombineTwo(a: Response, b: Response) returns (r: Response)
    modifies a.data, b.data
    ensures fresh(r) && r.data != null && r.View() == Combined(2, [Some(old(a.View())), Some(old(b.View()))])
    ensures if a.data != null then r.data == a.data else if b.data != null then r.data == b.data else fresh(r.data)
    ensures b.data != null && b.data != r.data ==> b.data.m == old(b.data.m)
  {
    hide Combined, Contributions;
    var parts := [a, b];
    assert parts[0] == a && parts[1] == b;
    TwoContributions(a, b);
    r := CombineData(2, parts);
    assert a.data != null ==> a.data in Maps(parts) && FirstMap(parts, 0);
    assert b.data != null ==> b.data in Maps(parts) && (a.data == null ==> FirstMap(parts, 1));
  }

  class IncrementalMergeAccumulator {
    var pending: int
    var data: Response?
    var errs: seq<string>

    constructor (total: int)
      ensures View() == Start(total) && data == null
    {
      pending, data, errs := total, null, [];
    }

    ghost function View(): Acc
      reads this, data, if data == null then {} else {data.data}
    {
      Acc(pending, ViewOf(data), errs)
    }

    /**
      Takes in one outcome. The first response is kept as it is and later written to; after a second
      one the accumulator holds a new response that shares the data map of the first one with data.
     */
    method Merge(res: Response?, err: Option<string>)
      modifies this, data, if data == null then {} else {data.data}, if res == null then {} else {res.data}
      ensures var o := if err.Some? then Failed(err.value) else if res == null then NullReply else Replied(old(res.View()));
              View() == MergeSpec.Merge(old(View()), o)
      ensures errs == old(errs) + if err.Some? then [err.value] else if res == null then [NULL_RESULT] else []
      ensures pending == old(pending) - 1
      ensures err.None? && res != null && old(data) == null ==> data == res
      ensures err.None? && res != null && old(data) != null ==>
                fresh(data) && data.data != null
                && if old(data.data) != null then data.data == old(data.data)
                   else if res.data != null then data.data == res.data else fresh(data.data)
      ensures err.None? && res != null && old(data) != null ==> unchanged(old(data))
      ensures res != null && (err.None? || res != old(data)) ==> unchanged(res)
      ensures err.None? && res != null && res.data != null && res.data != data.data ==> res.data.m == old(res.data.m)
      ensures err.Some? || res == null ==> data == old(data)
    {
      hide Combined;
      pending := pending - 1;
      if err.Some? {
        errs := errs + [err.value];
        if data != null {
          data.complete := false;
        }
        return;
      }
      if res == null {
        errs := errs + [NULL_RESULT];
        return;
      }
      if data == null {
        data := res;
        return;
      }
      data := CombineTwo(data, res);
    }

    /** The final response and the collected errors; no error means nil. */
    method Result() returns (res: Response?, failed: bool, messages: seq<string>)
      modifies data
      ensures res == data == old(data) && ViewOf(res) == MergeSpec.Result(old(View()))
      ensures messages == errs && failed == (errs != [])
      ensures unchanged(this)
    {
      failed, messages := |errs| > 0, errs;
      if data == null {
        return null, failed, messages;
      }
      if pending > 0 || |errs| > 0 {
        data.complete := false;
      }
      res := data;
    }
  }
}
