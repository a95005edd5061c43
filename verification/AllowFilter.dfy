/** The allow list: the tree it is compiled into and what pruning with that tree keeps. */
module AllowFilter {
  import opened Json
  import opened Wrappers

  // ----- pruning

  /** What becomes of the element c whose key is bound to w in the allow tree: None when it is deleted. */
  function PruneChild(w: Value, c: Value): (r: Option<Value>)
    decreases c, 1
  {
    if !w.Obj? then Some(c)
    else if !c.Obj? then None
    else
      var m := PruneFields(w, c);
      if m == map[] then None else Some(Obj(m))
  }

  function PruneFields(w: Value, c: Value): map<string, Value>
    requires w.Obj? && c.Obj?
    decreases c, 0
  {
    map k | k in c.fields && k in w.fields && PruneChild(w.fields[k], c.fields[k]).Some?
      :: PruneChild(w.fields[k], c.fields[k]).value
  }

  /** The pruned map of AllowlistPrune. */
  function Prune(w: Value, v: Value): Value
    requires w.Obj? && v.Obj?
  {
    Obj(PruneFields(w, v))
  }

  /** A branch survives exactly when some allow leaf below it exists in the input. */
  lemma {:induction false} SurvivesIffReached(w: Value, c: Value)
    ensures PruneChild(w, c).Some? <==> Reaches(w, c, [])
    decreases c
  {
    if !w.Obj? {
      var root: Path := [];
      assert LeafAt(w, root) && root <= root && Present(c, root);
    } else if c.Obj? {
      if PruneChild(w, c).Some? {
        var k :| k in PruneFields(w, c);
        SurvivesIffReached(w.fields[k], c.fields[k]);
        ReachesUnfold(w, c, [k]);
        var l :| LeafAt(w, l) && [k] <= l && Present(c, l);
        assert Reaches(w, c, []);
      }
      if Reaches(w, c, []) {
        var l :| LeafAt(w, l) && [] <= l && Present(c, l);
        var k := l[0];
        var root: Path := [];
        assert LeafAt(w.fields[k], l[1..]) && root <= l[1..] && Present(c.fields[k], l[1..]);
        SurvivesIffReached(w.fields[k], c.fields[k]);
        assert k in PruneFields(w, c);
      }
    }
  }

  lemma {:induction false} ChildExact(w: Value, c: Value, p: Path)
    requires PruneChild(w, c).Some?
    ensures Present(PruneChild(w, c).value, p) <==> Present(c, p) && (Covered(w, p) || Reaches(w, c, p))
    ensures Present(PruneChild(w, c).value, p) && Covered(w, p) ==> Get(PruneChild(w, c).value, p) == Get(c, p)
    ensures Present(PruneChild(w, c).value, p) ==> Get(PruneChild(w, c).value, p).Obj? == Get(c, p).Obj?
    decreases |p|
  {
    CoveredUnfold(w, p);
    SurvivesIffReached(w, c);
    if w.Obj? && p != [] {
      ReachesUnfold(w, c, p);
      var k := p[0];
      if k in w.fields && k in c.fields {
        if PruneChild(w.fields[k], c.fields[k]).Some? {
          ChildExact(w.fields[k], c.fields[k], p[1..]);
        } else {
          NotSurvivingMeansNoPath(w.fields[k], c.fields[k], p[1..]);
        }
      }
    }
  }

  lemma NotSurvivingMeansNoPath(w: Value, c: Value, p: Path)
    requires PruneChild(w, c).None?
    ensures !Reaches(w, c, p) && !(Present(c, p) && Covered(w, p))
  {
    SurvivesIffReached(w, c);
    forall n: nat | n <= |p| && LeafAt(w, p[..n]) && Present(c, p)
      ensures false
    {
      PresentPrefix(c, p, n);
      ReachesRoot(w, c, p[..n]);
    }
    forall l | LeafAt(w, l) && p <= l && Present(c, l)
      ensures false
    {
      ReachesRoot(w, c, l);
    }
  }

  lemma ReachesRoot(w: Value, c: Value, l: Path)
    requires LeafAt(w, l) && Present(c, l)
    ensures Reaches(w, c, [])
  {
    var root: Path := [];
    assert root <= l;
  }

  lemma {:induction false} PresentPrefix(v: Value, p: Path, n: nat)
    requires Present(v, p) && n <= |p|
    ensures Present(v, p[..n])
    decreases n
  {
    if n > 0 {
      PresentPrefix(v.fields[p[0]], p[1..], n - 1);
      assert p[..n][1..] == p[1..][..n - 1];
    }
  }

  /**
    The allow filter is exact. A path is present after pruning exactly when it was present before and
    either an allow leaf is a prefix of it, or it is a prefix of an allow leaf that exists in the
    input. What lies at or below an allow leaf is untouched; elsewhere maps stay maps.
   */
  lemma PruneExact(w: Value, v: Value, p: Path)
    requires w.Obj? && v.Obj? && p != []
    ensures Present(Prune(w, v), p) <==> Present(v, p) && (Covered(w, p) || Reaches(w, v, p))
    ensures Present(Prune(w, v), p) && Covered(w, p) ==> Get(Prune(w, v), p) == Get(v, p)
    ensures Present(Prune(w, v), p) ==> Get(Prune(w, v), p).Obj? == Get(v, p).Obj?
  {
    CoveredUnfold(w, p);
    ReachesUnfold(w, v, p);
    var k := p[0];
    if k in w.fields && k in v.fields {
      if PruneChild(w.fields[k], v.fields[k]).Some? {
        ChildExact(w.fields[k], v.fields[k], p[1..]);
      } else {
        NotSurvivingMeansNoPath(w.fields[k], v.fields[k], p[1..]);
      }
    }
  }

  lemma {:induction false} ChildIdempotent(w: Value, c: Value)
    requires PruneChild(w, c).Some?
    ensures PruneChild(w, PruneChild(w, c).value) == PruneChild(w, c)
    decreases c
  {
    if w.Obj? {
      var d := PruneChild(w, c).value;
      FieldsIdempotent(w, c);
      assert PruneFields(w, d) == d.fields;
    }
  }

  lemma {:induction false} FieldsIdempotent(w: Value, c: Value)
    requires w.Obj? && c.Obj?
    ensures PruneFields(w, Prune(w, c)) == PruneFields(w, c)
    decreases c, 0
  {
    forall k | k in PruneFields(w, c)
      ensures PruneChild(w.fields[k], PruneFields(w, c)[k]) == Some(PruneFields(w, c)[k])
    {
      ChildIdempotent(w.fields[k], c.fields[k]);
    }
  }

  /** Pruning twice changes nothing more. */
  lemma PruneIdempotent(w: Value, v: Value)
    requires w.Obj? && v.Obj?
    ensures Prune(w, Prune(w, v)) == Prune(w, v)
  {
    FieldsIdempotent(w, v);
  }

  // ----- compiling the list

  /** The tree after the entry path has been written into it. */
  function Insert(t: Value, path: Path): (r: Value)
    requires t.Obj? && path != []
    ensures r.Obj?
    decreases |path|
  {
    if |path| == 1 then Obj(t.fields[path[0] := TRUE])
    else
      var sub := if path[0] in t.fields && t.fields[path[0]].Obj? then t.fields[path[0]] else EMPTY;
      Obj(t.fields[path[0] := Insert(sub, path[1..])])
  }

  /** The tree after buildDictPath: every field leads to a map. What was a leaf on the way is lost. */
  function MakePath(t: Value, fields: Path): (r: Value)
    requires t.Obj?
    ensures r.Obj?
    decreases |fields|
  {
    if fields == [] then t
    else
      var sub := if fields[0] in t.fields && t.fields[fields[0]].Obj? then t.fields[fields[0]] else EMPTY;
      Obj(t.fields[fields[0] := MakePath(sub, fields[1..])])
  }

  predicate MapAt(t: Value, p: Path)
    decreases |p|
  {
    t.Obj? && (p != [] ==> p[0] in t.fields && MapAt(t.fields[p[0]], p[1..]))
  }

  /** Writes v under key k of the map at p. */
  function SetUnder(t: Value, p: Path, k: string, v: Value): (r: Value)
    requires MapAt(t, p)
    ensures r.Obj?
    decreases |p|
  {
    if p == [] then Obj(t.fields[k := v])
    else Obj(t.fields[p[0] := SetUnder(t.fields[p[0]], p[1..], k, v)])
  }

  /** The entry of the map at p under key k is itself a map. */
  predicate MapUnder(t: Value, p: Path, k: string)
    requires MapAt(t, p)
    decreases |p|
  {
    if p == [] then k in t.fields && t.fields[k].Obj? else MapUnder(t.fields[p[0]], p[1..], k)
  }

  /** Once the path exists, writing the leaf completes the insertion. */
  lemma {:induction false} InsertIsPathThenLeaf(t: Value, fields: Path, last: string)
    requires t.Obj?
    ensures MapAt(MakePath(t, fields), fields)
    ensures Insert(t, fields + [last]) == SetUnder(MakePath(t, fields), fields, last, TRUE)
    decreases |fields|
  {
    if fields != [] {
      var sub := if fields[0] in t.fields && t.fields[fields[0]].Obj? then t.fields[fields[0]] else EMPTY;
      InsertIsPathThenLeaf(sub, fields[1..], last);
      assert (fields + [last])[1..] == fields[1..] + [last];
    }
  }

  /** Creating the next map on the way does not change where the path ends up. */
  lemma {:induction false} MakePathStep(t: Value, fields: Path, i: nat)
    requires i < |fields| && MapAt(t, fields[..i]) && !MapUnder(t, fields[..i], fields[i])
    ensures MapAt(SetUnder(t, fields[..i], fields[i], EMPTY), fields[..i + 1])
    ensures MakePath(SetUnder(t, fields[..i], fields[i], EMPTY), fields) == MakePath(t, fields)
    decreases i
  {
    var f := fields[0];
    assert fields[..i + 1][1..] == fields[1..][..i];
    if i > 0 {
      assert fields[..i][1..] == fields[1..][..i - 1];
      MakePathStep(t.fields[f], fields[1..], i - 1);
      var r := SetUnder(t, fields[..i], fields[i], EMPTY);
      assert r.fields[f] == SetUnder(t.fields[f], fields[1..][..i - 1], fields[1..][i - 1], EMPTY);
      assert r.fields[f := MakePath(r.fields[f], fields[1..])] == t.fields[f := MakePath(t.fields[f], fields[1..])];
    } else {
      assert t.fields[f := EMPTY][f := MakePath(EMPTY, fields[1..])] == t.fields[f := MakePath(EMPTY, fields[1..])];
    }
  }

  lemma {:induction false} MakePathDone(t: Value, fields: Path)
    requires MapAt(t, fields)
    ensures MakePath(t, fields) == t
    decreases |fields|
  {
    if fields != [] {
      MakePathDone(t.fields[fields[0]], fields[1..]);
    }
  }

  ghost predicate Comparable(p: Path, q: Path) { p <= q || q <= p }

  lemma ComparableUnfold(p: Path, q: Path)
    requires p != [] && q != []
    ensures Comparable(p, q) <==> p[0] == q[0] && Comparable(p[1..], q[1..])
    ensures p == q <==> p[0] == q[0] && p[1..] == q[1..]
  {
    assert p == [p[0]] + p[1..] && q == [q[0]] + q[1..];
  }

  /**
    One insertion: the leaves afterwards are the new path and the old leaves that are not
    prefix-comparable with it. A later entry evicts every earlier one it conflicts with.
   */
  lemma {:induction false} InsertLeaves(t: Value, path: Path, q: Path)
    requires t.Obj? && path != []
    ensures LeafAt(Insert(t, path), q) <==> q == path || (LeafAt(t, q) && !Comparable(q, path))
    decreases |path|
  {
    if q != [] {
      ComparableUnfold(q, path);
      if q[0] == path[0] {
        if |path| > 1 {
          var sub := if path[0] in t.fields && t.fields[path[0]].Obj? then t.fields[path[0]] else EMPTY;
          InsertLeaves(sub, path[1..], q[1..]);
        } else {
          assert path[1..] == [];
          assert LeafAt(Insert(t, path), q) <==> q[1..] == [];
        }
      }
    }
  }

  lemma {:induction false} InsertKeepsShape(t: Value, path: Path)
    requires t.Obj? && path != [] && Lean(t) && Uniform(t, TRUE)
    ensures Lean(Insert(t, path)) && Uniform(Insert(t, path), TRUE) && Insert(t, path) != EMPTY
    decreases |path|
  {
    if |path| > 1 {
      var sub := if path[0] in t.fields && t.fields[path[0]].Obj? then t.fields[path[0]] else EMPTY;
      InsertKeepsShape(sub, path[1..]);
    }
    assert path[0] in Insert(t, path).fields;
  }

  /** The tree compiled from a whole list, entry by entry. */
  function Compile(list: seq<Path>): (t: Value)
    requires forall i :: 0 <= i < |list| ==> list[i] != []
    ensures t.Obj?
  {
    if list == [] then EMPTY else Insert(Compile(list[..|list| - 1]), list[|list| - 1])
  }

  /** q is an entry that no later, different entry of the list conflicts with. */
  ghost predicate Surviving(list: seq<Path>, q: Path) {
    exists i :: 0 <= i < |list| && list[i] == q && forall j :: i < j < |list| ==> list[j] == q || !Comparable(q, list[j])
  }

  /** The leaves of the compiled tree are exactly the entries that survive. */
  lemma {:induction false} CompileLeaves(list: seq<Path>, q: Path)
    requires NonEmptyPaths(list)
    ensures LeafAt(Compile(list), q) <==> Surviving(list, q)
    decreases |list|
  {
    hide LeafAt, Surviving, Comparable, Insert;
    if list == [] {
      NoLeaves(q);
    } else {
      var init, last := list[..|list| - 1], list[|list| - 1];
      CompileLeaves(init, q);
      InsertLeaves(Compile(init), last, q);
      SurvivingStep(list, q);
    }
  }

  lemma NoLeaves(q: Path)
    ensures !LeafAt(Compile([]), q) && !Surviving([], q)
  {
  }

  lemma SurvivingStep(list: seq<Path>, q: Path)
    requires list != []
    ensures var init, last := list[..|list| - 1], list[|list| - 1];
            Surviving(list, q) <==> q == last || (Surviving(init, q) && !Comparable(q, last))
  {
    hide Comparable;
    var init, last := list[..|list| - 1], list[|list| - 1];
    if Surviving(init, q) && !Comparable(q, last) {
      var i :| 0 <= i < |init| && init[i] == q && forall j :: i < j < |init| ==> init[j] == q || !Comparable(q, init[j]);
      forall j | i < j < |list| ensures list[j] == q || !Comparable(q, list[j]) {
        if j < |init| { assert init[j] == list[j]; }
      }
      assert list[i] == q;
    }
    if Surviving(list, q) && q != last {
      var i :| 0 <= i < |list| && list[i] == q && forall j :: i < j < |list| ==> list[j] == q || !Comparable(q, list[j]);
      assert init[i] == q && forall j :: i < j < |init| ==> init[j] == q || !Comparable(q, init[j]);
    }
    if q == last {
      assert list[|list| - 1] == q;
    }
  }

  lemma {:induction false} CompileShape(list: seq<Path>)
    requires NonEmptyPaths(list)
    ensures Lean(Compile(list)) && Uniform(Compile(list), TRUE)
    decreases |list|
  {
    if list != [] {
      CompileShape(list[..|list| - 1]);
      InsertKeepsShape(Compile(list[..|list| - 1]), list[|list| - 1]);
    }
  }

  ghost predicate PrefixFree(list: seq<Path>) {
    forall i, j :: 0 <= i < |list| && 0 <= j < |list| && Comparable(list[i], list[j]) ==> list[i] == list[j]
  }

  /** Without conflicting entries the leaves are the listed paths. */
  lemma PrefixFreeLeaves(list: seq<Path>, q: Path)
    requires NonEmptyPaths(list) && PrefixFree(list)
    ensures LeafAt(Compile(list), q) <==> q in list
  {
    CompileLeaves(list, q);
    if q in list {
      var i :| 0 <= i < |list| && list[i] == q;
      assert forall j :: i < j < |list| ==> list[j] == q || !Comparable(q, list[j]);
    }
  }

  /** Prefix-free lists with the same entries, in any order and multiplicity, compile to the same tree. */
  lemma PrefixFreeOrderFree(list: seq<Path>, other: seq<Path>)
    requires NonEmptyPaths(list) && PrefixFree(list)
    requires NonEmptyPaths(other) && PrefixFree(other)
    requires forall q :: q in list <==> q in other
    ensures Compile(list) == Compile(other)
  {
    var t, u := Compile(list), Compile(other);
    forall p: Path
      ensures Covered(t, p) <==> Covered(u, p)
    {
      forall n: nat | n <= |p|
        ensures LeafAt(t, p[..n]) <==> LeafAt(u, p[..n])
      {
        PrefixFreeLeaves(list, p[..n]);
        PrefixFreeLeaves(other, p[..n]);
      }
    }
    CompileShape(list);
    CompileShape(other);
    SameCoverSameTree(t, u, TRUE);
  }

  /**
    End to end for any list, conflicting entries included: exactly the subtrees at the entries that survive,
    and the maps that lead to them.
   */
  lemma AllowListExact(list: seq<Path>, v: Value, p: Path)
    requires NonEmptyPaths(list) && v.Obj? && p != []
    ensures Present(Prune(Compile(list), v), p) <==>
            Present(v, p) && exists e :: Surviving(list, e) && (e <= p || (p <= e && Present(v, e)))
  {
    hide Compile, Prune, Surviving;
    var t := Compile(list);
    PruneExact(t, v, p);
    forall q: Path ensures LeafAt(t, q) <==> Surviving(list, q) { CompileLeaves(list, q); }
    if e :| Surviving(list, e) && e <= p {
      assert p[..|e|] == e;
      assert Covered(t, p);
    }
    if Covered(t, p) {
      var n: nat :| n <= |p| && LeafAt(t, p[..n]);
      assert Surviving(list, p[..n]) && p[..n] <= p;
    }
  }

  /** For a prefix-free list these are the listed subtrees. */
  lemma PrefixFreeListExact(list: seq<Path>, v: Value, p: Path)
    requires NonEmptyPaths(list) && PrefixFree(list) && v.Obj? && p != []
    ensures Present(Prune(Compile(list), v), p) <==>
            Present(v, p) && exists e :: e in list && (e <= p || (p <= e && Present(v, e)))
  {
    AllowListExact(list, v, p);
    forall e: Path ensures Surviving(list, e) <==> e in list {
      CompileLeaves(list, e);
      PrefixFreeLeaves(list, e);
    }
  }

  /** Moving an entry to the end of the list makes it a leaf. */
  lemma LastEntryIsLeaf(list: seq<Path>, i: nat) returns (moved: seq<Path>)
    requires NonEmptyPaths(list) && i < |list|
    ensures multiset(moved) == multiset(list) && NonEmptyPaths(moved)
    ensures LeafAt(Compile(moved), list[i])
  {
    moved := list[..i] + list[i + 1..] + [list[i]];
    assert list == list[..i] + [list[i]] + list[i + 1..];
    CompileLeaves(moved, list[i]);
    assert moved[|moved| - 1] == list[i];
  }

  lemma SameEntries(list: seq<Path>, other: seq<Path>)
    requires multiset(other) == multiset(list)
    ensures forall q :: q in list <==> q in other
    ensures PrefixFree(list) ==> PrefixFree(other)
  {
    forall q: Path
      ensures q in list <==> q in other
    {
      assert q in list <==> q in multiset(list);
      assert q in other <==> q in multiset(other);
    }
    forall i, j | PrefixFree(list) && 0 <= i < |other| && 0 <= j < |other| && Comparable(other[i], other[j])
      ensures other[i] == other[j]
    {
      assert other[i] in list && other[j] in list;
    }
  }

  /** The compiled tree is independent of the order of the list exactly when no two entries conflict. */
  lemma OrderFreeIffPrefixFree(list: seq<Path>)
    requires NonEmptyPaths(list)
    ensures (forall other :: multiset(other) == multiset(list) && NonEmptyPaths(other) ==> Compile(other) == Compile(list))
            <==> PrefixFree(list)
  {
    if PrefixFree(list) {
      forall other | multiset(other) == multiset(list) && NonEmptyPaths(other)
        ensures Compile(other) == Compile(list)
      {
        SameEntries(list, other);
        PrefixFreeOrderFree(list, other);
      }
    } else {
      var i, j :| 0 <= i < |list| && 0 <= j < |list| && Comparable(list[i], list[j]) && list[i] != list[j];
      var a := LastEntryIsLeaf(list, i);
      var b := LastEntryIsLeaf(list, j);
      if Compile(a) == Compile(b) {
        if list[i] <= list[j] {
          LeavesAntichain(Compile(a), list[i], list[j]);
        } else {
          LeavesAntichain(Compile(a), list[j], list[i]);
        }
        assert false;
      }
    }
  }
}
