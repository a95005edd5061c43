/** The deny filter as it runs: the tree grown in place, the document pruned in place. */
module DenyMethods {
  import opened Json
  import opened MapHeap
  import opened Strings
  import opened DenyFilter

  // ----- compiling the list

  /** Adds one path to the deny tree in place. */
  method BuildDenyTree(path: Path, tree: Node, ghost t: Tree) returns (ghost r: Tree)
    requires t.TMap? && t.node == tree && Owned(t)
    modifies Foot(t)
    ensures r.TMap? && r.node == tree && Owned(r) && (forall x :: x in Foot(r) && x !in Foot(t) ==> fresh(x))
    ensures Model(r) == Insert(Model(t), path)
    decreases |path|, 2
  {
    r := t;
    if |path| == 0 {
      return;
    }
    hide Foot, Others, Separate, Matches, OthersMatch;
    var n := path[0];
    SeparateOthers(t, n);
    MatchesTop(t);
    if |path| == 1 {
      r := SetLeaf(tree, n, CNull, t, TNull);
      return;
    }
    if n in tree.fields {
      if tree.fields[n] == CNull {
        return;
      }
      if !tree.fields[n].CMap? {
        r := SetLeaf(tree, n, CNull, t, TNull);
        return;
      }
      FootKid(t, n);
      r := BuildDenyChild(path, tree, t);
      return;
    }
    r := GrowDenyChild(path, tree, t);
  }

  /** BuildDenyTree when the first key is new: it gets an empty map that the rest of the path goes into. */
  method GrowDenyChild(path: Path, tree: Node, ghost t: Tree) returns (ghost r: Tree)
    requires |path| > 1
    requires t.TMap? && t.node == tree && Owned(t)
    modifies tree
    ensures r.TMap? && r.node == tree && Owned(r) && (forall x :: x in Foot(r) && x !in Foot(t) ==> fresh(x))
    ensures Model(r) == Obj(Model(t).fields[path[0] := Insert(EMPTY, path[1..])])
    decreases |path|, 1
  {
    hide Foot, Others, Separate, Matches, OthersMatch;
    var n := path[0];
    SeparateOthers(t, n);
    var childTree, grown := AddMap(tree, n, t);
    r := BuildDenyChild(path, tree, grown);
    assert Model(t).fields[n := EMPTY][n := Insert(EMPTY, path[1..])] == Model(t).fields[n := Insert(EMPTY, path[1..])];
  }

  /** The recursive call of BuildDenyTree on the map that the first key leads to. */
  method BuildDenyChild(path: Path, tree: Node, ghost t: Tree) returns (ghost r: Tree)
    requires |path| > 1
    requires t.TMap? && t.node == tree && Owned(t) && path[0] in t.kids && t.kids[path[0]].TMap?
    modifies Foot(t.kids[path[0]])
    ensures r.TMap? && r.node == tree && Owned(r) && (forall x :: x in Foot(r) && x !in Foot(t) ==> fresh(x))
    ensures Model(r) == Obj(Model(t).fields[path[0] := Insert(Model(t.kids[path[0]]), path[1..])])
    decreases |path|, 0
  {
    var n := path[0];
    SeparateOthers(t, n);
    OthersAllocated(t.kids, n);
    MatchesIffBut(t, n);
    ghost var s := BuildDenyTree(path[1..], tree.fields[n].node, t.kids[n]);
    assert MatchesBut(t, n) == old(MatchesBut(t, n));
    ReplaceMatches(t, n, s);
    SetSeparate(t, n, s);
    ReplaceModel(t, n, s);
    FootKid(t, n);
    r := Replace(t, n, s);
  }

  /**
    The tree of a whole list, as newDenylistingFilter compiles it. The entries are split at the dots;
    the objects of the tree are new.
   */
  method BuildTree(blacklist: seq<string>) returns (bl: Node, ghost t: Tree)
    ensures t.TMap? && t.node == bl && Owned(t) && (forall x :: x in Foot(t) ==> fresh(x))
    ensures Model(t) == Compile(Paths(blacklist))
  {
    bl := new Node();
    t := TMap(bl, map[]);
    assert Foot(t) == {bl};
    for i := 0 to |blacklist|
      invariant t.TMap? && t.node == bl && Owned(t) && (forall x :: x in Foot(t) ==> fresh(x))
      invariant Model(t) == Compile(Paths(blacklist[..i]))
    {
      t := BuildDenyTree(Split(blacklist[i], '.'), bl, t);
      PathsStep(blacklist, i);
    }
    assert blacklist[..|blacklist|] == blacklist;
  }

  // ----- deleting

  /** The keys of the document that the loop over the tree d has still to leave alone or visit. */
  ghost function Unvisited(d: Tree, t: Tree, todo: set<string>): set<string>
    requires d.TMap? && t.TMap?
  {
    t.kids.Keys - (d.kids.Keys - todo)
  }

  ghost predicate Deleting(d: Tree, t: Tree, r: Tree, todo: set<string>) {
    && d.TMap? && t.TMap? && todo <= d.kids.Keys && Uniform(Model(d), Null)
    && Midway(t, r, Unvisited(d, t, todo), Delete(Model(d), Model(t)).fields)
  }

  lemma DeletingStart(d: Tree, t: Tree)
    requires d.TMap? && t.TMap? && Uniform(Model(d), Null) && Separate(t)
    ensures Deleting(d, t, t, d.kids.Keys)
  {
    assert Unvisited(d, t, d.kids.Keys) == t.kids.Keys;
    MidwayStart(t, Delete(Model(d), Model(t)).fields);
  }

  lemma DeletingDone(d: Tree, t: Tree, r: Tree)
    requires Deleting(d, t, r, {})
    ensures Model(r) == Delete(Model(d), Model(t))
  {
    hide Foot, Separate, Uniform;
    var spec := Delete(Model(d), Model(t)).fields;
    forall k | k in Unvisited(d, t, {}) ensures k in spec && Model(t.kids[k]) == spec[k] { LeftAlone(d, t, k); }
    RestUnchanged(t, r, Unvisited(d, t, {}), spec);
    MidwayDone(t, r, spec);
  }

  lemma LeftAlone(d: Tree, t: Tree, k: string)
    requires d.TMap? && t.TMap? && k in t.kids && k !in d.kids
    ensures k in Delete(Model(d), Model(t)).fields && Delete(Model(d), Model(t)).fields[k] == Model(t.kids[k])
    ensures Delete(Model(d), Model(t)).fields.Keys <= t.kids.Keys
  {
  }

  lemma DeleteAt(d: Tree, t: Tree, k: string)
    requires d.TMap? && t.TMap? && k in d.kids && k in t.kids
    ensures k in Delete(Model(d), Model(t)).fields <==> !d.kids[k].TNull?
    ensures !d.kids[k].TNull? ==>
              Delete(Model(d), Model(t)).fields[k] == Delete(Model(d.kids[k]), Model(t.kids[k]))
    ensures Uniform(Model(d), Null) ==> d.kids[k].TNull? || d.kids[k].TMap?
  {
    assert Model(d).fields[k] == Model(d.kids[k]);
    if Uniform(Model(d), Null) {
      assert Uniform(Model(d).fields[k], Null);
    }
  }

  /** Deletes from v, in place and in any order of the keys of ref, what the deny tree ref marks. */
  method RecDelete(ref: Node, v: Cell, ghost d: Tree, ghost t: Tree) returns (ghost r: Tree)
    requires d.TMap? && d.node == ref && Owned(d) && Uniform(Model(d), Null)
    requires Top(t) == v && Owned(t) && Foot(d) !! Foot(t)
    modifies Foot(t)
    ensures Top(r) == v && Owned(r) && Foot(r) <= Foot(t)
    ensures Model(r) == Delete(Model(d), Model(t))
    decreases d, 1
  {
    r := t;
    if !v.CMap? {
      return;
    }
    var m := v.node;
    var todo := ref.fields.Keys;
    DeletingStart(d, t);
    while todo != {}
      invariant Deleting(d, t, r, todo) && Matches(r) && Matches(d)
      decreases todo
    {
      var k :| k in todo;
      r := DeleteStep(ref, m, k, todo, d, t, r);
      todo := todo - {k};
    }
    DeletingDone(d, t, r);
  }

  /** One round of the loop of RecDelete. */
  method DeleteStep(ref: Node, m: Node, k: string, ghost todo: set<string>, ghost d: Tree, ghost t: Tree, ghost r: Tree)
    returns (ghost r': Tree)
    requires d.TMap? && d.node == ref && Owned(d) && Foot(d) !! Foot(t)
    requires Deleting(d, t, r, todo) && Matches(r) && t.node == m && k in todo
    modifies Foot(t)
    ensures Deleting(d, t, r', todo - {k}) && Matches(r') && Matches(d)
    decreases d, 0
  {
    hide Foot, Others, Separate, Matches, OthersMatch, Model, Delete, Uniform;
    FootAllocated(d);
    MatchesTop(r);
    MatchesTop(d);
    r' := r;
    if k !in m.fields {
      assert KeyMidway(t, r, Unvisited(d, t, todo), Delete(Model(d), Model(t)).fields, k);
      assert Unvisited(d, t, todo - {k}) == Unvisited(d, t, todo);
      return;
    }
    assert Unvisited(d, t, todo - {k}) == Unvisited(d, t, todo) - {k};
    MidwayKey(t, r, Unvisited(d, t, todo), Delete(Model(d), Model(t)).fields, k);
    DeleteAt(d, t, k);
    SeparateKid(r, k);
    FootKid(t, k);
    if ref.fields[k] == CNull {
      MatchesIffBut(r, k);
      r' := RemoveKey(m, k, r);
      assert Matches(d) == old(Matches(d));
      DropStep(t, r, Unvisited(d, t, todo), Delete(Model(d), Model(t)).fields, k);
      return;
    }
    r' := DeleteBelow(ref, m, k, d, r);
    ReplaceStep(t, r, Unvisited(d, t, todo), Delete(Model(d), Model(t)).fields, k, r'.kids[k]);
  }

  /** The recursive call of RecDelete on the value at k. */
  method DeleteBelow(ref: Node, m: Node, k: string, ghost d: Tree, ghost t: Tree) returns (ghost r: Tree)
    requires d.TMap? && d.node == ref && Owned(d) && k in d.kids && d.kids[k].TMap? && Uniform(Model(d), Null)
    requires t.TMap? && t.node == m && Owned(t) && k in t.kids && Foot(d) !! Foot(t)
    modifies Foot(t.kids[k])
    ensures Matches(r) && Matches(d)
    ensures r.TMap? && k in r.kids && r == Replace(t, k, r.kids[k])
    ensures Separate(r.kids[k]) && Foot(r.kids[k]) <= Foot(t.kids[k])
    ensures Model(r.kids[k]) == Delete(Model(d.kids[k]), Model(t.kids[k]))
    decreases d.kids[k], 2
  {
    FootAllocated(d);
    OthersAllocated(t.kids, k);
    SeparateOthers(t, k);
    MatchesIffBut(t, k);
    FootKid(d, k);
    FootKid(t, k);
    assert Model(d).fields[k] == Model(d.kids[k]);
    ghost var s := RecDelete(ref.fields[k].node, m.fields[k], d.kids[k], t.kids[k]);
    assert MatchesBut(t, k) == old(MatchesBut(t, k));
    assert Matches(d) == old(Matches(d));
    ReplaceMatches(t, k, s);
    r := Replace(t, k, s);
  }
}
