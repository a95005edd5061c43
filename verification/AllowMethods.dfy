/** The allow filter as it runs: the tree grown in place, the document pruned in place. */
module AllowMethods {
  import opened Wrappers
  import opened Json
  import opened MapHeap
  import opened Strings
  import opened AllowFilter

  // ----- pruning

  /**
    Deletes from the map input whatever the allow tree wl does not keep; the order in which the keys
    are visited is arbitrary. Says whether nothing was kept.
   */
  method AllowlistPrune(wl: Node, input: Node, ghost w: Tree, ghost t: Tree) returns (canDelete: bool, ghost r: Tree)
    requires w.TMap? && w.node == wl && Owned(w)
    requires t.TMap? && t.node == input && Owned(t)
    requires Foot(w) !! Foot(t)
    modifies Foot(t)
    ensures r.TMap? && r.node == input && Owned(r) && Foot(r) <= Foot(t)
    ensures Model(r) == Prune(Model(w), Model(t))
    ensures canDelete <==> Model(r) == EMPTY
    decreases t, 1
  {
    hide Foot, Separate, Matches;
    MidwayStart(t, PruneFields(Model(w), Model(t)));
    MatchesTop(t);
    canDelete := true;
    r := t;
    var todo := input.fields.Keys;
    while todo != {}
      invariant Midway(t, r, todo, PruneFields(Model(w), Model(t))) && Matches(r) && Matches(w)
      invariant canDelete <==> r.kids.Keys <= todo
      decreases todo
    {
      var k :| k in todo;
      var deleted;
      MidwayKey(t, r, todo, PruneFields(Model(w), Model(t)), k);
      deleted, r := PruneStep(wl, input, k, todo, w, t, r);
      if !deleted {
        canDelete := false;
      }
      todo := todo - {k};
    }
    MidwayDone(t, r, PruneFields(Model(w), Model(t)));
    assert Model(r).fields.Keys == r.kids.Keys;
  }

  /** One round of the loop of AllowlistPrune, seen from the whole run over the keys. */
  method PruneStep(wl: Node, input: Node, k: string, ghost todo: set<string>, ghost w: Tree, ghost t: Tree, ghost r: Tree)
    returns (deleted: bool, ghost r': Tree)
    requires w.TMap? && w.node == wl && Owned(w)
    requires t.TMap? && t.node == input && Foot(w) !! Foot(t)
    requires Midway(t, r, todo, PruneFields(Model(w), Model(t))) && Matches(r) && k in todo
    modifies Foot(t)
    ensures Midway(t, r', todo - {k}, PruneFields(Model(w), Model(t))) && Matches(r') && Matches(w)
    ensures r'.kids.Keys == if deleted then r.kids.Keys - {k} else r.kids.Keys
    decreases t, 0
  {
    hide Foot, Others, Separate, Matches, OthersMatch;
    FootAllocated(w);
    MidwayKey(t, r, todo, PruneFields(Model(w), Model(t)), k);
    FootKid(t, k);
    SeparateKid(r, k);
    deleted, r' := PruneKey(wl, input, k, w, r);
    assert Matches(w) == old(Matches(w));
    if deleted {
      DropStep(t, r, todo, PruneFields(Model(w), Model(t)), k);
    } else {
      ReplaceStep(t, r, todo, PruneFields(Model(w), Model(t)), k, r'.kids[k]);
    }
  }

  /** One round of the loop of AllowlistPrune: the entry at k is deleted, or kept and pruned. */
  method PruneKey(wl: Node, input: Node, k: string, ghost w: Tree, ghost t: Tree) returns (deleted: bool, ghost r: Tree)
    requires w.TMap? && w.node == wl && Owned(w)
    requires t.TMap? && t.node == input && Owned(t) && k in t.kids
    requires Foot(w) !! Foot(t)
    modifies {input} + Foot(t.kids[k])
    ensures Matches(r)
    ensures deleted <==> !(k in w.kids && PruneChild(Model(w.kids[k]), Model(t.kids[k])).Some?)
    ensures deleted ==> r == Drop(t, k)
    ensures !deleted ==>
              && r.TMap? && k in r.kids && r == Replace(t, k, r.kids[k])
              && Separate(r.kids[k]) && Foot(r.kids[k]) <= Foot(t.kids[k])
              && Model(r.kids[k]) == PruneChild(Model(w.kids[k]), Model(t.kids[k])).value
    decreases t.kids[k], 3
  {
    ghost var c := t.kids[k];
    OthersAllocated(t.kids, k);
    SeparateKid(t, k);
    MatchesIffBut(t, k);
    ghost var s;
    deleted, s := PruneEntry(wl, k, input.fields[k], w, c);
    assert MatchesBut(t, k) == old(MatchesBut(t, k));
    if deleted {
      r := RemoveKey(input, k, t);
    } else {
      ReplaceMatches(t, k, s);
      r := Replace(t, k, s);
    }
  }

  /** One key of the loop of AllowlistPrune: decides whether its value v goes, pruning it if it is a map. */
  method PruneEntry(wl: Node, k: string, v: Cell, ghost w: Tree, ghost c: Tree) returns (deleteSibling: bool, ghost s: Tree)
    requires w.TMap? && w.node == wl && Owned(w)
    requires Top(c) == v && Owned(c)
    requires Foot(w) !! Foot(c)
    modifies Foot(c)
    ensures deleteSibling <==> !(k in w.kids && PruneChild(Model(w.kids[k]), Model(c)).Some?)
    ensures Top(s) == v && Owned(s) && Foot(s) <= Foot(c)
    ensures !deleteSibling ==> Model(s) == PruneChild(Model(w.kids[k]), Model(c)).value
    decreases c, 2
  {
    deleteSibling := true;
    s := c;
    if k in wl.fields {
      FootKid(w, k);
      if wl.fields[k].CMap? {
        if v.CMap? {
          deleteSibling, s := AllowlistPrune(wl.fields[k].node, v.node, w.kids[k], c);
        }
      } else {
        deleteSibling := false;
      }
    }
  }

  // ----- compiling the list

  lemma {:induction false} MapAtModel(t: Tree, p: Path)
    ensures HasMapAt(t, p) == MapAt(Model(t), p)
    decreases |p|
  {
    if p != [] && t.TMap? && p[0] in t.kids {
      MapAtModel(t.kids[p[0]], p[1..]);
    }
  }

  /** Writing under a key of the map at p, seen in the tree and in the value. */
  lemma {:induction false} PutUnder(t: Tree, p: Path, k: string, s: Tree)
    requires HasMapAt(t, p)
    ensures MapAt(Model(t), p)
    ensures MapUnder(Model(t), p, k) <==> k in At(t, p).kids && At(t, p).kids[k].TMap?
    ensures Model(PutAt(t, p, Replace(At(t, p), k, s))) == SetUnder(Model(t), p, k, Model(s))
    decreases |p|
  {
    if p == [] {
      ReplaceModel(t, k, s);
    } else {
      PutUnder(t.kids[p[0]], p[1..], k, s);
      ReplaceModel(t, p[0], PutAt(t.kids[p[0]], p[1..], Replace(At(t, p), k, s)));
    }
  }

  lemma {:induction false} AtSnoc(t: Tree, p: Path, k: string)
    requires HasMapAt(t, p) && k in At(t, p).kids && At(t, p).kids[k].TMap?
    ensures HasMapAt(t, p + [k]) && At(t, p + [k]) == At(t, p).kids[k]
    decreases |p|
  {
    if p != [] {
      AtSnoc(t.kids[p[0]], p[1..], k);
      assert (p + [k])[1..] == p[1..] + [k];
    }
  }

  /** Assigns to key k of the map p that sits at path in the document t. */
  method SetKeyAt(p: Node, k: string, c: Cell, ghost path: Path, ghost t: Tree, ghost s: Tree) returns (ghost r: Tree)
    requires Owned(t) && HasMapAt(t, path) && At(t, path).node == p
    requires Owned(s) && Top(s) == c && Foot(s) !! Foot(t)
    modifies p
    ensures r.TMap? && r.node == t.node && Owned(r) && Foot(r) <= Foot(t) + Foot(s)
    ensures HasMapAt(r, path) && At(r, path) == Replace(At(t, path), k, s)
    ensures MapAt(Model(t), path) && Model(r) == SetUnder(Model(t), path, k, Model(s))
  {
    hide Foot, Others, Separate, Matches, OthersMatch, Around;
    SplitFoot(t, path);
    SplitMatches(t, path);
    AroundAllocated(t, path);
    ghost var sub := At(t, path);
    SeparateOthers(sub, k);
    ghost var grown := SetKey(p, k, c, sub, s);
    assert MatchesAround(t, path) == old(MatchesAround(t, path));
    PutOwned(t, path, grown);
    PutUnder(t, path, k, s);
    r := PutAt(t, path, grown);
  }

  /**
    Walks down from the root along the fields and makes the maps that are missing; what is not a map
    on the way is overwritten. Returns the map at the end of the path.
   */
  method BuildDictPath(accumulator: Node, fields: Path, ghost t: Tree) returns (p: Node, ghost r: Tree)
    requires t.TMap? && t.node == accumulator && Owned(t)
    modifies Foot(t)
    ensures r.TMap? && r.node == accumulator && Owned(r) && (forall x :: x in Foot(r) && x !in Foot(t) ==> fresh(x))
    ensures HasMapAt(r, fields) && At(r, fields).node == p
    ensures Model(r) == MakePath(Model(t), fields)
  {
    hide Foot, Others, Separate, Matches, OthersMatch, Around, Model, MakePath;
    var fEnd := |fields|;
    var fIdx := 0;
    p := accumulator;
    while fIdx < fEnd
      invariant 0 <= fIdx <= fEnd
      invariant Owned(t) && HasMapAt(t, fields[..fIdx]) && At(t, fields[..fIdx]).node == p
    {
      SplitMatches(t, fields[..fIdx]);
      MatchesTop(At(t, fields[..fIdx]));
      if !(fields[fIdx] in p.fields && p.fields[fields[fIdx]].CMap?) {
        break;
      }
      AtSnoc(t, fields[..fIdx], fields[fIdx]);
      assert fields[..fIdx] + [fields[fIdx]] == fields[..fIdx + 1];
      p := p.fields[fields[fIdx]].node;
      fIdx := fIdx + 1;
    }
    p, r := MakeMaps(fields, fIdx, p, t);
  }

  /** The second loop of BuildDictPath: from index start on every field gets a new map. */
  method MakeMaps(fields: Path, start: nat, from: Node, ghost t: Tree) returns (p: Node, ghost r: Tree)
    requires start <= |fields| && t.TMap? && Owned(t)
    requires HasMapAt(t, fields[..start]) && At(t, fields[..start]).node == from
    requires start < |fields| ==>
               var kids := At(t, fields[..start]).kids; !(fields[start] in kids && kids[fields[start]].TMap?)
    modifies Foot(t)
    ensures r.TMap? && r.node == t.node && Owned(r) && (forall x :: x in Foot(r) && x !in Foot(t) ==> fresh(x))
    ensures HasMapAt(r, fields) && At(r, fields).node == p
    ensures Model(r) == MakePath(Model(t), fields)
  {
    hide Foot, Others, Separate, Matches, OthersMatch, Around, Model, MakePath;
    p := from;
    r := t;
    for fIdx := start to |fields|
      invariant r.TMap? && r.node == t.node && Owned(r) && (forall x :: x in Foot(r) && x !in Foot(t) ==> fresh(x))
      invariant HasMapAt(r, fields[..fIdx]) && At(r, fields[..fIdx]).node == p
      invariant fIdx < |fields| ==>
                  var kids := At(r, fields[..fIdx]).kids; !(fields[fIdx] in kids && kids[fields[fIdx]].TMap?)
      invariant MakePath(Model(r), fields) == MakePath(Model(t), fields)
    {
      AtInFoot(r, fields[..fIdx]);
      p, r := MakeMap(fields, fIdx, p, r);
    }
    assert fields[..|fields|] == fields;
    MapAtModel(r, fields);
    MakePathDone(Model(r), fields);
  }

  /** One round of MakeMaps. */
  method MakeMap(fields: Path, i: nat, from: Node, ghost t: Tree) returns (p: Node, ghost r: Tree)
    requires i < |fields| && t.TMap? && Owned(t)
    requires HasMapAt(t, fields[..i]) && At(t, fields[..i]).node == from
    requires var kids := At(t, fields[..i]).kids; !(fields[i] in kids && kids[fields[i]].TMap?)
    modifies from
    ensures fresh(p) && r.TMap? && r.node == t.node && Owned(r) && Foot(r) <= Foot(t) + {p}
    ensures HasMapAt(r, fields[..i + 1]) && At(r, fields[..i + 1]) == TMap(p, map[])
    ensures MakePath(Model(r), fields) == MakePath(Model(t), fields)
  {
    hide Foot, Others, Separate, Matches, OthersMatch, Around, MakePath, PutAt;
    FootAllocated(t);
    ghost var s;
    p, s := NewMap();
    assert Matches(t) == old(Matches(t));
    PutUnder(t, fields[..i], fields[i], s);
    MakePathStep(Model(t), fields, i);
    r := SetKeyAt(from, fields[i], CMap(p), fields[..i], t, s);
    AtSnoc(r, fields[..i], fields[i]);
    assert fields[..i] + [fields[i]] == fields[..i + 1];
  }

  /**
    The tree of a whole list, as newAllowlistingFilter compiles it. The entries are split at the dots;
    the objects of the tree are new.
   */
  method BuildTree(allowlist: seq<string>) returns (wlDict: Node, ghost t: Tree)
    ensures t.TMap? && t.node == wlDict && Owned(t) && (forall x :: x in Foot(t) ==> fresh(x))
    ensures Model(t) == Compile(Paths(allowlist))
  {
    wlDict := new Node();
    t := TMap(wlDict, map[]);
    assert Foot(t) == {wlDict};
    for i := 0 to |allowlist|
      invariant t.TMap? && t.node == wlDict && Owned(t) && (forall x :: x in Foot(t) ==> fresh(x))
      invariant Model(t) == Compile(Paths(allowlist[..i]))
    {
      t := InsertEntry(wlDict, allowlist[i], t);
      PathsStep(allowlist, i);
    }
    assert allowlist[..|allowlist|] == allowlist;
  }

  /** One round of the loop of newAllowlistingFilter. */
  method InsertEntry(wlDict: Node, entry: string, ghost t: Tree) returns (ghost r: Tree)
    requires t.TMap? && t.node == wlDict && Owned(t)
    modifies Foot(t)
    ensures r.TMap? && r.node == wlDict && Owned(r) && (forall x :: x in Foot(r) && x !in Foot(t) ==> fresh(x))
    ensures Model(r) == Insert(Model(t), Split(entry, '.'))
  {
    hide Foot, Others, Separate, Matches, OthersMatch, Around;
    var wlFields := Split(entry, '.');
    var n := |wlFields| - 1;
    var d, grown := BuildDictPath(wlDict, wlFields[..n], t);
    InsertIsPathThenLeaf(Model(t), wlFields[..n], wlFields[n]);
    assert wlFields[..n] + [wlFields[n]] == wlFields;
    AtInFoot(grown, wlFields[..n]);
    LeafOwned(TScalar("true"));
    r := SetKeyAt(d, wlFields[n], CScalar("true"), wlFields[..n], grown, TScalar("true"));
  }
}
