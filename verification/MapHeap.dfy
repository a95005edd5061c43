/**
  Nested mutable maps on the heap. Each map is an object; a ghost ownership tree records which objects
  make up a decoded document (no object occurs twice) and gives the value the document stands for.
 */
module MapHeap {
  import opened Json

  class Node {
    var fields: map<string, Cell>

    constructor ()
      ensures fields == map[]
    {
      fields := map[];
    }
  }

  datatype Cell = CNull | CScalar(token: string) | CMap(node: Node)

  datatype Tree = TNull | TScalar(token: string) | TMap(node: Node, kids: map<string, Tree>)

  function Top(t: Tree): Cell {
    match t
    case TNull => CNull
    case TScalar(s) => CScalar(s)
    case TMap(n, _) => CMap(n)
  }

  ghost function Foot(t: Tree): set<Node> {
    match t
    case TMap(n, kids) => {n} + set k, x | k in kids && x in Foot(kids[k]) :: x
    case _ => {}
  }

  ghost predicate Separate(t: Tree) {
    t.TMap? ==>
      && (forall k :: k in t.kids ==> t.node !in Foot(t.kids[k]) && Separate(t.kids[k]))
      && (forall k, j :: k in t.kids && j in t.kids && k != j ==> Foot(t.kids[k]) !! Foot(t.kids[j]))
  }

  /** The heap agrees with the ownership tree. */
  ghost predicate Matches(t: Tree)
    reads Foot(t)
  {
    t.TMap? ==>
      && t.node.fields.Keys == t.kids.Keys
      && forall k :: k in t.kids ==> t.node.fields[k] == Top(t.kids[k]) && Matches(t.kids[k])
  }

  ghost function Model(t: Tree): (v: Value)
    ensures v.Obj? == t.TMap?
  {
    match t
    case TNull => Null
    case TScalar(s) => Scalar(s)
    case TMap(_, kids) => Obj(map k | k in kids :: Model(kids[k]))
  }

  ghost predicate Owned(t: Tree)
    reads Foot(t)
  {
    Separate(t) && Matches(t)
  }

  /** Every object a tree refers to is allocated; the frame of Matches needs to know. */
  lemma FootAllocated(t: Tree)
    ensures allocated(Foot(t))
  {
  }

  lemma OthersAllocated(kids: map<string, Tree>, k: string)
    ensures allocated(Others(kids, k))
  {
    forall j | j in kids { FootAllocated(kids[j]); }
  }

  lemma FootKid(t: Tree, k: string)
    requires t.TMap? && k in t.kids
    ensures Foot(t.kids[k]) <= Foot(t)
  {
  }

  ghost function Others(kids: map<string, Tree>, k: string): set<Node> {
    set j, x | j in kids && j != k && x in Foot(kids[j]) :: x
  }

  lemma FootSplit(t: Tree, k: string)
    requires t.TMap? && k in t.kids
    ensures Foot(t) == {t.node} + Others(t.kids, k) + Foot(t.kids[k])
  {
    forall x
      ensures x in Foot(t) <==> x in {t.node} + Others(t.kids, k) + Foot(t.kids[k])
    {
    }
  }

  lemma OthersUpdate(kids: map<string, Tree>, k: string, s: Tree)
    ensures Others(kids[k := s], k) == Others(kids, k)
    ensures Others(kids - {k}, k) == Others(kids, k)
  {
    forall x | x in Others(kids, k)
      ensures x in Others(kids[k := s], k) && x in Others(kids - {k}, k)
    {
      var j :| j in kids && j != k && x in Foot(kids[j]);
      var less := kids - {k};
      assert j in kids[k := s] && j in less && less[j] == kids[j];
    }
  }

  /** The heap agrees with the entries of a map but the one at k. */
  ghost predicate OthersMatch(kids: map<string, Tree>, k: string)
    reads Others(kids, k)
  {
    forall j :: j in kids && j != k ==> Matches(kids[j])
  }

  /** The heap agrees with the map t and with all its entries but the one at k. */
  ghost predicate MatchesBut(t: Tree, k: string)
    requires t.TMap?
    reads {t.node} + Others(t.kids, k)
  {
    && t.node.fields.Keys == t.kids.Keys
    && (forall j :: j in t.kids ==> t.node.fields[j] == Top(t.kids[j]))
    && OthersMatch(t.kids, k)
  }

  lemma MatchesIffBut(t: Tree, k: string)
    requires t.TMap? && k in t.kids
    ensures Matches(t) <==> MatchesBut(t, k) && Matches(t.kids[k])
  {
  }

  lemma MatchesTop(t: Tree)
    requires t.TMap? && Matches(t)
    ensures t.node.fields.Keys == t.kids.Keys
    ensures forall k :: k in t.kids ==> t.node.fields[k] == Top(t.kids[k])
  {
  }

  lemma SeparateKid(t: Tree, k: string)
    requires t.TMap? && k in t.kids && Separate(t)
    ensures Foot(t) == {t.node} + Others(t.kids, k) + Foot(t.kids[k])
    ensures Foot(t.kids[k]) !! {t.node} + Others(t.kids, k)
    ensures Separate(t.kids[k])
  {
    FootSplit(t, k);
  }

  function Drop(t: Tree, k: string): Tree
    requires t.TMap?
  {
    t.(kids := t.kids - {k})
  }

  function Replace(t: Tree, k: string, s: Tree): Tree
    requires t.TMap?
  {
    t.(kids := t.kids[k := s])
  }

  lemma DropMatches(t: Tree, k: string)
    requires t.TMap? && k in t.kids
    requires t.node.fields.Keys == t.kids.Keys - {k} && OthersMatch(t.kids, k)
    requires forall j :: j in t.kids && j != k ==> t.node.fields[j] == Top(t.kids[j])
    ensures Matches(Drop(t, k))
  {
    var d := Drop(t, k);
    assert forall j :: j in d.kids ==> d.kids[j] == t.kids[j];
  }

  lemma ReplaceMatches(t: Tree, k: string, s: Tree)
    requires t.TMap? && k in t.kids && MatchesBut(t, k)
    requires Matches(s) && Top(s) == Top(t.kids[k])
    ensures Matches(Replace(t, k, s))
  {
    var d := Replace(t, k, s);
    assert forall j :: j in d.kids && j != k ==> d.kids[j] == t.kids[j];
    assert d.kids.Keys == t.kids.Keys;
  }

  lemma DropSeparate(t: Tree, k: string)
    requires t.TMap? && Separate(t) && k in t.kids
    ensures Separate(Drop(t, k)) && Foot(Drop(t, k)) <= Foot(t)
  {
    var d := Drop(t, k);
    forall j | j in d.kids
      ensures d.kids[j] == t.kids[j] && Foot(d.kids[j]) <= Foot(t)
    {
      FootKid(t, j);
    }
  }

  lemma ReplaceSeparate(t: Tree, k: string, s: Tree)
    requires t.TMap? && Separate(t) && k in t.kids
    requires Separate(s) && Foot(s) <= Foot(t.kids[k])
    ensures Separate(Replace(t, k, s)) && Foot(Replace(t, k, s)) <= Foot(t)
  {
    var d := Replace(t, k, s);
    forall j | j in d.kids
      ensures d.node !in Foot(d.kids[j]) && Separate(d.kids[j]) && Foot(d.kids[j]) <= Foot(t.kids[j]) <= Foot(t)
    {
      FootKid(t, j);
    }
  }

  lemma SetMatches(t: Tree, k: string, s: Tree)
    requires t.TMap? && OthersMatch(t.kids, k) && Matches(s)
    requires t.node.fields.Keys == t.kids.Keys + {k} && t.node.fields[k] == Top(s)
    requires forall j :: j in t.kids && j != k ==> t.node.fields[j] == Top(t.kids[j])
    ensures Matches(Replace(t, k, s))
  {
    var d := Replace(t, k, s);
    assert forall j :: j in d.kids && j != k ==> d.kids[j] == t.kids[j];
  }

  lemma SetSeparate(t: Tree, k: string, s: Tree)
    requires t.TMap? && Separate(t) && Separate(s)
    requires Foot(s) !! {t.node} + Others(t.kids, k)
    ensures Separate(Replace(t, k, s))
    ensures Foot(Replace(t, k, s)) == {t.node} + Others(t.kids, k) + Foot(s)
  {
    var d := Replace(t, k, s);
    FootSplit(d, k);
    OthersUpdate(t.kids, k, s);
    forall j | j in d.kids && j != k
      ensures d.kids[j] == t.kids[j] && Foot(d.kids[j]) <= Others(t.kids, k)
    {
    }
  }

  lemma SeparateOthers(t: Tree, k: string)
    requires t.TMap? && Separate(t)
    ensures {t.node} + Others(t.kids, k) <= Foot(t)
    ensures t.node !in Others(t.kids, k)
    ensures k in t.kids ==> Foot(t.kids[k]) !! {t.node} + Others(t.kids, k) && Separate(t.kids[k])
  {
    if k in t.kids { FootSplit(t, k); }
  }

  lemma SetOwned(t: Tree, k: string, s: Tree)
    requires t.TMap? && Separate(t) && OthersMatch(t.kids, k) && Owned(s)
    requires t.node.fields.Keys == t.kids.Keys + {k} && t.node.fields[k] == Top(s)
    requires forall j :: j in t.kids && j != k ==> t.node.fields[j] == Top(t.kids[j])
    requires Foot(s) !! {t.node} + Others(t.kids, k)
    ensures Owned(Replace(t, k, s))
    ensures Foot(Replace(t, k, s)) == {t.node} + Others(t.kids, k) + Foot(s)
  {
    SetMatches(t, k, s);
    SetSeparate(t, k, s);
  }

  lemma ReplaceModel(t: Tree, k: string, s: Tree)
    requires t.TMap?
    ensures Model(Replace(t, k, s)) == Obj(Model(t).fields[k := Model(s)])
  {
  }

  /** Assigns to one key of a map; s owns what the new cell refers to. */
  method SetKey(m: Node, k: string, c: Cell, ghost t: Tree, ghost s: Tree) returns (ghost r: Tree)
    requires t.TMap? && t.node == m && Owned(t)
    requires Owned(s) && Top(s) == c && Foot(s) !! {m} + Others(t.kids, k)
    modifies m
    ensures m.fields == old(m.fields)[k := c]
    ensures r == Replace(t, k, s) && Owned(r) && Foot(r) == {m} + Others(t.kids, k) + Foot(s)
    ensures Model(r) == Obj(Model(t).fields[k := Model(s)])
  {
    FootAllocated(s);
    OthersAllocated(t.kids, k);
    SeparateOthers(t, k);
    m.fields := m.fields[k := c];
    assert Matches(s) == old(Matches(s));
    assert OthersMatch(t.kids, k) == old(OthersMatch(t.kids, k));
    SetOwned(t, k, s);
    ReplaceModel(t, k, s);
    r := Replace(t, k, s);
  }

  lemma LeafOwned(s: Tree)
    requires !s.TMap?
    ensures Owned(s) && Foot(s) == {}
  {
  }

  /** A new empty map. */
  method NewMap() returns (c: Node, ghost s: Tree)
    ensures fresh(c) && c.fields == map[]
    ensures s == TMap(c, map[]) && Owned(s) && Foot(s) == {c} && Model(s) == EMPTY
  {
    c := new Node();
    s := TMap(c, map[]);
  }

  method SetLeaf(m: Node, k: string, c: Cell, ghost t: Tree, ghost s: Tree) returns (ghost r: Tree)
    requires t.TMap? && t.node == m && Owned(t)
    requires !s.TMap? && Top(s) == c
    modifies m
    ensures m.fields == old(m.fields)[k := c]
    ensures r == Replace(t, k, s) && Owned(r) && Foot(r) <= Foot(t)
    ensures Model(r) == Obj(Model(t).fields[k := Model(s)])
  {
    SeparateOthers(t, k);
    r := SetKey(m, k, c, t, s);
  }

  /** Deletes one key of a map. */
  method RemoveKey(m: Node, k: string, ghost t: Tree) returns (ghost r: Tree)
    requires t.TMap? && t.node == m && Separate(t) && MatchesBut(t, k) && k in t.kids
    modifies m
    ensures m.fields == old(m.fields) - {k}
    ensures r == Drop(t, k) && Matches(r)
  {
    OthersAllocated(t.kids, k);
    SeparateOthers(t, k);
    m.fields := m.fields - {k};
    assert OthersMatch(t.kids, k) == old(OthersMatch(t.kids, k));
    DropMatches(t, k);
    r := Drop(t, k);
  }

  /** Puts a new empty map at one key of a map. */
  method AddMap(m: Node, k: string, ghost t: Tree) returns (c: Node, ghost r: Tree)
    requires t.TMap? && t.node == m && Owned(t)
    modifies m
    ensures fresh(c) && m.fields == old(m.fields)[k := CMap(c)]
    ensures r == Replace(t, k, TMap(c, map[])) && Owned(r) && Foot(r) == {m} + Others(t.kids, k) + {c}
    ensures Foot(r.kids[k]) == {c}
    ensures Model(r) == Obj(Model(t).fields[k := EMPTY])
  {
    FootAllocated(t);
    SeparateOthers(t, k);
    ghost var s;
    c, s := NewMap();
    assert Matches(t) == old(Matches(t));
    r := SetKey(m, k, CMap(c), t, s);
  }

  // ----- visiting the keys of a map in any order

  /**
    Half-way through the map t: r is what it owns now. The keys in todo are as they were, the others
    are as in spec.
   */
  ghost predicate Midway(t: Tree, r: Tree, todo: set<string>, spec: map<string, Value>) {
    && t.TMap? && r.TMap? && r.node == t.node && Separate(r) && Foot(r) <= Foot(t)
    && todo <= t.kids.Keys && forall k :: KeyMidway(t, r, todo, spec, k)
  }

  ghost predicate KeyMidway(t: Tree, r: Tree, todo: set<string>, spec: map<string, Value>, k: string)
    requires t.TMap? && r.TMap?
  {
    && (k in r.kids ==> k in t.kids && Foot(r.kids[k]) <= Foot(t.kids[k]))
    && (k in todo && k in t.kids ==> k in r.kids && r.kids[k] == t.kids[k])
    && (k in t.kids && k !in todo ==> (k in r.kids <==> k in spec))
    && (k in r.kids && k !in todo ==> Model(r.kids[k]) == spec[k])
  }

  lemma MidwayStart(t: Tree, spec: map<string, Value>)
    requires t.TMap? && Separate(t)
    ensures Midway(t, t, t.kids.Keys, spec)
  {
  }

  lemma MidwayKey(t: Tree, r: Tree, todo: set<string>, spec: map<string, Value>, k: string)
    requires Midway(t, r, todo, spec) && k in todo
    ensures k in t.kids && k in r.kids && r.kids[k] == t.kids[k]
  {
    assert KeyMidway(t, r, todo, spec, k);
  }

  lemma DropStep(t: Tree, r: Tree, todo: set<string>, spec: map<string, Value>, k: string)
    requires Midway(t, r, todo, spec) && k in todo && k !in spec
    ensures Midway(t, Drop(r, k), todo - {k}, spec)
  {
    hide Foot, Separate, Model;
    MidwayKey(t, r, todo, spec, k);
    DropSeparate(r, k);
    forall j ensures KeyMidway(t, Drop(r, k), todo - {k}, spec, j) {
      assert KeyMidway(t, r, todo, spec, j);
    }
  }

  /** If the keys still to visit already are as in spec, the visit may as well be over. */
  lemma RestUnchanged(t: Tree, r: Tree, todo: set<string>, spec: map<string, Value>)
    requires Midway(t, r, todo, spec) && forall k :: k in todo ==> k in spec && Model(t.kids[k]) == spec[k]
    ensures Midway(t, r, {}, spec)
  {
    hide Foot, Separate, Model;
    forall j ensures KeyMidway(t, r, {}, spec, j) {
      assert KeyMidway(t, r, todo, spec, j);
    }
  }

  lemma ReplaceStep(t: Tree, r: Tree, todo: set<string>, spec: map<string, Value>, k: string, s: Tree)
    requires Midway(t, r, todo, spec) && k in todo && k in spec
    requires Separate(s) && Foot(s) <= Foot(t.kids[k]) && Model(s) == spec[k]
    ensures Midway(t, Replace(r, k, s), todo - {k}, spec)
  {
    hide Foot, Separate, Model;
    MidwayKey(t, r, todo, spec, k);
    ReplaceSeparate(r, k, s);
    forall j ensures KeyMidway(t, Replace(r, k, s), todo - {k}, spec, j) {
      assert KeyMidway(t, r, todo, spec, j);
    }
  }

  lemma MidwayDone(t: Tree, r: Tree, spec: map<string, Value>)
    requires Midway(t, r, {}, spec) && spec.Keys <= t.kids.Keys
    ensures Model(r) == Obj(spec)
  {
    forall j ensures (j in r.kids <==> j in spec) && (j in spec ==> Model(r.kids[j]) == spec[j]) {
      assert KeyMidway(t, r, {}, spec, j);
    }
  }

  // ----- replacing a subtree

  ghost predicate HasMapAt(t: Tree, p: Path)
    decreases |p|
  {
    t.TMap? && (p != [] ==> p[0] in t.kids && HasMapAt(t.kids[p[0]], p[1..]))
  }

  ghost function At(t: Tree, p: Path): (s: Tree)
    requires HasMapAt(t, p)
    ensures s.TMap?
    decreases |p|
  {
    if p == [] then t else At(t.kids[p[0]], p[1..])
  }

  ghost function PutAt(t: Tree, p: Path, s: Tree): (r: Tree)
    requires HasMapAt(t, p)
    ensures p != [] ==> r.TMap?
    decreases |p|
  {
    if p == [] then s else t.(kids := t.kids[p[0] := PutAt(t.kids[p[0]], p[1..], s)])
  }

  /** The objects of t outside the subtree at p. */
  ghost function Around(t: Tree, p: Path): set<Node>
    requires HasMapAt(t, p)
    decreases |p|
  {
    if p == [] then {}
    else {t.node} + Others(t.kids, p[0]) + Around(t.kids[p[0]], p[1..])
  }

  lemma AroundAllocated(t: Tree, p: Path)
    requires HasMapAt(t, p)
    ensures allocated(Around(t, p))
    decreases |p|
  {
    if p != [] {
      OthersAllocated(t.kids, p[0]);
      AroundAllocated(t.kids[p[0]], p[1..]);
    }
  }

  /** The heap agrees with t outside the subtree at p. */
  ghost predicate MatchesAround(t: Tree, p: Path)
    requires HasMapAt(t, p)
    reads Around(t, p)
    decreases |p|
  {
    p != [] ==>
      && t.node.fields.Keys == t.kids.Keys
      && (forall k :: k in t.kids ==> t.node.fields[k] == Top(t.kids[k]))
      && (forall k :: k in t.kids && k != p[0] ==> Matches(t.kids[k]))
      && MatchesAround(t.kids[p[0]], p[1..])
  }

  lemma {:induction false} SplitFoot(t: Tree, p: Path)
    requires HasMapAt(t, p)
    ensures Foot(t) == Around(t, p) + Foot(At(t, p))
    ensures Separate(t) ==> Around(t, p) !! Foot(At(t, p)) && Separate(At(t, p))
    decreases |p|
  {
    if p != [] {
      SplitFoot(t.kids[p[0]], p[1..]);
      FootSplit(t, p[0]);
    }
  }

  lemma AtInFoot(t: Tree, p: Path)
    requires HasMapAt(t, p)
    ensures At(t, p).node in Foot(t)
  {
    SplitFoot(t, p);
  }

  lemma {:induction false} SplitMatches(t: Tree, p: Path)
    requires HasMapAt(t, p) && Matches(t)
    ensures MatchesAround(t, p) && Matches(At(t, p))
    decreases |p|
  {
    if p != [] {
      SplitMatches(t.kids[p[0]], p[1..]);
    }
  }

  lemma {:induction false} PutFoot(t: Tree, p: Path, s: Tree)
    requires HasMapAt(t, p) && s.TMap? && s.node == At(t, p).node
    ensures PutAt(t, p, s).TMap? && PutAt(t, p, s).node == t.node
    ensures HasMapAt(PutAt(t, p, s), p) && At(PutAt(t, p, s), p) == s
    ensures Foot(PutAt(t, p, s)) == Around(t, p) + Foot(s)
    decreases |p|
  {
    if p != [] {
      var k := p[0];
      PutFoot(t.kids[k], p[1..], s);
      var r := PutAt(t, p, s);
      FootSplit(r, k);
      OthersUpdate(t.kids, k, r.kids[k]);
    }
  }

  lemma {:induction false} PutSeparate(t: Tree, p: Path, s: Tree)
    requires HasMapAt(t, p) && Separate(t)
    requires s.TMap? && s.node == At(t, p).node && Separate(s) && Foot(s) !! Around(t, p)
    ensures Separate(PutAt(t, p, s))
    decreases |p|
  {
    if p != [] {
      var k := p[0];
      var sub := PutAt(t.kids[k], p[1..], s);
      SeparateOthers(t, k);
      PutSeparate(t.kids[k], p[1..], s);
      PutFoot(t.kids[k], p[1..], s);
      SplitFoot(t.kids[k], p[1..]);
      hide Foot, Separate, Others;
      SetSeparate(t, k, sub);
      assert PutAt(t, p, s) == Replace(t, k, sub);
    }
  }

  lemma {:induction false} PutMatches(t: Tree, p: Path, s: Tree)
    requires HasMapAt(t, p) && MatchesAround(t, p)
    requires s.TMap? && s.node == At(t, p).node && Matches(s)
    ensures Matches(PutAt(t, p, s))
    decreases |p|
  {
    if p != [] {
      PutMatches(t.kids[p[0]], p[1..], s);
      PutFoot(t.kids[p[0]], p[1..], s);
      var r := PutAt(t, p, s);
      assert r.kids.Keys == t.kids.Keys;
    }
  }

  /** A document that is intact outside p, with an owned s put at p, is an owned document. */
  lemma PutOwned(t: Tree, p: Path, s: Tree)
    requires HasMapAt(t, p) && Separate(t) && MatchesAround(t, p)
    requires s.TMap? && s.node == At(t, p).node && Owned(s) && Foot(s) !! Around(t, p)
    ensures Owned(PutAt(t, p, s)) && PutAt(t, p, s).TMap? && PutAt(t, p, s).node == t.node
    ensures Foot(PutAt(t, p, s)) == Around(t, p) + Foot(s)
    ensures HasMapAt(PutAt(t, p, s), p) && At(PutAt(t, p, s), p) == s
  {
    PutFoot(t, p, s);
    PutSeparate(t, p, s);
    PutMatches(t, p, s);
  }
}
