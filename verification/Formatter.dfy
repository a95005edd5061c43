/** The whole response formatter: target extraction, filter, key mapping and grouping. */
module Formatter {
  import opened Json
  import opened MapHeap
  import opened Sequences
  import opened Strings
  import AllowFilter
  import AllowMethods
  import DenyFilter
  import DenyMethods

  // ----- renaming keys

  type Fields = map<string, Value>

  /** One entry of the mapping: the value moves to the new key; a key mapped to itself is lost. */
  function RenameOne(fields: Fields, former: string, newKey: string): Fields {
    if former in fields then fields[newKey := fields[former]] - {former} else fields
  }

  /** The mapping applied in the given order of its entries. */
  function Rename(fields: Fields, mapping: map<string, string>, order: seq<string>): Fields
    requires forall i :: 0 <= i < |order| ==> order[i] in mapping
  {
    if order == [] then fields
    else
      var last := order[|order| - 1];
      RenameOne(Rename(fields, mapping, order[..|order| - 1]), last, mapping[last])
  }

  /** Distinct entries have distinct new keys, and none renames to a key that another one moves away. */
  ghost predicate Independent(mapping: map<string, string>) {
    forall f, g :: f in mapping && g in mapping && f != g ==> mapping[f] != mapping[g] && mapping[f] != g
  }

  ghost predicate MovesTo(fields: Fields, mapping: map<string, string>, f: string, k: string) {
    f in mapping && f in fields && f != k && mapping[f] == k
  }

  /** All entries at once: r holds at k what moves there, else what was at k unless it moves away. */
  ghost predicate Simultaneous(fields: Fields, mapping: map<string, string>, r: Fields) {
    && (forall k :: k in r ==> (exists f :: MovesTo(fields, mapping, f, k)) || (k in fields && k !in mapping))
    && (forall f, k :: MovesTo(fields, mapping, f, k) ==> k in r && r[k] == fields[f])
    && (forall k :: k in fields && k !in mapping && (forall f :: !MovesTo(fields, mapping, f, k)) ==> k in r && r[k] == fields[k])
  }

  lemma {:induction false} RenameSimultaneous(fields: Fields, mapping: map<string, string>, order: seq<string>)
    requires Independent(mapping)
    requires forall i :: 0 <= i < |order| ==> order[i] in mapping
    requires forall i, j :: 0 <= i < j < |order| ==> order[i] != order[j]
    ensures Simultaneous(fields, Restrict(mapping, order), Rename(fields, mapping, order))
    decreases |order|
  {
    if order != [] {
      var init, f := order[..|order| - 1], order[|order| - 1];
      RenameSimultaneous(fields, mapping, init);
      RestrictStep(mapping, order);
      hide Simultaneous, Independent, Restrict;
      SimultaneousStep(fields, Restrict(mapping, init), Rename(fields, mapping, init), f, mapping[f]);
    }
  }

  lemma RestrictStep(mapping: map<string, string>, order: seq<string>)
    requires order != [] && order[|order| - 1] in mapping
    requires forall i, j :: 0 <= i < j < |order| ==> order[i] != order[j]
    ensures var init, f := order[..|order| - 1], order[|order| - 1];
            f !in Restrict(mapping, init) && Restrict(mapping, order) == Restrict(mapping, init)[f := mapping[f]]
    ensures Independent(mapping) ==> Independent(Restrict(mapping, order))
  {
    var init, f := order[..|order| - 1], order[|order| - 1];
    assert order == init + [f];
    assert f !in init;
  }

  lemma SimultaneousStep(fields: Fields, done: map<string, string>, r: Fields, f: string, n: string)
    requires Independent(done[f := n]) && f !in done && Simultaneous(fields, done, r)
    ensures Simultaneous(fields, done[f := n], RenameOne(r, f, n))
  {
    var m, r' := done[f := n], RenameOne(r, f, n);
    IndependentEntry(done, f, m);
    hide Independent, RenameOne, OneMore;
    FormerStays(fields, done, r, f, m);
    forall g, k | MovesTo(fields, m, g, k) ensures k in r' && r'[k] == fields[g] { StepMoves(fields, done, r, f, m, g, k); }
    forall k | k in r' ensures (exists g :: MovesTo(fields, m, g, k)) || (k in fields && k !in m) {
      StepOrigin(fields, done, r, f, m, k);
    }
    forall k | k in fields && k !in m && (forall g :: !MovesTo(fields, m, g, k)) ensures k in r' && r'[k] == fields[k] {
      StepKeeps(fields, done, r, f, m, k);
    }
  }

  /** m is done and an entry for f; no entry of done renames to f or to the new key of f. */
  ghost predicate OneMore(done: map<string, string>, f: string, m: map<string, string>) {
    && f !in done && f in m && m == done[f := m[f]]
    && forall g :: g in done ==> done[g] != f && done[g] != m[f]
  }

  lemma IndependentEntry(done: map<string, string>, f: string, m: map<string, string>)
    requires f !in done && f in m && m == done[f := m[f]] && Independent(m)
    ensures OneMore(done, f, m)
  {
    forall g | g in done ensures done[g] != f && done[g] != m[f] { assert m[g] == done[g]; }
  }

  lemma MovesStep(fields: Fields, done: map<string, string>, f: string, m: map<string, string>, g: string, k: string)
    requires OneMore(done, f, m)
    ensures MovesTo(fields, done, g, k) ==> k != f && k != m[f]
    ensures MovesTo(fields, m, g, k) <==> if g == f then f in fields && f != k && m[f] == k else MovesTo(fields, done, g, k)
  {
  }

  lemma FormerStays(fields: Fields, done: map<string, string>, r: Fields, f: string, m: map<string, string>)
    requires OneMore(done, f, m) && Simultaneous(fields, done, r)
    ensures (f in r <==> f in fields) && (f in r ==> r[f] == fields[f])
  {
    forall g ensures !MovesTo(fields, done, g, f) { MovesStep(fields, done, f, m, g, f); }
  }

  lemma StepMoves(fields: Fields, done: map<string, string>, r: Fields, f: string, m: map<string, string>, g: string, k: string)
    requires OneMore(done, f, m) && Simultaneous(fields, done, r) && MovesTo(fields, m, g, k)
    ensures g in fields && k in RenameOne(r, f, m[f]) && RenameOne(r, f, m[f])[k] == fields[g]
  {
    FormerStays(fields, done, r, f, m);
    MovesStep(fields, done, f, m, g, k);
    hide OneMore;
    if g != f { assert k in r && r[k] == fields[g]; }
  }

  lemma StepOrigin(fields: Fields, done: map<string, string>, r: Fields, f: string, m: map<string, string>, k: string)
    requires OneMore(done, f, m) && Simultaneous(fields, done, r) && k in RenameOne(r, f, m[f])
    ensures (exists g :: MovesTo(fields, m, g, k)) || (k in fields && k !in m)
  {
    FormerStays(fields, done, r, f, m);
    MovesStep(fields, done, f, m, f, k);
    if !MovesTo(fields, m, f, k) && !(k in fields && k !in m) {
      var g :| MovesTo(fields, done, g, k);
      MovesStep(fields, done, f, m, g, k);
    }
  }

  lemma StepKeeps(fields: Fields, done: map<string, string>, r: Fields, f: string, m: map<string, string>, k: string)
    requires OneMore(done, f, m) && Simultaneous(fields, done, r)
    requires k in fields && k !in m && forall g :: !MovesTo(fields, m, g, k)
    ensures k in RenameOne(r, f, m[f]) && RenameOne(r, f, m[f])[k] == fields[k]
  {
    FormerStays(fields, done, r, f, m);
    MovesStep(fields, done, f, m, f, k);
    forall g ensures !MovesTo(fields, done, g, k) {
      assert !MovesTo(fields, m, g, k);
      if g != f { MovesStep(fields, done, f, m, g, k); }
    }
  }

  lemma SimultaneousUnique(fields: Fields, mapping: map<string, string>, r: Fields, s: Fields)
    requires Simultaneous(fields, mapping, r) && Simultaneous(fields, mapping, s)
    ensures r == s
  {
    forall k: string
      ensures k in r <==> k in s
      ensures k in r && k in s ==> r[k] == s[k]
    {
      if f :| MovesTo(fields, mapping, f, k) {
        assert r[k] == fields[f] && s[k] == fields[f];
      }
    }
  }

  /** In every order of an independent mapping the result is the simultaneous renaming. */
  lemma RenameExact(fields: Fields, mapping: map<string, string>, order: seq<string>)
    requires Independent(mapping) && IsOrder(order, mapping.Keys)
    requires forall i :: 0 <= i < |order| ==> order[i] in mapping
    ensures Simultaneous(fields, mapping, Rename(fields, mapping, order))
  {
    RenameSimultaneous(fields, mapping, order);
    assert Restrict(mapping, order) == mapping;
  }

  ghost predicate OrderFree(mapping: map<string, string>) {
    forall fields: Fields, a: seq<string>, b: seq<string> | IsOrder(a, mapping.Keys) && IsOrder(b, mapping.Keys) ::
      Rename(fields, mapping, a) == Rename(fields, mapping, b)
  }

  lemma {:induction false} RenameAbsent(fields: Fields, mapping: map<string, string>, order: seq<string>)
    requires forall i :: 0 <= i < |order| ==> order[i] in mapping && order[i] !in fields
    ensures Rename(fields, mapping, order) == fields
  {
    if order != [] {
      RenameAbsent(fields, mapping, order[..|order| - 1]);
    }
  }

  /** The order of the entries is irrelevant for every document exactly when the mapping is independent. */
  lemma OrderFreeIffIndependent(mapping: map<string, string>)
    ensures OrderFree(mapping) <==> Independent(mapping)
  {
    if Independent(mapping) {
      forall fields: Fields, a: seq<string>, b: seq<string> | IsOrder(a, mapping.Keys) && IsOrder(b, mapping.Keys)
        ensures Rename(fields, mapping, a) == Rename(fields, mapping, b)
      {
        RenameExact(fields, mapping, a);
        RenameExact(fields, mapping, b);
        SimultaneousUnique(fields, mapping, Rename(fields, mapping, a), Rename(fields, mapping, b));
      }
    } else {
      var f, g :| f in mapping && g in mapping && f != g && (mapping[f] == mapping[g] || mapping[f] == g);
      if mapping[f] == g {
        ChainOrders(mapping, f, g);
      } else if mapping[g] == f {
        ChainOrders(mapping, g, f);
      } else {
        ClashOrders(mapping, f, g);
      }
    }
  }

  lemma ChainOrders(mapping: map<string, string>, f: string, g: string)
    requires f in mapping && g in mapping && f != g && mapping[f] == g
    ensures !OrderFree(mapping)
  {
    var a, b := TwoOrders(mapping, f, g, map[f := TRUE]);
    assert g !in Rename(map[f := TRUE], mapping, a);
    assert g in Rename(map[f := TRUE], mapping, b);
  }

  lemma ClashOrders(mapping: map<string, string>, f: string, g: string)
    requires f in mapping && g in mapping && f != g && mapping[f] == mapping[g] && mapping[f] != f && mapping[f] != g
    ensures !OrderFree(mapping)
  {
    var fields: Fields := map[f := TRUE, g := Null];
    var a, b := TwoOrders(mapping, f, g, fields);
    assert Rename(fields, mapping, a)[mapping[f]] == Null;
    assert Rename(fields, mapping, b)[mapping[f]] == TRUE;
  }

  /** Two orders of the whole mapping that differ in the entries f and g, applied last. */
  lemma TwoOrders(mapping: map<string, string>, f: string, g: string, fields: Fields) returns (a: seq<string>, b: seq<string>)
    requires f in mapping && g in mapping && f != g && fields.Keys <= {f, g}
    ensures IsOrder(a, mapping.Keys) && IsOrder(b, mapping.Keys)
    ensures Rename(fields, mapping, a) == RenameOne(RenameOne(fields, f, mapping[f]), g, mapping[g])
    ensures Rename(fields, mapping, b) == RenameOne(RenameOne(fields, g, mapping[g]), f, mapping[f])
  {
    var rest := SetToOrder(mapping.Keys - {f, g});
    a, b := rest + [f] + [g], rest + [g] + [f];
    forall i | 0 <= i < |rest| ensures rest[i] in mapping && rest[i] !in fields { assert rest[i] in rest; }
    AppendTwo(rest, mapping.Keys, f, g);
    AppendTwo(rest, mapping.Keys, g, f);
    hide IsOrder;
    RenameAbsent(fields, mapping, rest);
    RenameTwo(fields, mapping, rest, f, g);
    RenameTwo(fields, mapping, rest, g, f);
  }

  lemma AppendTwo(rest: seq<string>, s: set<string>, f: string, g: string)
    requires IsOrder(rest, s - {f, g}) && f != g && f in s && g in s
    ensures IsOrder(rest + [f] + [g], s)
  {
    assert f !in rest && g !in rest;
    forall k: string ensures k in s <==> k in rest + [f] + [g] {
      assert k in rest + [f] + [g] <==> k in rest || k == f || k == g;
    }
  }

  lemma RenameTwo(fields: Fields, mapping: map<string, string>, rest: seq<string>, f: string, g: string)
    requires f in mapping && g in mapping
    requires forall i :: 0 <= i < |rest| ==> rest[i] in mapping
    ensures Rename(fields, mapping, rest + [f] + [g]) ==
            RenameOne(RenameOne(Rename(fields, mapping, rest), f, mapping[f]), g, mapping[g])
  {
    var a := rest + [f] + [g];
    assert a[..|a| - 1] == rest + [f];
    assert (rest + [f])[..|rest|] == rest;
  }

  // ----- extracting the target

  /** The map that the target path leads to, or an empty one when it leads nowhere. */
  function Extract(v: Value, parts: Path): (r: Value)
    decreases |parts|
  {
    if parts == [] then v
    else if v.Obj? && parts[0] in v.fields && v.fields[parts[0]].Obj? then Extract(v.fields[parts[0]], parts[1..])
    else EMPTY
  }

  lemma {:induction false} ExtractExact(v: Value, parts: Path)
    requires v.Obj?
    ensures Extract(v, parts) == if AllowFilter.MapAt(v, parts) && Present(v, parts) then Get(v, parts) else EMPTY
    ensures AllowFilter.MapAt(v, parts) ==> Present(v, parts)
    decreases |parts|
  {
    if parts != [] && parts[0] in v.fields && v.fields[parts[0]].Obj? {
      ExtractExact(v.fields[parts[0]], parts[1..]);
    }
  }

  ghost predicate DataOwned(data: Node?, t: Tree)
    reads Foot(t)
  {
    if data == null then t == TNull else t.TMap? && t.node == data && Owned(t)
  }

  /** When everything has been deleted, the loop that empties the map finds nothing left. */
  lemma AllDeleted(t: Tree)
    requires t.TMap? && Matches(t) && Model(t) == EMPTY
    ensures t.node.fields == map[]
  {
    assert t.kids.Keys == Model(t).fields.Keys;
  }

  /** Follows the target from part to part; data is nil or the map reached so far. */
  method ExtractTarget(target: string, data: Node?, ghost t: Tree) returns (r: Node, ghost s: Tree)
    requires DataOwned(data, t)
    ensures s.TMap? && s.node == r && Owned(s) && (forall x :: x in Foot(s) && x !in Foot(t) ==> fresh(x))
    ensures Model(s) == Extract(Model(t), Split(target, '.'))
  {
    var parts := Split(target, '.');
    var at: Node? := data;
    s := t;
    for i := 0 to |parts|
      invariant i == 0 ==> s == t
      invariant i > 0 ==> s.TMap?
      invariant if at == null then s == TNull else s.TMap? && s.node == at && Owned(s)
      invariant Foot(s) <= Foot(t)
      invariant Extract(Model(s), parts[i..]) == Extract(Model(t), parts)
    {
      if at == null || parts[i] !in at.fields || !at.fields[parts[i]].CMap? {
        r, s := NewMap();
        return;
      }
      FootKid(s, parts[i]);
      at, s := at.fields[parts[i]].node, s.kids[parts[i]];
    }
    r := at;
  }

  // ----- the mapping in place

  /** One round of the mapping loop. */
  method RenameKey(data: Node, former: string, newKey: string, ghost t: Tree) returns (ghost r: Tree)
    requires t.TMap? && t.node == data && Owned(t)
    modifies data
    ensures r.TMap? && r.node == data && Owned(r) && Foot(r) <= Foot(t)
    ensures Model(r) == Obj(RenameOne(Model(t).fields, former, newKey))
  {
    hide Foot, Others, Separate, Matches, OthersMatch, Model;
    r := t;
    MatchesTop(t);
    if former in data.fields {
      MoveModel(t, former, newKey);
      MoveSeparate(t, former, newKey);
      MoveMatches(t, former, newKey);
      r := Move(t, former, newKey);
      SeparateOthers(r, former);
      OthersAllocated(r.kids, former);
      data.fields := data.fields[newKey := data.fields[former]];
      data.fields := data.fields - {former};
      assert OthersMatch(r.kids, former) == old(OthersMatch(r.kids, former));
      TopMatches(r, former);
    } else {
      assert former !in t.kids;
      NoMoveModel(t, former, newKey);
    }
  }

  lemma TopMatches(r: Tree, former: string)
    requires r.TMap? && former !in r.kids && OthersMatch(r.kids, former)
    requires r.node.fields.Keys == r.kids.Keys
    requires forall k :: k in r.kids ==> r.node.fields[k] == Top(r.kids[k])
    ensures Matches(r)
  {
  }

  lemma MoveModel(t: Tree, former: string, newKey: string)
    requires t.TMap? && former in t.kids
    ensures Model(Move(t, former, newKey)) == Obj(RenameOne(Model(t).fields, former, newKey))
  {
  }

  lemma NoMoveModel(t: Tree, former: string, newKey: string)
    requires t.TMap? && former !in t.kids
    ensures Model(t) == Obj(RenameOne(Model(t).fields, former, newKey))
  {
  }

  /** The ownership tree when the entry at former moves to newKey. */
  function Move(t: Tree, former: string, newKey: string): Tree
    requires t.TMap? && former in t.kids
  {
    TMap(t.node, t.kids[newKey := t.kids[former]] - {former})
  }

  lemma MoveMatches(t: Tree, former: string, newKey: string)
    requires t.TMap? && Matches(t) && former in t.kids
    ensures OthersMatch(Move(t, former, newKey).kids, former)
    ensures forall k :: k in Move(t, former, newKey).kids ==>
              Move(t, former, newKey).kids[k] == if k == newKey then t.kids[former] else t.kids[k]
  {
  }

  lemma MoveSeparate(t: Tree, former: string, newKey: string)
    requires t.TMap? && Separate(t) && former in t.kids
    ensures Separate(Move(t, former, newKey)) && Foot(Move(t, former, newKey)) <= Foot(t)
  {
    var r := Move(t, former, newKey);
    forall k | k in r.kids
      ensures r.kids[k] == if k == newKey then t.kids[former] else t.kids[k]
      ensures Foot(r.kids[k]) <= Foot(t)
    {
      FootKid(t, if k == newKey then former else k);
    }
  }

  /** Applies the mapping; Go's map iteration makes the order of the entries arbitrary. */
  method ApplyMapping(data: Node, mapping: map<string, string>, ghost t: Tree) returns (ghost r: Tree, ghost order: seq<string>)
    requires t.TMap? && t.node == data && Owned(t)
    modifies data
    ensures IsOrder(order, mapping.Keys) && (forall i :: 0 <= i < |order| ==> order[i] in mapping)
    ensures r.TMap? && r.node == data && Owned(r) && Foot(r) <= Foot(t)
    ensures Model(r) == Obj(Rename(Model(t).fields, mapping, order))
  {
    hide Foot, Others, Separate, Matches, OthersMatch;
    r := t;
    order := [];
    var todo := mapping.Keys;
    while todo != {}
      invariant todo <= mapping.Keys && IsOrder(order, mapping.Keys - todo)
      invariant r.TMap? && r.node == data && Owned(r) && Foot(r) <= Foot(t)
      invariant forall i :: 0 <= i < |order| ==> order[i] in mapping
      invariant Model(r) == Obj(Rename(Model(t).fields, mapping, order))
      decreases todo
    {
      var k :| k in todo;
      r := RenameKey(data, k, mapping[k], r);
      assert (order + [k])[..|order|] == order;
      order := order + [k];
      todo := todo - {k};
    }
  }

  // ----- the formatter

  function Filtered(allow: bool, list: seq<string>, v: Value): (r: Value)
    ensures v.Obj? ==> r.Obj?
  {
    if !v.Obj? || v == EMPTY then v
    else if allow then AllowFilter.Prune(AllowFilter.Compile(Paths(list)), v)
    else DenyFilter.Delete(DenyFilter.Compile(Paths(list)), v)
  }

  function Renamed(mapping: map<string, string>, order: seq<string>, v: Value): Value
    requires forall i :: 0 <= i < |order| ==> order[i] in mapping
  {
    if v.Obj? then Obj(Rename(v.fields, mapping, order)) else v
  }

  function Grouped(prefix: string, v: Value): Value {
    if prefix == "" then v else Obj(map[prefix := v])
  }

  /** The parts of the target between its dots. */
  function TargetPath(target: string): (path: Path)
    ensures target == "" <==> path == []
    ensures Join(path, '.') == target && forall i :: 0 <= i < |path| ==> '.' !in path[i]
  {
    JoinSplit(target, '.');
    if target == "" then [] else Split(target, '.')
  }

  /** All steps of the formatter, the mapping applied in the given order. */
  function Formatted(target: string, prefix: string, allow: bool, list: seq<string>, mapping: map<string, string>,
                     order: seq<string>, v: Value): Value
    requires forall i :: 0 <= i < |order| ==> order[i] in mapping
  {
    Grouped(prefix, Renamed(mapping, order, Filtered(allow, list, Extract(v, TargetPath(target)))))
  }

  /** Renaming the keys of an empty map does nothing, so the guards on the length make no difference. */
  lemma {:induction false} RenameEmpty(mapping: map<string, string>, order: seq<string>)
    requires forall i :: 0 <= i < |order| ==> order[i] in mapping
    ensures Rename(map[], mapping, order) == map[]
    decreases |order|
  {
    if order != [] {
      RenameEmpty(mapping, order[..|order| - 1]);
    }
  }

  class EntityFormatter {
    const target: string
    const prefix: string
    const allow: bool
    const list: seq<string>
    const mapping: map<string, string>
    const tree: Node
    ghost const owned: Tree

    ghost predicate Valid()
      reads Foot(owned)
    {
      && owned.TMap? && owned.node == tree && Owned(owned)
      && Model(owned) == if allow then AllowFilter.Compile(Paths(list)) else DenyFilter.Compile(Paths(list))
    }

    /** An allow list, when there is one, makes the deny list irrelevant; new keys end at their first dot. */
    constructor (target: string, group: string, allowList: seq<string>, denyList: seq<string>, mapping: map<string, string>)
      ensures Valid()
      ensures this.target == target && prefix == group
      ensures allow == (allowList != []) && list == if allow then allowList else denyList
      ensures this.mapping == map k | k in mapping :: Split(mapping[k], '.')[0]
    {
      this.target, prefix := target, group;
      this.mapping := map k | k in mapping :: Split(mapping[k], '.')[0];
      var n;
      ghost var t;
      if |allowList| > 0 {
        n, t := AllowMethods.BuildTree(allowList);
        allow, list := true, allowList;
      } else {
        n, t := DenyMethods.BuildTree(denyList);
        allow, list := false, denyList;
      }
      tree := n;
      owned := t;
    }

    /** The filter step, skipped when there are no data. */
    method FilterData(data: Node?, ghost t: Tree) returns (ghost s: Tree)
      requires Valid() && DataOwned(data, t) && Foot(owned) !! Foot(t)
      modifies Foot(t)
      ensures DataOwned(data, s) && Foot(s) <= Foot(t)
      ensures Model(s) == Filtered(allow, list, Model(t))
    {
      s := t;
      if data != null && data.fields != map[] {
        if allow {
          var canDelete;
          canDelete, s := AllowMethods.AllowlistPrune(tree, data, owned, t);
          if canDelete {
            AllDeleted(s);
          }
        } else {
          DenyFilter.CompileShape(Paths(list));
          s := DenyMethods.RecDelete(tree, CMap(data), owned, t);
        }
      }
    }

    /** The mapping step, skipped when there are no data. */
    method MapKeys(data: Node?, ghost t: Tree) returns (ghost s: Tree, ghost order: seq<string>)
      requires DataOwned(data, t)
      modifies Foot(t)
      ensures DataOwned(data, s) && Foot(s) <= Foot(t)
      ensures IsOrder(order, mapping.Keys) && (forall i :: 0 <= i < |order| ==> order[i] in mapping)
      ensures Model(s) == Renamed(mapping, order, Model(t))
    {
      s := t;
      if data != null && data.fields != map[] {
        s, order := ApplyMapping(data, mapping, t);
      } else {
        order := SetToOrder(mapping.Keys);
        assert forall i :: 0 <= i < |order| ==> order[i] in order;
        RenameEmpty(mapping, order);
      }
    }

    method Group(data: Node?, ghost t: Tree) returns (r: Node?, ghost s: Tree)
      requires DataOwned(data, t)
      ensures DataOwned(r, s)
      ensures Model(s) == Grouped(prefix, Model(t))
    {
      r, s := data, t;
      if prefix != "" {
        FootAllocated(t);
        var outer, empty := NewMap();
        assert Matches(t) == old(Matches(t));
        r := outer;
        s := SetKey(outer, prefix, if data == null then CNull else CMap(data), empty, t);
      }
    }

    /** Formats the response data in place; nil stands for a response without data. */
    method Format(data: Node?, ghost t: Tree) returns (r: Node?, ghost s: Tree, ghost order: seq<string>)
      requires Valid() && DataOwned(data, t) && Foot(owned) !! Foot(t)
      modifies Foot(t)
      ensures Valid() && DataOwned(r, s)
      ensures IsOrder(order, mapping.Keys) && (forall i :: 0 <= i < |order| ==> order[i] in mapping)
      ensures Model(s) == Formatted(target, prefix, allow, list, mapping, order, Model(t))
    {
      hide Foot, Others, Separate, Matches, OthersMatch, Model;
      FootAllocated(owned);
      r, s := data, t;
      if target != "" {
        r, s := ExtractTarget(target, data, t);
      }
      s := FilterData(r, s);
      s, order := MapKeys(r, s);
      assert Valid() == old(Valid());
      r, s := Group(r, s);
    }
  }
}
