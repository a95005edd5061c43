/** Decoded response data: nested maps with scalar (or list) leaves, addressed by paths of keys. */
module Json {

  datatype Value =
    | Null
    | Scalar(token: string)               // any value that is neither nil nor a map
    | Obj(fields: map<string, Value>)

  type Path = seq<string>

  const TRUE := Scalar("true")
  const EMPTY := Obj(map[])

  /** There is an element at path p. */
  predicate Present(v: Value, p: Path)
    decreases |p|
  {
    p == [] || (v.Obj? && p[0] in v.fields && Present(v.fields[p[0]], p[1..]))
  }

  function Get(v: Value, p: Path): Value
    requires Present(v, p)
    decreases |p|
  {
    if p == [] then v else Get(v.fields[p[0]], p[1..])
  }

  /** Path p ends at a leaf, that is, at something that is not a map. */
  predicate LeafAt(t: Value, p: Path)
    decreases |p|
  {
    if p == [] then !t.Obj? else t.Obj? && p[0] in t.fields && LeafAt(t.fields[p[0]], p[1..])
  }

  ghost predicate NonEmptyPaths(list: seq<Path>) {
    forall i :: 0 <= i < |list| ==> list[i] != []
  }

  /** Some leaf of t is a prefix of p. */
  ghost predicate Covered(t: Value, p: Path) {
    exists n: nat :: n <= |p| && LeafAt(t, p[..n])
  }

  /** p is a prefix of a leaf of t that exists in v. */
  ghost predicate Reaches(t: Value, v: Value, p: Path) {
    exists l: Path :: LeafAt(t, l) && p <= l && Present(v, l)
  }

  /** Below t no map is empty, so every branch ends at a leaf. */
  ghost predicate Lean(t: Value) {
    t.Obj? ==> forall k :: k in t.fields ==> t.fields[k] != EMPTY && Lean(t.fields[k])
  }

  lemma LeafAtCons(t: Value, k: string, l: Path)
    requires t.Obj? && k in t.fields
    ensures LeafAt(t, [k] + l) == LeafAt(t.fields[k], l)
    ensures forall v: Value :: v.Obj? && k in v.fields ==> Present(v, [k] + l) == Present(v.fields[k], l)
  {
    assert ([k] + l)[1..] == l;
  }

  /** Covered, one key at a time. */
  lemma CoveredUnfold(t: Value, p: Path)
    ensures Covered(t, p) <==>
            !t.Obj? || (p != [] && p[0] in t.fields && Covered(t.fields[p[0]], p[1..]))
  {
    if !t.Obj? {
      assert LeafAt(t, p[..0]);
    } else if p != [] && p[0] in t.fields {
      var c := t.fields[p[0]];
      if Covered(t, p) {
        var n: nat :| n <= |p| && LeafAt(t, p[..n]);
        assert p[..n][1..] == p[1..][..n - 1];
      }
      if Covered(c, p[1..]) {
        var n: nat :| n <= |p[1..]| && LeafAt(c, p[1..][..n]);
        assert p[..n + 1][1..] == p[1..][..n];
        assert LeafAt(t, p[..n + 1]);
      }
    }
  }

  /** Reaches, one key at a time. */
  lemma ReachesUnfold(t: Value, v: Value, p: Path)
    requires t.Obj? && p != []
    ensures Reaches(t, v, p) <==>
            p[0] in t.fields && v.Obj? && p[0] in v.fields && Reaches(t.fields[p[0]], v.fields[p[0]], p[1..])
  {
    if Reaches(t, v, p) {
      var l :| LeafAt(t, l) && p <= l && Present(v, l);
      assert p[0] == l[0];
      assert LeafAt(t.fields[p[0]], l[1..]) && p[1..] <= l[1..] && Present(v.fields[p[0]], l[1..]);
    }
    if p[0] in t.fields && v.Obj? && p[0] in v.fields && Reaches(t.fields[p[0]], v.fields[p[0]], p[1..]) {
      var l :| LeafAt(t.fields[p[0]], l) && p[1..] <= l && Present(v.fields[p[0]], l);
      LeafAtCons(t, p[0], l);
      assert p == [p[0]] + p[1..];
      assert LeafAt(t, [p[0]] + l) && p <= [p[0]] + l && Present(v, [p[0]] + l);
    }
  }

  /** The leaves of any tree form an antichain under the prefix order. */
  lemma {:induction false} LeavesAntichain(t: Value, p: Path, q: Path)
    requires LeafAt(t, p) && LeafAt(t, q) && p <= q
    ensures p == q
    decreases |p|
  {
    if p != [] {
      LeavesAntichain(t.fields[p[0]], p[1..], q[1..]);
      assert p == [p[0]] + p[1..] && q == [q[0]] + q[1..];
    }
  }

  /** A lean tree that is not an empty map has a leaf. */
  lemma {:induction false} LeanHasLeaf(t: Value) returns (l: Path)
    requires Lean(t) && t != EMPTY
    ensures LeafAt(t, l)
    decreases t
  {
    if !t.Obj? {
      l := [];
    } else {
      assert t.fields != map[];
      var k :| k in t.fields;
      var m := LeanHasLeaf(t.fields[k]);
      LeafAtCons(t, k, m);
      l := [k] + m;
    }
  }

  /** All leaves carry the same mark. */
  ghost predicate Uniform(t: Value, mark: Value) {
    if t.Obj? then forall k :: k in t.fields ==> Uniform(t.fields[k], mark) else t == mark
  }

  /**
    Canonical form: two lean trees whose leaves carry one mark and that cover the same paths are the
    same tree.
   */
  lemma {:induction false} SameCoverSameTree(t: Value, u: Value, mark: Value)
    requires !mark.Obj? && Lean(t) && Lean(u) && Uniform(t, mark) && Uniform(u, mark)
    requires forall p :: Covered(t, p) <==> Covered(u, p)
    ensures t == u
    decreases t
  {
    CoveredUnfold(t, []);
    CoveredUnfold(u, []);
    if t.Obj? {
      forall k: string
        ensures k in t.fields ==> k in u.fields
        ensures k in u.fields ==> k in t.fields
      {
        CoveredKey(t, u, k);
        CoveredKey(u, t, k);
      }
      forall k | k in t.fields
        ensures t.fields[k] == u.fields[k]
      {
        forall p: Path
          ensures Covered(t.fields[k], p) <==> Covered(u.fields[k], p)
        {
          assert ([k] + p)[1..] == p;
          CoveredUnfold(t, [k] + p);
          CoveredUnfold(u, [k] + p);
        }
        SameCoverSameTree(t.fields[k], u.fields[k], mark);
      }
      assert t.fields == u.fields;
    }
  }

  lemma CoveredKey(t: Value, u: Value, k: string)
    requires t.Obj? && u.Obj? && Lean(t)
    requires forall p :: Covered(t, p) ==> Covered(u, p)
    ensures k in t.fields ==> k in u.fields
  {
    if k in t.fields {
      var l := LeanHasLeaf(t.fields[k]);
      LeafAtCons(t, k, l);
      var p := [k] + l;
      assert p[..|p|] == p;
      assert Covered(t, p);
      CoveredUnfold(u, p);
    }
  }
}
