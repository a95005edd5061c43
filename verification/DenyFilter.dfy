/** The deny list: the tree it is compiled into and what deleting with that tree keeps. */
module DenyFilter {
  import opened Json

  // ----- deleting

  /** The map after recDelete with the tree t. */
  function Delete(t: Value, v: Value): (r: Value)
    ensures r.Obj? == v.Obj?
    decreases v
  {
    if !t.Obj? || !v.Obj? then v
    else Obj(map k | k in v.fields && !(k in t.fields && t.fields[k] == Null)
               :: if k in t.fields then Delete(t.fields[k], v.fields[k]) else v.fields[k])
  }

  /**
    The deny filter is exact: a path is present afterwards exactly when it was present before and no
    leaf of the tree is a prefix of it. Scalars keep their value and maps stay maps.
   */
  lemma {:induction false} DeleteExact(t: Value, v: Value, p: Path)
    requires t.Obj? && Uniform(t, Null)
    ensures Present(Delete(t, v), p) <==> Present(v, p) && !Covered(t, p)
    ensures Present(Delete(t, v), p) ==>
              var was, now := Get(v, p), Get(Delete(t, v), p);
              now.Obj? == was.Obj? && (!was.Obj? ==> now == was)
    decreases |p|
  {
    CoveredUnfold(t, p);
    if v.Obj? && p != [] && p[0] in v.fields && p[0] in t.fields {
      var sub := t.fields[p[0]];
      CoveredUnfold(sub, p[1..]);
      if sub != Null {
        DeleteExact(sub, v.fields[p[0]], p[1..]);
      }
    }
  }

  // ----- compiling the list

  /** The tree after the entry path has been added (buildDenyTree). */
  function Insert(t: Value, path: Path): (r: Value)
    requires t.Obj?
    ensures r.Obj?
    decreases |path|
  {
    if path == [] then t
    else if |path| == 1 then Obj(t.fields[path[0] := Null])
    else if path[0] in t.fields then
      match t.fields[path[0]]
      case Null => t
      case Scalar(_) => Obj(t.fields[path[0] := Null])
      case Obj(_) => Obj(t.fields[path[0] := Insert(t.fields[path[0]], path[1..])])
    else Obj(t.fields[path[0] := Insert(EMPTY, path[1..])])
  }

  /** One insertion adds exactly the paths below the new entry to what is denied. */
  lemma {:induction false} InsertCovers(t: Value, path: Path, p: Path)
    requires t.Obj? && Uniform(t, Null) && path != []
    ensures Covered(Insert(t, path), p) <==> Covered(t, p) || path <= p
    decreases |path|
  {
    var r := Insert(t, path);
    CoveredUnfold(t, p);
    CoveredUnfold(r, p);
    if p != [] && p[0] == path[0] {
      PrefixUnfold(path, p);
      CoveredUnfold(r.fields[p[0]], p[1..]);
      if |path| > 1 {
        if p[0] !in t.fields {
          CoveredUnfold(EMPTY, p[1..]);
          InsertCovers(EMPTY, path[1..], p[1..]);
        } else {
          CoveredUnfold(t.fields[p[0]], p[1..]);
          if t.fields[p[0]].Obj? {
            InsertCovers(t.fields[p[0]], path[1..], p[1..]);
          }
        }
      }
    }
  }

  lemma PrefixUnfold(path: Path, p: Path)
    requires path != [] && p != [] && path[0] == p[0]
    ensures path <= p <==> path[1..] <= p[1..]
  {
    assert path == [path[0]] + path[1..] && p == [p[0]] + p[1..];
  }

  lemma {:induction false} InsertKeepsShape(t: Value, path: Path)
    requires t.Obj? && path != [] && Lean(t) && Uniform(t, Null)
    ensures Lean(Insert(t, path)) && Uniform(Insert(t, path), Null) && Insert(t, path) != EMPTY
    decreases |path|
  {
    if |path| > 1 {
      if path[0] !in t.fields {
        InsertKeepsShape(EMPTY, path[1..]);
      } else if t.fields[path[0]].Obj? {
        InsertKeepsShape(t.fields[path[0]], path[1..]);
      }
    }
    assert path[0] in Insert(t, path).fields;
  }

  /** The tree compiled from a whole list, entry by entry. */
  function Compile(list: seq<Path>): (t: Value)
    ensures t.Obj?
  {
    if list == [] then EMPTY else Insert(Compile(list[..|list| - 1]), list[|list| - 1])
  }

  lemma {:induction false} CompileShape(list: seq<Path>)
    requires NonEmptyPaths(list)
    ensures Lean(Compile(list)) && Uniform(Compile(list), Null)
    decreases |list|
  {
    if list != [] {
      CompileShape(list[..|list| - 1]);
      InsertKeepsShape(Compile(list[..|list| - 1]), list[|list| - 1]);
    }
  }

  ghost predicate Denied(list: seq<Path>, p: Path) {
    exists i :: 0 <= i < |list| && list[i] <= p
  }

  /** Duplicates, nested entries and their order do not matter: the tree denies what the list denies. */
  lemma {:induction false} CompileCovers(list: seq<Path>, p: Path)
    requires NonEmptyPaths(list)
    ensures Covered(Compile(list), p) <==> Denied(list, p)
    decreases |list|
  {
    if list == [] {
      CoveredUnfold(EMPTY, p);
    } else {
      var init, last := list[..|list| - 1], list[|list| - 1];
      CompileShape(init);
      CompileCovers(init, p);
      InsertCovers(Compile(init), last, p);
      if Denied(init, p) {
        var i :| 0 <= i < |init| && init[i] <= p;
        assert list[i] <= p;
      }
      if Denied(list, p) && !(last <= p) {
        var i :| 0 <= i < |list| && list[i] <= p;
        assert init[i] <= p;
      }
    }
  }

  /** End to end: the paths left are exactly the input paths with no listed path as a prefix. */
  lemma DenyListExact(list: seq<Path>, v: Value, p: Path)
    requires NonEmptyPaths(list)
    ensures Present(Delete(Compile(list), v), p) <==> Present(v, p) && !Denied(list, p)
  {
    CompileShape(list);
    DeleteExact(Compile(list), v, p);
    CompileCovers(list, p);
  }

  /**
    Two lists compile to the same tree exactly when they deny the same paths. In particular any
    permutation, duplicate or entry below another entry leaves the tree as it is.
   */
  lemma SameTreeIffSameDenied(list: seq<Path>, other: seq<Path>)
    requires NonEmptyPaths(list) && NonEmptyPaths(other)
    ensures Compile(list) == Compile(other) <==> forall p :: Denied(list, p) <==> Denied(other, p)
  {
    forall p: Path
      ensures Covered(Compile(list), p) <==> Denied(list, p)
      ensures Covered(Compile(other), p) <==> Denied(other, p)
    {
      CompileCovers(list, p);
      CompileCovers(other, p);
    }
    if Compile(list) == Compile(other) {
      forall p: Path
        ensures Denied(list, p) <==> Denied(other, p)
      {
        assert Covered(Compile(list), p) <==> Denied(list, p);
      }
    }
    if forall p :: Denied(list, p) <==> Denied(other, p) {
      CompileShape(list);
      CompileShape(other);
      SameCoverSameTree(Compile(list), Compile(other), Null);
    }
  }

  lemma PermutationSameTree(list: seq<Path>, other: seq<Path>)
    requires NonEmptyPaths(list) && multiset(list) == multiset(other)
    ensures NonEmptyPaths(other) && Compile(list) == Compile(other)
  {
    SubListDenied(list, other);
    SubListDenied(other, list);
    SameTreeIffSameDenied(list, other);
  }

  lemma SubListDenied(list: seq<Path>, other: seq<Path>)
    requires multiset(list) == multiset(other)
    ensures NonEmptyPaths(list) ==> NonEmptyPaths(other)
    ensures forall p :: Denied(list, p) ==> Denied(other, p)
  {
    forall i | NonEmptyPaths(list) && 0 <= i < |other|
      ensures other[i] != []
    {
      assert other[i] in multiset(other);
      assert other[i] in list;
    }
    forall p | Denied(list, p)
      ensures Denied(other, p)
    {
      var i :| 0 <= i < |list| && list[i] <= p;
      assert list[i] in multiset(list);
      assert list[i] in other;
    }
  }
}
