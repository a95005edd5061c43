/** End to end: which paths a formatted document has, in terms of the document, the target, the list, the mapping and the group. */
module FormatterPaths {
  import opened Json
  import opened Sequences
  import opened Strings
  import opened Formatter
  import AllowFilter
  import DenyFilter

  /** The filter leaves path r of the document at the target. */
  ghost predicate Kept(target: Path, allow: bool, list: seq<Path>, v: Value, r: Path) {
    && Present(v, target + r)
    && if allow then exists e :: AllowFilter.Surviving(list, e) && (e <= r || (r <= e && Present(v, target + e)))
       else !DenyFilter.Denied(list, r)
  }

  /**
    The path with key k and the given rest exists after the mapping: what the filter leaves at a key that
    moves to k, or at k itself if k neither moves nor is moved to.
   */
  ghost predicate Mapped(mapping: map<string, string>, target: Path, allow: bool, list: seq<Path>, v: Value, k: string, rest: Path) {
    || (exists f :: f in mapping && f != k && mapping[f] == k && Kept(target, allow, list, v, [f] + rest))
    || (k !in mapping && Kept(target, allow, list, v, [k] + rest)
        && forall f :: f in mapping && mapping[f] == k ==> !Kept(target, allow, list, v, [f]))
  }

  /** The paths below the target are those of the extracted document. */
  lemma {:induction false} ExtractPaths(v: Value, target: Path, r: Path)
    requires r != []
    ensures Present(Extract(v, target), r) <==> Present(v, target + r)
    decreases |target|
  {
    if target == [] {
      assert target + r == r;
    } else {
      assert (target + r)[1..] == target[1..] + r;
      if v.Obj? && target[0] in v.fields && v.fields[target[0]].Obj? {
        ExtractPaths(v.fields[target[0]], target[1..], r);
      }
    }
  }

  lemma FilterPaths(allow: bool, list: seq<string>, v: Value, r: Path)
    requires r != []
    ensures Present(Filtered(allow, list, v), r) <==>
            && Present(v, r)
            && if allow then exists e :: AllowFilter.Surviving(Paths(list), e) && (e <= r || (r <= e && Present(v, e)))
               else !DenyFilter.Denied(Paths(list), r)
  {
    hide AllowFilter.Surviving, AllowFilter.Prune, AllowFilter.Compile, DenyFilter.Denied, DenyFilter.Delete, DenyFilter.Compile;
    if v.Obj? && v != EMPTY {
      if allow {
        AllowFilter.AllowListExact(Paths(list), v, r);
      } else {
        DenyFilter.DenyListExact(Paths(list), v, r);
      }
    }
  }

  lemma KeptExact(target: Path, allow: bool, list: seq<string>, v: Value, r: Path)
    requires r != []
    ensures Present(Filtered(allow, list, Extract(v, target)), r) <==> Kept(target, allow, Paths(list), v, r)
  {
    hide Extract, Filtered, Present, Paths, AllowFilter.Surviving, DenyFilter.Denied;
    FilterPaths(allow, list, Extract(v, target), r);
    ExtractPaths(v, target, r);
    forall e: Path | r <= e ensures Present(Extract(v, target), e) <==> Present(v, target + e) {
      ExtractPaths(v, target, e);
    }
  }

  /** The mapping moves whole subtrees. */
  lemma RenamePaths(w: Value, mapping: map<string, string>, order: seq<string>, k: string, rest: Path)
    requires Independent(mapping) && IsOrder(order, mapping.Keys) && forall i :: 0 <= i < |order| ==> order[i] in mapping
    ensures Present(Renamed(mapping, order, w), [k] + rest) <==>
            || (exists f :: f in mapping && f != k && mapping[f] == k && Present(w, [f] + rest))
            || (k !in mapping && Present(w, [k] + rest) && forall f :: f in mapping && mapping[f] == k ==> !Present(w, [f]))
  {
    assert forall f: string :: ([f] + rest)[0] == f && ([f] + rest)[1..] == rest && [f][1..] == [];
    if w.Obj? {
      RenameExact(w.fields, mapping, order);
      MovedPaths(w.fields, mapping, Rename(w.fields, mapping, order), k, rest);
    }
  }

  lemma MovedPaths(fields: Fields, mapping: map<string, string>, r: Fields, k: string, rest: Path)
    requires Independent(mapping) && Simultaneous(fields, mapping, r)
    ensures k in r && Present(r[k], rest) <==>
            || (exists f :: f in mapping && f != k && mapping[f] == k && f in fields && Present(fields[f], rest))
            || (k !in mapping && k in fields && Present(fields[k], rest)
                && forall f :: f in mapping && mapping[f] == k ==> f !in fields)
  {
    hide Present, Independent, Simultaneous;
    if f :| MovesTo(fields, mapping, f, k) {
      MovedHere(fields, mapping, r, f, k);
    } else {
      NotMovedHere(fields, mapping, r, k);
      assert forall f :: f in mapping && f != k && mapping[f] == k ==> f !in fields || MovesTo(fields, mapping, f, k);
    }
  }

  lemma MovedHere(fields: Fields, mapping: map<string, string>, r: Fields, f: string, k: string)
    requires Independent(mapping) && Simultaneous(fields, mapping, r) && MovesTo(fields, mapping, f, k)
    ensures k in r && r[k] == fields[f] && forall g :: g in mapping && mapping[g] == k ==> g == f
  {
  }

  lemma NotMovedHere(fields: Fields, mapping: map<string, string>, r: Fields, k: string)
    requires Simultaneous(fields, mapping, r) && forall f :: !MovesTo(fields, mapping, f, k)
    ensures k in r <==> k in fields && k !in mapping
    ensures k in r ==> r[k] == fields[k]
  {
  }

  /** The paths of the document after target, filter and mapping. */
  lemma MappedExact(target: Path, allow: bool, list: seq<string>, mapping: map<string, string>, order: seq<string>, v: Value,
                    k: string, rest: Path)
    requires Independent(mapping) && IsOrder(order, mapping.Keys) && forall i :: 0 <= i < |order| ==> order[i] in mapping
    ensures Present(Renamed(mapping, order, Filtered(allow, list, Extract(v, target))), [k] + rest)
            <==> Mapped(mapping, target, allow, Paths(list), v, k, rest)
  {
    hide Present, Renamed, Filtered, Extract, Kept, Independent, IsOrder, Paths;
    var w := Filtered(allow, list, Extract(v, target));
    RenamePaths(w, mapping, order, k, rest);
    forall f: string
      ensures Present(w, [f] + rest) <==> Kept(target, allow, Paths(list), v, [f] + rest)
      ensures Present(w, [f]) <==> Kept(target, allow, Paths(list), v, [f])
    {
      KeptExact(target, allow, list, v, [f] + rest);
      KeptExact(target, allow, list, v, [f]);
    }
  }

  /**
    For an independent mapping, whatever the order of its entries: the formatted document has exactly the
    paths that the target, the list and the mapping leave, below the group key if there is one.
   */
  lemma FormatPaths(target: string, prefix: string, allow: bool, list: seq<string>, mapping: map<string, string>,
                    order: seq<string>, v: Value, p: Path)
    requires Independent(mapping) && IsOrder(order, mapping.Keys) && forall i :: 0 <= i < |order| ==> order[i] in mapping
    requires p != []
    ensures var at := TargetPath(target);
            Present(Formatted(target, prefix, allow, list, mapping, order, v), p) <==>
            if prefix == "" then Mapped(mapping, at, allow, Paths(list), v, p[0], p[1..])
            else p[0] == prefix && (|p| == 1 || Mapped(mapping, at, allow, Paths(list), v, p[1], p[2..]))
  {
    hide Independent, IsOrder, Mapped, Renamed, Filtered, Extract, Paths;
    var q := if prefix == "" then p else p[1..];
    if q != [] {
      assert q == [q[0]] + q[1..];
      MappedExact(TargetPath(target), allow, list, mapping, order, v, q[0], q[1..]);
    }
    if prefix != "" && |p| > 1 {
      assert q[0] == p[1] && q[1..] == p[2..];
    }
  }
}
