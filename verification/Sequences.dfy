/** Sequences: repetitions, permutations, and orders in which the keys of a map are visited. */
module Sequences {

  function Repeat<T>(x: T, n: nat): (r: seq<T>)
    ensures |r| == n && forall i :: 0 <= i < n ==> r[i] == x
  {
    seq(n, _ => x)
  }

  // ----- permutations

  function MapSeq<A, B>(f: A -> B, s: seq<A>): (r: seq<B>)
    ensures |r| == |s|
  {
    seq(|s|, i requires 0 <= i < |s| => f(s[i]))
  }

  lemma TakeOut<T>(s: seq<T>, j: nat)
    requires j < |s|
    ensures multiset(s) == multiset(s[..j] + s[j + 1..]) + multiset{s[j]}
  {
    assert s == s[..j] + [s[j]] + s[j + 1..];
  }

  lemma TakeFirst<T>(s: seq<T>)
    requires s != []
    ensures multiset(s) == multiset(s[1..]) + multiset{s[0]}
  {
    assert s == [s[0]] + s[1..];
  }

  lemma SameRest<T>(s: seq<T>, t: seq<T>, j: nat)
    requires s != [] && j < |t| && t[j] == s[0] && multiset(s) == multiset(t)
    ensures multiset(s[1..]) == multiset(t[..j] + t[j + 1..])
  {
    TakeFirst(s);
    TakeOut(t, j);
    assert multiset(s[1..]) == multiset(s) - multiset{s[0]};
    assert multiset(t[..j] + t[j + 1..]) == multiset(t) - multiset{s[0]};
  }

  lemma SameTail<T>(s: seq<T>, t: seq<T>)
    requires s != [] && t != [] && s[0] == t[0] && multiset(s) == multiset(t)
    ensures multiset(s[1..]) == multiset(t[1..])
  {
    SameRest(s, t, 0);
    assert t[..0] + t[1..] == t[1..];
  }

  lemma SameLength<T>(s: seq<T>, t: seq<T>)
    requires multiset(s) == multiset(t)
    ensures |s| == |t|
  {
    assert |multiset(s)| == |s| && |multiset(t)| == |t|;
  }

  lemma MapTakeOut<A, B>(f: A -> B, s: seq<A>, j: nat)
    requires j < |s|
    ensures multiset(MapSeq(f, s)) == multiset(MapSeq(f, s[..j] + s[j + 1..])) + multiset{f(s[j])}
  {
    TakeOut(MapSeq(f, s), j);
    assert MapSeq(f, s)[..j] + MapSeq(f, s)[j + 1..] == MapSeq(f, s[..j] + s[j + 1..]);
  }

  /** Mapping the elements of a permutation gives a permutation. */
  lemma {:induction false} MapSame<A, B>(f: A -> B, s: seq<A>, t: seq<A>)
    requires multiset(s) == multiset(t)
    ensures multiset(MapSeq(f, s)) == multiset(MapSeq(f, t))
    decreases |s|
  {
    hide MapSeq;
    SameLength(s, t);
    if s == [] {
      assert s == t;
    } else {
      var j := FirstIn(s, t);
      MapSame(f, s[1..], t[..j] + t[j + 1..]);
      MapTakeOut(f, s, 0);
      MapTakeOut(f, t, j);
      assert s[..0] + s[1..] == s[1..];
    }
  }

  lemma FirstIn<A>(s: seq<A>, t: seq<A>) returns (j: nat)
    requires s != [] && multiset(s) == multiset(t)
    ensures j < |t| && t[j] == s[0] && multiset(s[1..]) == multiset(t[..j] + t[j + 1..])
  {
    assert s[0] in multiset(t);
    j :| 0 <= j < |t| && t[j] == s[0];
    SameRest(s, t, j);
  }

  // ----- visiting the keys of a map in any order

  /** order lists every key of s once. */
  ghost predicate IsOrder(order: seq<string>, s: set<string>) {
    && (forall i, j :: 0 <= i < j < |order| ==> order[i] != order[j])
    && (forall k :: k in s <==> k in order)
  }

  lemma {:induction false} SetToOrder(s: set<string>) returns (order: seq<string>)
    ensures IsOrder(order, s)
  {
    if s == {} {
      order := [];
    } else {
      var k :| k in s;
      var rest := SetToOrder(s - {k});
      order := rest + [k];
    }
  }

  /** The entries of a map at the keys visited so far. */
  function Restrict(m: map<string, string>, order: seq<string>): map<string, string> {
    map k | k in m && k in order :: m[k]
  }
}
