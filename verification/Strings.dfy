/** Strings: splitting at a separator and the order of Go's string comparison. */
module Strings {
  import opened Sorting

  /** strings.Split with a one-character separator: never empty, and no part holds the separator. */
  function Split(s: string, sep: char): (parts: seq<string>)
    ensures parts != []
    ensures forall i :: 0 <= i < |parts| ==> sep !in parts[i]
  {
    if s == [] then [""]
    else
      var rest := Split(s[1..], sep);
      if s[0] == sep then [""] + rest else [[s[0]] + rest[0]] + rest[1..]
  }

  function Join(parts: seq<string>, sep: char): string {
    if parts == [] then "" else if |parts| == 1 then parts[0] else parts[0] + [sep] + Join(parts[1..], sep)
  }

  /** Nothing is lost by splitting. */
  lemma {:induction false} JoinSplit(s: string, sep: char)
    ensures Join(Split(s, sep), sep) == s
  {
    if s != [] {
      JoinSplit(s[1..], sep);
      var rest := Split(s[1..], sep);
      if s[0] == sep {
        assert ([""] + rest)[1..] == rest;
      } else {
        assert ([[s[0]] + rest[0]] + rest[1..])[1..] == rest[1..];
      }
    }
  }

  /** The dotted entries of an allow or deny list, as paths. */
  function Paths(list: seq<string>): (paths: seq<seq<string>>)
    ensures |paths| == |list|
    ensures forall i :: 0 <= i < |list| ==> paths[i] == Split(list[i], '.') && paths[i] != []
  {
    seq(|list|, i requires 0 <= i < |list| => Split(list[i], '.'))
  }

  lemma PathsStep(list: seq<string>, i: nat)
    requires i < |list|
    ensures Paths(list[..i + 1]) == Paths(list[..i]) + [Split(list[i], '.')]
  {
  }

  // ----- order

  /** The byte order of strings. */
  predicate Less(a: string, b: string) {
    b != [] && (a == [] || a[0] < b[0] || (a[0] == b[0] && Less(a[1..], b[1..])))
  }

  /** a and b agree up to place i, where a ends or has the smaller character. */
  predicate LessAt(a: string, b: string, i: nat) {
    i <= |a| && i < |b| && (forall j :: 0 <= j < i ==> a[j] == b[j]) && (i == |a| || a[i] < b[i])
  }

  lemma LessAtTail(a: string, b: string, i: nat)
    requires a != [] && b != [] && a[0] == b[0]
    ensures LessAt(a, b, i + 1) <==> LessAt(a[1..], b[1..], i)
    ensures !LessAt(a, b, 0)
  {
    if LessAt(a[1..], b[1..], i) {
      forall j | 0 <= j < i + 1 ensures a[j] == b[j] { if j > 0 { assert a[1..][j - 1] == b[1..][j - 1]; } }
    }
  }

  /** a comes before b exactly when it is a proper prefix of b or smaller at the first place where they differ. */
  lemma {:induction false} LessExact(a: string, b: string)
    ensures Less(a, b) <==> exists i: nat :: LessAt(a, b, i)
    decreases |a|
  {
    hide LessAt;
    if a != [] && b != [] && a[0] == b[0] {
      LessExact(a[1..], b[1..]);
      SomewhereInTail(a, b);
    } else {
      DifferentHeads(a, b);
    }
  }

  lemma DifferentHeads(a: string, b: string)
    requires a == [] || b == [] || a[0] != b[0]
    ensures (exists i: nat :: LessAt(a, b, i)) <==> b != [] && (a == [] || a[0] < b[0])
  {
    if b != [] && (a == [] || a[0] < b[0]) { assert LessAt(a, b, 0); }
  }

  lemma SomewhereInTail(a: string, b: string)
    requires a != [] && b != [] && a[0] == b[0]
    ensures (exists i: nat :: LessAt(a, b, i)) <==> exists i: nat :: LessAt(a[1..], b[1..], i)
  {
    hide LessAt;
    if i: nat :| LessAt(a, b, i) { LessAtTail(a, b, if i > 0 then i - 1 else 0); }
    if i: nat :| LessAt(a[1..], b[1..], i) { LessAtTail(a, b, i); }
  }

  lemma {:induction false} LessTransitive(a: string, b: string, c: string)
    requires Less(a, b) && Less(b, c)
    ensures Less(a, c)
    decreases |a|
  {
    if a != [] && a[0] == b[0] && b[0] == c[0] {
      LessTransitive(a[1..], b[1..], c[1..]);
    }
  }

  lemma {:induction false} LessIrreflexive(a: string)
    ensures !Less(a, a)
    decreases |a|
  {
    if a != [] {
      LessIrreflexive(a[1..]);
    }
  }

  lemma {:induction false} LessTotal(a: string, b: string)
    requires a != b
    ensures Less(a, b) || Less(b, a)
    decreases |a|
  {
    if a != [] && b != [] && a[0] == b[0] {
      assert a == [a[0]] + a[1..] && b == [b[0]] + b[1..];
      LessTotal(a[1..], b[1..]);
    }
  }

  lemma LessStrictOrder()
    ensures StrictOrder(Less)
  {
    forall x: string ensures !Less(x, x) { LessIrreflexive(x); }
    forall x: string, y: string, z: string | Less(x, y) && Less(y, z) ensures Less(x, z) { LessTransitive(x, y, z); }
    forall x: string, y: string | x != y ensures Less(x, y) || Less(y, x) { LessTotal(x, y); }
  }
}
