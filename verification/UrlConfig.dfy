/** Configuration of backend URLs: which placeholders are accepted and how they are rewritten. */
module UrlConfig {
  import opened Sorting
  import opened Strings
  import opened UrlTemplate

  // ----- placeholders

  predicate NameChar(c: char) {
    'a' <= c <= 'z' || 'A' <= c <= 'Z' || '0' <= c <= '9' || c in "_-.:/"
  }

  /** Letters, digits and underscores, and the characters from '-' to ':', which are - . / the digits and the colon. */
  lemma NameChars(c: char)
    ensures NameChar(c) <==> '-' <= c <= ':' || 'A' <= c <= 'Z' || c == '_' || 'a' <= c <= 'z'
  {
  }

  predicate IsName(s: string) {
    s != "" && forall i :: 0 <= i < |s| ==> NameChar(s[i])
  }

  /** Length of the longest run of name characters at the start. */
  function NameRun(s: string): (n: nat)
    ensures n <= |s| && (forall i :: 0 <= i < n ==> NameChar(s[i])) && (n < |s| ==> !NameChar(s[n]))
  {
    if s == "" || !NameChar(s[0]) then 0 else 1 + NameRun(s[1..])
  }

  /** All names between braces, from left to right (simpleURLKeysPattern). */
  function Extract(s: string): (names: seq<string>)
    ensures forall i :: 0 <= i < |names| ==> IsName(names[i])
  {
    if s == "" then []
    else
      var n := NameRun(s[1..]);
      if s[0] == '{' && n > 0 && n + 1 < |s| && s[n + 1] == '}' then [s[1..n + 1]] + Extract(s[n + 2..])
      else Extract(s[1..])
  }

  /** The title case of the first byte. */
  function TitleChar(c: char): char {
    if 'a' <= c <= 'z' then ((c as int) - 32) as char else c
  }

  function Key(name: string): (k: string)
    requires name != ""
    ensures |k| == |name|
  {
    [TitleChar(name[0])] + name[1..]
  }

  /** Only a leading lower-case letter changes, to the capital at the same place of the alphabet. */
  lemma KeyExact(n: string)
    requires n != ""
    ensures Key(n)[1..] == n[1..] && !('a' <= Key(n)[0] <= 'z')
    ensures !('a' <= n[0] <= 'z') ==> Key(n)[0] == n[0]
    ensures 'a' <= n[0] <= 'z' ==> Key(n)[0] as int - 'A' as int == n[0] as int - 'a' as int
  {
  }

  // ----- uniqueOutput

  type Sequential = string -> bool

  function CountPlain(names: seq<string>, isSeq: Sequential): nat {
    if names == [] then 0
    else CountPlain(names[..|names| - 1], isSeq) + if isSeq(names[|names| - 1]) then 0 else 1
  }

  ghost predicate StrictlySorted(names: seq<string>) {
    forall i, j :: 0 <= i < j < |names| ==> Less(names[i], names[j])
  }

  ghost predicate SameElements(a: seq<string>, b: seq<string>) {
    forall x :: x in a <==> x in b
  }

  /** A set has one strictly sorted listing. */
  lemma {:induction false} StrictlySortedUnique(a: seq<string>, b: seq<string>)
    requires StrictlySorted(a) && StrictlySorted(b) && SameElements(a, b)
    ensures a == b
    decreases |a|
  {
    LessStrictOrder();
    if a == [] || b == [] {
      if a != [] { HasElement(a); }
      if b != [] { HasElement(b); }
    } else {
      assert a[0] in b && b[0] in a;
      assert a[0] == b[0];
      forall x ensures x in a[1..] <==> x in b[1..] {
        TailMember(a, x);
        TailMember(b, x);
      }
      StrictlySortedUnique(a[1..], b[1..]);
      assert a == [a[0]] + a[1..] && b == [b[0]] + b[1..];
    }
  }

  lemma HasElement(a: seq<string>)
    requires a != []
    ensures exists x :: x in a
  {
    assert a[0] in a;
  }

  lemma TailMember(a: seq<string>, x: string)
    requires a != [] && StrictlySorted(a)
    ensures x in a[1..] <==> x in a && x != a[0]
  {
    LessIrreflexive(a[0]);
    assert forall j :: 0 < j < |a| ==> a[j] == a[1..][j - 1];
  }

  /**
    Sorts and compacts the names in place. The first n elements are afterwards the strictly sorted set
    of the names; the count leaves out the last of them.
   */
  method UniqueOutput(output: array<string>, isSeq: Sequential) returns (n: nat, outputSetSize: nat)
    modifies output
    ensures n <= output.Length && StrictlySorted(output[..n])
    ensures SameElements(output[..n], old(output[..]))
    ensures n == 0 <==> output.Length == 0
    ensures outputSetSize == if n == 0 then 0 else CountPlain(output[..n - 1], isSeq)
  {
    hide StrictOrder, Sorted, Less, CountPlain;
    LessStrictOrder();
    Sort(output, Less);
    ghost var sorted := output[..];
    SortedKeepsElements(old(output[..]), sorted);
    var j := 0;
    outputSetSize := 0;
    NoneCounted(isSeq);
    if output.Length == 0 {
      return 0, 0;
    }
    for i := 1 to output.Length
      invariant 0 <= j < i
      invariant output[i..] == sorted[i..]
      invariant Compacted(output[..j + 1], sorted[..i])
      invariant outputSetSize == CountPlain(output[..j], isSeq)
    {
      j, outputSetSize := KeepOrSkip(output, i, j, outputSetSize, isSeq, sorted);
    }
    n := j + 1;
    assert sorted[..output.Length] == sorted;
  }

  lemma NoneCounted(isSeq: Sequential)
    ensures CountPlain([], isSeq) == 0
  {
  }

  lemma OneMoreCounted(names: seq<string>, name: string, isSeq: Sequential)
    ensures CountPlain(names + [name], isSeq) == CountPlain(names, isSeq) + if isSeq(name) then 0 else 1
  {
    assert (names + [name])[..|names|] == names;
  }

  /** One round of the loop: a repeated name is skipped, a new one is moved down. */
  method KeepOrSkip(output: array<string>, i: nat, j: nat, size: nat, isSeq: Sequential, ghost sorted: seq<string>)
    returns (j': nat, size': nat)
    requires StrictOrder(Less) && Sorted(sorted, Less) && |sorted| == output.Length
    requires j < i < output.Length && output[i..] == sorted[i..]
    requires Compacted(output[..j + 1], sorted[..i]) && size == CountPlain(output[..j], isSeq)
    modifies output
    ensures j' <= i && output[i + 1..] == sorted[i + 1..]
    ensures Compacted(output[..j' + 1], sorted[..i + 1]) && size' == CountPlain(output[..j'], isSeq)
  {
    hide StrictOrder, Sorted, Less, CountPlain, SameElements, StrictlySorted;
    assert output[i] == output[i..][0] == sorted[i];
    assert output[i + 1..] == output[i..][1..] == sorted[i + 1..];
    j', size' := j, size;
    if output[j] == output[i] {
      CompactSkip(output[..j + 1], sorted, i);
    } else {
      ghost var kept := output[..j + 1];
      CompactKeep(kept, sorted, i);
      OneMoreCounted(output[..j], output[j], isSeq);
      assert kept == output[..j] + [output[j]];
      if !isSeq(output[j]) {
        size' := size + 1;
      }
      j' := j + 1;
      output[j'] := output[i];
      assert output[..j'] == kept && output[..j' + 1] == kept + [sorted[i]];
    }
  }

  /** The distinct elements of a sorted prefix, whose last element is the last of the prefix. */
  ghost predicate Compacted(kept: seq<string>, prefix: seq<string>) {
    && StrictlySorted(kept) && SameElements(kept, prefix)
    && kept != [] && prefix != [] && kept[|kept| - 1] == prefix[|prefix| - 1]
  }

  lemma SortedKeepsElements(a: seq<string>, b: seq<string>)
    requires multiset(a) == multiset(b)
    ensures SameElements(b, a)
  {
    forall x: string ensures x in b <==> x in a {
      assert x in b <==> x in multiset(b);
      assert x in a <==> x in multiset(a);
    }
  }

  lemma CompactSkip(kept: seq<string>, sorted: seq<string>, i: nat)
    requires 0 < i < |sorted| && Compacted(kept, sorted[..i]) && kept[|kept| - 1] == sorted[i]
    ensures Compacted(kept, sorted[..i + 1])
  {
    assert sorted[..i + 1] == sorted[..i] + [sorted[i]];
  }

  lemma CompactKeep(kept: seq<string>, sorted: seq<string>, i: nat)
    requires StrictOrder(Less) && Sorted(sorted, Less)
    requires 0 < i < |sorted| && Compacted(kept, sorted[..i]) && kept[|kept| - 1] != sorted[i]
    ensures Compacted(kept + [sorted[i]], sorted[..i + 1])
  {
    hide Less;
    var last := |kept| - 1;
    assert sorted[..i + 1] == sorted[..i] + [sorted[i]];
    assert kept[last] == sorted[i - 1];
    assert !Less(sorted[i], sorted[i - 1]);
    forall k | 0 <= k < |kept| ensures Less(kept[k], sorted[i]) {
      if k < last { LessTransitive(kept[k], kept[last], sorted[i]); }
    }
  }

  // ----- acceptance

  predicate Accepts(names: seq<string>, inputs: set<string>, isSeq: Sequential) {
    forall i :: 0 <= i < |names| ==> isSeq(names[i]) || names[i] in inputs
  }

  /** Distinct declared names are at most as many as the declared inputs. */
  lemma {:induction false} Pigeonhole(names: seq<string>, inputs: set<string>, isSeq: Sequential)
    requires StrictlySorted(names) && Accepts(names, inputs, isSeq)
    ensures CountPlain(names, isSeq) <= |inputs|
    decreases |names|
  {
    if names != [] {
      var init, last := names[..|names| - 1], names[|names| - 1];
      if isSeq(last) {
        Pigeonhole(init, inputs, isSeq);
      } else {
        forall i | 0 <= i < |init| ensures init[i] != last { LessIrreflexive(last); }
        Pigeonhole(init, inputs - {last}, isSeq);
      }
    }
  }

  /**
    The count check is never stricter than the membership check, although it leaves out the last name.
   */
  lemma CountCheckIsImplied(names: seq<string>, inputs: set<string>, isSeq: Sequential)
    requires StrictlySorted(names) && Accepts(names, inputs, isSeq) && names != []
    ensures CountPlain(names[..|names| - 1], isSeq) <= |inputs|
  {
    var init := names[..|names| - 1];
    forall i | 0 <= i < |init| ensures isSeq(init[i]) || init[i] in inputs {
      assert init[i] == names[i];
    }
    Pigeonhole(init, inputs, isSeq);
  }

  /** fromSetToSortedSlice: the elements of the set in order. */
  method SortedInputs(inputs: set<string>) returns (res: seq<string>)
    ensures StrictlySorted(res) && (forall x :: x in res <==> x in inputs) && |res| == |inputs|
  {
    var todo := inputs;
    res := [];
    while todo != {}
      invariant todo <= inputs && |res| + |todo| == |inputs|
      invariant forall x :: x in res <==> x in inputs && x !in todo
      invariant forall i, j :: 0 <= i < j < |res| ==> res[i] != res[j]
      decreases todo
    {
      var x :| x in todo;
      res := res + [x];
      todo := todo - {x};
    }
    LessStrictOrder();
    var a := new string[|res|](i requires 0 <= i < |res| => res[i]);
    assert a[..] == res;
    Sort(a, Less);
    SortedKeepsElements(res, a[..]);
    DistinctSorted(res, a[..]);
    assert |multiset(a[..])| == |a[..]|;
    res := a[..];
  }

  lemma DistinctSorted(res: seq<string>, s: seq<string>)
    requires StrictOrder(Less) && Sorted(s, Less) && multiset(res) == multiset(s)
    requires forall i, j :: 0 <= i < j < |res| ==> res[i] != res[j]
    ensures StrictlySorted(s)
  {
    forall i, j | 0 <= i < j < |s| ensures Less(s[i], s[j]) {
      if s[i] == s[j] {
        Twice(s, i, j);
        Once(res, s[i]);
      }
    }
  }

  lemma Twice(s: seq<string>, i: nat, j: nat)
    requires i < j < |s| && s[i] == s[j]
    ensures multiset(s)[s[i]] >= 2
  {
    assert s == s[..i] + [s[i]] + s[i + 1..j] + [s[j]] + s[j + 1..];
  }

  lemma {:induction false} Once(s: seq<string>, x: string)
    requires forall i, j :: 0 <= i < j < |s| ==> s[i] != s[j]
    ensures multiset(s)[x] <= 1
    decreases |s|
  {
    if s != [] {
      var init, last := s[..|s| - 1], s[|s| - 1];
      assert s == init + [last];
      Once(init, x);
      assert last !in init;
      assert multiset(init)[last] == 0;
    }
  }

  // ----- rewriting

  function CleanPath(path: string): string {
    if path != "" && path[0] == '/' then path else "/" + path
  }

  lemma CleanPathExact(path: string)
    ensures var p := CleanPath(path);
            && p != "" && p[0] == '/'
            && if path != "" && path[0] == '/' then p == path else p[1..] == path
  {
  }

  /** The pattern after the placeholders in names have been rewritten one after the other. */
  function Rewrite(pattern: string, names: seq<string>): string
    requires forall i :: 0 <= i < |names| ==> names[i] != ""
  {
    if names == [] then pattern
    else
      var last := names[|names| - 1];
      ReplaceAll(Rewrite(pattern, names[..|names| - 1]), Pattern(1, last), Pattern(2, "." + Key(last)))
  }

  function Keys(names: seq<string>): (ks: seq<string>)
    requires forall i :: 0 <= i < |names| ==> names[i] != ""
    ensures |ks| == |names| && forall i :: 0 <= i < |names| ==> ks[i] == Key(names[i])
  {
    seq(|names|, i requires 0 <= i < |names| => Key(names[i]))
  }

  datatype InitResult =
    | Initialised
    | WrongNumberOfParams(inputs: seq<string>, outputs: seq<string>)
    | UndefinedOutputParam(param: string, inputs: seq<string>, outputs: seq<string>)

  class Backend {
    var urlPattern: string
    var urlKeys: seq<string>

    /**
      Accepts the pattern exactly when every placeholder is a sequential one or a declared input. On
      success the pattern is rewritten name by name in sorted order and the keys are listed in it; on
      failure at a name, the names before it have been rewritten already.
     */
    method InitURLMappings(inputParams: set<string>, isSeq: Sequential) returns (r: InitResult, ghost names: seq<string>)
      modifies this
      ensures r.Initialised? <==> Accepts(Extract(CleanPath(old(urlPattern))), inputParams, isSeq)
      ensures StrictlySorted(names) && SameElements(names, Extract(CleanPath(old(urlPattern)))) && Named(names)
      ensures Outcome(r, CleanPath(old(urlPattern)), urlPattern, names, inputParams, isSeq)
      ensures r.Initialised? ==> urlKeys == Keys(names)
    {
      urlPattern := CleanPath(urlPattern);
      var found := Extract(urlPattern);
      var outputParams, outputSetSize := DistinctNames(found, isSeq);
      names := outputParams;
      NamesOf(names, found, inputParams, isSeq);
      var ip := SortedInputs(inputParams);
      if outputSetSize > |ip| {
        if Accepts(names, inputParams, isSeq) { CountCheckIsImplied(names, inputParams, isSeq); }
        return WrongNumberOfParams(ip, outputParams), names;
      }
      r := RewriteNames(outputParams, ip, inputParams, isSeq);
    }

    /** The loop over the distinct names. */
    method RewriteNames(names: seq<string>, ip: seq<string>, inputParams: set<string>, isSeq: Sequential) returns (r: InitResult)
      requires Named(names)
      requires StrictlySorted(ip) && forall x :: x in ip <==> x in inputParams
      requires names == [] || CountPlain(names[..|names| - 1], isSeq) <= |inputParams|
      modifies this
      ensures r.Initialised? <==> Accepts(names, inputParams, isSeq)
      ensures Outcome(r, old(urlPattern), urlPattern, names, inputParams, isSeq)
      ensures r.Initialised? ==> urlKeys == Keys(names)
    {
      hide Accepts, Rewrite, Keys, Key, Pattern, ReplaceAll, StrictlySorted, CountPlain, IsName;
      ghost var p := urlPattern;
      urlKeys := [];
      RewriteNone(p, names, inputParams, isSeq);
      for i := 0 to |names|
        invariant Accepts(names[..i], inputParams, isSeq)
        invariant urlPattern == Rewrite(p, names[..i]) && urlKeys == Keys(names[..i])
      {
        RewriteStep(p, names, i, inputParams, isSeq);
        if !isSeq(names[i]) && names[i] !in inputParams {
          assert Outcome(UndefinedOutputParam(names[i], ip, names), p, urlPattern, names, inputParams, isSeq);
          return UndefinedOutputParam(names[i], ip, names);
        }
        urlPattern := ReplaceAll(urlPattern, Pattern(1, names[i]), Pattern(2, "." + Key(names[i])));
        urlKeys := urlKeys + [Key(names[i])];
      }
      assert names[..|names|] == names;
      r := Initialised;
    }
  }

  lemma RewriteNone(p: string, names: seq<string>, inputs: set<string>, isSeq: Sequential)
    ensures names[..0] == [] && Accepts([], inputs, isSeq) && Rewrite(p, []) == p && Keys([]) == []
  {
  }

  lemma RewriteStep(p: string, names: seq<string>, i: nat, inputs: set<string>, isSeq: Sequential)
    requires Named(names) && i < |names|
    ensures Rewrite(p, names[..i + 1])
            == ReplaceAll(Rewrite(p, names[..i]), Pattern(1, names[i]), Pattern(2, "." + Key(names[i])))
    ensures Keys(names[..i + 1]) == Keys(names[..i]) + [Key(names[i])]
    ensures Accepts(names[..i + 1], inputs, isSeq)
            <==> Accepts(names[..i], inputs, isSeq) && (isSeq(names[i]) || names[i] in inputs)
    ensures Accepts(names, inputs, isSeq) ==> Accepts(names[..i + 1], inputs, isSeq)
  {
    assert names[..i + 1][..i] == names[..i];
    assert names[..i + 1] == names[..i] + [names[i]];
  }

  method DistinctNames(found: seq<string>, isSeq: Sequential) returns (names: seq<string>, outputSetSize: nat)
    ensures StrictlySorted(names) && SameElements(names, found)
    ensures outputSetSize == if names == [] then 0 else CountPlain(names[..|names| - 1], isSeq)
  {
    var buffer := new string[|found|](i requires 0 <= i < |found| => found[i]);
    assert buffer[..] == found;
    var n;
    n, outputSetSize := UniqueOutput(buffer, isSeq);
    names := buffer[..n];
    if n > 0 { assert names[..n - 1] == buffer[..n - 1]; }
  }

  ghost predicate Named(names: seq<string>) {
    forall i :: 0 <= i < |names| ==> IsName(names[i]) && names[i] != ""
  }

  lemma NamesOf(names: seq<string>, found: seq<string>, inputs: set<string>, isSeq: Sequential)
    requires SameElements(names, found) && forall i :: 0 <= i < |found| ==> IsName(found[i])
    ensures Named(names)
    ensures Accepts(names, inputs, isSeq) <==> Accepts(found, inputs, isSeq)
  {
    assert forall i :: 0 <= i < |names| ==> names[i] in found;
    assert forall i :: 0 <= i < |found| ==> found[i] in names;
  }

  /** What each result says about the pattern and the names. */
  ghost predicate Outcome(r: InitResult, was: string, now: string, names: seq<string>, inputs: set<string>, isSeq: Sequential)
    requires Named(names)
  {
    match r
    case Initialised => now == Rewrite(was, names)
    case WrongNumberOfParams(ip, outs) =>
      && outs == names && names != [] && StrictlySorted(ip) && (forall x :: x in ip <==> x in inputs)
      && CountPlain(names[..|names| - 1], isSeq) > |inputs| && now == was
    case UndefinedOutputParam(x, ip, outs) =>
      && outs == names && StrictlySorted(ip) && (forall y :: y in ip <==> y in inputs)
      && (names == [] || CountPlain(names[..|names| - 1], isSeq) <= |inputs|)
      && exists i :: 0 <= i < |names| && names[i] == x && !isSeq(x) && x !in inputs
                     && Accepts(names[..i], inputs, isSeq) && now == Rewrite(was, names[..i])
  }
}
