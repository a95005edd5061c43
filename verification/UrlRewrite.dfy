/** What the configuration-time rewriting means, and the request-time substitution that follows it. */
module UrlRewrite {
  import opened Sequences
  import opened Strings
  import opened UrlTemplate
  import opened UrlConfig

  /** A URL pattern: free text and placeholders in single braces. */
  ghost predicate IsPattern(ts: seq<Token>) {
    forall i :: 0 <= i < |ts| ==>
      match ts[i]
      case Lit(s) => NoOpen(s)
      case Tag(d, b) => d == 1 && IsName(b)
  }

  function NamesIn(ts: seq<Token>): seq<string> {
    if ts == [] then []
    else (if ts[0].Tag? then [ts[0].body] else []) + NamesIn(ts[1..])
  }

  // ----- extraction finds the placeholders

  lemma {:induction false} SkipNoOpen(x: string, rest: string)
    requires NoOpen(x)
    ensures Extract(x + rest) == Extract(rest)
    decreases |x|
  {
    if x == "" {
      assert x + rest == rest;
    } else {
      assert (x + rest)[1..] == x[1..] + rest;
      SkipNoOpen(x[1..], rest);
    }
  }

  lemma {:induction false} NameRunExact(n: string, tail: string)
    requires (forall i :: 0 <= i < |n| ==> NameChar(n[i])) && tail != "" && !NameChar(tail[0])
    ensures NameRun(n + tail) == |n|
    decreases |n|
  {
    if n == "" {
      assert n + tail == tail;
    } else {
      assert (n + tail)[1..] == n[1..] + tail;
      NameRunExact(n[1..], tail);
    }
  }

  lemma ShowPlaceholder(n: string)
    ensures Show(Tag(1, n)) == "{" + n + "}"
  {
    assert Repeat('{', 1) == "{" && Repeat('}', 1) == "}";
  }

  lemma ExtractTag(n: string, rest: string)
    requires IsName(n)
    ensures Extract(Show(Tag(1, n)) + rest) == [n] + Extract(rest)
  {
    ShowPlaceholder(n);
    var s, tail := "{" + n + "}" + rest, "}" + rest;
    assert s[1..] == n + tail;
    NameRunExact(n, tail);
    assert s[1..|n| + 1] == n && s[|n| + 1] == '}' && s[|n| + 2..] == rest;
    hide NameRun, IsName, Show;
  }

  /** The names extracted from a pattern's text are those of its placeholders, in order. */
  lemma {:induction false} ExtractExact(ts: seq<Token>)
    requires IsPattern(ts)
    ensures Extract(Flatten(ts)) == NamesIn(ts)
    decreases |ts|
  {
    if ts != [] {
      ExtractExact(ts[1..]);
      match ts[0]
      case Lit(s) => SkipNoOpen(s, Flatten(ts[1..]));
      case Tag(d, b) => ExtractTag(b, Flatten(ts[1..]));
    }
  }

  /** In any text, also one that is not made of tokens, exactly the names that stand between braces are extracted. */
  lemma {:induction false} ExtractOccurs(s: string, x: string)
    ensures x in Extract(s) <==> IsName(x) && Contains(s, "{" + x + "}")
    decreases |s|
  {
    hide IsName;
    if s != "" {
      var n := NameRun(s[1..]);
      if IsPlaceholder(s, n) {
        var name, rest := s[1..n + 1], s[n + 2..];
        ExtractOccurs(rest, x);
        ExtractHead(s, n);
        SplitTag(s, n);
        if IsName(x) { OccursAtTag(s, name, rest, x); }
      } else {
        ExtractOccurs(s[1..], x);
        if IsName(x) { NoTagAtHead(s, x); }
        ContainsStep(s, "{" + x + "}");
      }
    } else {
      NothingOccurs(x);
    }
  }

  /** The text starts with a name of n characters in braces. */
  predicate IsPlaceholder(s: string, n: nat) {
    s != "" && s[0] == '{' && 0 < n && n + 1 < |s| && s[n + 1] == '}'
  }

  lemma ExtractHead(s: string, n: nat)
    requires s != "" && n == NameRun(s[1..]) && IsPlaceholder(s, n)
    ensures Extract(s) == [s[1..n + 1]] + Extract(s[n + 2..]) && IsName(s[1..n + 1])
  {
  }

  lemma SplitTag(s: string, n: nat)
    requires IsPlaceholder(s, n)
    ensures s == "{" + s[1..n + 1] + "}" + s[n + 2..]
  {
    assert s == s[..1] + s[1..n + 1] + s[n + 1..n + 2] + s[n + 2..];
    assert s[..1] == "{" && s[n + 1..n + 2] == "}";
  }

  lemma NothingOccurs(x: string)
    ensures !Contains("", "{" + x + "}")
  {
  }

  lemma ContainsStep(s: string, pat: string)
    requires s != ""
    ensures Contains(s, pat) <==> pat <= s || Contains(s[1..], pat)
  {
    if pat <= s { assert s[0..] == s; }
    if i :| 0 <= i <= |s| && pat <= s[i..] {
      if i > 0 { assert s[i..] == s[1..][i - 1..]; }
    }
    if i :| 0 <= i <= |s[1..]| && pat <= s[1..][i..] { assert s[1..][i..] == s[i + 1..]; }
  }

  lemma {:induction false} ContainsLater(x: string, rest: string, pat: string)
    requires NoOpen(x) && pat != "" && pat[0] == '{'
    ensures Contains(x + rest, pat) <==> Contains(rest, pat)
    decreases |x|
  {
    if x == "" {
      assert x + rest == rest;
    } else {
      assert (x + rest)[1..] == x[1..] + rest;
      ContainsStep(x + rest, pat);
      ContainsLater(x[1..], rest, pat);
    }
  }

  lemma NameBraceFree(x: string)
    requires IsName(x)
    ensures BraceFree(x)
  {
  }

  lemma OccursAtTag(s: string, name: string, rest: string, x: string)
    requires IsName(name) && IsName(x) && s == "{" + name + "}" + rest
    ensures Contains(s, "{" + x + "}") <==> x == name || Contains(rest, "{" + x + "}")
  {
    hide IsName, Contains;
    NameBraceFree(x);
    NameBraceFree(name);
    var pat := "{" + x + "}";
    ContainsStep(s, pat);
    assert s[1..] == (name + "}") + rest;
    ContainsLater(name + "}", rest, pat);
    if x == name {
      assert pat == s[..|pat|];
    } else if pat <= s {
      assert "{" + (x + "}") == pat && "{" + (name + ("}" + rest)) == s;
      CancelPrefix("{", x + "}", name + ("}" + rest));
      SameText(x, "}", name, "}" + rest);
      assert false;
    }
  }

  lemma NoTagAtHead(s: string, x: string)
    requires s != "" && IsName(x) && !IsPlaceholder(s, NameRun(s[1..]))
    ensures !("{" + x + "}" <= s)
  {
    if "{" + x + "}" <= s { TagAtHead(s, x); }
  }

  lemma TagAtHead(s: string, x: string)
    requires IsName(x) && "{" + x + "}" <= s
    ensures IsPlaceholder(s, NameRun(s[1..]))
  {
    hide NameRun;
    var pat := "{" + x + "}";
    var tail := "}" + s[|pat|..];
    assert s == s[..|pat|] + s[|pat|..] == pat + s[|pat|..];
    assert s == "{" + (x + tail);
    NameRunExact(x, tail);
    assert s[1..] == x + tail && s[|x| + 1] == (x + tail)[|x|];
  }

  /** A pattern is accepted exactly when every name in braces is a sequential one or a declared input. */
  lemma AcceptsExact(path: string, inputs: set<string>, isSeq: Sequential)
    ensures Accepts(Extract(path), inputs, isSeq)
            <==> forall x :: IsName(x) && Contains(path, "{" + x + "}") ==> isSeq(x) || x in inputs
  {
    hide IsName, Contains, Extract;
    forall x ensures x in Extract(path) <==> IsName(x) && Contains(path, "{" + x + "}") { ExtractOccurs(path, x); }
  }

  // ----- rewriting, token by token

  function RewriteOne(t: Token, n: string): Token
    requires n != ""
  {
    Replaced(t, 1, n, Tag(2, "." + Key(n)))
  }

  function RewriteToken(t: Token, names: seq<string>): Token
    requires Named(names)
  {
    if names == [] then t else RewriteOne(RewriteToken(t, names[..|names| - 1]), names[|names| - 1])
  }

  function RewriteTokens(ts: seq<Token>, names: seq<string>): (r: seq<Token>)
    requires Named(names)
    ensures |r| == |ts|
  {
    seq(|ts|, i requires 0 <= i < |ts| => RewriteToken(ts[i], names))
  }

  lemma KeyIsBraceFree(n: string)
    requires IsName(n)
    ensures BraceFree(n) && BraceFree("." + Key(n))
  {
  }

  lemma {:induction false} RewriteTokenGood(t: Token, names: seq<string>)
    requires GoodToken(t) && Named(names)
    ensures GoodToken(RewriteToken(t, names))
    decreases |names|
  {
    if names != [] {
      RewriteTokenGood(t, names[..|names| - 1]);
      KeyIsBraceFree(names[|names| - 1]);
    }
  }

  lemma PatternIsGood(ts: seq<Token>)
    requires IsPattern(ts)
    ensures Good(ts)
  {
    forall i | 0 <= i < |ts| && ts[i].Tag? ensures GoodToken(ts[i]) { KeyIsBraceFree(ts[i].body); }
  }

  /** Rewriting the text rewrites every token by itself. */
  lemma {:induction false} RewriteExact(ts: seq<Token>, names: seq<string>)
    requires Good(ts) && Named(names)
    ensures Rewrite(Flatten(ts), names) == Flatten(RewriteTokens(ts, names))
    decreases |names|
  {
    if names == [] {
      assert RewriteTokens(ts, names) == ts;
    } else {
      var init, last := names[..|names| - 1], names[|names| - 1];
      RewriteExact(ts, init);
      var mid := RewriteTokens(ts, init);
      forall i | 0 <= i < |ts| ensures GoodToken(mid[i]) { RewriteTokenGood(ts[i], init); }
      KeyIsBraceFree(last);
      ReplaceTokens(mid, 1, last, Tag(2, "." + Key(last)));
      assert ReplacedAll(mid, 1, last, Tag(2, "." + Key(last))) == RewriteTokens(ts, names);
    }
  }

  // ----- when every placeholder becomes its variable

  /** The template the rewriting is meant to produce. */
  function Intended(ts: seq<Token>): (r: seq<Token>)
    requires forall i :: 0 <= i < |ts| && ts[i].Tag? ==> ts[i].body != ""
    ensures |r| == |ts|
  {
    seq(|ts|, i requires 0 <= i < |ts| =>
      match ts[i] case Lit(_) => ts[i] case Tag(_, n) => Tag(2, "." + Key(n)))
  }

  /** The variable made of m is taken for a placeholder of its own later on. */
  ghost predicate Clash(m: string, names: seq<string>)
    requires m != ""
  {
    exists i :: 0 <= i < |names| && names[i] == "." + Key(m) && Less(m, names[i])
  }

  function Size(t: Token): nat { |Show(t)| }

  lemma RewriteOneGrows(t: Token, n: string)
    requires n != ""
    ensures Size(RewriteOne(t, n)) == Size(t) + if t.Tag? && t.depth > 0 && t.body == n then 3 else 0
    ensures !(t.Tag? && t.depth > 0 && t.body == n) ==> RewriteOne(t, n) == t
  {
  }

  /** A variable is left alone by all names that are not its own text. */
  lemma {:induction false} VariableStays(b: string, names: seq<string>)
    requires Named(names)
    ensures Size(RewriteToken(Tag(2, b), names)) >= Size(Tag(2, b))
    ensures b !in names ==> RewriteToken(Tag(2, b), names) == Tag(2, b)
    ensures b in names ==> Size(RewriteToken(Tag(2, b), names)) > Size(Tag(2, b))
    decreases |names|
  {
    if names != [] {
      var init, last := names[..|names| - 1], names[|names| - 1];
      assert names == init + [last];
      VariableStays(b, init);
      RewriteOneGrows(RewriteToken(Tag(2, b), init), last);
    }
  }

  lemma {:induction false} RewriteTokenSplit(t: Token, a: seq<string>, b: seq<string>)
    requires Named(a) && Named(b)
    ensures Named(a + b) && RewriteToken(t, a + b) == RewriteToken(RewriteToken(t, a), b)
    decreases |b|
  {
    hide RewriteOne, IsName;
    if b == [] {
      assert a + b == a;
    } else {
      var init, all := b[..|b| - 1], a + b;
      RewriteTokenSplit(t, a, init);
      assert all[..|all| - 1] == a + init && all[|all| - 1] == b[|b| - 1];
    }
  }

  lemma {:induction false} PlaceholderWaits(m: string, names: seq<string>)
    requires Named(names) && m !in names
    ensures RewriteToken(Tag(1, m), names) == Tag(1, m)
    decreases |names|
  {
    if names != [] {
      var init, last := names[..|names| - 1], names[|names| - 1];
      assert names == init + [last];
      PlaceholderWaits(m, init);
    }
  }

  /** Strictly sorted names after position i are those that m = names[i] is less than. */
  lemma AfterMeansLess(names: seq<string>, i: nat, x: string)
    requires StrictlySorted(names) && i < |names|
    ensures x in names[i + 1..] <==> x in names && Less(names[i], x)
  {
    if x in names[i + 1..] {
      var j :| 0 <= j < |names[i + 1..]| && names[i + 1..][j] == x;
      assert names[i + 1 + j] == x;
    }
    if x in names && Less(names[i], x) {
      var j :| 0 <= j < |names| && names[j] == x;
      if j == i { LessIrreflexive(x); }
      if j < i { LessTransitive(x, names[i], x); LessIrreflexive(x); }
      assert names[i + 1..][j - i - 1] == x;
    }
  }

  /** One placeholder: it becomes its variable exactly when that variable does not clash. */
  lemma PlaceholderExact(m: string, names: seq<string>)
    requires Named(names) && StrictlySorted(names) && m in names
    ensures m != "" && Size(RewriteToken(Tag(1, m), names)) >= Size(Tag(2, "." + Key(m)))
    ensures Clash(m, names) ==> Size(RewriteToken(Tag(1, m), names)) > Size(Tag(2, "." + Key(m)))
    ensures !Clash(m, names) ==> RewriteToken(Tag(1, m), names) == Tag(2, "." + Key(m))
  {
    var i :| 0 <= i < |names| && names[i] == m;
    var v := "." + Key(m);
    PlaceholderAt(names, i);
    VariableStays(v, names[i + 1..]);
    ClashIff(names, i);
  }

  /** From its own position on, the placeholder is its variable. */
  lemma PlaceholderAt(names: seq<string>, i: nat)
    requires Named(names) && StrictlySorted(names) && i < |names|
    ensures RewriteToken(Tag(1, names[i]), names) == RewriteToken(Tag(2, "." + Key(names[i])), names[i + 1..])
  {
    hide RewriteToken, StrictlySorted, IsName, Key;
    NotBefore(names, i);
    assert names == names[..i] + ([names[i]] + names[i + 1..]);
    PlaceholderBetween(names[..i], names[i], names[i + 1..]);
  }

  lemma PlaceholderBetween(a: seq<string>, m: string, b: seq<string>)
    requires Named(a) && Named([m]) && m != "" && Named(b) && m !in a
    ensures Named(a + ([m] + b))
    ensures RewriteToken(Tag(1, m), a + ([m] + b)) == RewriteToken(Tag(2, "." + Key(m)), b)
  {
    RewriteSingle(Tag(1, m), m);
    PlaceholderWaits(m, a);
    hide RewriteToken, IsName;
    RewriteTokenSplit(Tag(1, m), [m], b);
    RewriteTokenSplit(Tag(1, m), a, [m] + b);
  }

  lemma NotBefore(names: seq<string>, i: nat)
    requires StrictlySorted(names) && i < |names|
    ensures names[i] !in names[..i]
  {
    forall j | 0 <= j < i ensures names[j] != names[i] { LessIrreflexive(names[i]); }
  }

  lemma RewriteSingle(t: Token, m: string)
    requires m != "" && Named([m])
    ensures RewriteToken(t, [m]) == RewriteOne(t, m)
  {
    assert [m][..0] == [];
    assert RewriteToken(t, []) == t;
  }

  lemma ClashIff(names: seq<string>, i: nat)
    requires Named(names) && StrictlySorted(names) && i < |names|
    ensures Clash(names[i], names) <==> "." + Key(names[i]) in names[i + 1..]
  {
    var v := "." + Key(names[i]);
    AfterMeansLess(names, i, v);
    if Clash(names[i], names) {
      var k :| 0 <= k < |names| && names[k] == v && Less(names[i], names[k]);
      assert v in names;
    }
    if v in names && Less(names[i], v) {
      var k :| 0 <= k < |names| && names[k] == v;
      assert Clash(names[i], names);
    }
  }

  ghost predicate NoClash(ts: seq<Token>, names: seq<string>) {
    forall i :: 0 <= i < |ts| && ts[i].Tag? && ts[i].body != "" ==> !Clash(ts[i].body, names)
  }

  lemma {:induction false} FlattenSizes(a: seq<Token>, b: seq<Token>)
    requires |a| == |b| && forall i :: 0 <= i < |a| ==> Size(a[i]) >= Size(b[i])
    ensures |Flatten(a)| >= |Flatten(b)|
    ensures (exists i :: 0 <= i < |a| && Size(a[i]) > Size(b[i])) ==> |Flatten(a)| > |Flatten(b)|
    decreases |a|
  {
    if a != [] {
      FlattenSizes(a[1..], b[1..]);
      if i :| 0 <= i < |a| && Size(a[i]) > Size(b[i]) {
        if i > 0 { assert Size(a[1..][i - 1]) > Size(b[1..][i - 1]); }
      }
    }
  }

  /**
    The configured template is the intended one exactly when no placeholder's variable is itself the
    text of a placeholder that comes later in the sorted order. Names that start with a letter never
    clash.
   */
  lemma RewriteIntendedIff(ts: seq<Token>, names: seq<string>)
    requires IsPattern(ts) && Named(names) && StrictlySorted(names) && SameElements(names, NamesIn(ts))
    ensures forall i :: 0 <= i < |ts| && ts[i].Tag? ==> ts[i].body != ""
    ensures Rewrite(Flatten(ts), names) == Flatten(Intended(ts)) <==> NoClash(ts, names)
  {
    PatternIsGood(ts);
    RewriteExact(ts, names);
    var got, want := RewriteTokens(ts, names), Intended(ts);
    forall i | 0 <= i < |ts|
      ensures Size(got[i]) >= Size(want[i])
      ensures ts[i].Tag? && Clash(ts[i].body, names) ==> Size(got[i]) > Size(want[i])
      ensures ts[i].Tag? && !Clash(ts[i].body, names) ==> got[i] == want[i]
      ensures ts[i].Lit? ==> got[i] == want[i]
    {
      match ts[i]
      case Lit(s) => LitStays(s, names);
      case Tag(d, m) =>
        NameIsIn(ts, i);
        PlaceholderExact(m, names);
    }
    FlattenSizes(got, want);
    if NoClash(ts, names) {
      assert got == want;
    } else {
      var i :| 0 <= i < |ts| && ts[i].Tag? && ts[i].body != "" && Clash(ts[i].body, names);
      assert Size(got[i]) > Size(want[i]);
    }
  }

  lemma {:induction false} LitStays(s: string, names: seq<string>)
    requires Named(names)
    ensures RewriteToken(Lit(s), names) == Lit(s)
    decreases |names|
  {
    if names != [] { LitStays(s, names[..|names| - 1]); }
  }

  lemma {:induction false} NameIsIn(ts: seq<Token>, i: nat)
    requires i < |ts| && ts[i].Tag?
    ensures ts[i].body in NamesIn(ts)
    decreases |ts|
  {
    if i > 0 { NameIsIn(ts[1..], i - 1); }
  }

  /** Placeholders that do not start with a dot cannot clash. */
  lemma LettersNeverClash(ts: seq<Token>, names: seq<string>)
    requires forall i :: 0 <= i < |names| ==> names[i] != "" && names[i][0] != '.'
    ensures NoClash(ts, names)
  {
  }

  /** A clash does happen: with the placeholders -x and .-x the configured text is not the intended one. */
  lemma ClashExample()
    ensures var ts, names := [Tag(1, "-x"), Tag(1, ".-x")], ["-x", ".-x"];
            && IsPattern(ts) && Named(names) && StrictlySorted(names) && NamesIn(ts) == names && !NoClash(ts, names)
            && (forall i :: 0 <= i < |ts| && ts[i].Tag? ==> ts[i].body != "")
            && Rewrite(Flatten(ts), names) != Flatten(Intended(ts))
  {
    hide Rewrite, Flatten, Intended, IsPattern, Named, StrictlySorted, NamesIn, NoClash;
    var ts, names := [Tag(1, "-x"), Tag(1, ".-x")], ["-x", ".-x"];
    ClashingPattern();
    ClashingNames();
    RewriteIntendedIff(ts, names);
  }

  lemma ClashingPattern()
    ensures var ts, names := [Tag(1, "-x"), Tag(1, ".-x")], ["-x", ".-x"];
            IsPattern(ts) && Named(names) && StrictlySorted(names) && !NoClash(ts, names)
  {
    var ts, names := [Tag(1, "-x"), Tag(1, ".-x")], ["-x", ".-x"];
    assert names[1] == "." + Key("-x") && Less("-x", names[1]);
    assert Clash(ts[0].body, names);
  }

  lemma ClashingNames()
    ensures NamesIn([Tag(1, "-x"), Tag(1, ".-x")]) == ["-x", ".-x"]
  {
    var ts := [Tag(1, "-x"), Tag(1, ".-x")];
    assert NamesIn(ts[1..]) == [".-x"] + NamesIn(ts[1..][1..]);
  }
}
