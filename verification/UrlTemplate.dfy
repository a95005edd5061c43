/**
  URL templates: placeholders in braces, rewritten by repeated replacement at configuration time and
  filled by repeated replacement at request time.
 */
module UrlTemplate {
  import opened Sequences

  /** bytes.ReplaceAll / strings.ReplaceAll: leftmost, non-overlapping. */
  function ReplaceAll(s: string, pat: string, rep: string): string
    requires pat != ""
  {
    if s == "" then ""
    else if pat <= s then rep + ReplaceAll(s[|pat|..], pat, rep)
    else [s[0]] + ReplaceAll(s[1..], pat, rep)
  }

  /** Free text, or a body between d opening and d closing braces. */
  datatype Token = Lit(text: string) | Tag(depth: nat, body: string)

  function Show(t: Token): string {
    match t
    case Lit(s) => s
    case Tag(d, b) => Repeat('{', d) + b + Repeat('}', d)
  }

  function Flatten(ts: seq<Token>): string {
    if ts == [] then "" else Show(ts[0]) + Flatten(ts[1..])
  }

  predicate NoOpen(s: string) { forall i :: 0 <= i < |s| ==> s[i] != '{' }

  predicate BraceFree(s: string) { forall i :: 0 <= i < |s| ==> s[i] != '{' && s[i] != '}' }

  predicate GoodToken(t: Token) {
    match t
    case Lit(s) => NoOpen(s)
    case Tag(d, b) => d > 0 && b != "" && BraceFree(b)
  }

  ghost predicate Good(ts: seq<Token>) {
    forall i :: 0 <= i < |ts| ==> GoodToken(ts[i])
  }

  // ----- one replacement, token by token

  /** Text in which the pattern cannot start is copied. */
  lemma {:induction false} SkipText(x: string, rest: string, pat: string, rep: string)
    requires pat != "" && pat[0] == '{' && NoOpen(x)
    ensures ReplaceAll(x + rest, pat, rep) == x + ReplaceAll(rest, pat, rep)
    decreases |x|
  {
    if x == "" {
      assert x + rest == rest;
    } else {
      assert (x + rest)[0] == x[0];
      assert !(pat <= x + rest);
      assert (x + rest)[1..] == x[1..] + rest;
      SkipText(x[1..], rest, pat, rep);
      assert x == [x[0]] + x[1..];
    }
  }

  function Pattern(e: nat, n: string): (p: string)
    ensures |p| == 2 * e + |n|
  {
    Repeat('{', e) + n + Repeat('}', e)
  }

  /**
    Where the pattern can match among the opening braces of a tag: only where as many of them are left
    as the pattern has, and only when the names are equal.
   */
  lemma MatchAtBraces(m: nat, b: string, tail: string, e: nat, n: string)
    requires e > 0 && n != "" && b != "" && BraceFree(n) && BraceFree(b)
    requires tail != "" && tail[0] == '}'
    ensures Pattern(e, n) <= Repeat('{', m) + b + tail <==> m == e && n == b && Repeat('}', e) <= tail
  {
    var s, p := Repeat('{', m) + b + tail, Pattern(e, n);
    if p <= s {
      assert forall i :: 0 <= i < |p| ==> p[i] == s[i];
      var k := if m < e then m else e;
      assert p[k] == s[k];
      assert m == e;
      SameNames(b, tail, e, n);
    }
    if m == e && n == b && Repeat('}', e) <= tail {
      assert s == p + tail[e..];
    }
  }

  lemma SameNames(b: string, tail: string, e: nat, n: string)
    requires e > 0 && BraceFree(n) && BraceFree(b) && tail != "" && tail[0] == '}'
    requires Pattern(e, n) <= Repeat('{', e) + b + tail
    ensures n == b && Repeat('}', e) <= tail
  {
    var open, close := Repeat('{', e), Repeat('}', e);
    assert open + n + close == open + (n + close) && open + b + tail == open + (b + tail);
    CancelPrefix(open, n + close, b + tail);
    SameText(n, close, b, tail);
  }

  lemma CancelPrefix(pre: string, x: string, y: string)
    requires pre + x <= pre + y
    ensures x <= y
  {
    assert (pre + x)[|pre|..] == x && (pre + y)[|pre|..] == y;
    assert (pre + y)[..|pre + x|] == pre + x;
    assert y[..|x|] == (pre + y)[|pre|..|pre + x|];
  }

  /** Brace-free texts before closing braces are equal if one text continues the other. */
  lemma SameText(n: string, close: string, b: string, tail: string)
    requires BraceFree(n) && BraceFree(b) && close != "" && tail != "" && close[0] == tail[0] == '}'
    requires n + close <= b + tail
    ensures n == b && close <= tail
  {
    var x, y := n + close, b + tail;
    assert x[|n|] == y[|n|] == '}';
    assert |b| < |x| ==> x[|b|] == y[|b|] == '}';
    if |n| == |b| {
      assert n == x[..|n|] == y[..|n|] == b;
      CancelPrefix(n, close, tail);
    }
  }

  /** Opening braces before which the pattern cannot match are copied one by one. */
  lemma {:induction false} SkipBraces(m: nat, b: string, tail: string, e: nat, n: string, rep: string, left: nat)
    requires e > 0 && n != "" && b != "" && BraceFree(n) && BraceFree(b)
    requires tail != "" && tail[0] == '}' && left <= m
    requires left >= e || n != b || !(Repeat('}', e) <= tail) || m < e || left == m
    ensures ReplaceAll(Repeat('{', m) + b + tail, Pattern(e, n), rep)
            == Repeat('{', m - left) + ReplaceAll(Repeat('{', left) + b + tail, Pattern(e, n), rep)
    decreases m
  {
    hide ReplaceAll, BraceFree, Pattern;
    if m > left {
      var rest := ReplaceAll(Repeat('{', left) + b + tail, Pattern(e, n), rep);
      MatchAtBraces(m, b, tail, e, n);
      SkipOneBrace(m, b + tail, Pattern(e, n), rep);
      SkipBraces(m - 1, b, tail, e, n, rep, left);
      OneMoreBrace(m - left, rest);
      assert Repeat('{', m) + (b + tail) == Repeat('{', m) + b + tail;
      assert Repeat('{', m - 1) + (b + tail) == Repeat('{', m - 1) + b + tail;
    } else {
      assert Repeat('{', 0) == "";
    }
  }

  lemma OneMoreBrace(m: nat, s: string)
    requires m > 0
    ensures "{" + (Repeat('{', m - 1) + s) == Repeat('{', m) + s
  {
  }

  lemma SkipOneBrace(m: nat, s: string, pat: string, rep: string)
    requires m > 0 && pat != "" && !(pat <= Repeat('{', m) + s)
    ensures ReplaceAll(Repeat('{', m) + s, pat, rep) == "{" + ReplaceAll(Repeat('{', m - 1) + s, pat, rep)
  {
    var whole := Repeat('{', m) + s;
    assert whole[0] == '{' && whole[1..] == Repeat('{', m - 1) + s;
  }

  /** The token that a replacement makes of t; rep is the text of the new token. */
  function Replaced(t: Token, e: nat, n: string, rep: Token): Token {
    match t
    case Lit(_) => t
    case Tag(d, b) =>
      if b != n || d < e then t
      else if d == e then rep
      else
        match rep
        case Lit(_) => t
        case Tag(x, c) => Tag(d - e + x, c)
  }

  /** A replacement acts on one token at a time. */
  lemma ReplaceToken(t: Token, rest: string, e: nat, n: string, rep: Token)
    requires GoodToken(t) && e > 0 && n != "" && BraceFree(n)
    requires t.Tag? && t.depth > e ==> rep.Tag?
    ensures ReplaceAll(Show(t) + rest, Pattern(e, n), Show(rep))
            == Show(Replaced(t, e, n, rep)) + ReplaceAll(rest, Pattern(e, n), Show(rep))
  {
    hide ReplaceAll;
    match t
    case Lit(s) => SkipText(s, rest, Pattern(e, n), Show(rep));
    case Tag(d, b) =>
      if b != n || d < e {
        OtherTag(d, b, rest, e, n, Show(rep));
      } else {
        MatchingTag(d, b, rest, e, Show(rep));
        if d > e { Nested(d - e, rep.depth, rep.body); }
        assert d == e ==> Repeat('{', 0) + Show(rep) + Repeat('}', 0) == Show(rep);
      }
  }

  lemma Nested(y: nat, x: nat, c: string)
    ensures Show(Tag(y + x, c)) == Repeat('{', y) + Show(Tag(x, c)) + Repeat('}', y)
  {
    assert Repeat('{', y + x) == Repeat('{', y) + Repeat('{', x);
    assert Repeat('}', y + x) == Repeat('}', x) + Repeat('}', y);
  }

  /** A tag with another name, or with too few braces, is copied. */
  lemma OtherTag(d: nat, b: string, rest: string, e: nat, n: string, r: string)
    requires GoodToken(Tag(d, b)) && e > 0 && n != "" && BraceFree(n) && (b != n || d < e)
    ensures ReplaceAll(Show(Tag(d, b)) + rest, Pattern(e, n), r) == Show(Tag(d, b)) + ReplaceAll(rest, Pattern(e, n), r)
  {
    hide ReplaceAll;
    var close := Repeat('}', d);
    assert Show(Tag(d, b)) + rest == Repeat('{', d) + b + (close + rest);
    SkipBraces(d, b, close + rest, e, n, r, 0);
    assert Repeat('{', 0) + b + (close + rest) == (b + close) + rest;
    SkipText(b + close, rest, Pattern(e, n), r);
    assert Show(Tag(d, b)) + ReplaceAll(rest, Pattern(e, n), r)
        == Repeat('{', d) + ((b + close) + ReplaceAll(rest, Pattern(e, n), r));
  }

  /** In a tag with the pattern's name the innermost braces are replaced. */
  lemma MatchingTag(d: nat, n: string, rest: string, e: nat, r: string)
    requires GoodToken(Tag(d, n)) && 0 < e <= d
    ensures ReplaceAll(Show(Tag(d, n)) + rest, Pattern(e, n), r)
            == Repeat('{', d - e) + r + Repeat('}', d - e) + ReplaceAll(rest, Pattern(e, n), r)
  {
    hide ReplaceAll;
    var pat, outer := Pattern(e, n), Repeat('}', d - e);
    var tail := Repeat('}', e) + (outer + rest);
    assert Repeat('}', d) == Repeat('}', e) + outer;
    assert Show(Tag(d, n)) + rest == Repeat('{', d) + n + tail;
    SkipBraces(d, n, tail, e, n, r, e);
    assert Repeat('{', e) + n + tail == pat + (outer + rest);
    ReplaceHead(pat, outer + rest, r);
    SkipText(outer, rest, pat, r);
    assert Repeat('{', d - e) + (r + (outer + ReplaceAll(rest, pat, r)))
        == Repeat('{', d - e) + r + outer + ReplaceAll(rest, pat, r);
  }

  lemma ReplaceHead(pat: string, rest: string, r: string)
    requires pat != ""
    ensures ReplaceAll(pat + rest, pat, r) == r + ReplaceAll(rest, pat, r)
  {
    assert (pat + rest)[|pat|..] == rest;
  }

  function ReplacedAll(ts: seq<Token>, e: nat, n: string, rep: Token): (r: seq<Token>)
    ensures |r| == |ts|
  {
    seq(|ts|, i requires 0 <= i < |ts| => Replaced(ts[i], e, n, rep))
  }

  /** A replacement on the text is a replacement on every token. */
  lemma {:induction false} ReplaceTokens(ts: seq<Token>, e: nat, n: string, rep: Token)
    requires Good(ts) && e > 0 && n != "" && BraceFree(n)
    requires forall i :: 0 <= i < |ts| && ts[i].Tag? && ts[i].depth > e ==> rep.Tag?
    ensures ReplaceAll(Flatten(ts), Pattern(e, n), Show(rep)) == Flatten(ReplacedAll(ts, e, n, rep))
    decreases |ts|
  {
    if ts != [] {
      ReplaceToken(ts[0], Flatten(ts[1..]), e, n, rep);
      ReplaceTokens(ts[1..], e, n, rep);
      assert ReplacedAll(ts, e, n, rep)[1..] == ReplacedAll(ts[1..], e, n, rep);
    }
  }

  // ----- replacing in text that is not made of tokens

  ghost predicate Contains(s: string, pat: string) {
    exists i :: 0 <= i <= |s| && pat <= s[i..]
  }

  /** Text at none of whose positions the pattern starts is copied. */
  lemma {:induction false} SkipClean(x: string, rest: string, pat: string, rep: string)
    requires pat != "" && forall i :: 0 <= i < |x| ==> !(pat <= (x + rest)[i..])
    ensures ReplaceAll(x + rest, pat, rep) == x + ReplaceAll(rest, pat, rep)
    decreases |x|
  {
    if x == "" {
      assert x + rest == rest;
    } else {
      assert (x + rest)[0..] == x + rest;
      assert (x + rest)[1..] == x[1..] + rest;
      forall i | 0 <= i < |x[1..]| ensures !(pat <= (x[1..] + rest)[i..]) {
        assert (x[1..] + rest)[i..] == (x + rest)[i + 1..];
      }
      SkipClean(x[1..], rest, pat, rep);
      assert x == [x[0]] + x[1..];
    }
  }

  lemma {:induction false} ReplaceBySelf(s: string, pat: string)
    requires pat != ""
    ensures ReplaceAll(s, pat, pat) == s
    decreases |s|
  {
    if s != "" {
      if pat <= s {
        ReplaceBySelf(s[|pat|..], pat);
        assert s == pat + s[|pat|..];
      } else {
        ReplaceBySelf(s[1..], pat);
      }
    }
  }

  lemma {:induction false} ReplaceLength(s: string, pat: string, rep: string)
    requires pat != ""
    ensures |rep| >= |pat| ==> |ReplaceAll(s, pat, rep)| >= |s|
    ensures |rep| <= |pat| ==> |ReplaceAll(s, pat, rep)| <= |s|
    decreases |s|
  {
    if s != "" {
      ReplaceLength(if pat <= s then s[|pat|..] else s[1..], pat, rep);
    }
  }

  lemma HeadChanges(s: string, pat: string, rep: string)
    requires pat != "" && rep != pat && pat <= s
    ensures ReplaceAll(s, pat, rep) != s
  {
    var rest := ReplaceAll(s[|pat|..], pat, rep);
    ReplaceLength(s[|pat|..], pat, rep);
    if |rep| == |pat| {
      assert (rep + rest)[..|pat|] == rep;
    }
  }

  /** A real replacement leaves a text as it is only if there is nothing to replace. */
  lemma {:induction false} UnchangedMeansAbsent(s: string, pat: string, rep: string)
    requires pat != "" && rep != pat && ReplaceAll(s, pat, rep) == s
    ensures !Contains(s, pat)
    decreases |s|
  {
    if s != "" {
      if pat <= s { HeadChanges(s, pat, rep); }
      assert ReplaceAll(s[1..], pat, rep) == s[1..];
      UnchangedMeansAbsent(s[1..], pat, rep);
      forall i | 0 <= i <= |s| ensures !(pat <= s[i..]) {
        if i > 0 { assert s[i..] == s[1..][i - 1..]; }
      }
    }
  }

  lemma {:induction false} FlattenSame(a: seq<Token>, b: seq<Token>)
    requires |a| == |b| && forall i :: 0 <= i < |a| ==> Show(a[i]) == Show(b[i])
    ensures Flatten(a) == Flatten(b)
    decreases |a|
  {
    if a != [] {
      FlattenSame(a[1..], b[1..]);
    }
  }
}
