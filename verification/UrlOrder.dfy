/** Exactly when the path of a request does not depend on the map order of its parameters. */
module UrlOrder {
  import opened Sequences
  import opened UrlTemplate
  import opened UrlRequest

  /** Every template gives the same path in every order of the parameters. */
  ghost predicate OrderFree(params: Params) {
    forall ts, a, b | IsTemplate(ts) && IsOrder(a, params.Keys) && IsOrder(b, params.Keys) ::
      && Within(a, params) && Within(b, params)
      && ReplaceInOrder(Flatten(ts), a, params) == ReplaceInOrder(Flatten(ts), b, params)
  }

  /** Every template gives, in every order of the parameters, the path with all variables filled at once. */
  ghost predicate Simultaneous(params: Params) {
    forall ts, order | IsTemplate(ts) && IsOrder(order, params.Keys) ::
      Within(order, params) && ReplaceInOrder(Flatten(ts), order, params) == Flatten(FillAll(ts, params))
  }

  ghost predicate Within(order: seq<string>, params: Params) {
    forall i :: 0 <= i < |order| ==> order[i] in params
  }

  lemma OrderWithin(order: seq<string>, params: Params)
    requires IsOrder(order, params.Keys)
    ensures Within(order, params)
  {
    forall i | 0 <= i < |order| ensures order[i] in params { assert order[i] in order; }
  }

  lemma {:induction false} FirstThenRest(pattern: string, k: string, rest: seq<string>, params: Params)
    requires k in params && Within(rest, params)
    ensures Within([k] + rest, params)
    ensures ReplaceInOrder(pattern, [k] + rest, params)
            == ReplaceInOrder(ReplaceAll(pattern, Variable(k), params[k]), rest, params)
    decreases |rest|
  {
    if rest == [] {
      assert [k] + rest == [k];
      assert [k][..0] == [];
    } else {
      FirstThenRest(pattern, k, rest[..|rest| - 1], params);
      assert ([k] + rest)[..|rest|] == [k] + rest[..|rest| - 1];
    }
  }

  ghost predicate Mentions(ts: seq<Token>, k: string) {
    exists i :: 0 <= i < |ts| && ts[i].Tag? && ts[i].body == "." + k
  }

  /** Parameters that the template does not mention leave it as it is, as long as no value has been put in. */
  lemma {:induction false} OthersDoNothing(ts: seq<Token>, order: seq<string>, params: Params)
    requires IsTemplate(ts) && BraceFreeKeys(params) && Within(order, params)
    requires forall i :: 0 <= i < |order| ==> !Mentions(ts, order[i])
    ensures ReplaceInOrder(Flatten(ts), order, params) == Flatten(ts)
    decreases |order|
  {
    hide IsTemplate, Mentions, Flatten;
    if order != [] {
      var k := order[|order| - 1];
      OthersDoNothing(ts, order[..|order| - 1], params);
      Unmentioned(ts, k, params[k]);
    }
  }

  lemma Unmentioned(ts: seq<Token>, k: string, v: string)
    requires IsTemplate(ts) && BraceFree(k) && !Mentions(ts, k)
    ensures ReplaceAll(Flatten(ts), Variable(k), v) == Flatten(ts)
  {
    hide ReplaceAll, Flatten;
    TemplateIsGood(ts);
    ReplaceTokens(ts, 2, "." + k, Lit(v));
    assert ReplacedAll(ts, 2, "." + k, Lit(v)) == ts;
  }

  /**
    If the order does not matter, the path of a template that does not mention k holds no variable k that
    would be replaced: k may come last, or first when there is nothing to replace.
   */
  lemma PathHoldsNoVariable(ts: seq<Token>, order: seq<string>, k: string, params: Params)
    requires BraceFreeKeys(params) && OrderFree(params) && IsTemplate(ts)
    requires IsOrder(order, params.Keys) && Within(order, params)
    requires k in params && params[k] != Variable(k) && !Mentions(ts, k)
    ensures !Contains(ReplaceInOrder(Flatten(ts), order, params), Variable(k))
  {
    hide OrderFree, IsTemplate, IsOrder, Mentions, Flatten, ReplaceInOrder, ReplaceAll, Contains, Variable;
    var rest := OrderWithLast(params, k);
    var path := ReplaceInOrder(Flatten(ts), order, params);
    KeyFirst(ts, rest, k, params);
    OrdersAgree(ts, order, [k] + rest, params);
    OrderStep(Flatten(ts), rest, k, params);
    OrdersAgree(ts, order, rest + [k], params);
    VariableShape(k);
    UnchangedMeansAbsent(path, Variable(k), params[k]);
  }

  lemma OrdersAgree(ts: seq<Token>, a: seq<string>, b: seq<string>, params: Params)
    requires OrderFree(params) && IsTemplate(ts) && IsOrder(a, params.Keys) && IsOrder(b, params.Keys)
    ensures Within(a, params) && Within(b, params)
    ensures ReplaceInOrder(Flatten(ts), a, params) == ReplaceInOrder(Flatten(ts), b, params)
  {
  }

  /** Starting with a parameter that the template does not mention changes nothing. */
  lemma KeyFirst(ts: seq<Token>, rest: seq<string>, k: string, params: Params)
    requires BraceFreeKeys(params) && IsTemplate(ts) && k in params && Within(rest, params) && !Mentions(ts, k)
    ensures Within([k] + rest, params)
    ensures ReplaceInOrder(Flatten(ts), [k] + rest, params) == ReplaceInOrder(Flatten(ts), rest, params)
  {
    FirstThenRest(Flatten(ts), k, rest, params);
    Unmentioned(ts, k, params[k]);
  }

  lemma AddToOrder(rest: seq<string>, s: set<string>, k: string)
    requires k in s && IsOrder(rest, s - {k})
    ensures IsOrder([k] + rest, s) && IsOrder(rest + [k], s)
  {
    assert k !in rest;
    forall x: string ensures x in s <==> x in [k] + rest && x in rest + [k] {
      assert x in [k] + rest <==> x == k || x in rest;
      assert x in rest + [k] <==> x == k || x in rest;
    }
  }

  lemma TemplateIsGood(ts: seq<Token>)
    requires IsTemplate(ts)
    ensures Good(ts) && forall i :: 0 <= i < |ts| && ts[i].Tag? ==> ts[i].depth == 2
  {
  }

  /** An order that replaces a last, and one that replaces it first. */
  lemma OrderWithLast(params: Params, a: string) returns (rest: seq<string>)
    requires a in params
    ensures IsOrder(rest + [a], params.Keys) && Within(rest + [a], params) && Within(rest, params) && a !in rest
    ensures IsOrder([a] + rest, params.Keys)
  {
    rest := SetToOrder(params.Keys - {a});
    AddToOrder(rest, params.Keys, a);
    OrderWithin(rest + [a], params);
    assert (rest + [a])[..|rest|] == rest;
    assert a !in rest;
  }

  /** A template that mentions only a: in an order that replaces a last the path is simply filled. */
  lemma FilledByLast(ts: seq<Token>, a: string, params: Params) returns (order: seq<string>)
    requires BraceFreeKeys(params) && IsTemplate(ts) && a in params
    requires forall k :: k in params && k != a ==> !Mentions(ts, k)
    ensures IsOrder(order, params.Keys) && Within(order, params)
    ensures ReplaceInOrder(Flatten(ts), order, params) == Flatten(FillAll(ts, params))
  {
    hide IsOrder, IsTemplate, Mentions;
    var rest := OrderWithLast(params, a);
    order := rest + [a];
    forall i | 0 <= i < |rest| ensures !Mentions(ts, rest[i]) { assert rest[i] in rest; }
    OthersDoNothing(ts, rest, params);
    OrderStep(Flatten(ts), rest, a, params);
    TemplateIsGood(ts);
    ReplaceTokens(ts, 2, "." + a, Lit(params[a]));
    OnlyOneFilled(ts, a, params);
  }

  lemma OnlyOneFilled(ts: seq<Token>, a: string, params: Params)
    requires IsTemplate(ts) && a in params && forall k :: k in params && k != a ==> !Mentions(ts, k)
    ensures ReplacedAll(ts, 2, "." + a, Lit(params[a])) == FillAll(ts, params)
  {
    forall i | 0 <= i < |ts| ensures Replaced(ts[i], 2, "." + a, Lit(params[a])) == Fill(ts[i], params) {
      if ts[i].Tag? {
        assert ts[i].body == "." + ts[i].body[1..];
        assert Mentions(ts, ts[i].body[1..]);
      }
    }
  }

  /** A value that holds the variable k, or its beginning, gives a path that holds it. */
  lemma HidingShows(params: Params, k: string, a: string)
    requires BraceFreeKeys(params) && k in params && a in params && a != k && params[k] != Variable(k)
    requires OrderFree(params)
    ensures !Hides(params[a], Variable(k))
  {
    if Hides(params[a], Variable(k)) {
      VariableShape(k);
      VariableShape(a);
      var x, pat := params[a], Variable(k);
      var i, rest := Completion(x, pat);
      var ts := [Tag(2, "." + a), Lit(rest)];
      assert ("." + a)[1..] == a;
      var order := FilledByLast(ts, a, params);
      assert FillAll(ts, params) == [Lit(x), Lit(rest)];
      TwoPieces(Lit(x), Lit(rest));
      assert pat <= (x + rest)[i..];
      PathHoldsNoVariable(ts, order, k, params);
      assert false;
    }
  }

  /** Free text that completes the occurrence of pat that s hides. */
  lemma Completion(s: string, pat: string) returns (i: nat, rest: string)
    requires Hides(s, pat) && |pat| >= 2 && forall i :: 2 <= i < |pat| ==> pat[i] != '{'
    ensures i <= |s| + |rest| && pat <= (s + rest)[i..] && NoOpen(rest)
  {
    if Contains(s, pat) {
      i :| 0 <= i <= |s| && pat <= s[i..];
      rest := "";
      assert s + rest == s;
    } else {
      i :| 0 <= i <= |s| - 2 && s[i..] < pat;
      rest := pat[|s| - i..];
      CompletedBy(s, i, pat);
    }
  }

  lemma CompletedBy(s: string, i: nat, pat: string)
    requires i <= |s| && s[i..] <= pat
    ensures pat <= (s + pat[|s| - i..])[i..]
  {
    var rest := pat[|s| - i..];
    assert s[i..] == pat[..|s| - i];
    assert (s + rest)[i..] == s[i..] + rest == pat;
  }

  lemma TwoPieces(t: Token, u: Token)
    ensures Flatten([t, u]) == Show(t) + Show(u)
  {
    assert [t, u][1..] == [u] && [u][1..] == [];
    assert Flatten([u]) == Show(u) + Flatten([]) == Show(u);
  }

  lemma ThreePieces(t: Token, u: Token, v: Token)
    ensures Flatten([t, u, v]) == Show(t) + (Show(u) + Show(v))
  {
    assert [t, u, v][1..] == [u, v];
    TwoPieces(u, v);
  }

  /** Two values that make up the variable k next to each other give a path that holds it. */
  lemma JoiningShows(params: Params, k: string, a: string, b: string)
    requires BraceFreeKeys(params) && k in params && a in params && b in params && a != k && b != k && params[k] != Variable(k)
    requires OrderFree(params)
    ensures !(EndsOpen(params[a]) && Continues(params[b], Variable(k)))
  {
    hide OrderFree, Contains, Variable;
    VariableShape(k);
    var pat, y := Variable(k), params[b];
    if EndsOpen(params[a]) && Continues(y, pat) {
      var rest := if pat[1..] <= y then "" else pat[1 + |y|..];
      PathOfTwo(rest, a, b, k, params);
      Joined(params[a], y, pat, rest);
      assert false;
    }
  }

  lemma PathOfTwo(rest: string, a: string, b: string, k: string, params: Params)
    requires BraceFreeKeys(params) && a in params && b in params && NoOpen(rest) && OrderFree(params)
    requires k in params && params[k] != Variable(k) && k != a && k != b
    ensures !Contains(params[a] + (params[b] + rest), Variable(k))
  {
    hide OrderFree, IsOrder, Mentions, ReplaceInOrder, Flatten, Contains, Variable;
    var ts := [Tag(2, "." + a), Tag(2, "." + b), Lit(rest)];
    var order := FilledByTwo(rest, a, b, params);
    NotMentioned(ts, a, b, k);
    PathHoldsNoVariable(ts, order, k, params);
  }

  lemma Joined(x: string, y: string, pat: string, rest: string)
    requires |pat| >= 2 && pat[0] == '{' && EndsOpen(x) && Continues(y, pat)
    requires rest == if pat[1..] <= y then "" else pat[1 + |y|..]
    ensures Contains(x + (y + rest), pat)
  {
    var i := |x| - 1;
    assert (x + (y + rest))[i..] == [x[i]] + (y + rest);
    assert pat == [pat[0]] + pat[1..];
    if pat[1..] <= y {
      assert y + rest == y;
    } else {
      assert pat[1..] == y + rest;
    }
  }

  lemma LastReplaced(b: string, v: string, rest: string)
    requires BraceFree(b) && NoOpen(rest)
    ensures ReplaceAll(Flatten([Tag(2, "." + b), Lit(rest)]), Variable(b), v) == v + rest
  {
    var ts := [Tag(2, "." + b), Lit(rest)];
    ReplaceTokens(ts, 2, "." + b, Lit(v));
    assert ReplacedAll(ts, 2, "." + b, Lit(v)) == [Lit(v), Lit(rest)];
    TwoPieces(Lit(v), Lit(rest));
  }

  /** In a value before a variable and free text, b does not start if the value does not hide it. */
  lemma SecondReplaced(x: string, b: string, v: string, rest: string)
    requires BraceFree(b) && NoOpen(rest) && (v == Variable(b) || !Hides(x, Variable(b)))
    ensures ReplaceAll(Flatten([Lit(x), Tag(2, "." + b), Lit(rest)]), Variable(b), v) == x + (v + rest)
  {
    hide Variable, ReplaceAll, Flatten, Hides;
    var ts, pat := [Tag(2, "." + b), Lit(rest)], Variable(b);
    VariableShape(b);
    ThreePieces(Lit(x), ts[0], ts[1]);
    TwoPieces(ts[0], ts[1]);
    if v == pat {
      ReplaceBySelf(x + (v + rest), pat);
    } else {
      forall i | 0 <= i < |x| ensures !(pat <= (x + Flatten(ts))[i..]) {
        if pat <= (x + Flatten(ts))[i..] { var other := HowItStarts(x, ts, b, map[], i); }
      }
      SkipClean(x, Flatten(ts), pat, v);
      LastReplaced(b, v, rest);
    }
  }

  /** An order of s that ends with a and b. */
  lemma OrderWithLastTwo(params: Params, a: string, b: string) returns (rest: seq<string>)
    requires a in params && b in params && a != b
    ensures IsOrder(rest + [a] + [b], params.Keys) && Within(rest + [a] + [b], params)
    ensures Within(rest, params) && Within(rest + [a], params) && a !in rest && b !in rest
  {
    rest := SetToOrder(params.Keys - {b} - {a});
    AddToOrder(rest, params.Keys - {b}, a);
    AddToOrder(rest + [a], params.Keys, b);
    var order := rest + [a] + [b];
    OrderWithin(order, params);
    assert order[..|rest|] == rest && order[..|rest| + 1] == rest + [a];
  }

  /** A template of the variables a and b and free text: in some order the path is simply filled. */
  lemma FilledByTwo(rest: string, a: string, b: string, params: Params) returns (order: seq<string>)
    requires BraceFreeKeys(params) && a in params && b in params && NoOpen(rest) && OrderFree(params)
    ensures IsOrder(order, params.Keys) && Within(order, params)
    ensures ReplaceInOrder(Flatten([Tag(2, "." + a), Tag(2, "." + b), Lit(rest)]), order, params)
            == params[a] + (params[b] + rest)
  {
    hide OrderFree, IsOrder, Mentions, ReplaceInOrder, ReplaceAll, Hides;
    var ts := [Tag(2, "." + a), Tag(2, "." + b), Lit(rest)];
    var va, vb, vr := Lit(params[a]), Lit(params[b]), Lit(rest);
    ThreePieces(va, vb, vr);
    if a == b {
      forall k | k in params && k != a ensures !Mentions(ts, k) { NotMentioned(ts, a, b, k); }
      order := FilledByLast(ts, a, params);
      assert ("." + a)[1..] == a;
      assert FillAll(ts, params) == [va, vb, vr];
    } else {
      var others := OrderWithLastTwo(params, a, b);
      order := others + [a] + [b];
      forall i | 0 <= i < |others| ensures !Mentions(ts, others[i]) {
        assert others[i] in others;
        NotMentioned(ts, a, b, others[i]);
      }
      OthersDoNothing(ts, others, params);
      OrderStep(Flatten(ts), others, a, params);
      OrderStep(Flatten(ts), others + [a], b, params);
      FirstReplaced(ts, a, b, va);
      if params[b] != Variable(b) { HidingShows(params, b, a); }
      SecondReplaced(params[a], b, params[b], rest);
    }
  }

  lemma NotMentioned(ts: seq<Token>, a: string, b: string, k: string)
    requires |ts| == 3 && ts[0] == Tag(2, "." + a) && ts[1] == Tag(2, "." + b) && ts[2].Lit? && k != a && k != b
    ensures !Mentions(ts, k)
  {
    assert ("." + a)[1..] == a && ("." + b)[1..] == b && ("." + k)[1..] == k;
  }

  lemma FirstReplaced(ts: seq<Token>, a: string, b: string, v: Token)
    requires |ts| == 3 && ts[0] == Tag(2, "." + a) && ts[1] == Tag(2, "." + b) && ts[2].Lit? && NoOpen(ts[2].text)
    requires a != b && BraceFree(a) && BraceFree(b)
    ensures ReplaceAll(Flatten(ts), Variable(a), Show(v)) == Flatten([v, ts[1], ts[2]])
  {
    hide ReplaceAll, Flatten, Pattern;
    assert ("." + a)[1..] == a && ("." + b)[1..] == b;
    ReplaceTokens(ts, 2, "." + a, v);
    assert ReplacedAll(ts, 2, "." + a, v) == [v, ts[1], ts[2]];
  }

  /**
    Exactly when the map order of the parameters does not matter, for any template, and exactly when every
    path is the template with all variables filled at once: no parameter's variable can come about from
    values of others, in one value, at its end, or in two values next to each other.
   */
  lemma OrderFreeIffNoHiddenTag(params: Params)
    requires BraceFreeKeys(params)
    ensures Simultaneous(params) <==> NoHiddenTag(params)
    ensures OrderFree(params) <==> NoHiddenTag(params)
  {
    if NoHiddenTag(params) {
      forall ts, order | IsTemplate(ts) && IsOrder(order, params.Keys)
        ensures Within(order, params) && ReplaceInOrder(Flatten(ts), order, params) == Flatten(FillAll(ts, params))
      {
        OrderWithin(order, params);
        SubstitutionExact(ts, order, params);
      }
    }
    assert Simultaneous(params) ==> OrderFree(params);
    if OrderFree(params) {
      forall k, a, b | k in params && a in params && b in params ensures Innocent(params, k, a, b) {
        if params[k] != Variable(k) && a != k && b != k {
          HidingShows(params, k, a);
          JoiningShows(params, k, a, b);
        }
      }
    }
  }

  /** Values without opening braces, in particular brace-free ones, hide nothing. */
  lemma BraceFreeValuesHideNothing(params: Params)
    requires forall k :: k in params ==> BraceFree(k) && NoOpen(params[k])
    ensures NoHiddenTag(params)
  {
    forall k, a, b | k in params && a in params && b in params ensures Innocent(params, k, a, b) {
      VariableShape(k);
    }
  }
}
