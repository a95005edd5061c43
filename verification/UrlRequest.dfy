/** Request-time URL generation: parameters are put in by one ReplaceAll per parameter, in any order. */
module UrlRequest {
  import opened Sequences
  import opened UrlTemplate
  import opened UrlConfig
  import opened UrlRewrite

  type Params = map<string, string>

  /** The text that stands for parameter k in a template. */
  function Variable(k: string): string {
    Pattern(2, "." + k)
  }

  /** The path after the parameters in order have been replaced one after the other. */
  function ReplaceInOrder(pattern: string, order: seq<string>, params: Params): string
    requires forall i :: 0 <= i < |order| ==> order[i] in params
  {
    if order == [] then pattern
    else
      var last := order[|order| - 1];
      ReplaceAll(ReplaceInOrder(pattern, order[..|order| - 1], params), Variable(last), params[last])
  }

  class Request {
    var params: Params
    var path: string

    /** The parameters are visited in Go's arbitrary map order. */
    method GeneratePath(urlPattern: string) returns (ghost order: seq<string>)
      modifies this`path
      ensures IsOrder(order, params.Keys)
      ensures path == ReplaceInOrder(urlPattern, order, params)
    {
      order := [];
      if |params| == 0 {
        path := urlPattern;
        assert params.Keys == {};
        return;
      }
      var buff := urlPattern;
      var todo := params.Keys;
      while todo != {}
        invariant todo <= params.Keys
        invariant forall k :: k in params <==> k in todo || k in order
        invariant forall i :: 0 <= i < |order| ==> order[i] in params && order[i] !in todo
        invariant forall i, j :: 0 <= i < j < |order| ==> order[i] != order[j]
        invariant buff == ReplaceInOrder(urlPattern, order, params)
        decreases todo
      {
        var k :| k in todo;
        buff := ReplaceAll(buff, Variable(k), params[k]);
        assert (order + [k])[..|order|] == order;
        order := order + [k];
        todo := todo - {k};
      }
      path := buff;
    }
  }

  // ----- one simultaneous substitution

  /** Free text and variables in double braces. */
  ghost predicate IsTemplate(ts: seq<Token>) {
    forall i :: 0 <= i < |ts| ==>
      match ts[i]
      case Lit(s) => NoOpen(s)
      case Tag(d, b) => d == 2 && |b| > 0 && b[0] == '.' && BraceFree(b)
  }

  ghost predicate BraceFreeKeys(params: Params) {
    forall k :: k in params ==> BraceFree(k)
  }

  /** An occurrence of pat lies in s, or starts in s with both opening braces and can be completed by free text. */
  ghost predicate Hides(s: string, pat: string) {
    Contains(s, pat) || exists i :: 0 <= i <= |s| - 2 && s[i..] < pat
  }

  predicate EndsOpen(s: string) { s != "" && s[|s| - 1] == '{' }

  /** After an opening brace, s goes on with pat, to its end or as far as s goes. */
  predicate Continues(s: string, pat: string)
    requires pat != ""
  {
    s != "" && (pat[1..] <= s || s <= pat[1..])
  }

  /** The values a and b, next to each other in the path, cannot make up the variable k. */
  ghost predicate Innocent(params: Params, k: string, a: string, b: string)
    requires k in params && a in params && b in params
  {
    params[k] != Variable(k) && a != k && b != k ==>
      && !Hides(params[a], Variable(k))
      && !(EndsOpen(params[a]) && Continues(params[b], Variable(k)))
  }

  /** No variable that a parameter would replace by something else can come about from other parameters' values. */
  ghost predicate NoHiddenTag(params: Params) {
    forall k, a, b :: k in params && a in params && b in params ==> Innocent(params, k, a, b)
  }

  /** A bound variable becomes its value; anything else stays verbatim. */
  function Fill(t: Token, params: Params): Token {
    match t
    case Lit(_) => t
    case Tag(d, b) => if d == 2 && |b| > 0 && b[0] == '.' && b[1..] in params then Lit(params[b[1..]]) else t
  }

  function FillAll(ts: seq<Token>, params: Params): (r: seq<Token>)
    ensures |r| == |ts|
  {
    seq(|ts|, i requires 0 <= i < |ts| => Fill(ts[i], params))
  }

  /** A piece of the text before parameter k is replaced: free text, the value of another parameter, or a variable. */
  ghost predicate Piece(t: Token, k: string, params: Params) {
    match t
    case Lit(s) => NoOpen(s) || exists a :: a in params && a != k && s == params[a]
    case Tag(d, b) => d == 2 && |b| > 0 && b[0] == '.' && BraceFree(b)
  }

  ghost predicate Pieces(ts: seq<Token>, k: string, params: Params) {
    forall i :: 0 <= i < |ts| ==> Piece(ts[i], k, params)
  }

  lemma VariableShape(k: string)
    requires BraceFree(k)
    ensures var pat := Variable(k);
            |pat| >= 5 && pat[0] == '{' && pat[1] == '{' && pat[2] == '.'
            && (forall i :: 2 <= i < |pat| ==> pat[i] != '{') && pat == Show(Tag(2, "." + k))
  {
  }

  /** Pieces that start like the rest of a variable start with a value that does. */
  lemma {:induction false} WhoContinues(ts: seq<Token>, k: string, params: Params) returns (b: string)
    requires Pieces(ts, k, params) && BraceFree(k) && Variable(k)[1..] <= Flatten(ts)
    ensures b in params && b != k && Continues(params[b], Variable(k))
    decreases |ts|
  {
    VariableShape(k);
    var pat := Variable(k);
    var head, rest := Show(ts[0]), Flatten(ts[1..]);
    if head == "" {
      assert head + rest == rest;
      b := WhoContinues(ts[1..], k, params);
    } else {
      assert (head + rest)[0] == pat[1..][0] == '{' && (head + rest)[1] == pat[1..][1] == '.';
      assert Piece(ts[0], k, params);
      assert ts[0].Lit?;
      b :| b in params && b != k && head == params[b];
      if |pat[1..]| <= |head| {
        assert pat[1..] == (head + rest)[..|pat[1..]|] == head[..|pat[1..]|];
      } else {
        assert head == (head + rest)[..|head|] == pat[1..][..|head|];
      }
    }
  }

  /** Where the variable k starts in a value before other pieces, the value hides it, or it goes on in another value. */
  lemma HowItStarts(x: string, ts: seq<Token>, k: string, params: Params, i: nat) returns (b: string)
    requires BraceFree(k) && Pieces(ts, k, params) && i < |x| && Variable(k) <= (x + Flatten(ts))[i..]
    ensures Hides(x, Variable(k)) || (EndsOpen(x) && b in params && b != k && Continues(params[b], Variable(k)))
  {
    VariableShape(k);
    hide BraceFree, Pieces, Flatten, Variable, Continues;
    var pat, rest, s := Variable(k), Flatten(ts), x[i..];
    b := k;
    assert (x + rest)[i..] == s + rest;
    PrefixOfJoin(pat, s, rest);
    if |pat| <= |s| {
      assert Contains(x, pat);
    } else if i == |x| - 1 {
      assert s[0] == pat[0];
      b := WhoContinues(ts, k, params);
    }
  }

  lemma PrefixOfJoin(pat: string, a: string, b: string)
    requires pat <= a + b
    ensures if |pat| <= |a| then pat <= a else a <= pat && pat[|a|..] <= b
  {
    if |pat| <= |a| {
      assert pat == (a + b)[..|pat|] == a[..|pat|];
    } else {
      assert a == (a + b)[..|a|] == pat[..|a|];
      assert pat[|a|..] == (a + b)[|a|..|pat|] == b[..|pat| - |a|];
    }
  }

  lemma NoStartInValue(a: string, ts: seq<Token>, k: string, params: Params, i: nat)
    requires BraceFree(k) && k in params && params[k] != Variable(k) && NoHiddenTag(params)
    requires a in params && a != k && Pieces(ts, k, params) && i < |params[a]|
    ensures !(Variable(k) <= (params[a] + Flatten(ts))[i..])
  {
    var b := a;
    if Variable(k) <= (params[a] + Flatten(ts))[i..] {
      b := HowItStarts(params[a], ts, k, params, i);
    }
    assert Innocent(params, k, a, a);
    assert b in params ==> Innocent(params, k, a, b);
  }

  /** Replacing the variable k in the text replaces exactly the pieces that are this variable. */
  lemma {:induction false} ReplacePieces(ts: seq<Token>, k: string, params: Params)
    requires BraceFree(k) && k in params && params[k] != Variable(k) && NoHiddenTag(params) && Pieces(ts, k, params)
    ensures ReplaceAll(Flatten(ts), Variable(k), params[k]) == Flatten(ReplacedAll(ts, 2, "." + k, Lit(params[k])))
    decreases |ts|
  {
    if ts != [] {
      var t, rest, v := ts[0], Flatten(ts[1..]), params[k];
      ReplacePieces(ts[1..], k, params);
      assert ReplacedAll(ts, 2, "." + k, Lit(v))[1..] == ReplacedAll(ts[1..], 2, "." + k, Lit(v));
      assert Piece(t, k, params);
      if t.Tag? || NoOpen(t.text) {
        ReplaceToken(t, rest, 2, "." + k, Lit(v));
      } else {
        var a :| a in params && a != k && t.text == params[a];
        forall i | 0 <= i < |t.text| ensures !(Variable(k) <= (t.text + rest)[i..]) {
          NoStartInValue(a, ts[1..], k, params, i);
        }
        SkipClean(t.text, rest, Variable(k), v);
      }
    }
  }

  lemma {:induction false} ReplaceInOrderFills(ts: seq<Token>, order: seq<string>, params: Params)
    requires IsTemplate(ts) && BraceFreeKeys(params) && NoHiddenTag(params)
    requires forall i :: 0 <= i < |order| ==> order[i] in params
    requires forall i, j :: 0 <= i < j < |order| ==> order[i] != order[j]
    ensures ReplaceInOrder(Flatten(ts), order, params) == Flatten(FillAll(ts, Restrict(params, order)))
    decreases |order|
  {
    if order == [] {
      assert FillAll(ts, Restrict(params, order)) == ts;
    } else {
      ReplaceInOrderFills(ts, order[..|order| - 1], params);
      FillStep(ts, order, params);
    }
  }

  lemma FillStep(ts: seq<Token>, order: seq<string>, params: Params)
    requires IsTemplate(ts) && BraceFreeKeys(params) && NoHiddenTag(params) && order != []
    requires forall i :: 0 <= i < |order| ==> order[i] in params
    requires forall i, j :: 0 <= i < j < |order| ==> order[i] != order[j]
    ensures var init, k := order[..|order| - 1], order[|order| - 1];
            ReplaceAll(Flatten(FillAll(ts, Restrict(params, init))), Variable(k), params[k])
            == Flatten(FillAll(ts, Restrict(params, order)))
  {
    var init, k := order[..|order| - 1], order[|order| - 1];
    assert order == init + [k];
    var mid, after := FillAll(ts, Restrict(params, init)), FillAll(ts, Restrict(params, order));
    forall i | 0 <= i < |mid|
      ensures Piece(mid[i], k, params)
      ensures Replaced(mid[i], 2, "." + k, Lit(params[k])) == after[i]
    {
      FillTokenStep(ts[i], init, k, params);
    }
    if params[k] == Variable(k) {
      ReplaceBySelf(Flatten(mid), Variable(k));
      VariableShape(k);
      FlattenSame(mid, after);
    } else {
      ReplacePieces(mid, k, params);
      assert ReplacedAll(mid, 2, "." + k, Lit(params[k])) == after;
    }
  }

  lemma FillTokenStep(t: Token, init: seq<string>, k: string, params: Params)
    requires IsTemplate([t]) && k in params && k !in init
    ensures var m := Fill(t, Restrict(params, init));
            Piece(m, k, params) && Replaced(m, 2, "." + k, Lit(params[k])) == Fill(t, Restrict(params, init + [k]))
  {
    assert [t][0] == t;
    match t
    case Lit(_) =>
    case Tag(d, b) =>
      assert b == "." + b[1..];
  }

  /** In every order of the parameters the loop is one simultaneous substitution. */
  lemma SubstitutionExact(ts: seq<Token>, order: seq<string>, params: Params)
    requires IsTemplate(ts) && BraceFreeKeys(params) && NoHiddenTag(params) && IsOrder(order, params.Keys)
    ensures ReplaceInOrder(Flatten(ts), order, params) == Flatten(FillAll(ts, params))
  {
    forall i | 0 <= i < |order| ensures order[i] in params { assert order[i] in order; }
    ReplaceInOrderFills(ts, order, params);
    assert Restrict(params, order) == params;
  }

  // ----- from the configured pattern to the path

  function Direct(t: Token, params: Params): Token
    requires t.Tag? ==> t.body != ""
  {
    match t
    case Lit(_) => t
    case Tag(_, n) => if Key(n) in params then Lit(params[Key(n)]) else Tag(2, "." + Key(n))
  }

  function DirectAll(ts: seq<Token>, params: Params): (r: seq<Token>)
    requires forall i :: 0 <= i < |ts| && ts[i].Tag? ==> ts[i].body != ""
    ensures |r| == |ts|
  {
    seq(|ts|, i requires 0 <= i < |ts| => Direct(ts[i], params))
  }

  /**
    End to end: a pattern without clashing placeholders, rewritten at configuration time and filled at
    request time in any order, is the pattern with every placeholder replaced by the parameter of its
    key; unbound ones stay as variables.
   */
  lemma PatternToPath(ts: seq<Token>, names: seq<string>, order: seq<string>, params: Params)
    requires IsPattern(ts) && Named(names) && StrictlySorted(names) && SameElements(names, NamesIn(ts)) && NoClash(ts, names)
    requires forall i :: 0 <= i < |ts| && ts[i].Tag? ==> ts[i].body != ""
    requires BraceFreeKeys(params) && NoHiddenTag(params) && IsOrder(order, params.Keys)
    ensures ReplaceInOrder(Rewrite(Flatten(ts), names), order, params) == Flatten(DirectAll(ts, params))
  {
    RewriteIntendedIff(ts, names);
    var want := Intended(ts);
    forall i | 0 <= i < |ts|
      ensures Fill(want[i], params) == Direct(ts[i], params)
      ensures want[i].Tag? ==> want[i].depth == 2 && |want[i].body| > 0 && want[i].body[0] == '.' && BraceFree(want[i].body)
      ensures want[i].Lit? ==> NoOpen(want[i].text)
    {
      match ts[i]
      case Lit(_) =>
      case Tag(_, n) =>
        KeyIsBraceFree(n);
        assert ("." + Key(n))[1..] == Key(n);
    }
    SubstitutionExact(want, order, params);
    assert FillAll(want, params) == DirectAll(ts, params);
  }

  /** From the configured pattern over the rewritten one to the path. */
  lemma UsersExample(path: string, names: seq<string>, order: seq<string>, params: Params)
    requires path == "users/{id}" && names == ["id"] && params == map["Id" := "42"] && IsOrder(order, params.Keys)
    ensures Extract(CleanPath(path)) == names && Keys(names) == ["Id"]
    ensures Rewrite(CleanPath(path), names) == "/users/{{.Id}}"
    ensures (forall i :: 0 <= i < |order| ==> order[i] in params)
            && ReplaceInOrder(Rewrite(CleanPath(path), names), order, params) == "/users/42"
  {
    hide ReplaceAll, Rewrite, Extract, ReplaceInOrder, Keys, IsOrder;
    assert params.Keys == {"Id"};
    OnlyInOrder(order, "Id");
    assert CleanPath(path) == "/users/{id}";
    ExampleExtracted();
    ExampleRewritten();
    SubstitutionExample(order, params);
  }

  lemma OnlyInOrder(order: seq<string>, k: string)
    requires IsOrder(order, {k})
    ensures forall i :: 0 <= i < |order| ==> order[i] == k
  {
    forall i | 0 <= i < |order| ensures order[i] == k { assert order[i] in order; }
  }

  lemma ExampleExtracted()
    ensures Extract("/users/{id}") == ["id"]
  {
    hide Extract, Flatten;
    var ts := [Lit("/users/"), Tag(1, "id")];
    ExampleTexts();
    ExtractExact(ts);
    assert ts[1..] == [ts[1]] && ts[1..][1..] == [] && NamesIn(ts[1..]) == ["id"] + NamesIn([]);
  }

  lemma ExampleTexts()
    ensures Flatten([Lit("/users/"), Tag(1, "id")]) == "/users/{id}"
    ensures Flatten([Lit("/users/"), Tag(2, ".Id")]) == "/users/{{.Id}}"
    ensures Flatten([Lit("/users/"), Lit("42")]) == "/users/42"
    ensures Key("id") == "Id"
  {
    ShowPlaceholder("id");
    assert Repeat('{', 2) == "{{" && Repeat('}', 2) == "}}";
    assert Show(Tag(2, ".Id")) == "{{" + ".Id" + "}}" == "{{.Id}}";
    TwoShown(Lit("/users/"), Tag(1, "id"));
    TwoShown(Lit("/users/"), Tag(2, ".Id"));
    TwoShown(Lit("/users/"), Lit("42"));
    assert "id"[1..] == "d" && [TitleChar('i')] == "I" && "I" + "d" == "Id";
  }

  lemma TwoShown(a: Token, b: Token)
    ensures Flatten([a, b]) == Show(a) + Show(b)
  {
    assert [a, b][1..] == [b] && [b][1..] == [];
    assert Flatten([b]) == Show(b) + Flatten([]);
  }

  lemma ExampleRewritten()
    ensures Rewrite("/users/{id}", ["id"]) == "/users/{{.Id}}" && Keys(["id"]) == ["Id"]
  {
    hide ReplaceAll, Flatten;
    var ts := [Lit("/users/"), Tag(1, "id")];
    ExampleTexts();
    RewriteExact(ts, ["id"]);
    RewriteSingle(ts[0], "id");
    RewriteSingle(ts[1], "id");
    assert "." + "Id" == ".Id";
    assert RewriteTokens(ts, ["id"]) == [Lit("/users/"), Tag(2, ".Id")];
  }

  lemma SubstitutionExample(order: seq<string>, params: Params)
    requires params == map["Id" := "42"] && IsOrder(order, params.Keys) && forall i :: 0 <= i < |order| ==> order[i] in params
    ensures ReplaceInOrder("/users/{{.Id}}", order, params) == "/users/42"
  {
    hide ReplaceInOrder, Flatten, ReplaceAll, NoHiddenTag, IsOrder, FillAll;
    var us := [Lit("/users/"), Tag(2, ".Id")];
    ExampleTexts();
    SingleHidesNothing(params, "Id");
    ExampleFilled(us, params);
    SubstitutionExact(us, order, params);
  }

  lemma ExampleFilled(us: seq<Token>, params: Params)
    requires params == map["Id" := "42"] && us == [Lit("/users/"), Tag(2, ".Id")]
    ensures FillAll(us, params) == [Lit("/users/"), Lit("42")] && IsTemplate(us) && BraceFreeKeys(params)
  {
    assert ".Id"[1..] == "Id";
  }

  lemma SingleHidesNothing(params: Params, k: string)
    requires params.Keys == {k}
    ensures NoHiddenTag(params)
  {
    hide Hides, Continues, Variable;
    assert forall a :: a in params ==> a in params.Keys;
  }

  /** A value with braces can be taken for a variable, and then the order decides. */
  lemma BracesInValuesMatter()
    ensures var params: Params := map["A" := "{{.B}}", "B" := "x"];
            IsOrder(["A", "B"], params.Keys) && IsOrder(["B", "A"], params.Keys)
            && ReplaceInOrder("{{.A}}", ["A", "B"], params) != ReplaceInOrder("{{.A}}", ["B", "A"], params)
  {
    hide ReplaceAll, ReplaceInOrder, Pattern;
    var params: Params := map["A" := "{{.B}}", "B" := "x"];
    VariableText();
    Alone("{{.A}}", "{{.B}}");
    Alone("{{.B}}", "x");
    Different();
    OneThenOther("{{.A}}", "A", "B", params);
    OneThenOther("{{.A}}", "B", "A", params);
  }

  lemma OneThenOther(pattern: string, k: string, l: string, params: Params)
    requires k in params && l in params
    ensures ReplaceInOrder(pattern, [k, l], params)
            == ReplaceAll(ReplaceAll(pattern, Variable(k), params[k]), Variable(l), params[l])
  {
    hide ReplaceAll, ReplaceInOrder, Variable;
    OrderStep(pattern, [], k, params);
    OrderStep(pattern, [k], l, params);
    assert [k] + [l] == [k, l];
  }

  lemma OrderStep(pattern: string, order: seq<string>, k: string, params: Params)
    requires k in params && forall i :: 0 <= i < |order| ==> order[i] in params
    ensures ReplaceInOrder(pattern, order + [k], params)
            == ReplaceAll(ReplaceInOrder(pattern, order, params), Variable(k), params[k])
    ensures order == [] ==> order + [k] == [k] && ReplaceInOrder(pattern, order, params) == pattern
  {
    assert (order + [k])[..|order|] == order;
  }

  lemma VariableText()
    ensures Pattern(2, "." + "A") == "{{.A}}" && Pattern(2, "." + "B") == "{{.B}}"
  {
    assert Repeat('{', 2) == "{{" && Repeat('}', 2) == "}}";
    assert "." + "A" == ".A" && "." + "B" == ".B";
    assert "{{" + ".A" + "}}" == "{{.A}}" && "{{" + ".B" + "}}" == "{{.B}}";
  }

  lemma Alone(pat: string, rep: string)
    requires pat != ""
    ensures ReplaceAll(pat, pat, rep) == rep
  {
    ReplaceHead(pat, "", rep);
    assert pat + "" == pat && rep + "" == rep;
  }

  /** Replacing B in a text that only holds the variable A does nothing. */
  lemma Different()
    ensures ReplaceAll("{{.A}}", "{{.B}}", "x") == "{{.A}}"
  {
    VariableText();
    assert "." + "A" == ".A" && "." + "B" == ".B";
    OtherTag(2, ".A", "", 2, ".B", "x");
    assert Show(Tag(2, ".A")) == Pattern(2, ".A");
    assert "{{.A}}" + "" == "{{.A}}" && ReplaceAll("", "{{.B}}", "x") == "";
  }
}
