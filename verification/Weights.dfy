/** SRV weights: scaling to at most max(100, n) and dividing by the greatest common divisor. */
module Weights {

  type uint16 = x: int | 0 <= x < 0x1_0000

  function Sum(ws: seq<uint16>): nat {
    if ws == [] then 0 else Sum(ws[..|ws| - 1]) + ws[|ws| - 1]
  }

  function Scale(n: nat): (s: nat)
    ensures s >= 100 && s >= n && (s == 100 || s == n)
  {
    if n > 100 then n else 100
  }

  // ----- normalisation

  /** The scaled weight before it is narrowed to 16 bits. */
  function Scaled(w: uint16, scale: nat, sum: nat): nat
    requires sum > 0
  {
    w * scale / sum
  }

  function Normalized(ws: seq<uint16>): (res: seq<uint16>)
    ensures |res| == |ws|
  {
    if Sum(ws) <= Scale(|ws|) then ws
    else seq(|ws|, i requires 0 <= i < |ws| => Scaled(ws[i], Scale(|ws|), Sum(ws)) % 0x1_0000)
  }

  lemma FloorDiv(a: nat, b: nat)
    requires b > 0
    ensures a / b * b <= a < (a / b + 1) * b
  {
  }

  /** The narrowing conversion loses nothing: a scaled weight is at most the weight itself. */
  lemma ScaledSmall(w: uint16, scale: nat, sum: nat)
    requires sum > scale
    ensures Scaled(w, scale, sum) <= w
    ensures Scaled(w, scale, sum) * sum <= w * scale < (Scaled(w, scale, sum) + 1) * sum
  {
    FloorDiv(w * scale, sum);
    MulMonotone(scale, sum, w);
    CancelLe(Scaled(w, scale, sum), w, sum);
  }

  /** Adding up, for a prefix, what the scaled weights lose against the exact shares. */
  lemma {:induction false} ScaledSum(ws: seq<uint16>, rs: seq<uint16>, scale: nat, sum: nat)
    requires |rs| == |ws| && sum > scale
    requires forall i :: 0 <= i < |ws| ==> rs[i] == Scaled(ws[i], scale, sum)
    ensures Sum(rs) * sum <= Sum(ws) * scale
    ensures ws != [] ==> Sum(ws) * scale < (Sum(rs) + |ws|) * sum
    decreases |ws|
  {
    if ws != [] {
      var n := |ws| - 1;
      ScaledSum(ws[..n], rs[..n], scale, sum);
      ScaledSmall(ws[n], scale, sum);
      Distribute(Sum(rs[..n]), rs[n], sum);
      Distribute(Sum(ws[..n]), ws[n], scale);
      Distribute(Sum(rs[..n]) + n, rs[n] + 1, sum);
    }
  }

  lemma Distribute(a: int, b: int, c: int)
    ensures (a + b) * c == a * c + b * c
  {
  }

  lemma MulMonotone(a: nat, b: nat, c: nat)
    requires a <= b
    ensures a * c <= b * c
  {
  }

  lemma CancelLe(a: nat, b: nat, c: nat)
    requires c > 0 && a * c <= b * c
    ensures a <= b
  {
  }

  lemma CancelLt(a: nat, b: nat, c: nat)
    requires c > 0 && a * c < b * c
    ensures a < b
  {
  }

  lemma ScaledSumBounds(ws: seq<uint16>, rs: seq<uint16>, scale: nat, sum: nat)
    requires |rs| == |ws| && sum == Sum(ws) > scale
    requires forall i :: 0 <= i < |ws| ==> rs[i] == Scaled(ws[i], scale, sum)
    ensures scale < Sum(rs) + |ws| && Sum(rs) <= scale
  {
    ScaledSum(ws, rs, scale, sum);
    CancelLe(Sum(rs), scale, sum);
    CancelLt(scale, Sum(rs) + |ws|, sum);
  }

  /**
    Bounds of the normalisation when it scales: every weight shrinks to the floor of its exact share,
    and together they come to at most the scale and to more than the scale less the number of weights.
   */
  lemma NormalizeBounds(ws: seq<uint16>)
    requires Sum(ws) > Scale(|ws|)
    ensures var rs, s, sum := Normalized(ws), Scale(|ws|), Sum(ws);
            && (forall i :: 0 <= i < |ws| ==> rs[i] <= ws[i] && rs[i] * sum <= ws[i] * s < (rs[i] + 1) * sum)
            && s - |ws| < Sum(rs) <= s
  {
    hide Scaled, Normalized;
    var rs, s, sum := Normalized(ws), Scale(|ws|), Sum(ws);
    forall i | 0 <= i < |ws|
      ensures rs[i] == Scaled(ws[i], s, sum)
      ensures rs[i] <= ws[i] && rs[i] * sum <= ws[i] * s < (rs[i] + 1) * sum
    {
      NormalizedAt(ws, i);
      ScaledSmall(ws[i], s, sum);
    }
    ScaledSumBounds(ws, rs, s, sum);
  }

  /** The narrowing conversion changes nothing. */
  lemma NormalizedAt(ws: seq<uint16>, i: nat)
    requires i < |ws| && Sum(ws) > Scale(|ws|)
    ensures Normalized(ws)[i] == Scaled(ws[i], Scale(|ws|), Sum(ws))
  {
    hide Scaled;
    ScaledSmall(ws[i], Scale(|ws|), Sum(ws));
  }

  lemma NormalizedSame(ws: seq<uint16>)
    requires Sum(ws) <= Scale(|ws|)
    ensures Normalized(ws) == ws
  {
  }

  /** Nothing in the scaling leaves the range of int64, even for two thousand million weights. */
  lemma {:induction false} NoOverflow(ws: seq<uint16>, w: uint16)
    requires |ws| <= 0x8000_0000
    ensures Sum(ws) <= |ws| * 0xFFFF < 0x8000_0000_0000_0000
    ensures w * Scale(|ws|) < 0x8000_0000_0000_0000
    decreases |ws|
  {
    if ws != [] {
      NoOverflow(ws[..|ws| - 1], w);
    }
    MulMonotone(w, 0xFFFF, Scale(|ws|));
  }

  method Normalize(ws: seq<uint16>) returns (r: seq<uint16>)
    ensures r == Normalized(ws)
  {
    var scale := 100;
    if |ws| > scale {
      scale := |ws|;
    }
    var sum := 0;
    for i := 0 to |ws|
      invariant sum == Sum(ws[..i])
    {
      sum := sum + ws[i];
      assert ws[..i + 1][..i] == ws[..i];
    }
    assert ws[..|ws|] == ws;
    if sum <= scale {
      return ws;
    }
    var res := new uint16[|ws|];
    for i := 0 to |ws|
      invariant forall k :: 0 <= k < i ==> res[k] == Normalized(ws)[k]
    {
      res[i] := ws[i] * scale / sum % 0x1_0000;
    }
    return res[..];
  }

  // ----- greatest common divisor

  predicate IsProduct(x: nat, d: nat, q: nat) { x == d * q }

  /** Every d divides 0, and 0 divides only 0. */
  ghost predicate Divides(d: nat, x: nat) {
    exists q: nat :: IsProduct(x, d, q)
  }

  ghost predicate DividesAll(d: nat, ws: seq<uint16>) {
    forall i :: 0 <= i < |ws| ==> Divides(d, ws[i])
  }

  function Euclid(a: nat, b: nat): nat
    decreases b
  {
    if b == 0 then a else Euclid(b, a % b)
  }

  lemma DividesSum(d: nat, x: nat, y: nat)
    requires Divides(d, x) && Divides(d, y)
    ensures Divides(d, x + y)
  {
    var p: nat, q: nat :| IsProduct(x, d, p) && IsProduct(y, d, q);
    Distribute(p, q, d);
    assert IsProduct(x + y, d, p + q);
  }

  lemma DividesDifference(d: nat, x: nat, y: nat)
    requires Divides(d, x + y) && Divides(d, y) && y > 0
    ensures Divides(d, x)
  {
    var p: nat, q: nat :| IsProduct(x + y, d, p) && IsProduct(y, d, q);
    CancelLe(q, p, d);
    Distribute(p - q, q, d);
    assert IsProduct(x, d, p - q);
  }

  lemma DividesMultiple(d: nat, b: nat, k: nat)
    requires Divides(d, b)
    ensures Divides(d, k * b)
  {
    var q: nat :| IsProduct(b, d, q);
    assert k * b == d * (k * q);
    assert IsProduct(k * b, d, k * q);
  }

  lemma DividesRemainder(d: nat, a: nat, b: nat)
    requires b > 0 && Divides(d, b)
    ensures Divides(d, a % b) <==> Divides(d, a)
  {
    var k := a / b;
    assert a == a % b + k * b;
    DividesMultiple(d, b, k);
    if Divides(d, a) && k > 0 { DividesDifference(d, a % b, k * b); }
    if Divides(d, a % b) { DividesSum(d, a % b, k * b); }
  }

  lemma DividesZero(d: nat)
    ensures Divides(d, 0)
  {
    assert IsProduct(0, d, 0);
  }

  /** The divisors of the result are the common divisors of the arguments. */
  lemma {:induction false} EuclidExact(a: nat, b: nat, d: nat)
    ensures Divides(d, Euclid(a, b)) <==> Divides(d, a) && Divides(d, b)
    decreases b
  {
    if b == 0 {
      DividesZero(d);
    } else {
      EuclidExact(b, a % b, d);
      if Divides(d, b) { DividesRemainder(d, a, b); }
    }
  }

  function Gcd(ws: seq<uint16>): nat
  {
    if ws == [] then 0 else if |ws| == 1 then ws[0] else Euclid(Gcd(ws[..|ws| - 1]), ws[|ws| - 1])
  }

  /** The divisors of the result are the common divisors of all the weights. */
  lemma {:induction false} GcdExact(ws: seq<uint16>, d: nat)
    ensures Divides(d, Gcd(ws)) <==> DividesAll(d, ws)
    decreases |ws|
  {
    if ws == [] {
      DividesZero(d);
    } else if |ws| > 1 {
      var n := |ws| - 1;
      GcdExact(ws[..n], d);
      EuclidExact(Gcd(ws[..n]), ws[n], d);
      if DividesAll(d, ws[..n]) && Divides(d, ws[n]) {
        forall i | 0 <= i < |ws| ensures Divides(d, ws[i]) {
          if i < n { assert Divides(d, ws[..n][i]); }
        }
      }
    }
  }

  /** The inner closure: Euclid's loop. */
  method LocalGcd(x: uint16, y: uint16) returns (a: uint16)
    ensures a == Euclid(x, y)
  {
    a := x;
    var b: uint16 := y;
    while b > 0
      invariant Euclid(a, b) == Euclid(x, y)
      decreases b
    {
      a, b := b, a % b;
    }
  }

  method ComputeGcd(ws: seq<uint16>) returns (result: uint16)
    ensures result == Gcd(ws)
    ensures forall d: nat :: Divides(d, result) <==> DividesAll(d, ws)
  {
    if |ws| == 0 {
      result := 0;
    } else {
      result := ws[0];
      for i := 1 to |ws|
        invariant result == Gcd(ws[..i])
      {
        result := LocalGcd(result, ws[i]);
        assert ws[..i + 1][..i] == ws[..i];
      }
      assert ws[..|ws|] == ws;
    }
    forall d: nat ensures Divides(d, result) <==> DividesAll(d, ws) { GcdExact(ws, d); }
  }

  // ----- compaction

  function DividedBy(ws: seq<uint16>, g: nat): (r: seq<uint16>)
    requires g > 0
    ensures |r| == |ws|
  {
    seq(|ws|, i requires 0 <= i < |ws| => Quotient(ws[i], g))
  }

  lemma QuotientSmall(w: nat, g: nat)
    requires g > 0
    ensures w / g <= w
  {
    var q := w / g;
    assert q * g <= w by { FloorDiv(w, g); }
    AtLeast(q, g);
  }

  lemma AtLeast(q: nat, g: nat)
    requires g > 0
    ensures q <= q * g
  {
  }

  function Quotient(w: uint16, g: nat): (q: uint16)
    requires g > 0
    ensures q <= w
  {
    QuotientSmall(w, g);
    w / g
  }

  function Compacted(ws: seq<uint16>): (r: seq<uint16>)
    ensures |r| == |ws|
  {
    var tmp := Normalized(ws);
    if Gcd(tmp) < 2 then tmp else DividedBy(tmp, Gcd(tmp))
  }

  method Compact(ws: seq<uint16>) returns (r: seq<uint16>)
    ensures r == Compacted(ws)
  {
    var tmp := Normalize(ws);
    var div := ComputeGcd(tmp);
    if div < 2 {
      return tmp;
    }
    var res := new uint16[|tmp|];
    for i := 0 to |tmp|
      invariant forall k :: 0 <= k < i ==> res[k] == DividedBy(tmp, div)[k]
    {
      res[i] := Quotient(tmp[i], div);
    }
    return res[..];
  }

  lemma ExactQuotient(w: uint16, g: nat)
    requires g > 0 && Divides(g, w)
    ensures Quotient(w, g) * g == w
  {
    hide Quotient;
    var q: nat :| IsProduct(w, g, q);
    QuotientBounds(w, g);
    FloorOfProduct(w, Quotient(w, g), q, g);
  }

  lemma QuotientBounds(w: uint16, g: nat)
    requires g > 0
    ensures Quotient(w, g) * g <= w < (Quotient(w, g) + 1) * g
  {
    FloorDiv(w, g);
  }

  lemma FloorOfProduct(w: nat, d: nat, q: nat, g: nat)
    requires g > 0 && w == g * q && d * g <= w < (d + 1) * g
    ensures d * g == w
  {
    Commute(g, q);
    CancelLe(d, q, g);
    CancelLt(q, d + 1, g);
  }

  lemma Commute(a: nat, b: nat)
    ensures a * b == b * a
  {
  }

  lemma SelfDivides(g: nat)
    ensures Divides(g, g)
  {
    assert IsProduct(g, g, 1);
  }

  /** Every compacted weight times the divisor is the normalised weight. */
  lemma CompactTimesGcd(ws: seq<uint16>)
    ensures var tmp, g := Normalized(ws), Gcd(Normalized(ws));
            forall i :: 0 <= i < |ws| ==> Compacted(ws)[i] * (if g < 2 then 1 else g) == tmp[i]
  {
    var tmp, g := Normalized(ws), Gcd(Normalized(ws));
    if g >= 2 {
      SelfDivides(g);
      GcdExact(tmp, g);
      forall i | 0 <= i < |ws| ensures Compacted(ws)[i] * g == tmp[i] {
        assert Divides(g, tmp[i]);
        ExactQuotient(tmp[i], g);
      }
    }
  }

  /** Nothing is left to divide: the result's own divisor is 0 (only zeros) or 1. */
  lemma CompactCoprime(ws: seq<uint16>)
    ensures Gcd(Compacted(ws)) < 2
  {
    var tmp, g := Normalized(ws), Gcd(Normalized(ws));
    if g >= 2 {
      CompactTimesGcd(ws);
      var h := Gcd(Compacted(ws));
      SelfDivides(h);
      GcdExact(Compacted(ws), h);
      forall i | 0 <= i < |tmp| ensures Divides(h * g, tmp[i]) {
        DividesProduct(h, Compacted(ws)[i], g);
      }
      GcdExact(tmp, h * g);
      NoProperMultiple(g, h);
    }
  }

  lemma DividesProduct(h: nat, c: nat, g: nat)
    requires Divides(h, c)
    ensures Divides(h * g, c * g)
  {
    var q: nat :| IsProduct(c, h, q);
    assert c * g == (h * g) * q;
    assert IsProduct(c * g, h * g, q);
  }

  lemma NoProperMultiple(g: nat, h: nat)
    requires g > 0 && Divides(h * g, g)
    ensures h == 1
  {
    var q: nat :| IsProduct(g, h * g, q);
    assert g == g * (h * q);
    assert h * q == 1;
    if h >= 2 { MulMonotone(1, q, h); }
  }

  lemma {:induction false} SumMonotone(rs: seq<uint16>, ws: seq<uint16>)
    requires |rs| == |ws| && forall i :: 0 <= i < |ws| ==> rs[i] <= ws[i]
    ensures Sum(rs) <= Sum(ws)
    decreases |ws|
  {
    if ws != [] {
      SumMonotone(rs[..|ws| - 1], ws[..|ws| - 1]);
    }
  }

  /** The compacted weights come to at most the scale. */
  lemma CompactSum(ws: seq<uint16>)
    ensures Sum(Compacted(ws)) <= Scale(|ws|)
  {
    var tmp := Normalized(ws);
    if Sum(ws) > Scale(|ws|) {
      NormalizeBounds(ws);
    }
    SumMonotone(Compacted(ws), tmp);
  }

  /** Compacting a second time changes nothing. */
  lemma CompactIdempotent(ws: seq<uint16>)
    ensures Compacted(Compacted(ws)) == Compacted(ws)
  {
    CompactSum(ws);
    CompactCoprime(ws);
  }

  lemma NormalizeKeepsOrder(ws: seq<uint16>, i: nat, j: nat)
    requires i < |ws| && j < |ws| && ws[i] <= ws[j]
    ensures Normalized(ws)[i] <= Normalized(ws)[j]
  {
    hide Scaled, Normalized;
    var s, sum := Scale(|ws|), Sum(ws);
    if sum > s {
      NormalizedAt(ws, i);
      NormalizedAt(ws, j);
      ScaledSmall(ws[i], s, sum);
      ScaledSmall(ws[j], s, sum);
      FloorsOrdered(Scaled(ws[i], s, sum), Scaled(ws[j], s, sum), ws[i], ws[j], s, sum);
    } else {
      NormalizedSame(ws);
    }
  }

  lemma FloorsOrdered(x: nat, y: nat, a: nat, b: nat, s: nat, sum: nat)
    requires sum > 0 && x * sum <= a * s && b * s < (y + 1) * sum && a <= b
    ensures x <= y
  {
    MulMonotone(a, b, s);
    CancelLt(x, y + 1, sum);
  }

  /** A heavier record never ends up lighter than a lighter one. */
  lemma CompactKeepsOrder(ws: seq<uint16>, i: nat, j: nat)
    requires i < |ws| && j < |ws| && ws[i] <= ws[j]
    ensures Compacted(ws)[i] <= Compacted(ws)[j]
  {
    hide Normalized;
    NormalizeKeepsOrder(ws, i, j);
    CompactTimesGcd(ws);
    if Gcd(Normalized(ws)) >= 2 {
      CancelLe(Compacted(ws)[i], Compacted(ws)[j], Gcd(Normalized(ws)));
    }
  }

  lemma {:induction false} SumZero(ws: seq<uint16>)
    ensures Sum(ws) == 0 <==> forall i :: 0 <= i < |ws| ==> ws[i] == 0
    decreases |ws|
  {
    if ws != [] {
      SumZero(ws[..|ws| - 1]);
    }
  }

  lemma NormalizePositive(ws: seq<uint16>)
    ensures Sum(Normalized(ws)) > 0 <==> Sum(ws) > 0
  {
    if Sum(ws) > Scale(|ws|) { NormalizeBounds(ws); }
  }

  /** Some compacted weight is positive exactly when some weight is. */
  lemma CompactPositive(ws: seq<uint16>)
    ensures Sum(Compacted(ws)) > 0 <==> exists i :: 0 <= i < |ws| && ws[i] > 0
  {
    hide Normalized, Compacted, Gcd;
    NormalizePositive(ws);
    SumZero(ws);
    SumZero(Normalized(ws));
    SumZero(Compacted(ws));
    CompactTimesGcd(ws);
    var g := if Gcd(Normalized(ws)) < 2 then 1 else Gcd(Normalized(ws));
    forall i | 0 <= i < |ws| ensures Compacted(ws)[i] == 0 <==> Normalized(ws)[i] == 0 {
      ProductZero(Compacted(ws)[i], g, Normalized(ws)[i]);
    }
  }

  lemma ProductZero(a: nat, g: nat, b: nat)
    requires g > 0 && a * g == b
    ensures a == 0 <==> b == 0
  {
  }
}
