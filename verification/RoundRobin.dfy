/** The round-robin balancer: a wrapping 64-bit ticket counter over a host list. */
module RoundRobin {

  const WRAP: nat := 0x1_0000_0000_0000_0000

  type uint64 = x: int | 0 <= x < WRAP

  datatype HostResult = Host(name: string) | NoHosts | SubscriberError

  // ----- one call

  class Balancer {
    var counter: uint64

    constructor (start: uint64)
      ensures counter == start
    {
      counter := start;
    }

    /** Takes one ticket, unless the subscriber fails or has no hosts. */
    method NextHost(failed: bool, hosts: seq<string>) returns (r: HostResult)
      requires |hosts| < WRAP
      modifies this
      ensures failed ==> r == SubscriberError && counter == old(counter)
      ensures !failed && hosts == [] ==> r == NoHosts && counter == old(counter)
      ensures !failed && hosts != [] ==>
                && r == Host(hosts[Slot(old(counter), |hosts|)]) == Host(hosts[old(counter) % |hosts|])
                && counter == (old(counter) + 1) % WRAP
    {
      if failed {
        return SubscriberError;
      }
      if |hosts| <= 0 {
        return NoHosts;
      }
      counter := (counter + 1) % WRAP;
      DrawnTicket(old(counter));
      var offset := (counter - 1 + WRAP) % WRAP % |hosts|;
      r := Host(hosts[offset]);
    }
  }

  /** A balancer: with a single fixed host there is nothing to balance. */
  datatype LB = Nop(host: string) | RoundRobinLB(balancer: Balancer)

  /**
    Fixed hosts are known beforehand: one of them needs no counter, several are entered at the position
    that the random number generator picks below their number; any other subscriber starts at 0.
   */
  method NewRoundRobinLB(fixed: bool, hosts: seq<string>, uint32n: nat -> nat) returns (lb: LB)
    requires |hosts| < 0x1_0000_0000 && forall n :: n > 0 ==> uint32n(n) < n
    ensures lb.Nop? <==> fixed && |hosts| == 1
    ensures lb.Nop? ==> lb.host == hosts[0]
    ensures lb.RoundRobinLB? ==>
      && fresh(lb.balancer)
      && (fixed && |hosts| > 1 ==> lb.balancer.counter == uint32n(|hosts|) < |hosts|)
      && (!fixed || hosts == [] ==> lb.balancer.counter == 0)
  {
    var start := 0;
    if fixed {
      if |hosts| == 1 {
        return Nop(hosts[0]);
      } else if |hosts| > 1 {
        start := uint32n(|hosts|);
      }
    }
    var b := new Balancer(start);
    lb := RoundRobinLB(b);
  }

  /** The slot that the ticket drawn t steps after counter value 0 hits. */
  function Slot(t: nat, l: nat): (s: nat)
    requires l > 0
    ensures s < l
  {
    t % WRAP % l
  }

  /** Subtracting one from the new counter gives the ticket drawn, also at the wrap. */
  lemma DrawnTicket(c: uint64)
    ensures ((c + 1) % WRAP - 1 + WRAP) % WRAP == c == c % WRAP
  {
    SmallTicket(c);
    if c + 1 < WRAP { SmallTicket(c + 1); }
  }

  // ----- counting hits

  /** How many of the m tickets from counter c on hit slot s. */
  function Hits(c: nat, m: nat, l: nat, s: nat): nat
    requires l > 0
  {
    if m == 0 then 0 else Hits(c, m - 1, l, s) + if Slot(c + m - 1, l) == s then 1 else 0
  }

  /** How many x < n have x % l == s. */
  function Below(n: nat, l: nat, s: nat): nat
    requires l > 0
  {
    if n == 0 then 0 else Below(n - 1, l, s) + if (n - 1) % l == s then 1 else 0
  }

  lemma DivModUnique(x: nat, l: nat, q: nat, r: nat)
    requires l > 0 && x == q * l + r && r < l
    ensures x / l == q && x % l == r
  {
    var d := x / l;
    assert x == d * l + x % l;
    if d < q { TimesMonotone(d + 1, q, l); }
    if d > q { TimesMonotone(q + 1, d, l); }
  }

  lemma TimesMonotone(a: nat, b: nat, l: nat)
    requires a <= b
    ensures a * l <= b * l
  {
  }

  /** Quotient and remainder of the successor. */
  lemma NextDivMod(x: nat, l: nat)
    requires l > 0
    ensures x % l + 1 < l ==> (x + 1) / l == x / l && (x + 1) % l == x % l + 1
    ensures x % l + 1 == l ==> (x + 1) / l == x / l + 1 && (x + 1) % l == 0
  {
    var q, r := x / l, x % l;
    assert x == q * l + r;
    if r + 1 < l {
      DivModUnique(x + 1, l, q, r + 1);
    } else {
      OneMoreTimes(q, l);
      DivModUnique(x + 1, l, q + 1, 0);
    }
  }

  lemma OneMoreTimes(q: nat, l: nat)
    ensures (q + 1) * l == q * l + l
  {
  }

  /** Closed form: full rounds, and one more for the slots below the remainder. */
  lemma {:induction false} BelowExact(n: nat, l: nat, s: nat)
    requires s < l
    ensures Below(n, l, s) == n / l + Below1(s, n % l)
    decreases n
  {
    if n == 0 {
      DivModUnique(0, l, 0, 0);
    } else {
      BelowExact(n - 1, l, s);
      NextDivMod(n - 1, l);
    }
  }

  lemma SmallTicket(t: nat)
    requires t < WRAP
    ensures t % WRAP == t && (t + WRAP) % WRAP == t
  {
    DivModUnique(t, WRAP, 0, t);
    DivModUnique(t + WRAP, WRAP, 1, t);
  }

  lemma {:induction false} HitsNoWrap(c: nat, m: nat, l: nat, s: nat)
    requires l > 0 && c + m <= WRAP
    ensures Hits(c, m, l, s) == Below(c + m, l, s) - Below(c, l, s)
    decreases m
  {
    if m > 0 {
      HitsNoWrap(c, m - 1, l, s);
      SmallTicket(c + m - 1);
    }
  }

  /** How many of the first n tickets hit slot s: whole ranges of the counter, and what is left. */
  function Total(n: nat, l: nat, s: nat): nat
    requires l > 0
  {
    n / WRAP * Below(WRAP, l, s) + Below(n % WRAP, l, s)
  }

  lemma TotalStep(n: nat, l: nat, s: nat)
    requires l > 0
    ensures Total(n + 1, l, s) == Total(n, l, s) + if Slot(n, l) == s then 1 else 0
  {
    NextDivMod(n, WRAP);
    DivMod(n, WRAP);
    if n % WRAP + 1 == WRAP {
      OneMoreTimes(n / WRAP, Below(WRAP, l, s));
    }
  }

  /** The hits of any run of calls, however often the counter wraps. */
  lemma {:induction false} HitsTotal(c: nat, m: nat, l: nat, s: nat)
    requires l > 0
    ensures Hits(c, m, l, s) == Total(c + m, l, s) - Total(c, l, s)
    decreases m
  {
    if m > 0 {
      HitsTotal(c, m - 1, l, s);
      TotalStep(c + m - 1, l, s);
    }
  }

  /** Any run of calls that does not cross the wrap hits every slot the same number of times, give or take one. */
  lemma NearlyEven(c: nat, m: nat, l: nat, s: nat)
    requires s < l && c + m <= WRAP
    ensures m / l <= Hits(c, m, l, s) <= m / l + if m % l == 0 then 0 else 1
  {
    HitsNoWrap(c, m, l, s);
    BelowExact(c + m, l, s);
    BelowExact(c, l, s);
    AddMod(c, m, l);
  }

  /** Quotient and remainder of a sum. */
  lemma AddMod(a: nat, b: nat, l: nat)
    requires l > 0
    ensures var carry := if a % l + b % l < l then 0 else 1;
            (a + b) / l == a / l + b / l + carry && (a + b) % l == a % l + b % l - if carry == 0 then 0 else l
  {
    DivMod(a, l);
    DivMod(b, l);
    AddParts(a, b, l, a / l, a % l, b / l, b % l);
  }

  lemma DivMod(x: nat, l: nat)
    requires l > 0
    ensures x == x / l * l + x % l && x % l < l
  {
  }

  lemma AddParts(a: nat, b: nat, l: nat, qa: nat, ra: nat, qb: nat, rb: nat)
    requires a == qa * l + ra && b == qb * l + rb && ra < l && rb < l
    ensures ra + rb < l ==> (a + b) / l == qa + qb && (a + b) % l == ra + rb
    ensures ra + rb >= l ==> (a + b) / l == qa + qb + 1 && (a + b) % l == ra + rb - l
  {
    if ra + rb < l {
      ThreeTimes(qa, qb, 0, l);
      DivModUnique(a + b, l, qa + qb, ra + rb);
    } else {
      ThreeTimes(qa, qb, 1, l);
      DivModUnique(a + b, l, qa + qb + 1, ra + rb - l);
    }
  }

  lemma ThreeTimes(x: nat, y: nat, z: nat, l: nat)
    ensures (x + y + z) * l == x * l + y * l + z * l
  {
  }

  // ----- fairness of whole rounds

  ghost predicate Fair(c: nat, k: nat, l: nat)
    requires l > 0
  {
    forall s :: 0 <= s < l ==> Hits(c, k * l, l, s) == k
  }

  lemma RoundsDivide(k: nat, l: nat)
    requires l > 0
    ensures (k * l) / l == k && (k * l) % l == 0
  {
    DivModUnique(k * l, l, k, 0);
  }

  lemma FairWithoutWrap(c: nat, k: nat, l: nat)
    requires l > 0 && c + k * l <= WRAP
    ensures Fair(c, k, l)
  {
    RoundsDivide(k, l);
    forall s | 0 <= s < l ensures Hits(c, k * l, l, s) == k { NearlyEven(c, k * l, l, s); }
  }

  /**
    Whole rounds are fair when they do not cross the wrap of the counter, or the number of hosts divides
    the counter's range, or they cross the wrap once, at a round boundary.
   */
  predicate FairWhen(c: nat, k: nat, l: nat)
    requires l > 0
  {
    c + k * l <= WRAP || WRAP % l == 0 || (c % l == WRAP % l && c + k * l < 2 * WRAP)
  }

  function Below1(s: nat, r: nat): nat { if s < r then 1 else 0 }

  /** The hits of whole rounds, by remainders; q is how often the counter has wrapped, t where it ends. */
  lemma HitsOfRounds(c: nat, k: nat, l: nat, s: nat, q: nat, t: nat)
    requires s < l && c < WRAP && c + k * l == q * WRAP + t && t < WRAP
    ensures Hits(c, k * l, l, s)
            == q * (WRAP / l) + t / l - c / l + q * Below1(s, WRAP % l) + Below1(s, t % l) - Below1(s, c % l)
  {
    hide Hits, Below, Below1, Total;
    HitsTotal(c, k * l, l, s);
    TotalParts(c + k * l, l, s, q, t);
    TotalParts(c, l, s, 0, c);
    BelowExact(WRAP, l, s);
    BelowExact(c, l, s);
    BelowExact(t, l, s);
    Spread(q, WRAP / l, Below1(s, WRAP % l), Below(WRAP, l, s));
  }

  lemma TotalParts(n: nat, l: nat, s: nat, q: nat, t: nat)
    requires l > 0 && n == q * WRAP + t && t < WRAP
    ensures Total(n, l, s) == q * Below(WRAP, l, s) + Below(t, l, s)
  {
    DivModUnique(n, WRAP, q, t);
  }

  lemma Spread(q: nat, a: nat, b: nat, sum: nat)
    requires sum == a + b
    ensures q * sum == q * a + q * b
  {
  }

  /** Exactly when whole rounds are fair, however many. */
  lemma FairIff(c: nat, k: nat, l: nat)
    requires c < WRAP && l > 0
    ensures Fair(c, k, l) <==> FairWhen(c, k, l)
  {
    var n, d := c + k * l, WRAP % l;
    var q, t := n / WRAP, n % WRAP;
    DivMod(n, WRAP);
    if n <= WRAP {
      FairWithoutWrap(c, k, l);
    } else if FairWhen(c, k, l) {
      RoundsEnd(c, k, l, q, t);
      forall s | 0 <= s < l ensures Hits(c, k * l, l, s) == k { HitsOfRounds(c, k, l, s, q, t); }
    } else if Fair(c, k, l) {
      assert q >= 1;
      HitsOfRounds(c, k, l, l - 1, q, t);
      HitsOfRounds(c, k, l, 0, q, t);
      assert q * (WRAP / l) + t / l - c / l == k;
      assert q == 1 && t % l == 0;
      var s := if d < c % l then d else c % l;
      HitsOfRounds(c, k, l, s, q, t);
      assert false;
    }
  }

  /** Where fair rounds across the wrap end. */
  lemma RoundsEnd(c: nat, k: nat, l: nat, q: nat, t: nat)
    requires l > 0 && c + k * l == q * WRAP + t && t < WRAP && q >= 1
    requires WRAP % l == 0 || (c % l == WRAP % l && q == 1)
    ensures q * (WRAP / l) + t / l - c / l == k
    ensures if WRAP % l == 0 then t % l == c % l else t % l == 0
  {
    RoundsDivide(k, l);
    if WRAP % l == 0 {
      EvenRounds(c, k, l, q, t, WRAP);
    } else {
      AddMod(c, k * l, l);
      AddMod(WRAP, t, l);
    }
  }

  /** Whole rounds over a range w that is a multiple of the list length. */
  lemma EvenRounds(c: nat, k: nat, l: nat, q: nat, t: nat, w: nat)
    requires l > 0 && c + k * l == q * w + t && Rem(w, l) == 0
    ensures q * Quot(w, l) + Quot(t, l) - Quot(c, l) == k && Rem(t, l) == Rem(c, l)
  {
    hide Quot, Rem;
    QuotRem(c, l);
    QuotRem(w, l);
    QuotRem(t, l);
    EvenParts(c, k, l, q, w, t, Quot(c, l), Rem(c, l), Quot(w, l), Quot(t, l), Rem(t, l));
  }

  function Quot(x: nat, l: nat): nat
    requires l > 0
  {
    x / l
  }

  function Rem(x: nat, l: nat): nat
    requires l > 0
  {
    x % l
  }

  lemma QuotRem(x: nat, l: nat)
    requires l > 0
    ensures x == Quot(x, l) * l + Rem(x, l) && Rem(x, l) < l
  {
    DivMod(x, l);
  }

  lemma EvenParts(c: nat, k: nat, l: nat, q: nat, w: nat, t: nat, x: nat, r: nat, a: nat, b: nat, s: nat)
    requires c + k * l == q * w + t && c == x * l + r && w == a * l && t == b * l + s && r < l && s < l
    ensures q * a + b - x == k && s == r
  {
    Regroup(q, a, l);
    ThreeTimes(x, k, 0, l);
    ThreeTimes(q * a, b, 0, l);
    SameParts(x + k, r, q * a + b, s, l);
  }

  lemma SameParts(u: nat, r: nat, v: nat, s: nat, l: nat)
    requires u * l + r == v * l + s && r < l && s < l
    ensures u == v && r == s
  {
    if u < v { TimesMonotone(u + 1, v, l); }
    if v < u { TimesMonotone(v + 1, u, l); }
  }

  lemma Regroup(a: nat, b: nat, c: nat)
    ensures a * (b * c) == a * b * c
  {
  }

  /** The wrap really is unfair: three hosts, three calls starting at the last counter value. */
  lemma UnfairAtTheWrap()
    ensures !Fair(WRAP - 1, 1, 3)
  {
    FairIff(WRAP - 1, 1, 3);
  }

  // ----- hosts instead of slots

  /** The hosts that m calls in a row return. */
  function Picks(hosts: seq<string>, c: nat, m: nat): seq<string>
    requires hosts != []
  {
    if m == 0 then [] else Picks(hosts, c, m - 1) + [hosts[Slot(c + m - 1, |hosts|)]]
  }

  /** Hits of the first n slots that hold host h. */
  function HostHits(hosts: seq<string>, c: nat, m: nat, h: string, n: nat): nat
    requires hosts != [] && n <= |hosts|
  {
    if n == 0 then 0
    else HostHits(hosts, c, m, h, n - 1) + if hosts[n - 1] == h then Hits(c, m, |hosts|, n - 1) else 0
  }

  lemma {:induction false} HostHitsStep(hosts: seq<string>, c: nat, m: nat, h: string, n: nat)
    requires hosts != [] && n <= |hosts| && m > 0
    ensures var s := Slot(c + m - 1, |hosts|);
            HostHits(hosts, c, m, h, n) == HostHits(hosts, c, m - 1, h, n) + if s < n && hosts[s] == h then 1 else 0
    decreases n
  {
    if n > 0 {
      HostHitsStep(hosts, c, m, h, n - 1);
    }
  }

  lemma {:induction false} HostHitsNone(hosts: seq<string>, c: nat, h: string, n: nat)
    requires hosts != [] && n <= |hosts|
    ensures HostHits(hosts, c, 0, h, n) == 0
    decreases n
  {
    if n > 0 {
      HostHitsNone(hosts, c, h, n - 1);
    }
  }

  lemma {:induction false} PicksCount(hosts: seq<string>, c: nat, m: nat, h: string)
    requires hosts != []
    ensures multiset(Picks(hosts, c, m))[h] == HostHits(hosts, c, m, h, |hosts|)
    decreases m
  {
    hide HostHits, Slot;
    if m == 0 {
      HostHitsNone(hosts, c, h, |hosts|);
    } else {
      PicksCount(hosts, c, m - 1, h);
      HostHitsStep(hosts, c, m, h, |hosts|);
      CountSnoc(Picks(hosts, c, m - 1), hosts[Slot(c + m - 1, |hosts|)], h);
    }
  }

  lemma CountSnoc(s: seq<string>, x: string, h: string)
    ensures multiset(s + [x])[h] == multiset(s)[h] + if x == h then 1 else 0
  {
  }

  lemma {:induction false} FairHostHits(hosts: seq<string>, c: nat, k: nat, h: string, n: nat)
    requires hosts != [] && n <= |hosts| && Fair(c, k, |hosts|)
    ensures HostHits(hosts, c, k * |hosts|, h, n) == multiset(hosts[..n])[h] * k
    decreases n
  {
    if n > 0 {
      FairHostHits(hosts, c, k, h, n - 1);
      assert hosts[..n] == hosts[..n - 1] + [hosts[n - 1]];
      OneMoreTimes(multiset(hosts[..n - 1])[h], k);
    }
  }

  /** Whole fair rounds return every host as often as the list holds it, times the number of rounds. */
  lemma FairPicks(hosts: seq<string>, c: nat, k: nat, h: string)
    requires hosts != [] && c < WRAP && FairWhen(c, k, |hosts|)
    ensures multiset(Picks(hosts, c, k * |hosts|))[h] == multiset(hosts)[h] * k
  {
    FairIff(c, k, |hosts|);
    PicksCount(hosts, c, k * |hosts|, h);
    FairHostHits(hosts, c, k, h, |hosts|);
    assert hosts[..|hosts|] == hosts;
  }
}
