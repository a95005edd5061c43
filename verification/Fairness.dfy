/** Weighted fairness end to end: from DNS records over the cache to any interleaving of callers. */
module Fairness {
  import opened Weights
  import opened Discovery
  import opened RoundRobin

  // ----- callers that share one balancer

  /** A caller reads the host list, draws a ticket, and then hands out the host that its ticket says. */
  datatype Caller = Idle | HasList(list: seq<string>) | HasTicket(list: seq<string>, ticket: uint64)

  datatype Event = Read(caller: nat) | Draw(caller: nat) | Hand(caller: nat)

  datatype Pick = Pick(caller: nat, host: string)

  /** drawn counts the tickets; the log is in the order in which the hosts are handed out. */
  datatype State = State(counter: uint64, drawn: nat, callers: seq<Caller>, log: seq<Pick>)

  /** The counter after m tickets. */
  function After(c: nat, m: nat): uint64 {
    (c + m) % WRAP
  }

  /** One atomic step of one caller; a step that is not enabled changes nothing. */
  function Step(st: State, e: Event, hosts: seq<string>): State {
    if e.caller >= |st.callers| then st
    else
      var i := e.caller;
      match (e, st.callers[i])
      case (Read(_), Idle) => st.(callers := st.callers[i := HasList(hosts)])
      case (Draw(_), HasList(list)) =>
        if list == [] then st.(callers := st.callers[i := Idle])    // no hosts: the call fails and draws no ticket
        else st.(counter := After(st.counter, 1), drawn := st.drawn + 1, callers := st.callers[i := HasTicket(list, st.counter)])
      case (Hand(_), HasTicket(list, t)) =>
        if list == [] then st
        else st.(callers := st.callers[i := Idle], log := st.log + [Pick(i, list[Slot(t, |list|)])])
      case _ => st
  }

  function Run(st: State, schedule: seq<Event>, hosts: seq<string>): State {
    if schedule == [] then st
    else Step(Run(st, schedule[..|schedule| - 1], hosts), schedule[|schedule| - 1], hosts)
  }

  lemma {:induction false} RunSplit(st: State, a: seq<Event>, b: seq<Event>, hosts: seq<string>)
    ensures Run(st, a + b, hosts) == Run(Run(st, a, hosts), b, hosts)
    decreases |b|
  {
    hide Step;
    if b == [] {
      assert a + b == a;
    } else {
      RunSplit(st, a, b[..|b| - 1], hosts);
      assert (a + b)[..|a + b| - 1] == a + b[..|b| - 1];
    }
  }

  lemma RunThree(st: State, a: Event, b: Event, c: Event, hosts: seq<string>)
    ensures Run(st, [a, b, c], hosts) == Step(Step(Step(st, a, hosts), b, hosts), c, hosts)
  {
    hide Step;
    assert [a, b, c][..2] == [a, b] && [a, b][..1] == [a] && [a][..0] == [];
    assert Run(st, [], hosts) == st;
    assert Run(st, [a], hosts) == Step(st, a, hosts);
  }

  /** One call of an idle caller, undisturbed, is NextHost: the host of the ticket, and the next counter value. */
  lemma OneCall(st: State, i: nat, hosts: seq<string>)
    requires i < |st.callers| && st.callers[i].Idle?
    ensures Run(st, [Read(i), Draw(i), Hand(i)], hosts)
            == if hosts == [] then st
               else State((st.counter + 1) % WRAP, st.drawn + 1, st.callers,
                          st.log + [Pick(i, hosts[st.counter % |hosts|])])
  {
    RunThree(st, Read(i), Draw(i), Hand(i), hosts);
    SmallTicket(st.counter);
    assert st.callers[i := HasList(hosts)][i := Idle] == st.callers;
    assert st.callers[i := HasList(hosts)][i := HasTicket(hosts, st.counter)][i := Idle] == st.callers;
  }

  function HostsOfLog(log: seq<Pick>): (hs: seq<string>)
    ensures |hs| == |log|
  {
    seq(|log|, i requires 0 <= i < |log| => log[i].host)
  }

  ghost function HeldBy(c: Caller): multiset<string> {
    if c.HasTicket? && c.list != [] then multiset{c.list[Slot(c.ticket, |c.list|)]} else multiset{}
  }

  /** The hosts of tickets that have been drawn but not yet been used. */
  ghost function Held(callers: seq<Caller>): multiset<string> {
    if callers == [] then multiset{} else Held(callers[..|callers| - 1]) + HeldBy(callers[|callers| - 1])
  }

  lemma {:induction false} HeldUpdate(callers: seq<Caller>, i: nat, c: Caller)
    requires i < |callers|
    ensures Held(callers[i := c]) + HeldBy(callers[i]) == Held(callers) + HeldBy(c)
    decreases |callers|
  {
    hide HeldBy;
    var n := |callers| - 1;
    if i == n {
      assert callers[i := c][..n] == callers[..n];
    } else {
      HeldUpdate(callers[..n], i, c);
      assert callers[i := c][..n] == callers[..n][i := c];
      AddToBoth(Held(callers[..n][i := c]), HeldBy(callers[i]), Held(callers[..n]), HeldBy(c), HeldBy(callers[n]));
    }
  }

  lemma AddToBoth<T>(a: multiset<T>, x: multiset<T>, b: multiset<T>, y: multiset<T>, z: multiset<T>)
    requires a + x == b + y
    ensures (a + z) + x == (b + z) + y
  {
    assert (a + z) + x == (a + x) + z;
    assert (b + z) + y == (b + y) + z;
  }

  lemma {:induction false} NothingHeld(callers: seq<Caller>)
    requires forall i :: 0 <= i < |callers| ==> !callers[i].HasTicket?
    ensures Held(callers) == multiset{}
    decreases |callers|
  {
    if callers != [] { NothingHeld(callers[..|callers| - 1]); }
  }

  lemma SlotWraps(c: nat, m: nat, l: nat)
    requires l > 0
    ensures Slot(After(c, m), l) == Slot(c + m, l)
    ensures After(After(c, m), 1) == After(c, m + 1)
  {
    SmallTicket((c + m) % WRAP);
    AddMod(c + m, 1, WRAP);
    SmallTicket(1);
    AddMod((c + m) % WRAP, 1, WRAP);
  }

  /** Nobody is at work yet. */
  ghost predicate Start(st: State) {
    st.drawn == 0 && st.log == [] && forall i :: 0 <= i < |st.callers| ==> st.callers[i].Idle?
  }

  /** Handed out or held: exactly the hosts of the tickets drawn since the counter was c. */
  ghost predicate Accounted(c: uint64, st: State, hosts: seq<string>)
    requires hosts != []
  {
    && st.counter == After(c, st.drawn)
    && (forall i :: 0 <= i < |st.callers| && !st.callers[i].Idle? ==> st.callers[i].list == hosts)
    && multiset(HostsOfLog(st.log)) + Held(st.callers) == multiset(Picks(hosts, c, st.drawn))
  }

  lemma StartAccounted(st: State, hosts: seq<string>)
    requires hosts != [] && Start(st)
    ensures Accounted(st.counter, st, hosts)
  {
    SmallTicket(st.counter);
    NothingHeld(st.callers);
  }

  lemma ReadAccounted(c: uint64, st: State, i: nat, hosts: seq<string>)
    requires hosts != [] && Accounted(c, st, hosts)
    ensures Accounted(c, Step(st, Read(i), hosts), hosts)
  {
    hide Picks, Slot, Held, After;
    if i < |st.callers| && st.callers[i].Idle? {
      HeldUpdate(st.callers, i, HasList(hosts));
      assert HeldBy(Idle) == multiset{} && HeldBy(HasList(hosts)) == multiset{};
      assert Held(st.callers[i := HasList(hosts)]) == Held(st.callers[i := HasList(hosts)]) + multiset{}
          == Held(st.callers) + multiset{} == Held(st.callers);
    }
  }

  lemma DrawAccounted(c: uint64, st: State, i: nat, hosts: seq<string>)
    requires hosts != [] && Accounted(c, st, hosts)
    ensures Accounted(c, Step(st, Draw(i), hosts), hosts)
  {
    hide Slot, HostsOfLog, Held, After, Picks;
    if i < |st.callers| && st.callers[i].HasList? {
      var w, h := HasTicket(hosts, st.counter), hosts[Slot(c + st.drawn, |hosts|)];
      HeldUpdate(st.callers, i, w);
      SlotWraps(c, st.drawn, |hosts|);
      assert HeldBy(st.callers[i]) == multiset{} && HeldBy(w) == multiset{h};
      assert Held(st.callers[i := w]) == Held(st.callers) + multiset{h};
      PicksNext(hosts, c, st.drawn);
      assert multiset(HostsOfLog(st.log)) + (Held(st.callers) + multiset{h})
          == (multiset(HostsOfLog(st.log)) + Held(st.callers)) + multiset{h};
    }
  }

  lemma PicksNext(hosts: seq<string>, c: nat, m: nat)
    requires hosts != []
    ensures multiset(Picks(hosts, c, m + 1)) == multiset(Picks(hosts, c, m)) + multiset{hosts[Slot(c + m, |hosts|)]}
  {
    assert Picks(hosts, c, m + 1) == Picks(hosts, c, m) + [hosts[Slot(c + m, |hosts|)]];
  }

  lemma HandAccounted(c: uint64, st: State, i: nat, hosts: seq<string>)
    requires hosts != [] && Accounted(c, st, hosts)
    ensures Accounted(c, Step(st, Hand(i), hosts), hosts)
  {
    hide Slot, Held, Picks, After;
    if i < |st.callers| && st.callers[i].HasTicket? {
      var p := Pick(i, hosts[Slot(st.callers[i].ticket, |hosts|)]);
      HeldUpdate(st.callers, i, Idle);
      assert HeldBy(st.callers[i]) == multiset{p.host} && HeldBy(Idle) == multiset{};
      assert Held(st.callers) == Held(st.callers[i := Idle]) + multiset{p.host};
      assert HostsOfLog(st.log + [p]) == HostsOfLog(st.log) + [p.host];
      assert (multiset(HostsOfLog(st.log)) + multiset{p.host}) + Held(st.callers[i := Idle])
          == multiset(HostsOfLog(st.log)) + (Held(st.callers[i := Idle]) + multiset{p.host});
    }
  }

  /**
    However the callers' steps interleave, and in whatever order they hand out: the hosts handed out and
    those still held by callers with a ticket are, with multiplicity, those that one caller drawing all
    the tickets gets.
   */
  lemma {:induction false} AnyInterleaving(st: State, schedule: seq<Event>, hosts: seq<string>)
    requires hosts != [] && Start(st)
    ensures Accounted(st.counter, Run(st, schedule, hosts), hosts)
    decreases |schedule|
  {
    hide Accounted, Step;
    if schedule == [] {
      StartAccounted(st, hosts);
    } else {
      AnyInterleaving(st, schedule[..|schedule| - 1], hosts);
      var mid := Run(st, schedule[..|schedule| - 1], hosts);
      match schedule[|schedule| - 1]
      case Read(i) => ReadAccounted(st.counter, mid, i, hosts);
      case Draw(i) => DrawAccounted(st.counter, mid, i, hosts);
      case Hand(i) => HandAccounted(st.counter, mid, i, hosts);
    }
  }

  /** The tickets drawn make k whole rounds, and all of them have been used. */
  ghost predicate RoundsDone(st: State, hosts: seq<string>, k: nat) {
    st.drawn == k * |hosts| && forall i :: 0 <= i < |st.callers| ==> !st.callers[i].HasTicket?
  }

  /** Some schedule of one caller makes k whole rounds, whatever k is. */
  lemma RoundsReachable(st: State, hosts: seq<string>, k: nat) returns (schedule: seq<Event>)
    requires hosts != [] && Start(st) && st.callers != []
    ensures RoundsDone(Run(st, schedule, hosts), hosts, k)
  {
    schedule := Calls(st, hosts, k * |hosts|);
  }

  lemma {:induction false} Calls(st: State, hosts: seq<string>, m: nat) returns (schedule: seq<Event>)
    requires hosts != [] && st.callers != [] && st.callers[0].Idle?
    ensures var r := Run(st, schedule, hosts); r.drawn == st.drawn + m && r.callers == st.callers && |r.log| == |st.log| + m
    decreases m
  {
    hide Step;
    if m == 0 {
      schedule := [];
    } else {
      var before := Calls(st, hosts, m - 1);
      var call := [Read(0), Draw(0), Hand(0)];
      schedule := before + call;
      RunSplit(st, before, call, hosts);
      OneCall(Run(st, before, hosts), 0, hosts);
    }
  }

  /**
    Weighted fairness: the cache holds the instances of the sorted records, permuted or not. However
    any number of callers interleave, once the tickets drawn make k whole rounds that do not meet the
    wrap unfairly, every host has been picked k times its share of the compacted weights.
   */
  lemma WeightedFairness(rs: seq<Record>, name: Naming, hosts: seq<string>, st: State, schedule: seq<Event>, k: nat, h: string)
    requires multiset(hosts) == multiset(Instances(rs, name)) && hosts != [] && Start(st)
    requires RoundsDone(Run(st, schedule, hosts), hosts, k) && FairWhen(st.counter, k, |hosts|)
    ensures var best := rs[..MinCount(rs)];
            multiset(HostsOfLog(Run(st, schedule, hosts).log))[h]
            == Share(HostsOf(best, name), Compacted(WeightsOf(best)), h) * k
  {
    AnyInterleaving(st, schedule, hosts);
    NothingHeld(Run(st, schedule, hosts).callers);
    FairPicks(hosts, st.counter, k, h);
    InstancesExact(rs, name);
  }

  /** The same per record, when the records of best priority have different hosts. */
  lemma WeightedFairnessPerRecord(rs: seq<Record>, name: Naming, hosts: seq<string>, st: State, schedule: seq<Event>,
                                  k: nat, i: nat)
    requires multiset(hosts) == multiset(Instances(rs, name)) && hosts != [] && Start(st)
    requires RoundsDone(Run(st, schedule, hosts), hosts, k) && FairWhen(st.counter, k, |hosts|)
    requires i < MinCount(rs)
    requires var hs := HostsOf(rs[..MinCount(rs)], name); forall a, b :: 0 <= a < b < |hs| ==> hs[a] != hs[b]
    ensures multiset(HostsOfLog(Run(st, schedule, hosts).log))[name(rs[i].target, rs[i].port)]
            == Compacted(WeightsOf(rs[..MinCount(rs)]))[i] * k
  {
    var best := rs[..MinCount(rs)];
    WeightedFairness(rs, name, hosts, st, schedule, k, name(rs[i].target, rs[i].port));
    ShareDistinct(HostsOf(best, name), Compacted(WeightsOf(best)), i);
  }
}
