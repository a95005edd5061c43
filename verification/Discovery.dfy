/** DNS service discovery: from SRV records to the weighted host list and its locked cache. */
module Discovery {
  import opened Sequences
  import opened Sorting
  import opened Strings
  import opened Weights

  datatype Record = Record(target: string, port: uint16, priority: uint16, weight: uint16)

  datatype Answer = Failed | Answered(records: seq<Record>)

  /** The order resolve sorts by: priority up, weight down, then target and port. */
  predicate Before(x: Record, y: Record) {
    if x.priority == y.priority then
      if x.weight == y.weight then
        if x.target == y.target then x.port < y.port else Less(x.target, y.target)
      else x.weight > y.weight
    else x.priority < y.priority
  }

  lemma BeforeStrictOrder()
    ensures StrictOrder(Before)
  {
    forall x: Record ensures !Before(x, x) { LessIrreflexive(x.target); }
    forall x: Record, y: Record, z: Record | Before(x, y) && Before(y, z) ensures Before(x, z) {
      BeforeTransitive(x, y, z);
    }
    forall x: Record, y: Record | x != y ensures Before(x, y) || Before(y, x) { BeforeTotal(x, y); }
  }

  lemma BeforeTransitive(x: Record, y: Record, z: Record)
    requires Before(x, y) && Before(y, z)
    ensures Before(x, z)
  {
    hide Less;
    LessIrreflexive(x.target);
    if Less(x.target, y.target) && Less(y.target, z.target) { LessTransitive(x.target, y.target, z.target); }
  }

  lemma BeforeTotal(x: Record, y: Record)
    requires x != y
    ensures Before(x, y) || Before(y, x)
  {
    hide Less;
    if x.target != y.target { LessTotal(x.target, y.target); }
  }

  /** Sorted records: best priority first, then the heavier one, then the smaller target, then the smaller port. */
  lemma SortedRecords(rs: seq<Record>, i: nat, j: nat)
    requires Sorted(rs, Before) && i < j < |rs|
    ensures rs[i].priority <= rs[j].priority
    ensures rs[i].priority == rs[j].priority ==> rs[i].weight >= rs[j].weight
    ensures rs[i].priority == rs[j].priority && rs[i].weight == rs[j].weight ==> !Less(rs[j].target, rs[i].target)
    ensures rs[i].priority == rs[j].priority && rs[i].weight == rs[j].weight && rs[i].target == rs[j].target ==>
              rs[i].port <= rs[j].port
  {
    assert !Before(rs[j], rs[i]);
    LessIrreflexive(rs[i].target);
  }

  // ----- the specification on sorted records

  /** How many records at the front share the best priority. */
  function MinCount(rs: seq<Record>): (n: nat)
    ensures n <= |rs|
    ensures forall i :: 0 <= i < n ==> rs[i].priority <= rs[0].priority
    ensures n < |rs| ==> rs[n].priority > rs[0].priority
  {
    MinFrom(rs, 0)
  }

  function MinFrom(rs: seq<Record>, i: nat): (n: nat)
    requires i <= |rs|
    requires forall k :: 0 <= k < i ==> rs[k].priority <= rs[0].priority
    ensures i <= n <= |rs|
    ensures forall k :: 0 <= k < n ==> rs[k].priority <= rs[0].priority
    ensures n < |rs| ==> rs[n].priority > rs[0].priority
    decreases |rs| - i
  {
    if i == |rs| || rs[i].priority > rs[0].priority then i else MinFrom(rs, i + 1)
  }

  function WeightsOf(rs: seq<Record>): (ws: seq<uint16>)
    ensures |ws| == |rs| && forall i :: 0 <= i < |rs| ==> ws[i] == rs[i].weight
  {
    seq(|rs|, i requires 0 <= i < |rs| => rs[i].weight)
  }

  type Naming = (string, uint16) -> string

  function HostsOf(rs: seq<Record>, name: Naming): (hs: seq<string>)
    ensures |hs| == |rs| && forall i :: 0 <= i < |rs| ==> hs[i] == name(rs[i].target, rs[i].port)
  {
    seq(|rs|, i requires 0 <= i < |rs| => name(rs[i].target, rs[i].port))
  }

  /** Every host as often as its weight says. */
  function Expand(hosts: seq<string>, times: seq<uint16>): seq<string>
    requires |hosts| == |times|
  {
    if hosts == [] then []
    else Expand(hosts[..|hosts| - 1], times[..|times| - 1]) + Repeat(hosts[|hosts| - 1], times[|times| - 1])
  }

  /** The instances for records already sorted. */
  function Instances(rs: seq<Record>, name: Naming): seq<string> {
    var best := rs[..MinCount(rs)];
    Expand(HostsOf(best, name), Compacted(WeightsOf(best)))
  }

  lemma {:induction false} ExpandLength(hosts: seq<string>, times: seq<uint16>)
    requires |hosts| == |times|
    ensures |Expand(hosts, times)| == Sum(times)
    decreases |hosts|
  {
    if hosts != [] {
      ExpandLength(hosts[..|hosts| - 1], times[..|times| - 1]);
    }
  }

  /** The hosts come in blocks, in the order of the records. */
  lemma {:induction false} ExpandInOrder(hosts: seq<string>, times: seq<uint16>, i: nat, j: nat)
    requires |hosts| == |times| && i < |hosts| && Sum(times[..i]) <= j < Sum(times[..i]) + times[i]
    ensures j < |Expand(hosts, times)| && Expand(hosts, times)[j] == hosts[i]
    decreases |hosts|
  {
    var n := |hosts| - 1;
    ExpandLength(hosts[..n], times[..n]);
    if i < n {
      assert times[..n][..i] == times[..i];
      ExpandInOrder(hosts[..n], times[..n], i, j);
    }
  }

  /** The weight that a host name has in total. */
  function Share(hosts: seq<string>, times: seq<uint16>, h: string): nat
    requires |hosts| == |times|
  {
    if hosts == [] then 0
    else
      Share(hosts[..|hosts| - 1], times[..|times| - 1], h)
      + if hosts[|hosts| - 1] == h then times[|times| - 1] else 0
  }

  lemma {:induction false} RepeatCount(h: string, n: nat, g: string)
    ensures multiset(Repeat(h, n))[g] == if g == h then n else 0
    decreases n
  {
    if n > 0 {
      RepeatCount(h, n - 1, g);
      assert Repeat(h, n) == Repeat(h, n - 1) + [h];
    }
  }

  lemma {:induction false} ExpandCount(hosts: seq<string>, times: seq<uint16>, h: string)
    requires |hosts| == |times|
    ensures multiset(Expand(hosts, times))[h] == Share(hosts, times, h)
    decreases |hosts|
  {
    if hosts != [] {
      ExpandCount(hosts[..|hosts| - 1], times[..|times| - 1], h);
      RepeatCount(hosts[|hosts| - 1], times[|times| - 1], h);
    }
  }

  lemma {:induction false} ShareDistinct(hosts: seq<string>, times: seq<uint16>, i: nat)
    requires |hosts| == |times| && i < |hosts|
    requires forall j, k :: 0 <= j < k < |hosts| ==> hosts[j] != hosts[k]
    ensures Share(hosts, times, hosts[i]) == times[i]
    decreases |hosts|
  {
    var n := |hosts| - 1;
    if i < n {
      ShareDistinct(hosts[..n], times[..n], i);
    } else {
      ShareAbsent(hosts[..n], times[..n], hosts[i]);
    }
  }

  lemma {:induction false} ShareAbsent(hosts: seq<string>, times: seq<uint16>, h: string)
    requires |hosts| == |times| && h !in hosts
    ensures Share(hosts, times, h) == 0
    decreases |hosts|
  {
    if hosts != [] {
      assert hosts[|hosts| - 1] in hosts;
      ShareAbsent(hosts[..|hosts| - 1], times[..|times| - 1], h);
    }
  }

  // ----- what the instances are

  /** The records in front are exactly those of minimum priority. */
  lemma MinCountExact(rs: seq<Record>, i: nat)
    requires Sorted(rs, Before) && i < |rs|
    ensures i < MinCount(rs) <==> forall j :: 0 <= j < |rs| ==> rs[i].priority <= rs[j].priority
  {
    var n := MinCount(rs);
    if i < n {
      forall j | 0 <= j < |rs| ensures rs[i].priority <= rs[j].priority {
        if j > 0 { assert !Before(rs[j], rs[0]); }
      }
    } else {
      if n < i { assert !Before(rs[i], rs[n]); }
      assert rs[i].priority > rs[0].priority;
    }
  }

  /** Every instance is the host of a record of minimum priority. */
  lemma InstancesFromBest(rs: seq<Record>, name: Naming, h: string)
    requires Sorted(rs, Before) && h in Instances(rs, name)
    ensures exists i :: 0 <= i < |rs| && name(rs[i].target, rs[i].port) == h
                        && (forall j :: 0 <= j < |rs| ==> rs[i].priority <= rs[j].priority)
  {
    var best := rs[..MinCount(rs)];
    var hosts, times := HostsOf(best, name), Compacted(WeightsOf(best));
    assert multiset(Expand(hosts, times))[h] > 0;
    ExpandCount(hosts, times, h);
    if h !in hosts { ShareAbsent(hosts, times, h); }
    var i :| 0 <= i < |hosts| && hosts[i] == h;
    MinCountExact(rs, i);
    assert name(rs[i].target, rs[i].port) == h;
  }

  /**
    The host list: each minimum-priority record of a host of its own appears exactly its compacted
    weight times; the list is no longer than the scale; it is empty exactly when every
    minimum-priority record has weight 0.
   */
  lemma InstancesExact(rs: seq<Record>, name: Naming)
    ensures var best := rs[..MinCount(rs)];
            var hosts, times, l := HostsOf(best, name), Compacted(WeightsOf(best)), Instances(rs, name);
            && |l| == Sum(times) <= Scale(|best|)
            && (forall h :: multiset(l)[h] == Share(hosts, times, h))
            && (l != [] <==> exists i :: 0 <= i < |best| && best[i].weight > 0)
  {
    var best := rs[..MinCount(rs)];
    var hosts, times := HostsOf(best, name), Compacted(WeightsOf(best));
    ExpandLength(hosts, times);
    CompactSum(WeightsOf(best));
    CompactPositive(WeightsOf(best));
    forall h ensures multiset(Expand(hosts, times))[h] == Share(hosts, times, h) { ExpandCount(hosts, times, h); }
    if i :| 0 <= i < |best| && best[i].weight > 0 { assert WeightsOf(best)[i] > 0; }
  }

  /** The cache is shuffled only when more than 100 records share the best priority. */
  lemma ShuffledOnlyWhenMany(rs: seq<Record>, name: Naming)
    requires |Instances(rs, name)| > 100
    ensures MinCount(rs) > 100
  {
    InstancesExact(rs, name);
  }

  /** The heavier host comes first, and as often as its weight says. */
  lemma HeavierFirst(name: Naming)
    ensures var a, b := Record("a", 80, 0, 1), Record("b", 80, 0, 3);
            && Sorted([b, a], Before)
            && Instances([b, a], name) == [name("b", 80), name("b", 80), name("b", 80), name("a", 80)]
  {
    var a, b := Record("a", 80, 0, 1), Record("b", 80, 0, 3);
    var rs := [b, a];
    assert MinFrom(rs, 2) == 2;
    assert rs[..2] == rs && WeightsOf(rs) == [3, 1] && HostsOf(rs, name) == [name("b", 80), name("a", 80)];
    CompactedExample();
    ExpandTwo(name("b", 80), 3, name("a", 80), 1);
    assert Repeat(name("b", 80), 3) + Repeat(name("a", 80), 1) == [name("b", 80), name("b", 80), name("b", 80), name("a", 80)];
  }

  lemma CompactedExample()
    ensures Compacted([3, 1]) == [3, 1]
  {
    var ws: seq<uint16> := [3, 1];
    assert ws[..1] == [3] && ws[..1][..0] == [];
    assert Sum([3]) == 3 && Sum(ws) == 4 && Normalized(ws) == ws;
    assert Gcd([3]) == 3 && Euclid(3, 1) == Euclid(1, 0) == 1 && Gcd(ws) == 1;
  }

  lemma ExpandTwo(h: string, m: uint16, g: string, n: uint16)
    ensures Expand([h, g], [m, n]) == Repeat(h, m) + Repeat(g, n)
  {
    assert [h, g][..1] == [h] && [m, n][..1] == [m] && [h][..0] == [] && [m][..0] == [];
    assert Expand([h], [m]) == [] + Repeat(h, m) == Repeat(h, m);
  }

  // ----- resolve

  /** Sorts the records in place, takes those of minimum priority and expands their compacted weights. */
  method Resolve(srvs: array<Record>, name: Naming) returns (instances: seq<string>)
    modifies srvs
    ensures Sorted(srvs[..], Before) && multiset(srvs[..]) == multiset(old(srvs[..]))
    ensures instances == Instances(srvs[..], name)
  {
    hide StrictOrder, Sorted, WeightsOf, HostsOf, Expand;
    BeforeStrictOrder();
    Sort(srvs, Before);
    var ws, host := TakeBest(srvs, name);
    var times := Compact(ws);
    instances := ExpandHosts(host, times);
  }

  /** Weights and hosts of the records in front that share the best priority. */
  method TakeBest(srvs: array<Record>, name: Naming) returns (ws: seq<uint16>, host: seq<string>)
    ensures ws == WeightsOf(srvs[..][..MinCount(srvs[..])]) && host == HostsOf(srvs[..][..MinCount(srvs[..])], name)
  {
    hide WeightsOf, HostsOf;
    ghost var rs := srvs[..];
    var i := 0;
    ws, host := [], [];
    assert WeightsOf(rs[..0]) == [] && HostsOf(rs[..0], name) == [];
    while i < srvs.Length && srvs[i].priority <= srvs[0].priority
      invariant i <= |rs| && forall k :: 0 <= k < i ==> rs[k].priority <= rs[0].priority
      invariant MinFrom(rs, i) == MinCount(rs)
      invariant ws == WeightsOf(rs[..i]) && host == HostsOf(rs[..i], name)
    {
      OneMoreRecord(rs, i, name);
      ws := ws + [srvs[i].weight];
      host := host + [name(srvs[i].target, srvs[i].port)];
      i := i + 1;
    }
  }

  lemma OneMoreRecord(rs: seq<Record>, i: nat, name: Naming)
    requires i < |rs|
    ensures WeightsOf(rs[..i + 1]) == WeightsOf(rs[..i]) + [rs[i].weight]
    ensures HostsOf(rs[..i + 1], name) == HostsOf(rs[..i], name) + [name(rs[i].target, rs[i].port)]
  {
  }

  method ExpandHosts(host: seq<string>, times: seq<uint16>) returns (instances: seq<string>)
    requires |host| == |times|
    ensures instances == Expand(host, times)
  {
    instances := [];
    for i := 0 to |times|
      invariant instances == Expand(host[..i], times[..i])
    {
      for j := 0 to times[i]
        invariant instances == Expand(host[..i], times[..i]) + Repeat(host[i], j)
      {
        instances := instances + [host[i]];
      }
      assert host[..i + 1][..i] == host[..i] && times[..i + 1][..i] == times[..i];
    }
    assert host[..|host|] == host && times[..|times|] == times;
  }

  /** The order in which DNS lists the records has no influence on the host list. */
  lemma AnswerOrderIrrelevant(a: seq<Record>, b: seq<Record>, name: Naming)
    requires Sorted(a, Before) && Sorted(b, Before) && multiset(a) == multiset(b)
    ensures Instances(a, name) == Instances(b, name)
  {
    BeforeStrictOrder();
    SortedUnique(a, b, Before);
  }

  // ----- random order

  ghost predicate IsPermutation(p: seq<nat>, n: nat) {
    multiset(p) == multiset(seq(n, i requires 0 <= i < n => i))
  }

  lemma PermutationBound(p: seq<nat>, n: nat)
    requires IsPermutation(p, n)
    ensures |p| == n && forall i :: 0 <= i < |p| ==> p[i] < n
  {
    var id := seq(n, i requires 0 <= i < n => i);
    assert |multiset(p)| == |multiset(id)|;
    forall i | 0 <= i < |p| ensures p[i] < n {
      assert p[i] in multiset(p);
      assert p[i] in id;
    }
  }

  function Pick(hosts: seq<string>, p: seq<nat>): (r: seq<string>)
    requires forall i :: 0 <= i < |p| ==> p[i] < |hosts|
    ensures |r| == |p| && forall i :: 0 <= i < |p| ==> r[i] == hosts[p[i]]
  {
    seq(|p|, i requires 0 <= i < |p| => hosts[p[i]])
  }

  lemma PickMultiset(hosts: seq<string>, p: seq<nat>, q: seq<nat>)
    requires forall i :: 0 <= i < |p| ==> p[i] < |hosts|
    requires forall i :: 0 <= i < |q| ==> q[i] < |hosts|
    requires multiset(p) == multiset(q)
    ensures multiset(Pick(hosts, p)) == multiset(Pick(hosts, q))
  {
    var f := (i: nat) => if i < |hosts| then hosts[i] else "";
    MapSame(f, p, q);
    assert Pick(hosts, p) == MapSeq(f, p) && Pick(hosts, q) == MapSeq(f, q);
  }

  /** NewRandomFixedSubscriber: the same hosts in the order of a random permutation. */
  method Shuffle(hosts: seq<string>, perm: seq<nat>) returns (res: array<string>)
    requires IsPermutation(perm, |hosts|)
    ensures fresh(res) && res.Length == |hosts|
    ensures multiset(res[..]) == multiset(hosts)
    ensures forall i :: 0 <= i < |perm| ==> i < |hosts| && perm[i] < |hosts| && res[i] == hosts[perm[i]]
  {
    PermutationBound(perm, |hosts|);
    res := new string[|hosts|];
    var j := 0;
    for i := 0 to |perm|
      invariant j == i
      invariant forall k :: 0 <= k < i ==> res[k] == hosts[perm[k]]
    {
      res[j] := hosts[perm[i]];
      j := j + 1;
    }
    var id := seq(|hosts|, i requires 0 <= i < |hosts| => i);
    PickMultiset(hosts, perm, id);
    assert res[..] == Pick(hosts, perm);
    assert Pick(hosts, id) == hosts;
  }

  /** The instances in the order of the permutation that the random number generator gives for their number. */
  ghost predicate Permuted(cached: seq<string>, instances: seq<string>, perm: nat -> seq<nat>) {
    var p := perm(|instances|);
    |cached| == |instances| == |p| && forall i :: 0 <= i < |p| ==> p[i] < |instances| && cached[i] == instances[p[i]]
  }

  method NewCache(instances: seq<string>, perm: nat -> seq<nat>) returns (cache: array<string>)
    requires forall n :: IsPermutation(perm(n), n)
    ensures fresh(cache) && multiset(cache[..]) == multiset(instances)
    ensures |instances| <= 100 ==> cache[..] == instances
    ensures |instances| > 100 ==> Permuted(cache[..], instances, perm)
  {
    if |instances| > 100 {
      PermutationBound(perm(|instances|), |instances|);
      cache := Shuffle(instances, perm(|instances|));
    } else {
      cache := new string[|instances|](i requires 0 <= i < |instances| => instances[i]);
      assert cache[..] == instances;
    }
  }

  // ----- the cache

  /** The subscriber: each update replaces the cached list under the lock, each read copies it. */
  class Subscriber {
    var cache: array<string>

    constructor ()
      ensures fresh(cache) && cache[..] == []
    {
      cache := new string[0];
    }

    /**
      A failed lookup leaves the cache as it is. Otherwise the cache holds the instances of the sorted
      records, in that order up to 100 of them and permuted beyond. A list handed out before is a
      different object, so no reader sees the change.
     */
    method Update(answer: Answer, name: Naming, perm: nat -> seq<nat>)
      requires forall n :: IsPermutation(perm(n), n)
      modifies this
      ensures answer.Failed? ==> cache == old(cache) && cache[..] == old(cache[..])
      ensures answer.Answered? ==>
                && fresh(cache)
                && exists rs :: Sorted(rs, Before) && multiset(rs) == multiset(answer.records)
                                && multiset(cache[..]) == multiset(Instances(rs, name))
                                && (|Instances(rs, name)| <= 100 ==> cache[..] == Instances(rs, name))
                                && (|Instances(rs, name)| > 100 ==> Permuted(cache[..], Instances(rs, name), perm))
    {
      hide Sorted, Before, Instances, IsPermutation, Permuted;
      if answer.Failed? {
        return;
      }
      var srvs := new Record[|answer.records|](i requires 0 <= i < |answer.records| => answer.records[i]);
      assert srvs[..] == answer.records;
      var instances := Resolve(srvs, name);
      ghost var rs := srvs[..];
      cache := NewCache(instances, perm);
      assert Sorted(rs, Before) && multiset(rs) == multiset(answer.records);
    }

    method Hosts() returns (res: array<string>)
      ensures fresh(res) && res[..] == cache[..]
    {
      res := new string[cache.Length];
      for i := 0 to cache.Length
        invariant res[..i] == cache[..i]
      {
        res[i] := cache[i];
      }
    }
  }
}
