/** Which full-response replacement of a sequential run gets a body: a body can be read once. */
module SequentialBodies {
  import opened Wrappers
  import opened MergeSpec
  import opened SequentialSpec

  /** The visits of a run with all that decides what they propagate. */
  datatype Run = Run(n: nat, visits: seq<Visit>, reps: seq<seq<Replacement>>, bodies: seq<Option<BodyText>>,
                     given: Strings, render: Rendering)

  ghost predicate Happened(u: Run) {
    AllPropagated(u.n, u.visits, u.reps, u.bodies, u.given, u.render)
  }

  /** The state before the first m replacements of round j are over. */
  ghost predicate InRound(u: Run, j: nat, m: nat) {
    j < |u.visits| <= |u.reps| == |u.bodies| && m <= |u.reps[j]|
  }

  /** What has been propagated after the first m replacements of round j; round 0 has no replacements. */
  ghost function MemoAt(u: Run, j: nat, m: nat): Memo
    requires InRound(u, j, m)
  {
    if j == 0 then NO_MEMO
    else ReplaceAll(u.reps[j][..m], OffersOf(u.n, u.visits[..j], u.bodies), LastMemo(u.visits[..j]), u.render)
  }

  /** Replacement m of round j is one that the run comes to. */
  ghost predicate IsStep(u: Run, j: nat, m: nat) {
    0 < j && InRound(u, j, m) && m < |u.reps[j]|
  }

  /** The body of visit k's response as it was sent. */
  function BodyOf(u: Run, k: nat): Option<BodyText>
    requires k < |u.visits| <= |u.bodies|
  {
    if u.visits[k].outcome.None? then None else u.bodies[k]
  }

  /** A full-response replacement that names an earlier backend, and whose destination is not settled when its turn comes. */
  ghost predicate WantsBody(u: Run, j: nat, m: nat) {
    && IsStep(u, j, m)
    && var r := u.reps[j][m];
       r.fullResponse && r.backendIndex < j && !Settled(MemoAt(u, j, m).registry, r.destination)
  }

  ghost predicate ReadsBody(u: Run, j: nat, m: nat, k: nat) {
    WantsBody(u, j, m) && u.reps[j][m].backendIndex == k && BodyOf(u, k).Some?
  }

  predicate Before(i: nat, l: nat, j: nat, m: nat) { i < j || (i == j && l < m) }

  /** Some replacement before replacement m of round j has read the body of backend k. */
  ghost predicate ReadBefore(u: Run, j: nat, m: nat, k: nat) {
    exists i, l :: Before(i, l, j, m) && ReadsBody(u, i, l, k)
  }

  /** One replacement, seen in the run. */
  lemma MemoStep(u: Run, j: nat, m: nat)
    requires IsStep(u, j, m)
    ensures var r, before := u.reps[j][m], MemoAt(u, j, m);
            MemoAt(u, j, m + 1) == if r.backendIndex >= j then before
                                   else Replace(r, OffersOf(u.n, u.visits[..j], u.bodies)[r.backendIndex], before, u.render)
    ensures u.reps[j][m].backendIndex < j ==>
              OffersOf(u.n, u.visits[..j], u.bodies)[u.reps[j][m].backendIndex].body == BodyOf(u, u.reps[j][m].backendIndex)
  {
    hide ReplaceAll, Replace;
    ReplaceStep(u.reps[j], OffersOf(u.n, u.visits[..j], u.bodies), LastMemo(u.visits[..j]), u.render, m);
  }

  /** A round ends with the memo that the next one starts with, and that its backend is called with. */
  lemma RoundMemo(u: Run, j: nat)
    requires Happened(u) && j < |u.visits|
    ensures MemoAt(u, j, |u.reps[j]|) == u.visits[j].memo && MemoAt(u, j, 0) == if j == 0 then NO_MEMO else u.visits[j - 1].memo
  {
    assert Propagated(u.n, u.visits[..j], u.visits[j], u.reps[j], u.bodies, u.given, u.render);
    assert u.reps[j][..|u.reps[j]|] == u.reps[j];
  }

  lemma StepReads(u: Run, j: nat, m: nat, k: nat)
    requires IsStep(u, j, m)
    ensures k in MemoAt(u, j, m + 1).read <==> k in MemoAt(u, j, m).read || ReadsBody(u, j, m, k)
  {
    hide MemoAt;
    MemoStep(u, j, m);
  }

  lemma ReadBeforeNext(u: Run, j: nat, m: nat, k: nat)
    ensures ReadBefore(u, j, m + 1, k) <==> ReadBefore(u, j, m, k) || ReadsBody(u, j, m, k)
  {
    hide ReadsBody;
    if i, l :| Before(i, l, j, m) && ReadsBody(u, i, l, k) { assert Before(i, l, j, m + 1); }
    if ReadsBody(u, j, m, k) { assert Before(j, m, j, m + 1); }
  }

  lemma ReadBeforeRound(u: Run, j: nat, k: nat)
    requires 0 < j < |u.visits| <= |u.reps|
    ensures ReadBefore(u, j, 0, k) <==> ReadBefore(u, j - 1, |u.reps[j - 1]|, k)
  {
    if i, l :| Before(i, l, j, 0) && ReadsBody(u, i, l, k) { assert Before(i, l, j - 1, |u.reps[j - 1]|); }
    if i, l :| Before(i, l, j - 1, |u.reps[j - 1]|) && ReadsBody(u, i, l, k) { assert Before(i, l, j, 0); }
  }

  lemma FirstRoundReadsNothing(u: Run, m: nat, k: nat)
    requires InRound(u, 0, m)
    ensures !ReadBefore(u, 0, m, k) && k !in MemoAt(u, 0, m).read
  {
  }

  /** The bodies on record as read are exactly those that some earlier replacement of the run has read. */
  lemma {:induction false} ReadIff(u: Run, j: nat, m: nat, k: nat)
    requires Happened(u) && InRound(u, j, m)
    ensures k in MemoAt(u, j, m).read <==> ReadBefore(u, j, m, k)
    decreases j, m
  {
    hide ReadBefore, ReadsBody, Happened, MemoAt;
    if j == 0 {
      FirstRoundReadsNothing(u, m, k);
    } else if m == 0 {
      RoundMemo(u, j);
      RoundMemo(u, j - 1);
      ReadIff(u, j - 1, |u.reps[j - 1]|, k);
      ReadBeforeRound(u, j, k);
    } else {
      ReadIff(u, j, m - 1, k);
      StepReads(u, j, m - 1, k);
      ReadBeforeNext(u, j, m - 1, k);
    }
  }

  /**
    What a full-response replacement propagates: the whole body if no earlier replacement of the run, to a
    destination not settled at that moment, has read it, else nothing but the empty text.
   */
  lemma WholeBodyIff(u: Run, j: nat, m: nat)
    requires Happened(u) && InRound(u, j, m)
    ensures WantsBody(u, j, m) ==>
              var r, before, after := u.reps[j][m], MemoAt(u, j, m).registry, MemoAt(u, j, m + 1).registry;
              match BodyOf(u, r.backendIndex)
              case None => after == before
              case Some(b) =>
                if b.fails then after == before
                else after == before[r.destination := if ReadBefore(u, j, m, r.backendIndex) then "" else b.text]
  {
    hide MemoAt, ReadBefore, Happened;
    if WantsBody(u, j, m) {
      MemoStep(u, j, m);
      ReadIff(u, j, m, u.reps[j][m].backendIndex);
    }
  }

  /** The replacement is the first of the run to read its backend's body, and reads a non-empty text. */
  ghost predicate GetsText(u: Run, j: nat, m: nat) {
    && WantsBody(u, j, m)
    && var k := u.reps[j][m].backendIndex;
       && BodyOf(u, k).Some? && !BodyOf(u, k).value.fails && BodyOf(u, k).value.text != ""
       && !ReadBefore(u, j, m, k)
  }

  lemma {:induction false} ReplaceAllSplit(a: seq<Replacement>, b: seq<Replacement>, offers: seq<Offer>, memo: Memo, render: Rendering)
    ensures ReplaceAll(a + b, offers, memo, render) == ReplaceAll(b, offers, ReplaceAll(a, offers, memo, render), render)
    decreases |b|
  {
    hide Replace;
    if b == [] {
      assert a + b == a;
    } else {
      ReplaceAllSplit(a, b[..|b| - 1], offers, memo, render);
      assert (a + b)[..|a + b| - 1] == a + b[..|b| - 1];
    }
  }

  /** What is settled within a round is what the backend of the round is called with. */
  lemma SettledInRound(u: Run, j: nat, m: nat, d: string)
    requires Happened(u) && InRound(u, j, m) && Settled(MemoAt(u, j, m).registry, d)
    ensures Settled(u.visits[j].memo.registry, d) && u.visits[j].memo.registry[d] == MemoAt(u, j, m).registry[d]
  {
    hide Happened, ReplaceAll, OffersOf;
    RoundMemo(u, j);
    if j > 0 {
      var offers, start := OffersOf(u.n, u.visits[..j], u.bodies), LastMemo(u.visits[..j]);
      assert u.reps[j][..|u.reps[j]|] == u.reps[j] == u.reps[j][..m] + u.reps[j][m..];
      ReplaceAllSplit(u.reps[j][..m], u.reps[j][m..], offers, start, u.render);
      ReplaceAllSound(u.reps[j][m..], offers, MemoAt(u, j, m), u.render, d);
    }
  }

  /** A whole, non-empty body that a replacement gets is what every backend from its round on is called with. */
  lemma WholeBodyReaches(u: Run, j: nat, m: nat, i: nat)
    requires Happened(u) && InRound(u, j, m) && j <= i < |u.visits|
    ensures GetsText(u, j, m) ==>
              var r := u.reps[j][m];
              r.destination in u.visits[i].params && u.visits[i].params[r.destination] == BodyOf(u, r.backendIndex).value.text
  {
    hide MemoAt, ReadBefore;
    if GetsText(u, j, m) {
      var d := u.reps[j][m].destination;
      WholeBodyIff(u, j, m);
      SettledInRound(u, j, m + 1, d);
      NeverChanges(u.n, u.visits, u.reps, u.bodies, u.given, u.render, j, i, d);
    }
  }
}
