/** Any number of threads inside `AddVertex` at once: the lock-free check, the
    lock-free validation with its penalty, the locked section, and the sync
    request made after the lock is released are the atomic steps. */
module Concurrency {
  import opened Integers
  import opened Sorting
  import opened Vertices
  import opened Encoding
  import opened CausalState
  import opened Dag
  import opened Slashing
  import opened Convergence
  import opened Agreement
  import opened Demerits

  /** Where a thread stands in its call. */
  datatype Thread =
    | Entered(v: Vertex)
    | Unseen(v: Vertex)
    | Validated(v: Vertex)
    | Signalling(v: Vertex, request: SyncRequest)
    | Returned(v: Vertex)
  {
    /** The call has taken effect. */
    predicate Done() {
      Signalling? || Returned?
    }

    /** The request decided on and not yet made. */
    function Owed(): seq<SyncRequest> {
      if Signalling? then [request] else []
    }
  }

  /** The shared node, the threads, the threads whose calls have taken effect,
      in that order, and the sync requests made so far. */
  datatype System = System(shared: Node, threads: seq<Thread>, effects: seq<nat>, sent: seq<SyncRequest>)

  ghost function Start(calls: seq<Vertex>): System {
    System(NEW_NODE, seq(|calls|, i requires 0 <= i < |calls| => Entered(calls[i])), [], [])
  }

  ghost function TakeEffect(c: System, i: nat, node: Node, t: Thread): System
    requires i < |c.threads|
  {
    System(node, c.threads[i := t], c.effects + [i], c.sent)
  }

  /** The sync request of a locked section. */
  ghost function Requested(s: State, v: Vertex, cfg: Settings, m: Moment): Option<SyncRequest> {
    if v.hash in s.vertices then None else SyncNeeded(s.vertices.Keys, v, m.round, cfg.threshold)
  }

  /** One atomic step of thread `i`; `env(k)` is the moment of the `k`-th call
      that takes effect. */
  ghost function Step(c: System, i: nat, cfg: Settings, env: nat -> Moment): System
    requires i < |c.threads|
  {
    var n, m := c.shared, env(|c.effects|);
    match c.threads[i]
    case Entered(v) =>
      if v.hash in n.dag.vertices then TakeEffect(c, i, n, Returned(v))
      else c.(threads := c.threads[i := Unseen(v)])
    case Unseen(v) =>
      if Admissible(v, cfg.digest) then c.(threads := c.threads[i := Validated(v)])
      else TakeEffect(c, i, n.(ledger := Penalised(n.ledger, v, cfg.digest, cfg.policy, m.now)), Returned(v))
    case Validated(v) =>
      var request := Requested(n.dag, v, cfg, m);
      TakeEffect(c, i, n.(dag := Locked(n.dag, v, cfg.capacity), syncs := n.syncs + Listed(request)),
                 if request == None then Returned(v) else Signalling(v, request.value))
    case Signalling(v, request) =>
      c.(threads := c.threads[i := Returned(v)], sent := c.sent + [request])
    case Returned(_) => c
  }

  ghost predicate Schedulable(calls: seq<Vertex>, schedule: seq<nat>) {
    forall k | 0 <= k < |schedule| :: schedule[k] < |calls|
  }

  /** The system after the scheduler picked the threads in `schedule`. */
  ghost function Execute(calls: seq<Vertex>, schedule: seq<nat>, cfg: Settings, env: nat -> Moment): (c: System)
    requires Schedulable(calls, schedule)
    ensures |c.threads| == |calls|
  {
    if schedule == [] then Start(calls)
    else
      var n := |schedule| - 1;
      Step(Execute(calls, schedule[..n], cfg, env), schedule[n], cfg, env)
  }

  /** The calls in the order of their effects. */
  ghost function Calls(calls: seq<Vertex>, order: seq<nat>): seq<Vertex>
    requires Schedulable(calls, order)
  {
    seq(|order|, k requires 0 <= k < |order| => calls[order[k]])
  }

  /** Bookkeeping: each call that is done took effect exactly once, and what a
      validated thread knows is still true. */
  ghost predicate Orderly(c: System, calls: seq<Vertex>, digest: Digest) {
    && |c.threads| == |calls|
    && (forall i | 0 <= i < |calls| :: c.threads[i].v == calls[i])
    && (forall i | 0 <= i < |calls| && c.threads[i].Validated? :: Admissible(calls[i], digest))
    && Distinct(c.effects) && Schedulable(calls, c.effects)
    && (forall i: nat | i < |calls| :: c.threads[i].Done() <==> i in c.effects)
  }

  lemma EffectKeepsOrder(c: System, i: nat, calls: seq<Vertex>, digest: Digest, node: Node, t: Thread)
    requires Orderly(c, calls, digest) && i < |calls| && !c.threads[i].Done()
    requires t.Done() && t.v == calls[i]
    ensures Orderly(TakeEffect(c, i, node, t), calls, digest)
  {
    var c' := TakeEffect(c, i, node, t);
    assert i !in c.effects;
    assert forall j: nat :: j in c'.effects <==> j in c.effects || j == i;
  }

  lemma StepKeepsOrder(c: System, i: nat, calls: seq<Vertex>, cfg: Settings, env: nat -> Moment)
    requires Orderly(c, calls, cfg.digest) && i < |calls|
    ensures Orderly(Step(c, i, cfg, env), calls, cfg.digest)
  {
    var c' := Step(c, i, cfg, env);
    if c'.effects != c.effects {
      EffectKeepsOrder(c, i, calls, cfg.digest, c'.shared, c'.threads[i]);
    }
  }

  // Sync requests: decided under the lock, made after it

  ghost function Owed(threads: seq<Thread>): multiset<SyncRequest> {
    if threads == [] then multiset{}
    else Owed(threads[..|threads| - 1]) + multiset(threads[|threads| - 1].Owed())
  }

  lemma OwedLast(threads: seq<Thread>, t: Thread)
    ensures Owed(threads + [t]) == Owed(threads) + multiset(t.Owed())
  {
    assert (threads + [t])[..|threads|] == threads;
  }

  lemma AddToBoth<T>(a: multiset<T>, p: multiset<T>, b: multiset<T>, q: multiset<T>, r: multiset<T>)
    requires a + p == b + q
    ensures a + r + p == b + r + q
  {
    assert a + r + p == (a + p) + r && b + r + q == (b + q) + r;
  }

  lemma Balance<T>(sent: multiset<T>, owed: multiset<T>, syncs: multiset<T>, left: multiset<T>, x: multiset<T>, y: multiset<T>)
    requires sent + owed == syncs && left + x == owed + y
    ensures sent + x + left == syncs + y
  {
    assert sent + x + left == sent + (left + x) == sent + (owed + y) == (sent + owed) + y;
  }

  lemma OwedBeforeLast(before: seq<Thread>, i: nat, t: Thread, last: Thread)
    requires i < |before|
    requires Owed(before[i := t]) + multiset(before[i].Owed()) == Owed(before) + multiset(t.Owed())
    ensures Owed(before[i := t] + [last]) + multiset(before[i].Owed()) == Owed(before + [last]) + multiset(t.Owed())
  {
    OwedLast(before, last);
    OwedLast(before[i := t], last);
    AddToBoth(Owed(before[i := t]), multiset(before[i].Owed()), Owed(before), multiset(t.Owed()), multiset(last.Owed()));
  }

  lemma OwedAtLast(before: seq<Thread>, last: Thread, t: Thread)
    ensures Owed(before + [t]) + multiset(last.Owed()) == Owed(before + [last]) + multiset(t.Owed())
  {
    OwedLast(before, last);
    OwedLast(before, t);
    AddToBoth(Owed(before), multiset(last.Owed()), Owed(before), multiset(last.Owed()), multiset(t.Owed()));
  }

  lemma UpdateSplits(threads: seq<Thread>, i: nat, t: Thread)
    requires i < |threads|
    ensures var n := |threads| - 1;
            && threads == threads[..n] + [threads[n]]
            && threads[i := t] == if i < n then threads[..n][i := t] + [threads[n]] else threads[..n] + [t]
  {
  }

  lemma {:induction false} OwedUpdate(threads: seq<Thread>, i: nat, t: Thread)
    requires i < |threads|
    ensures Owed(threads[i := t]) + multiset(threads[i].Owed()) == Owed(threads) + multiset(t.Owed())
    decreases |threads|
  {
    var n := |threads| - 1;
    UpdateSplits(threads, i, t);
    if i < n {
      OwedUpdate(threads[..n], i, t);
      OwedBeforeLast(threads[..n], i, t, threads[n]);
    } else {
      OwedAtLast(threads[..n], threads[n], t);
    }
  }

  lemma {:induction false} NothingOwed(threads: seq<Thread>)
    requires forall i | 0 <= i < |threads| :: threads[i].Owed() == []
    ensures Owed(threads) == multiset{}
  {
    if threads != [] {
      NothingOwed(threads[..|threads| - 1]);
    }
  }

  /** Every request decided on has been made or is still owed by its thread. */
  ghost predicate AllSignalled(c: System) {
    multiset(c.sent) + Owed(c.threads) == multiset(c.shared.syncs)
  }

  /** Thread `i` moves on; what it owed before it has sent, and what it owes
      now it has decided on. */
  lemma SignalsBalance(c: System, i: nat, t: Thread, sent: seq<SyncRequest>, syncs: seq<SyncRequest>)
    requires i < |c.threads| && AllSignalled(c)
    requires multiset(sent) == multiset(c.sent) + multiset(c.threads[i].Owed())
    requires multiset(syncs) == multiset(c.shared.syncs) + multiset(t.Owed())
    ensures multiset(sent) + Owed(c.threads[i := t]) == multiset(syncs)
  {
    OwedUpdate(c.threads, i, t);
    Balance(multiset(c.sent), Owed(c.threads), multiset(c.shared.syncs), Owed(c.threads[i := t]),
            multiset(c.threads[i].Owed()), multiset(t.Owed()));
  }

  lemma ThreadStep(c: System, i: nat, cfg: Settings, env: nat -> Moment)
    requires i < |c.threads|
    ensures var c' := Step(c, i, cfg, env);
            && c'.threads == c.threads[i := c'.threads[i]]
            && (if c.threads[i].Signalling? then c'.threads[i].Owed() == [] && c'.sent == c.sent + c.threads[i].Owed()
                else c.threads[i].Owed() == [] && c'.sent == c.sent)
            && c'.shared.syncs == c.shared.syncs + c'.threads[i].Owed()
  {
  }

  lemma StepKeepsSignals(c: System, i: nat, cfg: Settings, env: nat -> Moment)
    requires i < |c.threads| && AllSignalled(c)
    ensures AllSignalled(Step(c, i, cfg, env))
  {
    var c' := Step(c, i, cfg, env);
    ThreadStep(c, i, cfg, env);
    MultisetOfConcat(c.sent, c.threads[i].Owed());
    MultisetOfConcat(c.shared.syncs, c'.threads[i].Owed());
    SignalsBalance(c, i, c'.threads[i], c'.sent, c'.shared.syncs);
  }

  lemma MultisetOfConcat<T>(s: seq<T>, t: seq<T>)
    ensures multiset(s + t) == multiset(s) + multiset(t)
    ensures t == [] ==> s + t == s && multiset(t) == multiset{}
  {
  }

  // Linearizability

  lemma EffectIsDelivery(calls: seq<Vertex>, order: seq<nat>, i: nat, cfg: Settings, env: nat -> Moment)
    requires Schedulable(calls, order) && i < |calls|
    ensures Replay(Calls(calls, order + [i]), cfg, env) ==
              Receive(Replay(Calls(calls, order), cfg, env), calls[i], cfg, env(|order|))
  {
    assert Calls(calls, order + [i])[..|order|] == Calls(calls, order);
  }

  ghost predicate SameButLedger(n: Node, m: Node) {
    n.dag == m.dag && n.syncs == m.syncs
  }

  /** A step either changes nothing shared, or has on the DAG, the orphanage and
      the sync requests exactly the effect of the whole call made at that moment. */
  lemma StepIsCall(c: System, i: nat, calls: seq<Vertex>, cfg: Settings, env: nat -> Moment)
    requires Orderly(c, calls, cfg.digest) && i < |calls|
    ensures var c' := Step(c, i, cfg, env);
            if c'.effects == c.effects then c'.shared == c.shared
            else c'.effects == c.effects + [i] &&
                 SameButLedger(c'.shared, Receive(c.shared, calls[i], cfg, env(|c.effects|)))
  {
  }

  /** The same for the penalties, unless the call is for a malformed vertex
      whose hash is already committed. */
  lemma StepIsCallOnLedger(c: System, i: nat, calls: seq<Vertex>, cfg: Settings, env: nat -> Moment)
    requires Orderly(c, calls, cfg.digest) && i < |calls|
    requires Malformed(calls[i], cfg.digest) ==> calls[i].hash !in c.shared.dag.vertices
    ensures var c' := Step(c, i, cfg, env);
            c'.effects != c.effects ==>
              c'.shared.ledger == Receive(c.shared, calls[i], cfg, env(|c.effects|)).ledger
  {
  }

  lemma ReceiveIgnoresLedger(n: Node, m: Node, v: Vertex, cfg: Settings, at: Moment)
    requires SameButLedger(n, m)
    ensures SameButLedger(Receive(n, v, cfg, at), Receive(m, v, cfg, at))
  {
  }

  /** Linearizability: for every set of calls and every schedule, at every
      moment, and with no assumption on the hash function, the DAG, the
      orphanage and the sync requests decided on are what one thread would have
      produced by making the calls one after the other in the order of their
      effects; and each of those requests has been made once, or is still owed. */
  lemma {:induction false} EveryScheduleIsLinear(calls: seq<Vertex>, schedule: seq<nat>, cfg: Settings, env: nat -> Moment)
    requires Schedulable(calls, schedule)
    ensures var c := Execute(calls, schedule, cfg, env);
            && Orderly(c, calls, cfg.digest) && AllSignalled(c)
            && SameButLedger(c.shared, Replay(Calls(calls, c.effects), cfg, env))
  {
    if schedule == [] {
      NothingOwed(Start(calls).threads);
      assert Calls(calls, []) == [];
    } else {
      var n := |schedule| - 1;
      EveryScheduleIsLinear(calls, schedule[..n], cfg, env);
      LinearStep(Execute(calls, schedule[..n], cfg, env), schedule[n], calls, cfg, env);
    }
  }

  lemma LinearStep(c: System, i: nat, calls: seq<Vertex>, cfg: Settings, env: nat -> Moment)
    requires Orderly(c, calls, cfg.digest) && AllSignalled(c) && i < |calls|
    requires SameButLedger(c.shared, Replay(Calls(calls, c.effects), cfg, env))
    ensures var c' := Step(c, i, cfg, env);
            && Orderly(c', calls, cfg.digest) && AllSignalled(c')
            && SameButLedger(c'.shared, Replay(Calls(calls, c'.effects), cfg, env))
  {
    StepKeepsOrder(c, i, calls, cfg, env);
    StepKeepsSignals(c, i, cfg, env);
    StepIsCall(c, i, calls, cfg, env);
    EffectIsDelivery(calls, c.effects, i, cfg, env);
    ReceiveIgnoresLedger(c.shared, Replay(Calls(calls, c.effects), cfg, env), calls[i], cfg, env(|c.effects|));
  }

  lemma MadeAreCalls(calls: seq<Vertex>, order: seq<nat>)
    requires Schedulable(calls, order)
    ensures forall v | v in Calls(calls, order) :: v in calls
    ensures Elements(Calls(calls, order)) <= Elements(calls)
  {
  }

  /** Linearizability of the whole node, penalties included, when a hash names
      one list of parents. */
  lemma {:induction false} EveryScheduleJudgesAlike(calls: seq<Vertex>, schedule: seq<nat>, cfg: Settings, env: nat -> Moment)
    requires Schedulable(calls, schedule) && Consistent(HashValidOnes(Elements(calls), cfg.digest))
    ensures var c := Execute(calls, schedule, cfg, env);
            Orderly(c, calls, cfg.digest) && c.shared == Replay(Calls(calls, c.effects), cfg, env)
  {
    if schedule != [] {
      var n := |schedule| - 1;
      var c, i := Execute(calls, schedule[..n], cfg, env), schedule[n];
      EveryScheduleJudgesAlike(calls, schedule[..n], cfg, env);
      StepKeepsOrder(c, i, calls, cfg, env);
      if Malformed(calls[i], cfg.digest) {
        MadeAreCalls(calls, c.effects);
        assert calls[i] in Elements(calls);
        MalformedNotCommitted(Calls(calls, c.effects), calls[i], cfg, Elements(calls));
        ReplayRunsTheDag(Calls(calls, c.effects), cfg, env);
      }
      StepIsCall(c, i, calls, cfg, env);
      StepIsCallOnLedger(c, i, calls, cfg, env);
      EffectIsDelivery(calls, c.effects, i, cfg, env);
    }
  }

  ghost predicate AllReturned(c: System) {
    forall i | 0 <= i < |c.threads| :: c.threads[i].Returned?
  }

  lemma EffectsCoverCalls(c: System, calls: seq<Vertex>, digest: Digest)
    requires Orderly(c, calls, digest) && AllReturned(c)
    ensures forall v :: v in Calls(calls, c.effects) <==> v in calls
    ensures Elements(Calls(calls, c.effects)) == Elements(calls)
  {
    var made := Calls(calls, c.effects);
    MadeAreCalls(calls, c.effects);
    forall v | v in calls ensures v in made {
      var i: nat :| i < |calls| && calls[i] == v;
      assert i in c.effects;
      var k :| 0 <= k < |c.effects| && c.effects[k] == i;
      assert made[k] == v;
    }
  }

  /** When every call has returned, the sync requests made are those of the
      sequential order, each as often. */
  lemma {:induction false} EveryScheduleSyncs(calls: seq<Vertex>, schedule: seq<nat>, cfg: Settings, env: nat -> Moment)
    requires Schedulable(calls, schedule) && AllReturned(Execute(calls, schedule, cfg, env))
    ensures var c := Execute(calls, schedule, cfg, env);
            Schedulable(calls, c.effects) && multiset(c.sent) == multiset(Replay(Calls(calls, c.effects), cfg, env).syncs)
  {
    EveryScheduleIsLinear(calls, schedule, cfg, env);
    NothingOwed(Execute(calls, schedule, cfg, env).threads);
  }

  /** When every call has returned, the DAG is the causal closure of the calls
      and the penalties are those of the formula: no schedule matters. */
  lemma {:induction false} EveryScheduleConverges(calls: seq<Vertex>, schedule: seq<nat>, cfg: Settings, env: nat -> Moment)
    requires Schedulable(calls, schedule) && AllReturned(Execute(calls, schedule, cfg, env))
    requires Consistent(Admitted(calls, cfg.digest)) && Roomy(Admitted(calls, cfg.digest), cfg.capacity)
    ensures var s, vs := Execute(calls, schedule, cfg, env).shared.dag, Admitted(calls, cfg.digest);
            s.vertices.Keys == Closure(vs) && s.orphans.Keys == Known(vs) - Closure(vs)
  {
    var c := Execute(calls, schedule, cfg, env);
    EveryScheduleIsLinear(calls, schedule, cfg, env);
    EffectsCoverCalls(c, calls, cfg.digest);
    var made := Calls(calls, c.effects);
    assert Admitted(made, cfg.digest) == Admitted(calls, cfg.digest);
    ReplayRunsTheDag(made, cfg, env);
    CapacitySuffices(made, cfg.capacity, cfg.digest);
    ConvergesToClosure(made, cfg.capacity, cfg.digest);
  }

  lemma {:induction false} EverySchedulePunishesAlike(calls: seq<Vertex>, schedule: seq<nat>, cfg: Settings,
                                                      env: nat -> Moment, a: int)
    requires Schedulable(calls, schedule) && AllReturned(Execute(calls, schedule, cfg, env))
    requires Punishing(cfg.policy) && Consistent(HashValidOnes(Elements(calls), cfg.digest))
    requires !Divertible(Pairs(Elements(calls), cfg.digest), a, SlashCount(cfg.policy))
    ensures Penalty(Execute(calls, schedule, cfg, env).shared.ledger, a) ==
              cfg.policy.malformedVertexPenalty *
                Smaller(|Offences(Pairs(Elements(calls), cfg.digest), a)|, SlashCount(cfg.policy))
  {
    var c := Execute(calls, schedule, cfg, env);
    EveryScheduleJudgesAlike(calls, schedule, cfg, env);
    EffectsCoverCalls(c, calls, cfg.digest);
    PenaltyFormula(Calls(calls, c.effects), cfg, env, a);
  }
}
