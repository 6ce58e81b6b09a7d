/** When eviction is harmless. A full buffer drops an orphan for good unless
    somebody sends it again; the results here say exactly when a run converges,
    which delivery sequences converge at every capacity, and which capacity
    makes every order of delivery converge. */
module Eviction {
  import opened Sorting
  import opened Hashes
  import opened Vertices
  import opened Encoding
  import opened CausalState
  import opened Convergence
  import opened Agreement

  /** The promise of the orphan buffer: the DAG is the causal closure. */
  ghost predicate ConvergesAt(ds: seq<Vertex>, capacity: int, digest: Digest) {
    Run(ds, capacity, digest).vertices.Keys == Closure(Admitted(ds, digest))
  }

  // One run

  /** Delivery `k` finds the buffer full and costs `h` its place. */
  ghost predicate Evicts(ds: seq<Vertex>, k: nat, h: Hash, capacity: int, digest: Digest)
    requires k < |ds|
  {
    var s := Run(ds[..k], capacity, digest);
    && Admissible(ds[k], digest) && !Room(s, ds[k], capacity)
    && IsVictim(h, s.orphans[ds[k].hash := ds[k]], s.vertices.Keys)
  }

  ghost predicate Sends(v: Vertex, h: Hash, digest: Digest) {
    Admissible(v, digest) && v.hash == h
  }

  /** `h` is sent at position `k` or later. */
  ghost predicate SentFrom(ds: seq<Vertex>, k: nat, h: Hash, digest: Digest) {
    exists j :: k <= j < |ds| && Sends(ds[j], h, digest)
  }

  ghost predicate DroppedAt(ds: seq<Vertex>, k: nat, h: Hash, capacity: int, digest: Digest) {
    k < |ds| && Evicts(ds, k, h, capacity, digest) && !SentFrom(ds, k + 1, h, digest)
  }

  /** `h` is evicted and not sent again after that. */
  ghost predicate Lost(ds: seq<Vertex>, h: Hash, capacity: int, digest: Digest) {
    exists k :: DroppedAt(ds, k, h, capacity, digest)
  }

  lemma SentStep(ds: seq<Vertex>, k: nat, h: Hash, digest: Digest)
    requires k < |ds|
    ensures SentFrom(ds, k, h, digest) <==>
              SentFrom(ds[..|ds| - 1], k, h, digest) || Sends(ds[|ds| - 1], h, digest)
  {
    var n := |ds| - 1;
    if SentFrom(ds[..n], k, h, digest) {
      var j :| k <= j < n && Sends(ds[..n][j], h, digest);
      assert Sends(ds[j], h, digest);
    }
    if SentFrom(ds, k, h, digest) {
      var j :| k <= j < |ds| && Sends(ds[j], h, digest);
      assert j < n ==> Sends(ds[..n][j], h, digest);
    }
  }

  lemma DroppedBefore(ds: seq<Vertex>, k: nat, h: Hash, capacity: int, digest: Digest)
    requires k + 1 < |ds|
    ensures var n := |ds| - 1;
            DroppedAt(ds, k, h, capacity, digest) <==>
              DroppedAt(ds[..n], k, h, capacity, digest) && !Sends(ds[n], h, digest)
  {
    var before := ds[..|ds| - 1];
    SentStep(ds, k + 1, h, digest);
    assert Evicts(ds, k, h, capacity, digest) <==> Evicts(before, k, h, capacity, digest) by {
      assert before[..k] == ds[..k] && before[k] == ds[k];
    }
  }

  lemma LostStep(ds: seq<Vertex>, h: Hash, capacity: int, digest: Digest)
    requires ds != []
    ensures var n := |ds| - 1;
            Lost(ds, h, capacity, digest) <==>
              Evicts(ds, n, h, capacity, digest) || (Lost(ds[..n], h, capacity, digest) && !Sends(ds[n], h, digest))
  {
    var n := |ds| - 1;
    assert DroppedAt(ds, n, h, capacity, digest) <==> Evicts(ds, n, h, capacity, digest);
    forall k: nat | k < n
      ensures DroppedAt(ds, k, h, capacity, digest) <==>
                DroppedAt(ds[..n], k, h, capacity, digest) && !Sends(ds[n], h, digest)
    {
      DroppedBefore(ds, k, h, capacity, digest);
    }
    if Lost(ds, h, capacity, digest) {
      var k :| DroppedAt(ds, k, h, capacity, digest);
      assert k == n || DroppedAt(ds[..n], k, h, capacity, digest);
    }
    if Lost(ds[..n], h, capacity, digest) {
      var k :| DroppedAt(ds[..n], k, h, capacity, digest);
      assert DroppedAt(ds, k, h, capacity, digest) <==> !Sends(ds[n], h, digest);
    }
  }

  /** What one locked section does to a single hash. */
  lemma HeldAfter(s: State, v: Vertex, h: Hash, capacity: int)
    requires Keyed(s.orphans) && s.vertices.Keys !! s.orphans.Keys
    ensures h in Held(Locked(s, v, capacity)) <==>
              && (h in Held(s) || h == v.hash)
              && (Room(s, v, capacity) || !IsVictim(h, s.orphans[v.hash := v], s.vertices.Keys))
  {
    if Room(s, v, capacity) {
      RoomLosesNothing(s, v, capacity);
    } else {
      NoRoomLosesVictim(s, v, capacity);
      var victim := Victim(s.orphans[v.hash := v], s.vertices.Keys);
      if IsVictim(h, s.orphans[v.hash := v], s.vertices.Keys) {
        VictimUnique(h, victim, s.orphans[v.hash := v], s.vertices.Keys);
      }
    }
  }

  /** A node holds exactly what it was sent and has not lost. */
  lemma {:induction false} HeldIffNotLost(ds: seq<Vertex>, h: Hash, capacity: int, digest: Digest)
    requires Consistent(Admitted(ds, digest))
    ensures h in Held(Run(ds, capacity, digest)) <==>
              h in Known(Admitted(ds, digest)) && !Lost(ds, h, capacity, digest)
  {
    if ds != [] {
      var n := |ds| - 1;
      var before, v := ds[..n], ds[n];
      AdmittedStep(ds, digest);
      KnownStep(Admitted(before, digest), v);
      HeldIffNotLost(before, h, capacity, digest);
      LostStep(ds, h, capacity, digest);
      if Admissible(v, digest) {
        NeverCommittedAndWaiting(before, capacity, digest);
        RunKeepsInv(before, capacity, digest);
        HeldAfter(Run(before, capacity, digest), v, h, capacity);
      }
    }
  }

  lemma ClosureIsKnown(vs: set<Vertex>)
    ensures Closure(vs) <= Known(vs)
  {
    ClosureWithin(vs, Known(vs));
  }

  /** Saturation: holding the closure is having committed it. */
  lemma HoldingIsConverging(ds: seq<Vertex>, capacity: int, digest: Digest)
    requires Consistent(Admitted(ds, digest))
    ensures ConvergesAt(ds, capacity, digest) <==> Closure(Admitted(ds, digest)) <= Held(Run(ds, capacity, digest))
  {
    var s, vs := Run(ds, capacity, digest), Admitted(ds, digest);
    NeverOutsideClosure(ds, capacity, digest);
    if Closure(vs) <= Held(s) {
      RunKeepsInv(ds, capacity, digest);
      RunDrawsFrom(ds, capacity, digest, vs);
      HeldClosureIsCommitted(s, vs);
    }
  }

  lemma HeldClosureIsCommitted(s: State, vs: set<Vertex>)
    requires Inv(s) && DrawnFrom(s, vs) && Consistent(vs)
    requires s.vertices.Keys <= Closure(vs) <= Held(s)
    ensures s.vertices.Keys == Closure(vs)
  {
    ClosureIsLeastClosed(vs);
    forall v | v in vs && Complete(v, s.vertices.Keys) ensures v.hash in s.vertices {
      assert Complete(v, Closure(vs));
      assert vs + {v} == vs;
      WaitingIsIncomplete(s, v, vs);
    }
    ClosureWithin(vs, s.vertices.Keys);
  }

  /** A run converges exactly when every eviction of a vertex of the closure is
      followed by another delivery of that vertex. */
  lemma {:induction false} ConvergesIff(ds: seq<Vertex>, capacity: int, digest: Digest)
    requires Consistent(Admitted(ds, digest))
    ensures ConvergesAt(ds, capacity, digest) <==>
              forall h | h in Closure(Admitted(ds, digest)) :: !Lost(ds, h, capacity, digest)
  {
    HoldingIsConverging(ds, capacity, digest);
    ClosureIsKnown(Admitted(ds, digest));
    forall h | h in Closure(Admitted(ds, digest))
      ensures h in Held(Run(ds, capacity, digest)) <==> !Lost(ds, h, capacity, digest)
    {
      HeldIffNotLost(ds, h, capacity, digest);
    }
  }

  // Every capacity

  lemma ParentsFirstGrows(before: seq<Vertex>, v: Vertex, at: seq<nat>, digest: Digest)
    requires ParentsFirst(before, at, digest)
    ensures ParentsFirst(before + [v], at, digest)
    ensures HashesAt(before + [v], at) == HashesAt(before, at)
  {
    var ds := before + [v];
    forall n: nat | n <= |at| ensures HashesAt(ds, at[..n]) == HashesAt(before, at[..n]) {
      assert forall i | 0 <= i < n :: ds[at[..n][i]] == before[at[..n][i]];
    }
    assert at[..|at|] == at;
  }

  lemma ParentsFirstAppends(ds: seq<Vertex>, at: seq<nat>, digest: Digest)
    requires ds != [] && ParentsFirst(ds, at, digest) && (forall i | 0 <= i < |at| :: at[i] < |ds| - 1)
    requires Admissible(ds[|ds| - 1], digest) && Complete(ds[|ds| - 1], HashesAt(ds, at))
    ensures ParentsFirst(ds, at + [|ds| - 1], digest)
    ensures HashesAt(ds, at + [|ds| - 1]) == HashesAt(ds, at) + {ds[|ds| - 1].hash}
  {
    var n := |ds| - 1;
    var longer := at + [n];
    assert longer[..|at|] == at;
    forall i | 0 <= i < |longer| ensures Admissible(ds[longer[i]], digest) && Complete(ds[longer[i]], HashesAt(ds, longer[..i])) {
      if i < |at| {
        assert longer[..i] == at[..i];
      }
    }
    assert longer[|at|] == n;
  }

  lemma CommittedAlone(s: State, v: Vertex)
    requires s.orphans == map[] && v.hash !in s.vertices
    ensures Cascade(s, [v]).vertices.Keys == s.vertices.Keys + {v.hash}
    ensures Cascade(s, [v]).orphans == map[]
  {
    CascadeConserves(s, [v]);
    CascadeIsLeast(s, [v], s.vertices.Keys + {v.hash});
    CascadeExtends(s, [v]);
    CascadeDrawsFrom(s, [v], s.vertices.Values + {v});
    assert Cascade(s, [v]).orphans.Keys == {};
  }

  /** With no buffer at all, the deliveries that commit come parents first. */
  lemma {:induction false} CommitsParentsFirst(ds: seq<Vertex>, digest: Digest) returns (at: seq<nat>)
    ensures ParentsFirst(ds, at, digest)
    ensures HashesAt(ds, at) == Run(ds, 0, digest).vertices.Keys
  {
    if ds == [] {
      at := [];
    } else {
      var before, v := ds[..|ds| - 1], ds[|ds| - 1];
      var s := Run(before, 0, digest);
      at := CommitsParentsFirst(before, digest);
      assert ds == before + [v];
      ParentsFirstGrows(before, v, at, digest);
      BufferBounded(before, 0, digest);
      if Admissible(v, digest) && v.hash !in s.vertices && Complete(v, s.vertices.Keys) {
        CommittedAlone(s, v);
        ParentsFirstAppends(ds, at, digest);
        at := at + [|ds| - 1];
      }
    }
  }

  /** The deliveries contain the closure, parents first, as a subsequence. */
  ghost predicate ClosureInOrder(ds: seq<Vertex>, at: seq<nat>, digest: Digest) {
    ParentsFirst(ds, at, digest) && Closure(Admitted(ds, digest)) <= HashesAt(ds, at)
  }

  /** A sequence of deliveries converges at every capacity exactly when it
      converges with no buffer, and exactly when it contains the closure in
      some parents-first order as a subsequence. */
  lemma {:induction false} ConvergesAtEveryCapacityIff(ds: seq<Vertex>, digest: Digest)
    ensures (forall capacity :: ConvergesAt(ds, capacity, digest)) <==> exists at :: ClosureInOrder(ds, at, digest)
    ensures (forall capacity :: ConvergesAt(ds, capacity, digest)) <==> ConvergesAt(ds, 0, digest)
  {
    if ConvergesAt(ds, 0, digest) {
      var at := CommitsParentsFirst(ds, digest);
      assert ClosureInOrder(ds, at, digest);
    }
    if at :| ClosureInOrder(ds, at, digest) {
      forall capacity ensures ConvergesAt(ds, capacity, digest) {
        ConvergesDespiteEviction(ds, at, capacity, digest);
      }
    }
  }

  // Every order

  lemma HeldGrowsByOne(s: State, v: Vertex, capacity: int)
    requires Keyed(s.orphans)
    ensures Held(Locked(s, v, capacity)) <= Held(s) + {v.hash}
  {
    if v.hash !in s.vertices {
      if Complete(v, s.vertices.Keys) {
        SingleHash(v);
        CascadeConserves(s, [v]);
      } else {
        ParkContents(s.orphans, s.vertices.Keys, v, capacity);
      }
    }
  }

  lemma NotSentNotTaken(s: State, v: Vertex, h: Hash, capacity: int, digest: Digest)
    requires Keyed(s.orphans) && h !in Held(s) && !Sends(v, h, digest)
    ensures h !in Held(Deliver(s, v, capacity, digest))
  {
    HeldGrowsByOne(s, v, capacity);
  }

  lemma NotSentStep(first: seq<Vertex>, last: seq<Vertex>, n: nat, h: Hash, capacity: int, digest: Digest)
    requires n < |last| && h !in Known(Admitted(last, digest))
    requires h !in Held(Run(first + last[..n], capacity, digest))
    ensures h !in Held(Run(first + last[..n + 1], capacity, digest))
  {
    RunKeepsInv(first + last[..n], capacity, digest);
    RunAppend(first, last, n, capacity, digest);
    assert Admissible(last[n], digest) ==> last[n] in Admitted(last, digest);
    NotSentNotTaken(Run(first + last[..n], capacity, digest), last[n], h, capacity, digest);
  }

  /** What a node does not hold and is not sent again, it never commits. */
  lemma {:induction false} NotSentNotHeld(first: seq<Vertex>, last: seq<Vertex>, n: nat, h: Hash, capacity: int, digest: Digest)
    requires n <= |last| && h !in Held(Run(first, capacity, digest)) && h !in Known(Admitted(last, digest))
    ensures h !in Held(Run(first + last[..n], capacity, digest))
  {
    if n == 0 {
      assert first + last[..0] == first;
    } else {
      NotSentNotHeld(first, last, n - 1, h, capacity, digest);
      NotSentStep(first, last, n - 1, h, capacity, digest);
    }
  }

  lemma {:induction false} NothingCommitted(ds: seq<Vertex>, capacity: int, digest: Digest)
    requires forall i | 0 <= i < |ds| :: ds[i].parents != []
    ensures Run(ds, capacity, digest).vertices == map[]
  {
    if ds != [] {
      var v := ds[|ds| - 1];
      NothingCommitted(ds[..|ds| - 1], capacity, digest);
      assert v.parents[0] in v.parents;
      assert !Complete(v, {});
    }
  }

  lemma SomethingMissing<T>(a: set<T>, b: set<T>) returns (x: T)
    requires |a| < |b|
    ensures x in b && x !in a
  {
    if b <= a {
      SubsetIsNotLarger(b, a);
    }
    x :| x in b && x !in a;
  }

  /** Without redelivery a buffer of any capacity can lose: deliver first more
      vertices with parents than it has places, and then only roots. */
  lemma {:induction false} EvictionCanLose(first: seq<Vertex>, last: seq<Vertex>, capacity: int, digest: Digest)
    requires forall i | 0 <= i < |first| :: first[i].parents != []
    requires forall i | 0 <= i < |last| :: last[i].parents == []
    requires Consistent(Admitted(first + last, digest)) && !Roomy(Admitted(first, digest), capacity)
    ensures exists h :: h in Known(Admitted(first, digest)) && h !in Held(Run(first + last, capacity, digest))
  {
    var s, vs := Run(first, capacity, digest), Admitted(first, digest);
    assert NonRoots(vs) == Known(vs);
    NothingCommitted(first, capacity, digest);
    BufferBounded(first, capacity, digest);
    assert |s.orphans| == |s.orphans.Keys|;
    NonemptySize(Known(vs));
    var h := SomethingMissing(s.orphans.Keys, Known(vs));
    RootsAreOthers(first, last, h, digest);
    NotSentNotHeld(first, last, |last|, h, capacity, digest);
    assert last[..|last|] == last;
  }

  lemma RootsAreOthers(first: seq<Vertex>, last: seq<Vertex>, h: Hash, digest: Digest)
    requires forall i | 0 <= i < |first| :: first[i].parents != []
    requires forall i | 0 <= i < |last| :: last[i].parents == []
    requires Consistent(Admitted(first + last, digest)) && h in Known(Admitted(first, digest))
    ensures h !in Known(Admitted(last, digest))
  {
    var all := Admitted(first + last, digest);
    forall v, w | v in Admitted(first, digest) && w in Admitted(last, digest) ensures v.hash != w.hash {
      assert v in all && w in all;
      assert v.parents != w.parents && !SameShape(v, w);
    }
  }

  /** Every order of delivering `vs`, with any repetitions, converges. */
  ghost predicate EveryOrderConverges(vs: set<Vertex>, capacity: int, digest: Digest) {
    forall ds {:trigger Elements(ds)} | Elements(ds) == vs :: ConvergesAt(ds, capacity, digest)
  }

  /** Nothing is missing: every vertex has its whole ancestry in the set. */
  ghost predicate CausallyComplete(vs: set<Vertex>, digest: Digest) {
    && (forall v | v in vs :: Admissible(v, digest))
    && Consistent(vs) && Closure(vs) == Known(vs)
  }

  lemma BadOrder(vs: set<Vertex>, capacity: int, digest: Digest) returns (ds: seq<Vertex>)
    requires CausallyComplete(vs, digest) && !Roomy(vs, capacity)
    ensures Elements(ds) == vs && !ConvergesAt(ds, capacity, digest)
  {
    var inner, roots := (set v | v in vs && v.parents != []), (set v | v in vs && v.parents == []);
    var first := ListOf(inner);
    var last := ListOf(roots);
    ds := first + last;
    ElementsIndexed(first);
    ElementsIndexed(last);
    AllAdmitted(first, digest);
    AllAdmitted(last, digest);
    ElementsConcat(first, last);
    assert inner + roots == vs;
    AllAdmitted(ds, digest);
    assert NonRoots(inner) == NonRoots(vs);
    EvictionCanLose(first, last, capacity, digest);
    assert Known(inner) <= Known(vs);
  }

  lemma ElementsIndexed<T>(s: seq<T>)
    ensures forall i | 0 <= i < |s| :: s[i] in Elements(s)
  {
  }

  lemma AllAdmitted(ds: seq<Vertex>, digest: Digest)
    requires forall v | v in Elements(ds) :: Admissible(v, digest)
    ensures Admitted(ds, digest) == Elements(ds)
  {
    forall v ensures v in Admitted(ds, digest) <==> v in Elements(ds) {
      assert v in Elements(ds) <==> v in ds;
    }
  }

  /** The capacity that makes every order of a causally complete set converge
      is the number of its vertices that have parents, and not one less. */
  lemma {:induction false} EveryOrderConvergesIff(vs: set<Vertex>, capacity: int, digest: Digest)
    requires CausallyComplete(vs, digest)
    ensures EveryOrderConverges(vs, capacity, digest) <==> Roomy(vs, capacity)
  {
    if Roomy(vs, capacity) {
      forall ds: seq<Vertex> | Elements(ds) == vs ensures ConvergesAt(ds, capacity, digest) {
        AllAdmitted(ds, digest);
        CapacitySuffices(ds, capacity, digest);
        ConvergesToClosure(ds, capacity, digest);
      }
    } else {
      var ds := BadOrder(vs, capacity, digest);
    }
  }
}
