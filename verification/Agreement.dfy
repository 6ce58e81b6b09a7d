/** Replicas agree: with room in the buffer the final DAG, the final orphanage
    and the round index are functions of the set of deliveries alone. */
module Agreement {
  import opened Sorting
  import opened Hashes
  import opened Vertices
  import opened Encoding
  import opened CausalState
  import opened Dag
  import opened Convergence

  /** What the DAG compares of a vertex. Author, certificates, timestamp,
      payload and signature play no part in what is committed or waits. */
  datatype Shape = Shape(hash: Hash, parents: seq<Hash>, round: int)

  function ShapeOf(v: Vertex): Shape {
    Shape(v.hash, v.parents, v.round)
  }

  ghost predicate SameShape(v: Vertex, w: Vertex) {
    ShapeOf(v) == ShapeOf(w)
  }

  /** One hash, one list of parents and one round. */
  ghost predicate Consistent(vs: set<Vertex>) {
    forall v, w {:trigger SameShape(v, w)} | v in vs && w in vs && v.hash == w.hash :: SameShape(v, w)
  }

  ghost function Known(vs: set<Vertex>): set<Hash> {
    set v | v in vs :: v.hash
  }

  lemma {:induction false} CascadeDisjoint(s: State, work: seq<Vertex>)
    requires Keyed(s.orphans) && s.vertices.Keys !! s.orphans.Keys && HashesOf(work) !! s.orphans.Keys
    ensures Cascade(s, work).vertices.Keys !! Cascade(s, work).orphans.Keys
    decreases |s.orphans| + |work|
  {
    if work != [] {
      var v, rest := work[0], work[1..];
      assert work == [v] + rest;
      HashesOfConcat([v], rest);
      if v.hash in s.vertices {
        CascadeDisjoint(s, rest);
      } else {
        assert v.hash in HashesOf(work);
        CommitReleases(s, v);
        CommitVertices(s, v);
        CommitOrphans(s, v);
        ReleasedHashes(s, v);
        HashesOfConcat(rest, Released(s, v));
        CascadeDisjoint(Commit(s, v), rest + Released(s, v));
      }
    }
  }

  /** What a run that never evicts has done with the deliveries so far: every
      admitted hash is in exactly one of the two places. */
  ghost predicate Accounted(s: State, vs: set<Vertex>) {
    && Inv(s) && DrawnFrom(s, vs)
    && s.vertices.Keys !! s.orphans.Keys
    && s.vertices.Keys + s.orphans.Keys == Known(vs)
  }

  lemma WaitingIsIncomplete(s: State, v: Vertex, vs: set<Vertex>)
    requires Inv(s) && DrawnFrom(s, vs) && Consistent(vs + {v})
    ensures v.hash in s.orphans ==> !Complete(v, s.vertices.Keys)
  {
    if v.hash in s.orphans {
      var w := s.orphans[v.hash];
      assert w in vs + {v} && v in vs + {v};
      assert SameShape(v, w);
    }
  }

  lemma CascadeAccounts(s: State, v: Vertex, vs: set<Vertex>)
    requires Accounted(s, vs) && Consistent(vs + {v}) && Complete(v, s.vertices.Keys) && v.hash !in s.vertices
    ensures var t := Cascade(s, [v]);
            && t.vertices.Keys !! t.orphans.Keys
            && t.vertices.Keys + t.orphans.Keys == Known(vs) + {v.hash}
  {
    WaitingIsIncomplete(s, v, vs);
    SingleHash(v);
    CascadeDisjoint(s, [v]);
    CascadeConserves(s, [v]);
  }

  lemma ParkAddsKey(orphans: VertexMap, present: set<Hash>, v: Vertex, capacity: int)
    requires v.hash in orphans || |orphans| < capacity
    ensures Park(orphans, present, v, capacity).Keys == orphans.Keys + {v.hash}
  {
  }

  /** The delivery costs nobody a place: the vertex is known, or can be
      committed, or fits into the buffer. */
  ghost predicate Room(s: State, v: Vertex, capacity: int) {
    v.hash in s.vertices || v.hash in s.orphans || Complete(v, s.vertices.Keys) || |s.orphans| < capacity
  }

  lemma {:induction false} ParkAccounts(s: State, v: Vertex, capacity: int, vs: set<Vertex>)
    requires Accounted(s, vs) && Room(s, v, capacity) && v.hash !in s.vertices && !Complete(v, s.vertices.Keys)
    ensures var parked := Park(s.orphans, s.vertices.Keys, v, capacity);
            && s.vertices.Keys !! parked.Keys
            && s.vertices.Keys + parked.Keys == Known(vs) + {v.hash}
  {
    var parked := Park(s.orphans, s.vertices.Keys, v, capacity).Keys;
    ParkAddsKey(s.orphans, s.vertices.Keys, v, capacity);
    NewKey(s.vertices.Keys, s.orphans.Keys, parked, Known(vs), v.hash);
  }

  lemma NewKey(committed: set<Hash>, waiting: set<Hash>, parked: set<Hash>, known: set<Hash>, h: Hash)
    requires committed !! waiting && committed + waiting == known && h !in committed && parked == waiting + {h}
    ensures committed !! parked && committed + parked == known + {h}
  {
  }

  /** The hashes held after the locked section, and that none is held twice. */
  lemma LockedPlaces(s: State, v: Vertex, capacity: int, vs: set<Vertex>)
    requires Accounted(s, vs) && Consistent(vs + {v}) && Room(s, v, capacity)
    requires v.hash !in s.vertices
    ensures var t := Locked(s, v, capacity);
            && t.vertices.Keys !! t.orphans.Keys
            && t.vertices.Keys + t.orphans.Keys == Known(vs) + {v.hash}
  {
    if Complete(v, s.vertices.Keys) {
      CascadeAccounts(s, v, vs);
    } else {
      ParkAccounts(s, v, capacity, vs);
    }
  }

  lemma KnownStep(vs: set<Vertex>, v: Vertex)
    ensures Known(vs + {v}) == Known(vs) + {v.hash}
    ensures Consistent(vs + {v}) ==> Consistent(vs)
  {
  }

  lemma LockedAccounts(s: State, v: Vertex, capacity: int, vs: set<Vertex>)
    requires Accounted(s, vs) && Consistent(vs + {v}) && Room(s, v, capacity)
    ensures Accounted(Locked(s, v, capacity), vs + {v})
  {
    KnownStep(vs, v);
    LockedKeepsInv(s, v, capacity);
    LockedDrawsFrom(s, v, capacity, vs + {v});
    if v.hash !in s.vertices {
      LockedPlaces(s, v, capacity, vs);
    }
  }

  lemma AdmittedStep(ds: seq<Vertex>, digest: Digest)
    requires ds != []
    ensures var before, v := Admitted(ds[..|ds| - 1], digest), ds[|ds| - 1];
            Admitted(ds, digest) == if Admissible(v, digest) then before + {v} else before
  {
  }

  ghost predicate RoomFor(ds: seq<Vertex>, k: nat, capacity: int, digest: Digest) {
    k < |ds| && (Admissible(ds[k], digest) ==> Room(Run(ds[..k], capacity, digest), ds[k], capacity))
  }

  /** No delivery ever pushes an orphan out of the buffer. */
  ghost predicate NeverEvicts(ds: seq<Vertex>, capacity: int, digest: Digest) {
    forall k: nat | k < |ds| :: RoomFor(ds, k, capacity, digest)
  }

  lemma RunStep(before: seq<Vertex>, v: Vertex, capacity: int, digest: Digest)
    ensures Run(before + [v], capacity, digest) ==
              var s := Run(before, capacity, digest);
              if Admissible(v, digest) then Locked(s, v, capacity) else s
  {
    assert (before + [v])[..|before|] == before;
  }

  lemma AccountsStep(before: seq<Vertex>, v: Vertex, capacity: int, digest: Digest)
    requires Admissible(v, digest) ==> Room(Run(before, capacity, digest), v, capacity)
    requires Consistent(Admitted(before + [v], digest))
    requires Accounted(Run(before, capacity, digest), Admitted(before, digest))
    ensures Accounted(Run(before + [v], capacity, digest), Admitted(before + [v], digest))
  {
    RunStep(before, v, capacity, digest);
    AdmittedStep(before + [v], digest);
    assert (before + [v])[..|before|] == before;
    if Admissible(v, digest) {
      LockedAccounts(Run(before, capacity, digest), v, capacity, Admitted(before, digest));
    }
  }

  lemma {:induction false} AccountsPrefix(ds: seq<Vertex>, n: nat, capacity: int, digest: Digest)
    requires n <= |ds| && Consistent(Admitted(ds, digest)) && NeverEvicts(ds, capacity, digest)
    ensures Accounted(Run(ds[..n], capacity, digest), Admitted(ds[..n], digest))
  {
    if n > 0 {
      AccountsPrefix(ds, n - 1, capacity, digest);
      assert RoomFor(ds, n - 1, capacity, digest);
      assert Admitted(ds[..n], digest) <= Admitted(ds, digest);
      assert ds[..n] == ds[..n - 1] + [ds[n - 1]];
      AccountsStep(ds[..n - 1], ds[n - 1], capacity, digest);
    }
  }

  lemma {:induction false} RunAccounts(ds: seq<Vertex>, capacity: int, digest: Digest)
    requires Consistent(Admitted(ds, digest)) && NeverEvicts(ds, capacity, digest)
    ensures Accounted(Run(ds, capacity, digest), Admitted(ds, digest))
  {
    AccountsPrefix(ds, |ds|, capacity, digest);
    assert ds[..|ds|] == ds;
  }

  /** The vertices that may ever have to wait: those with parents. */
  ghost function NonRoots(vs: set<Vertex>): set<Hash> {
    set v | v in vs && v.parents != [] :: v.hash
  }

  /** There is a place for every vertex that may have to wait. */
  ghost predicate Roomy(vs: set<Vertex>, capacity: int) {
    NonRoots(vs) == {} || |NonRoots(vs)| <= capacity
  }

  lemma OrphansHaveParents(s: State, vs: set<Vertex>)
    requires Inv(s) && DrawnFrom(s, vs)
    ensures s.orphans.Keys <= NonRoots(vs)
  {
    forall h | h in s.orphans ensures h in NonRoots(vs) {
      var v := s.orphans[h];
      assert !Complete(v, s.vertices.Keys);
      assert v in vs && v.hash == h && v.parents != [];
    }
  }

  lemma RoomForOne<K, V>(m: map<K, V>, k: K, all: set<K>)
    requires m.Keys + {k} <= all && k !in m
    ensures |m| < |all|
  {
    assert |m| == |m.Keys|;
    assert |m.Keys + {k}| == |m.Keys| + 1;
    SubsetIsNotLarger(m.Keys + {k}, all);
  }

  lemma RoomAt(ds: seq<Vertex>, k: nat, capacity: int, digest: Digest)
    requires k < |ds| && Admissible(ds[k], digest) && Roomy(Admitted(ds, digest), capacity)
    ensures Room(Run(ds[..k], capacity, digest), ds[k], capacity)
  {
    var s, vs := Run(ds[..k], capacity, digest), Admitted(ds, digest);
    RunKeepsInv(ds[..k], capacity, digest);
    RunDrawsFrom(ds[..k], capacity, digest, vs);
    OrphansHaveParents(s, vs);
    if !Complete(ds[k], s.vertices.Keys) && ds[k].hash !in s.orphans {
      assert ds[k] in vs && ds[k].parents != [];
      assert ds[k].hash in NonRoots(vs);
      RoomForOne(s.orphans, ds[k].hash, NonRoots(vs));
    }
  }

  /** A buffer with a place for every admitted vertex that has parents never evicts. */
  lemma {:induction false} CapacitySuffices(ds: seq<Vertex>, capacity: int, digest: Digest)
    requires Roomy(Admitted(ds, digest), capacity)
    ensures NeverEvicts(ds, capacity, digest)
  {
    forall k: nat | k < |ds| ensures RoomFor(ds, k, capacity, digest) {
      if Admissible(ds[k], digest) {
        RoomAt(ds, k, capacity, digest);
      }
    }
  }

  // The committed and the waiting are disjoint, with or without eviction

  lemma LockedDisjoint(s: State, v: Vertex, capacity: int, vs: set<Vertex>)
    requires Inv(s) && DrawnFrom(s, vs) && Consistent(vs + {v}) && s.vertices.Keys !! s.orphans.Keys
    ensures Locked(s, v, capacity).vertices.Keys !! Locked(s, v, capacity).orphans.Keys
  {
    if v.hash !in s.vertices {
      if Complete(v, s.vertices.Keys) {
        WaitingIsIncomplete(s, v, vs);
        SingleHash(v);
        CascadeDisjoint(s, [v]);
      } else {
        ParkContents(s.orphans, s.vertices.Keys, v, capacity);
      }
    }
  }

  /** No hash is ever both committed and waiting. */
  lemma {:induction false} NeverCommittedAndWaiting(ds: seq<Vertex>, capacity: int, digest: Digest)
    requires Consistent(Admitted(ds, digest))
    ensures Run(ds, capacity, digest).vertices.Keys !! Run(ds, capacity, digest).orphans.Keys
  {
    if ds != [] {
      var before, v := ds[..|ds| - 1], ds[|ds| - 1];
      var vs := Admitted(before, digest);
      AdmittedStep(ds, digest);
      KnownStep(vs, v);
      NeverCommittedAndWaiting(before, capacity, digest);
      RunKeepsInv(before, capacity, digest);
      RunDrawsFrom(before, capacity, digest, vs);
      if Admissible(v, digest) {
        LockedDisjoint(Run(before, capacity, digest), v, capacity, vs);
      }
    }
  }

  ghost function Held(s: State): set<Hash> {
    s.vertices.Keys + s.orphans.Keys
  }

  lemma RoomLosesNothing(s: State, v: Vertex, capacity: int)
    requires Keyed(s.orphans) && Room(s, v, capacity)
    ensures Held(Locked(s, v, capacity)) == Held(s) + {v.hash}
  {
    if v.hash in s.vertices {
    } else if Complete(v, s.vertices.Keys) {
      SingleHash(v);
      CascadeConserves(s, [v]);
    } else {
      ParkAddsKey(s.orphans, s.vertices.Keys, v, capacity);
      UnionAssociates(s.vertices.Keys, s.orphans.Keys, {v.hash});
    }
  }

  lemma SingleHash(v: Vertex)
    ensures HashesOf([v]) == {v.hash}
  {
  }

  /** What a full buffer gives up. */
  lemma ParkDrops(orphans: VertexMap, present: set<Hash>, v: Vertex, capacity: int)
    requires Keyed(orphans) && v.hash !in orphans && |orphans| >= capacity
    ensures HasVictim(orphans[v.hash := v], present)
    ensures var victim := Victim(orphans[v.hash := v], present);
            && victim in orphans.Keys + {v.hash}
            && Park(orphans, present, v, capacity).Keys == orphans.Keys + {v.hash} - {victim}
  {
    var waiting := orphans[v.hash := v];
    AddKey(orphans, v.hash, v);
    assert v.hash in waiting;
    VictimExists(waiting, present);
    DropKey(waiting, Victim(waiting, present));
  }

  lemma AddKey<K, V>(m: map<K, V>, k: K, v: V)
    ensures m[k := v].Keys == m.Keys + {k}
  {
  }

  lemma DropKey<K, V>(m: map<K, V>, k: K)
    ensures (m - {k}).Keys == m.Keys - {k}
  {
  }

  lemma NoRoomLosesVictim(s: State, v: Vertex, capacity: int)
    requires Keyed(s.orphans) && s.vertices.Keys !! s.orphans.Keys && !Room(s, v, capacity)
    ensures HasVictim(s.orphans[v.hash := v], s.vertices.Keys)
    ensures var victim := Victim(s.orphans[v.hash := v], s.vertices.Keys);
            && victim in Held(s) + {v.hash}
            && Held(Locked(s, v, capacity)) == Held(s) + {v.hash} - {victim}
  {
    ParkDrops(s.orphans, s.vertices.Keys, v, capacity);
    var victim := Victim(s.orphans[v.hash := v], s.vertices.Keys);
    OneLess(s.vertices.Keys, s.orphans.Keys, v.hash, victim);
  }

  lemma OneLess(committed: set<Hash>, waiting: set<Hash>, h: Hash, victim: Hash)
    requires committed !! waiting && h !in committed && victim in waiting + {h}
    ensures committed + (waiting + {h} - {victim}) == committed + waiting + {h} - {victim}
  {
  }

  /** A delivery loses a vertex exactly when the buffer has no room for it, and
      then it loses just one, the heaviest of those waiting. */
  lemma {:induction false} DeliveryLosesIff(ds: seq<Vertex>, v: Vertex, capacity: int, digest: Digest)
    requires Consistent(Admitted(ds, digest)) && Admissible(v, digest)
    ensures var s, t := Run(ds, capacity, digest), Run(ds + [v], capacity, digest);
            && (Held(t) == Held(s) + {v.hash} <==> Room(s, v, capacity))
            && (!Room(s, v, capacity) ==> exists h ::
                 IsVictim(h, s.orphans[v.hash := v], s.vertices.Keys) && Held(t) == Held(s) + {v.hash} - {h})
  {
    assert (ds + [v])[..|ds|] == ds;
    var s := Run(ds, capacity, digest);
    NeverCommittedAndWaiting(ds, capacity, digest);
    RunKeepsInv(ds, capacity, digest);
    if Room(s, v, capacity) {
      RoomLosesNothing(s, v, capacity);
    } else {
      NoRoomLosesVictim(s, v, capacity);
    }
  }

  /** In a saturated state that accounts for every delivery the committed set
      is causally closed. */
  lemma AccountedIsClosed(s: State, vs: set<Vertex>)
    requires Accounted(s, vs) && Consistent(vs)
    ensures CausallyClosed(s.vertices.Keys, vs)
  {
    forall v | v in vs && Complete(v, s.vertices.Keys) ensures v.hash in s.vertices {
      assert v.hash in Known(vs);
      assert vs + {v} == vs;
      WaitingIsIncomplete(s, v, vs);
    }
  }

  /** Convergence: any delivery sequence, in any order and with any repetition,
      ends with exactly the causal closure committed and the rest waiting. */
  lemma {:induction false} ConvergesToClosure(ds: seq<Vertex>, capacity: int, digest: Digest)
    requires Consistent(Admitted(ds, digest)) && NeverEvicts(ds, capacity, digest)
    ensures var s, vs := Run(ds, capacity, digest), Admitted(ds, digest);
            && s.vertices.Keys == Closure(vs)
            && s.orphans.Keys == Known(vs) - Closure(vs)
  {
    NeverOutsideClosure(ds, capacity, digest);
    RunAccounts(ds, capacity, digest);
    SettledAtClosure(Run(ds, capacity, digest), Admitted(ds, digest));
  }

  lemma SettledAtClosure(s: State, vs: set<Vertex>)
    requires Accounted(s, vs) && Consistent(vs) && s.vertices.Keys <= Closure(vs)
    ensures s.vertices.Keys == Closure(vs) && s.orphans.Keys == Known(vs) - Closure(vs)
  {
    AccountedIsClosed(s, vs);
    ClosureWithin(vs, s.vertices.Keys);
    var c := Closure(vs);
    assert s.vertices.Keys == c;
  }

  ghost function Shapes(vs: set<Vertex>): set<Shape> {
    set v | v in vs :: ShapeOf(v)
  }

  /** The closure depends on shapes only. */
  lemma ClosureOfShapes(vs: set<Vertex>, ws: set<Vertex>)
    requires Shapes(vs) == Shapes(ws)
    ensures Closure(vs) <= Closure(ws) && Known(vs) <= Known(ws)
  {
    ClosureIsLeastClosed(vs);
    ClosureIsLeastClosed(ws);
    forall v | v in vs ensures exists w :: w in ws && ShapeOf(w) == ShapeOf(v) {
      assert ShapeOf(v) in Shapes(ws);
    }
    forall v | v in vs && Complete(v, Closure(ws)) ensures v.hash in Closure(ws) {
      var w :| w in ws && ShapeOf(w) == ShapeOf(v);
    }
    forall v | v in vs ensures v.hash in Known(ws) {
      var w :| w in ws && ShapeOf(w) == ShapeOf(v);
    }
  }

  /** The same hashes, with the same parents and rounds. */
  ghost predicate SameDag(a: VertexMap, b: VertexMap) {
    a.Keys == b.Keys && forall h | h in a :: ShapeOf(a[h]) == ShapeOf(b[h])
  }

  lemma RecordedContent(a: VertexMap, b: VertexMap, vs: set<Vertex>, ws: set<Vertex>)
    requires Keyed(a) && Keyed(b) && Consistent(vs) && Shapes(vs) == Shapes(ws)
    requires (forall h | h in a :: a[h] in vs) && (forall h | h in b :: b[h] in ws)
    ensures a.Keys == b.Keys ==> SameDag(a, b)
  {
    forall h | h in a && h in b ensures ShapeOf(a[h]) == ShapeOf(b[h]) {
      var v, w := a[h], b[h];
      assert ShapeOf(w) in Shapes(ws);
      var u :| u in vs && ShapeOf(u) == ShapeOf(w);
      assert SameShape(u, v);
    }
  }

  lemma ConsistentByShape(vs: set<Vertex>, ws: set<Vertex>)
    requires Consistent(vs) && Shapes(vs) == Shapes(ws)
    ensures Consistent(ws)
  {
    forall x, y | x in ws && y in ws && x.hash == y.hash ensures SameShape(x, y) {
      assert ShapeOf(x) in Shapes(vs) && ShapeOf(y) in Shapes(vs);
      var v :| v in vs && ShapeOf(v) == ShapeOf(x);
      var w :| w in vs && ShapeOf(w) == ShapeOf(y);
      assert SameShape(v, w);
    }
  }

  /** Two replicas given the same vertices, each in its own order, with its own
      repetitions and its own capacity, hold the same DAG and the same orphans. */
  lemma {:induction false} ReplicasAgree(ds: seq<Vertex>, es: seq<Vertex>, capA: int, capB: int, digest: Digest)
    requires Shapes(Admitted(ds, digest)) == Shapes(Admitted(es, digest))
    requires Consistent(Admitted(ds, digest))
    requires NeverEvicts(ds, capA, digest) && NeverEvicts(es, capB, digest)
    ensures var s, t := Run(ds, capA, digest), Run(es, capB, digest);
            SameDag(s.vertices, t.vertices) && SameDag(s.orphans, t.orphans)
  {
    ConsistentByShape(Admitted(ds, digest), Admitted(es, digest));
    NeverOutsideClosure(ds, capA, digest);
    NeverOutsideClosure(es, capB, digest);
    RunAccounts(ds, capA, digest);
    RunAccounts(es, capB, digest);
    AccountedAgree(Run(ds, capA, digest), Run(es, capB, digest), Admitted(ds, digest), Admitted(es, digest));
  }

  lemma AccountedAgree(s: State, t: State, vs: set<Vertex>, ws: set<Vertex>)
    requires Accounted(s, vs) && Consistent(vs) && s.vertices.Keys <= Closure(vs)
    requires Accounted(t, ws) && Consistent(ws) && t.vertices.Keys <= Closure(ws)
    requires Shapes(vs) == Shapes(ws)
    ensures SameDag(s.vertices, t.vertices) && SameDag(s.orphans, t.orphans)
  {
    SettledAtClosure(s, vs);
    SettledAtClosure(t, ws);
    ClosureOfShapes(vs, ws);
    ClosureOfShapes(ws, vs);
    RecordedContent(s.vertices, t.vertices, vs, ws);
    RecordedContent(s.orphans, t.orphans, vs, ws);
  }

  /** The round index is identical on replicas that hold the same DAG. */
  lemma RoundIndexesAgree(a: VertexMap, b: VertexMap, ia: RoundIndex, ib: RoundIndex)
    requires SameDag(a, b) && IndexesRounds(ia, a) && IndexesRounds(ib, b)
    ensures ia == ib
  {
    forall r ensures RoundSet(a, r) == RoundSet(b, r) {
      forall h | h in a ensures a[h].round == b[h].round {
      }
    }
    forall r ensures r in ia <==> r in ib {
      assert RoundSet(a, r) == RoundSet(b, r);
    }
    forall r | r in ia ensures ia[r] == ib[r] {
      assert RoundSet(a, r) == RoundSet(b, r);
    }
  }

  /** More deliveries, larger DAG. */
  lemma {:induction false} MoreDeliveriesLargerDag(ds: seq<Vertex>, es: seq<Vertex>, capA: int, capB: int, digest: Digest)
    requires Admitted(ds, digest) <= Admitted(es, digest)
    requires Consistent(Admitted(es, digest)) && NeverEvicts(es, capB, digest)
    ensures Run(ds, capA, digest).vertices.Keys <= Run(es, capB, digest).vertices.Keys
  {
    NeverOutsideClosure(ds, capA, digest);
    ConvergesToClosure(es, capB, digest);
    ClosureIsMonotone(Admitted(ds, digest), Admitted(es, digest));
  }
}
