/** The causal DAG as a value: which vertices are committed, which wait for a
    parent, and in which order commits happened. No dependency index here: this
    is what the counted index of the orphan buffer must agree with. */
module CausalState {
  import opened Sorting
  import opened Hashes
  import opened Vertices
  import opened Encoding

  type VertexMap = map<Hash, Vertex>

  datatype State = State(vertices: VertexMap, orphans: VertexMap, log: seq<Hash>)

  const EMPTY := State(map[], map[], [])

  ghost predicate Complete(v: Vertex, present: set<Hash>) {
    forall p | p in v.parents :: p in present
  }

  ghost function Absent(v: Vertex, present: set<Hash>): set<Hash> {
    set p | p in v.parents && p !in present
  }

  ghost predicate Keyed(m: VertexMap) {
    forall h | h in m :: m[h].hash == h
  }

  /** The vertices `m` stores under the hashes `hs`, in that order. */
  ghost function Select(hs: seq<Hash>, m: VertexMap): (vs: seq<Vertex>)
    requires forall i | 0 <= i < |hs| :: hs[i] in m
    ensures |vs| == |hs|
    ensures forall i | 0 <= i < |hs| :: vs[i] == m[hs[i]]
  {
    if hs == [] then [] else [m[hs[0]]] + Select(hs[1..], m)
  }

  /** Orphans whose parents are all present. */
  ghost function ReadySet(orphans: VertexMap, present: set<Hash>): set<Hash> {
    set h | h in orphans && Complete(orphans[h], present)
  }

  /** The same in canonical order. */
  ghost function ReadyList(orphans: VertexMap, present: set<Hash>): seq<Vertex> {
    InOrderElements(ReadySet(orphans, present));
    Select(InOrder(ReadySet(orphans, present)), orphans)
  }

  lemma ReadyListLength(orphans: VertexMap, present: set<Hash>)
    ensures |ReadyList(orphans, present)| == |ReadySet(orphans, present)|
    ensures |orphans - ReadySet(orphans, present)| + |ReadyList(orphans, present)| == |orphans|
  {
    var ready := ReadySet(orphans, present);
    InOrderElements(ready);
    var rest := orphans - ready;
    assert rest.Keys == orphans.Keys - ready;
    assert |rest.Keys| + |ready| == |orphans.Keys|;
    assert |rest| == |rest.Keys| && |orphans| == |orphans.Keys|;
  }

  /** Commits `v` and takes the orphans it completes out of the buffer. */
  ghost function Commit(s: State, v: Vertex): State {
    var vertices := s.vertices[v.hash := v];
    State(vertices, s.orphans - ReadySet(s.orphans, vertices.Keys), s.log + [v.hash])
  }

  ghost function Released(s: State, v: Vertex): seq<Vertex> {
    ReadyList(s.orphans, s.vertices.Keys + {v.hash})
  }

  lemma SelectElements(hs: seq<Hash>, m: VertexMap)
    requires Keyed(m) && forall i | 0 <= i < |hs| :: hs[i] in m
    ensures forall w :: w in Select(hs, m) <==> w.hash in hs && m[w.hash] == w
    ensures StrictlyIncreasing(hs) ==> IncreasingBy(Select(hs, m), VertexRank)
  {
  }

  lemma ReadyListElements(orphans: VertexMap, present: set<Hash>)
    requires Keyed(orphans)
    ensures IncreasingBy(ReadyList(orphans, present), VertexRank)
    ensures forall w :: w in ReadyList(orphans, present) <==>
              w.hash in orphans && orphans[w.hash] == w && Complete(w, present)
  {
    var hs := InOrder(ReadySet(orphans, present));
    InOrderElements(ReadySet(orphans, present));
    forall i | 0 <= i < |hs| ensures hs[i] in orphans {
      assert hs[i] in hs;
    }
    SelectElements(hs, orphans);
  }

  lemma ReleasedElements(s: State, v: Vertex)
    requires Keyed(s.orphans)
    ensures forall w :: w in Released(s, v) <==>
              w.hash in s.orphans && s.orphans[w.hash] == w && Complete(w, s.vertices.Keys + {v.hash})
  {
    ReadyListElements(s.orphans, s.vertices.Keys + {v.hash});
  }

  lemma CommitVertices(s: State, v: Vertex)
    ensures Commit(s, v).vertices.Keys == s.vertices.Keys + {v.hash}
  {
  }

  lemma CommitOrphans(s: State, v: Vertex)
    ensures var rest := Commit(s, v).orphans;
            && (forall h | h in rest :: h in s.orphans && rest[h] == s.orphans[h])
            && (forall h | h in rest :: !Complete(rest[h], Commit(s, v).vertices.Keys))
            && rest.Keys == s.orphans.Keys - ReadySet(s.orphans, s.vertices.Keys + {v.hash})
  {
  }

  lemma {:induction false} CommitReleases(s: State, v: Vertex)
    ensures |Commit(s, v).orphans| + |Released(s, v)| == |s.orphans|
  {
    CommitVertices(s, v);
    ReadyListLength(s.orphans, s.vertices.Keys + {v.hash});
  }

  /** The worklist loop: first in, first out, released orphans at the back. The
      measure drops by one at every iteration. */
  ghost function Cascade(s: State, work: seq<Vertex>): State
    decreases |s.orphans| + |work|
  {
    if work == [] then s
    else if work[0].hash in s.vertices then Cascade(s, work[1..])
    else
      CommitReleases(s, work[0]);
      Cascade(Commit(s, work[0]), work[1..] + Released(s, work[0]))
  }

  lemma CascadeUnfolds(s: State, work: seq<Vertex>)
    requires work != []
    ensures Cascade(s, work) ==
              if work[0].hash in s.vertices then Cascade(s, work[1..])
              else Cascade(Commit(s, work[0]), work[1..] + Released(s, work[0]))
  {
  }

  lemma CascadeEnds(s: State)
    ensures Cascade(s, []) == s
  {
  }

  // Eviction

  /** Which of two waiting vertices is the worse one to keep. */
  ghost predicate Heavier(a: Vertex, b: Vertex, present: set<Hash>) {
    var m, n := |Absent(a, present)|, |Absent(b, present)|;
    m > n || (m == n && Less(b.hash, a.hash))
  }

  ghost predicate IsVictim(h: Hash, waiting: VertexMap, present: set<Hash>) {
    && h in waiting
    && forall o | o in waiting && o != h :: Heavier(waiting[h], waiting[o], present)
  }

  lemma HeavierIsTotal(a: Vertex, b: Vertex, c: Vertex, present: set<Hash>)
    ensures a.hash != b.hash ==> Heavier(a, b, present) || Heavier(b, a, present)
    ensures !(Heavier(a, b, present) && Heavier(b, a, present))
    ensures Heavier(a, b, present) && Heavier(b, c, present) ==> Heavier(a, c, present)
  {
    RankOrders();
  }

  /** There is always exactly one victim: ranging over the map in any order finds it. */
  lemma {:induction false} VictimExists(waiting: VertexMap, present: set<Hash>)
    requires waiting != map[] && Keyed(waiting)
    ensures exists h :: IsVictim(h, waiting, present)
    decreases |waiting|
  {
    assert waiting.Keys != {};
    var x :| x in waiting.Keys;
    var rest := waiting - {x};
    assert rest.Keys == waiting.Keys - {x};
    if waiting.Keys == {x} {
      assert IsVictim(x, waiting, present);
    } else {
      assert rest.Keys != {};
      assert |rest.Keys| < |waiting.Keys|;
      VictimExists(rest, present);
      var y :| IsVictim(y, rest, present);
      assert forall o | o in rest :: rest[o] == waiting[o];
      HeavierIsTotal(waiting[x], waiting[y], waiting[x], present);
      if Heavier(waiting[x], waiting[y], present) {
        forall o | o in waiting && o != x ensures Heavier(waiting[x], waiting[o], present) {
          assert o == y || Heavier(rest[y], rest[o], present);
          HeavierIsTotal(waiting[x], waiting[y], waiting[o], present);
        }
        assert IsVictim(x, waiting, present);
      } else {
        forall o | o in waiting && o != y ensures Heavier(waiting[y], waiting[o], present) {
          assert o == x || Heavier(rest[y], rest[o], present);
        }
        assert IsVictim(y, waiting, present);
      }
    }
  }

  lemma VictimUnique(a: Hash, b: Hash, waiting: VertexMap, present: set<Hash>)
    requires IsVictim(a, waiting, present) && IsVictim(b, waiting, present)
    ensures a == b
  {
    if a != b {
      HeavierIsTotal(waiting[a], waiting[b], waiting[a], present);
    }
  }

  /** The victim is the vertex with the most absent parents and, among those,
      with the largest hash. */
  lemma VictimIsHeaviest(h: Hash, waiting: VertexMap, present: set<Hash>)
    requires Keyed(waiting) && h in waiting
    ensures IsVictim(h, waiting, present) <==>
              forall o | o in waiting ::
                var m, n := |Absent(waiting[o], present)|, |Absent(waiting[h], present)|;
                m < n || (m == n && (o == h || Compare(o, h) < 0))
  {
    if IsVictim(h, waiting, present) {
      forall o | o in waiting && o != h ensures Heavier(waiting[h], waiting[o], present) { }
    }
  }

  ghost predicate HasVictim(waiting: VertexMap, present: set<Hash>) {
    exists h :: IsVictim(h, waiting, present)
  }

  ghost function Victim(waiting: VertexMap, present: set<Hash>): (h: Hash)
    requires HasVictim(waiting, present)
    ensures IsVictim(h, waiting, present)
  {
    var h :| IsVictim(h, waiting, present);
    h
  }

  /** Parks `v` in a buffer of the given capacity: of the residents and the
      newcomer, a full buffer gives up the unique heaviest. */
  ghost function Park(orphans: VertexMap, present: set<Hash>, v: Vertex, capacity: int): VertexMap {
    var waiting := orphans[v.hash := v];
    if v.hash in orphans then orphans
    else if |orphans| < capacity then waiting
    else if HasVictim(waiting, present) then waiting - {Victim(waiting, present)}
    else orphans
  }

  /** Passes the checks made before the lock is taken. */
  ghost predicate Admissible(v: Vertex, digest: Digest) {
    HashValid(v, digest) && Canonical(v)
  }

  /** What happens under the lock. */
  ghost function Locked(s: State, v: Vertex, capacity: int): State {
    if v.hash in s.vertices then s
    else if !Complete(v, s.vertices.Keys) then s.(orphans := Park(s.orphans, s.vertices.Keys, v, capacity))
    else Cascade(s, [v])
  }

  /** One `AddVertex` call. */
  ghost function Deliver(s: State, v: Vertex, capacity: int, digest: Digest): State {
    if v.hash in s.vertices then s
    else if !Admissible(v, digest) then s
    else Locked(s, v, capacity)
  }

  /** A replica's state after a sequence of deliveries. */
  ghost function Run(ds: seq<Vertex>, capacity: int, digest: Digest): State {
    if ds == [] then EMPTY
    else Deliver(Run(ds[..|ds| - 1], capacity, digest), ds[|ds| - 1], capacity, digest)
  }

  lemma RunAppend(before: seq<Vertex>, vtxs: seq<Vertex>, i: nat, capacity: int, digest: Digest)
    requires i < |vtxs|
    ensures Run(before + vtxs[..i + 1], capacity, digest) ==
              Deliver(Run(before + vtxs[..i], capacity, digest), vtxs[i], capacity, digest)
  {
    assert (before + vtxs[..i + 1])[..|before| + i] == before + vtxs[..i];
  }

  // The state invariant

  /** Every commit comes after the commits of all its parents, and commits
      happen once: an acyclicity certificate that assumes nothing of the hash. */
  ghost predicate TopoLog(log: seq<Hash>, vertices: VertexMap) {
    if log == [] then vertices == map[] else
      var before, h := log[..|log| - 1], log[|log| - 1];
      && h in vertices
      && h !in Elements(before)
      && Complete(vertices[h], Elements(before))
      && TopoLog(before, vertices - {h})
  }

  ghost predicate Inv(s: State) {
    && Keyed(s.vertices) && Keyed(s.orphans)
    && TopoLog(s.log, s.vertices)
    // saturation: nothing that could be committed is left waiting
    && (forall h | h in s.orphans :: !Complete(s.orphans[h], s.vertices.Keys))
  }

  ghost predicate ReadyWork(s: State, work: seq<Vertex>) {
    forall w | w in work :: Complete(w, s.vertices.Keys)
  }

  lemma {:induction false} TopoLogElements(log: seq<Hash>, vertices: VertexMap)
    requires TopoLog(log, vertices)
    ensures Elements(log) == vertices.Keys && Distinct(log)
  {
    if log != [] {
      var before, h := log[..|log| - 1], log[|log| - 1];
      TopoLogElements(before, vertices - {h});
      assert log == before + [h];
      ElementsAppend(before, h);
    }
  }

  lemma TopoLogExtends(log: seq<Hash>, vertices: VertexMap, v: Vertex)
    requires TopoLog(log, vertices) && v.hash !in vertices && Complete(v, vertices.Keys)
    ensures TopoLog(log + [v.hash], vertices[v.hash := v])
  {
    TopoLogElements(log, vertices);
    assert (log + [v.hash])[..|log|] == log;
    assert vertices[v.hash := v] - {v.hash} == vertices;
  }

  lemma CommitKeepsInv(s: State, v: Vertex)
    requires Inv(s) && v.hash !in s.vertices && Complete(v, s.vertices.Keys)
    ensures Inv(Commit(s, v))
  {
    var s' := Commit(s, v);
    assert TopoLog(s'.log, s'.vertices) by { TopoLogExtends(s.log, s.vertices, v); }
    CommitOrphans(s, v);
    CommitVertices(s, v);
  }

  lemma CommitKeepsReady(s: State, v: Vertex, work: seq<Vertex>)
    requires Keyed(s.orphans) && ReadyWork(s, work)
    ensures ReadyWork(Commit(s, v), work + Released(s, v))
  {
    CommitVertices(s, v);
    ReleasedElements(s, v);
    var present := s.vertices.Keys + {v.hash};
    forall w | w in work + Released(s, v) ensures Complete(w, present) {
      if w in work {
        assert Complete(w, s.vertices.Keys);
      }
    }
  }

  /** The cascade saturates: starting from ready work it ends with the
      invariant, so no orphan left behind has all its parents committed. */
  lemma {:induction false} CascadeKeepsInv(s: State, work: seq<Vertex>)
    requires Inv(s) && ReadyWork(s, work)
    ensures Inv(Cascade(s, work))
    decreases |s.orphans| + |work|
  {
    if work != [] {
      if work[0].hash in s.vertices {
        CascadeKeepsInv(s, work[1..]);
      } else {
        CommitReleases(s, work[0]);
        CommitKeepsInv(s, work[0]);
        CommitKeepsReady(s, work[0], work[1..]);
        CascadeKeepsInv(Commit(s, work[0]), work[1..] + Released(s, work[0]));
      }
    }
  }

  /** Nothing committed is ever taken back. */
  ghost predicate Extends(s: State, t: State) {
    && s.log <= t.log
    && (forall h | h in s.vertices :: h in t.vertices && t.vertices[h] == s.vertices[h])
  }

  lemma {:induction false} CascadeExtends(s: State, work: seq<Vertex>)
    ensures Extends(s, Cascade(s, work))
    ensures work != [] ==> work[0].hash in Cascade(s, work).vertices
    decreases |s.orphans| + |work|
  {
    if work != [] {
      if work[0].hash in s.vertices {
        CascadeExtends(s, work[1..]);
      } else {
        CommitReleases(s, work[0]);
        var s' := Commit(s, work[0]);
        var work' := work[1..] + Released(s, work[0]);
        CascadeExtends(s', work');
        assert work[0].hash in s'.vertices;
      }
    }
  }

  /** The hashes of a list, in order. */
  function HashList(work: seq<Vertex>): seq<Hash> {
    if work == [] then [] else [work[0].hash] + HashList(work[1..])
  }

  /** None of these is committed, and no two have the same hash. */
  ghost predicate AllNew(work: seq<Vertex>, s: State) {
    && (forall i | 0 <= i < |work| :: work[i].hash !in s.vertices)
    && (forall i, j | 0 <= i < j < |work| :: work[i].hash != work[j].hash)
  }

  lemma RestStaysNew(work: seq<Vertex>, s: State)
    requires AllNew(work, s) && work != []
    ensures AllNew(work[1..], Commit(s, work[0]))
  {
    CommitVertices(s, work[0]);
  }

  lemma LogMovesOn(log: seq<Hash>, work: seq<Vertex>)
    requires work != []
    ensures log + [work[0].hash] + HashList(work[1..]) == log + HashList(work)
  {
  }

  lemma WorkMovesOn(work: seq<Vertex>, later: seq<Vertex>, released: seq<Vertex>)
    requires work != []
    ensures (work + later)[0] == work[0]
    ensures (work + later)[1..] + released == work[1..] + (later + released)
  {
  }

  lemma CommitLogs(s: State, v: Vertex)
    ensures Commit(s, v).log == s.log + [v.hash]
  {
  }

  /** First in, first out: what is on the worklist is committed in its order
      before anything that these commits release. */
  lemma {:induction false} WorkIsCommittedInOrder(s: State, work: seq<Vertex>, later: seq<Vertex>)
    requires AllNew(work, s)
    ensures s.log + HashList(work) <= Cascade(s, work + later).log
    decreases |work|
  {
    if work == [] {
      assert work + later == later;
      assert s.log + HashList([]) == s.log;
      CascadeExtends(s, later);
    } else {
      var v := work[0];
      var released := Released(s, v);
      RestStaysNew(work, s);
      WorkIsCommittedInOrder(Commit(s, v), work[1..], later + released);
      CommitLogs(s, v);
      LogMovesOn(s.log, work);
      WorkMovesOn(work, later, released);
      CascadeUnfolds(s, work + later);
    }
  }

  ghost function HashesOf(work: seq<Vertex>): set<Hash> {
    set w | w in work :: w.hash
  }

  lemma HashesOfConcat(a: seq<Vertex>, b: seq<Vertex>)
    ensures HashesOf(a + b) == HashesOf(a) + HashesOf(b)
  {
  }

  lemma ReleasedHashes(s: State, v: Vertex)
    requires Keyed(s.orphans)
    ensures HashesOf(Released(s, v)) == ReadySet(s.orphans, s.vertices.Keys + {v.hash})
  {
    ReleasedElements(s, v);
    var ready := ReadySet(s.orphans, s.vertices.Keys + {v.hash});
    forall h | h in ready ensures h in HashesOf(Released(s, v)) {
      assert s.orphans[h] in Released(s, v);
    }
  }

  lemma MovedSets(vertices: set<Hash>, orphans: set<Hash>, rest: set<Hash>, ready: set<Hash>, v: set<Hash>)
    requires ready <= orphans
    ensures (vertices + v) + (orphans - ready) + (rest + ready) == vertices + orphans + (v + rest)
  {
  }

  /** One step of the loop: hashes only move between the three places. */
  lemma CommitConserves(s: State, v: Vertex, rest: seq<Vertex>)
    requires Keyed(s.orphans)
    ensures var t := Commit(s, v);
            t.vertices.Keys + t.orphans.Keys + HashesOf(rest + Released(s, v)) ==
              s.vertices.Keys + s.orphans.Keys + HashesOf([v] + rest)
  {
    var t := Commit(s, v);
    ReleasedHashes(s, v);
    HashesOfConcat([v], rest);
    HashesOfConcat(rest, Released(s, v));
    CommitVertices(s, v);
    CommitOrphans(s, v);
    assert HashesOf([v]) == {v.hash};
    var ready := ReadySet(s.orphans, s.vertices.Keys + {v.hash});
    MovedSets(s.vertices.Keys, s.orphans.Keys, HashesOf(rest), ready, {v.hash});
  }

  /** The hashes a state and a worklist hold together. */
  ghost function InPlay(s: State, work: seq<Vertex>): set<Hash> {
    s.vertices.Keys + s.orphans.Keys + HashesOf(work)
  }

  lemma SkipConserves(s: State, work: seq<Vertex>)
    requires work != [] && work[0].hash in s.vertices
    ensures InPlay(s, work[1..]) == InPlay(s, work)
  {
    assert work == [work[0]] + work[1..];
    HashesOfConcat([work[0]], work[1..]);
    assert HashesOf([work[0]]) == {work[0].hash};
  }

  lemma CommitStepConserves(s: State, work: seq<Vertex>)
    requires Keyed(s.orphans) && work != []
    ensures InPlay(Commit(s, work[0]), work[1..] + Released(s, work[0])) == InPlay(s, work)
    ensures Keyed(Commit(s, work[0]).orphans)
  {
    assert work == [work[0]] + work[1..];
    CommitConserves(s, work[0], work[1..]);
    CommitOrphans(s, work[0]);
  }

  /** The cascade moves vertices from the worklist and the orphanage into the
      DAG; none is created and none is lost. */
  lemma {:induction false} CascadeConserves(s: State, work: seq<Vertex>)
    requires Keyed(s.orphans)
    ensures var t := Cascade(s, work);
            t.vertices.Keys + t.orphans.Keys == s.vertices.Keys + s.orphans.Keys + HashesOf(work)
    decreases |s.orphans| + |work|
  {
    if work == [] {
      assert HashesOf([]) == {};
    } else {
      CascadeUnfolds(s, work);
      if work[0].hash in s.vertices {
        SkipConserves(s, work);
        CascadeConserves(s, work[1..]);
      } else {
        CommitStepConserves(s, work);
        CommitReleases(s, work[0]);
        CascadeConserves(Commit(s, work[0]), work[1..] + Released(s, work[0]));
      }
    }
  }

  /** Vertices drawn from `source`. */
  ghost predicate DrawnFrom(s: State, source: set<Vertex>) {
    && (forall h | h in s.vertices :: s.vertices[h] in source)
    && (forall h | h in s.orphans :: s.orphans[h] in source)
  }

  lemma {:induction false} CascadeDrawsFrom(s: State, work: seq<Vertex>, source: set<Vertex>)
    requires Keyed(s.orphans) && DrawnFrom(s, source) && Elements(work) <= source
    ensures DrawnFrom(Cascade(s, work), source)
    ensures forall h | h in Cascade(s, work).orphans :: h in s.orphans
    decreases |s.orphans| + |work|
  {
    if work != [] {
      if work[0].hash in s.vertices {
        CascadeDrawsFrom(s, work[1..], source);
      } else {
        CommitReleases(s, work[0]);
        CommitOrphans(s, work[0]);
        ReleasedElements(s, work[0]);
        assert work[0] in Elements(work);
        forall w | w in work[1..] ensures w in source { assert w in Elements(work); }
        CascadeDrawsFrom(Commit(s, work[0]), work[1..] + Released(s, work[0]), source);
      }
    }
  }

  /** A set of hashes that contains every vertex of `m` whose parents it contains. */
  ghost predicate ClosedUnder(c: set<Hash>, m: VertexMap) {
    forall h | h in m && Complete(m[h], c) :: h in c
  }

  /** The cascade commits no more than it must: its result lies inside every
      set that holds the old DAG and the trigger and is closed under release. */
  lemma {:induction false} CascadeIsLeast(s: State, work: seq<Vertex>, c: set<Hash>)
    requires Keyed(s.orphans)
    requires s.vertices.Keys <= c && ClosedUnder(c, s.orphans)
    requires forall w | w in work :: w.hash in c
    ensures Cascade(s, work).vertices.Keys <= c
    decreases |s.orphans| + |work|
  {
    if work != [] {
      assert work[0] in work;
      if work[0].hash in s.vertices {
        CascadeIsLeast(s, work[1..], c);
      } else {
        CommitReleases(s, work[0]);
        CommitOrphans(s, work[0]);
        CommitVertices(s, work[0]);
        ReleasedElements(s, work[0]);
        var s', released := Commit(s, work[0]), Released(s, work[0]);
        forall w | w in released ensures w.hash in c {
          assert Complete(s.orphans[w.hash], c);
        }
        CascadeIsLeast(s', work[1..] + released, c);
      }
    }
  }

  /** Parking only adds the newcomer and only drops the victim. */
  lemma ParkContents(orphans: VertexMap, present: set<Hash>, v: Vertex, capacity: int)
    requires Keyed(orphans)
    ensures var parked := Park(orphans, present, v, capacity);
            && (forall h | h in parked :: (h in orphans && parked[h] == orphans[h]) || (h == v.hash && parked[h] == v))
            && (forall h | h in orphans :: h in parked || HasVictim(orphans[v.hash := v], present))
  {
  }

  lemma ParkKeepsInv(s: State, v: Vertex, capacity: int)
    requires Inv(s) && !Complete(v, s.vertices.Keys)
    ensures Inv(s.(orphans := Park(s.orphans, s.vertices.Keys, v, capacity)))
  {
  }
}
