/** Runs of the DAG: whatever the order of delivery, a replica ends with the
    causal closure of what it was given. */
module Convergence {
  import opened Sorting
  import opened Hashes
  import opened Vertices
  import opened Encoding
  import opened CausalState

  // Invariants of every run

  lemma LockedKeepsInv(s: State, v: Vertex, capacity: int)
    requires Inv(s)
    ensures Inv(Locked(s, v, capacity)) && Extends(s, Locked(s, v, capacity))
  {
    if v.hash in s.vertices {
    } else if !Complete(v, s.vertices.Keys) {
      ParkKeepsInv(s, v, capacity);
    } else {
      CascadeKeepsInv(s, [v]);
      CascadeExtends(s, [v]);
    }
  }

  lemma {:induction false} RunKeepsInv(ds: seq<Vertex>, capacity: int, digest: Digest)
    ensures Inv(Run(ds, capacity, digest))
  {
    if ds != [] {
      RunKeepsInv(ds[..|ds| - 1], capacity, digest);
      LockedKeepsInv(Run(ds[..|ds| - 1], capacity, digest), ds[|ds| - 1], capacity);
    }
  }

  lemma {:induction false} RunExtends(ds: seq<Vertex>, k: nat, capacity: int, digest: Digest)
    requires k <= |ds|
    ensures Extends(Run(ds[..k], capacity, digest), Run(ds, capacity, digest))
  {
    if k == |ds| {
      assert ds[..k] == ds;
    } else {
      var n := |ds| - 1;
      assert ds[..n][..k] == ds[..k];
      RunExtends(ds[..n], k, capacity, digest);
      RunKeepsInv(ds[..n], capacity, digest);
      LockedKeepsInv(Run(ds[..n], capacity, digest), ds[n], capacity);
    }
  }

  /** The deliveries that pass validation. */
  ghost function Admitted(ds: seq<Vertex>, digest: Digest): set<Vertex> {
    set v | v in ds && Admissible(v, digest)
  }

  lemma LockedDrawsFrom(s: State, v: Vertex, capacity: int, source: set<Vertex>)
    requires Inv(s) && DrawnFrom(s, source) && v in source
    ensures DrawnFrom(Locked(s, v, capacity), source)
  {
    if v.hash in s.vertices {
    } else if !Complete(v, s.vertices.Keys) {
      ParkContents(s.orphans, s.vertices.Keys, v, capacity);
    } else {
      CascadeDrawsFrom(s, [v], source);
    }
  }

  /** Everything a replica holds was delivered to it and passed validation. */
  lemma {:induction false} RunDrawsFrom(ds: seq<Vertex>, capacity: int, digest: Digest, source: set<Vertex>)
    requires Admitted(ds, digest) <= source
    ensures DrawnFrom(Run(ds, capacity, digest), source)
  {
    if ds != [] {
      var before, v := ds[..|ds| - 1], ds[|ds| - 1];
      assert Admitted(before, digest) <= Admitted(ds, digest);
      RunDrawsFrom(before, capacity, digest, source);
      RunKeepsInv(before, capacity, digest);
      if Admissible(v, digest) {
        assert v in Admitted(ds, digest);
        LockedDrawsFrom(Run(before, capacity, digest), v, capacity, source);
      }
    }
  }

  /** It carries the hash of its content, names its parents in strictly
      ascending order, and was delivered. */
  ghost predicate Sound(v: Vertex, h: Hash, ds: seq<Vertex>, digest: Digest) {
    && v in ds && v.hash == h && digest(v) == h
    && forall i | 0 <= i < |v.parents| - 1 :: Compare(v.parents[i], v.parents[i + 1]) < 0
  }

  lemma AdmittedIsSound(v: Vertex, ds: seq<Vertex>, digest: Digest)
    requires v in Admitted(ds, digest)
    ensures Sound(v, v.hash, ds, digest)
  {
    RankOrders();
    forall i | 0 <= i < |v.parents| - 1 ensures Less(v.parents[i], v.parents[i + 1]) { }
  }

  /** Everything a replica holds is sound. */
  lemma {:induction false} HeldIsSound(ds: seq<Vertex>, capacity: int, digest: Digest)
    ensures var s := Run(ds, capacity, digest);
            && (forall h | h in s.vertices :: Sound(s.vertices[h], h, ds, digest))
            && (forall h | h in s.orphans :: Sound(s.orphans[h], h, ds, digest))
  {
    var s := Run(ds, capacity, digest);
    RunDrawsFrom(ds, capacity, digest, Admitted(ds, digest));
    RunKeepsInv(ds, capacity, digest);
    forall h | h in s.vertices ensures Sound(s.vertices[h], h, ds, digest) {
      AdmittedIsSound(s.vertices[h], ds, digest);
    }
    forall h | h in s.orphans ensures Sound(s.orphans[h], h, ds, digest) {
      AdmittedIsSound(s.orphans[h], ds, digest);
    }
  }

  // The causal closure

  /** Hashes of the vertices in `vs` whose ancestry inside `vs` is at most `n` deep. */
  ghost function Level(vs: set<Vertex>, n: nat): set<Hash> {
    if n == 0 then {} else set v | v in vs && Complete(v, Level(vs, n - 1)) :: v.hash
  }

  /** The least causally closed set: those whose whole ancestry is in `vs`. */
  ghost function Closure(vs: set<Vertex>): set<Hash> {
    Level(vs, |vs|)
  }

  /** Contains every vertex of `vs` whose parents it contains. */
  ghost predicate CausallyClosed(c: set<Hash>, vs: set<Vertex>) {
    forall v | v in vs && Complete(v, c) :: v.hash in c
  }

  lemma {:induction false} LevelIsLeast(vs: set<Vertex>, n: nat, c: set<Hash>)
    requires CausallyClosed(c, vs)
    ensures Level(vs, n) <= c
  {
    if n > 0 {
      LevelIsLeast(vs, n - 1, c);
      forall v | v in vs && Complete(v, Level(vs, n - 1)) ensures v.hash in c {
        assert Complete(v, c);
      }
    }
  }

  lemma LevelStepGrows(vs: set<Vertex>, m: nat, n: nat)
    requires 0 < m && 0 < n && Level(vs, m - 1) <= Level(vs, n - 1)
    ensures Level(vs, m) <= Level(vs, n)
  {
    forall h | h in Level(vs, m) ensures h in Level(vs, n) {
      var v :| v in vs && Complete(v, Level(vs, m - 1)) && v.hash == h;
      assert Complete(v, Level(vs, n - 1));
    }
  }

  lemma {:induction false} LevelGrows(vs: set<Vertex>, m: nat, n: nat)
    requires m <= n
    ensures Level(vs, m) <= Level(vs, n)
  {
    if 0 < m {
      LevelGrows(vs, m - 1, n - 1);
      LevelStepGrows(vs, m, n);
    }
  }

  lemma {:induction false} LevelFixed(vs: set<Vertex>, m: nat, n: nat)
    requires m <= n && Level(vs, m) == Level(vs, m + 1)
    ensures Level(vs, n) == Level(vs, m)
  {
    if m < n {
      LevelFixed(vs, m, n - 1);
    }
  }

  /** One more level: at least one more hash, or none ever again. */
  lemma LevelStep(vs: set<Vertex>, n: nat)
    ensures |Level(vs, n + 1)| > |Level(vs, n)| || Level(vs, n + 1) == Level(vs, n)
  {
    LevelGrows(vs, n, n + 1);
    if Level(vs, n) != Level(vs, n + 1) {
      ProperSubsetIsSmaller(Level(vs, n), Level(vs, n + 1));
    }
  }

  /** A chain of sets that gains an element or stalls at every step, and that
      never has more than `bound` elements, stalls within `bound` steps. */
  lemma {:induction false} ChainStalls<T>(chain: nat -> set<T>, n: nat, bound: nat) returns (m: nat)
    requires forall i: nat :: |chain(i + 1)| > |chain(i)| || chain(i + 1) == chain(i)
    requires n <= bound && forall i: nat :: |chain(i)| <= bound
    requires |chain(n)| >= n
    ensures m <= bound && chain(m + 1) == chain(m)
    decreases bound - n
  {
    if chain(n + 1) == chain(n) {
      m := n;
    } else {
      assert |chain(n + 1)| >= n + 1;
      m := ChainStalls(chain, n + 1, bound);
    }
  }

  lemma ProperSubsetIsSmaller<T>(a: set<T>, b: set<T>)
    requires a <= b && a != b
    ensures |a| < |b|
  {
    assert b == a + (b - a);
    assert b - a != {};
    assert |b| == |a| + |b - a|;
  }

  lemma {:induction false} HashCount(vs: set<Vertex>)
    ensures |set v | v in vs :: v.hash| <= |vs|
    decreases |vs|
  {
    if vs != {} {
      var w :| w in vs;
      var rest := vs - {w};
      HashCount(rest);
      var few := set v | v in rest :: v.hash;
      assert (set v | v in vs :: v.hash) == few + {w.hash};
    }
  }

  lemma LevelSize(vs: set<Vertex>, n: nat)
    ensures |Level(vs, n)| <= |vs|
  {
    var all := set v | v in vs :: v.hash;
    HashCount(vs);
    assert Level(vs, n) <= all;
    SubsetIsNotLarger(Level(vs, n), all);
  }

  lemma LevelStalls(vs: set<Vertex>) returns (m: nat)
    ensures m <= |vs| && Level(vs, m) == Level(vs, m + 1)
  {
    var chain := (i: nat) => Level(vs, i);
    forall i: nat ensures |chain(i + 1)| > |chain(i)| || chain(i + 1) == chain(i) {
      LevelStep(vs, i);
    }
    forall i: nat ensures |chain(i)| <= |vs| {
      LevelSize(vs, i);
    }
    m := ChainStalls(chain, 0, |vs|);
  }

  /** After |vs| levels nothing is left to add. */
  lemma LevelSaturates(vs: set<Vertex>)
    ensures Level(vs, |vs|) == Level(vs, |vs| + 1)
  {
    var m := LevelStalls(vs);
    LevelFixed(vs, m, |vs|);
    LevelFixed(vs, m, |vs| + 1);
  }

  lemma SubsetIsNotLarger<T>(a: set<T>, b: set<T>)
    requires a <= b
    ensures |a| <= |b|
  {
    if a != b { ProperSubsetIsSmaller(a, b); }
  }

  /** The closure is causally closed, lies inside every causally closed set,
      and contains every level. */
  lemma ClosureIsLeastClosed(vs: set<Vertex>)
    ensures CausallyClosed(Closure(vs), vs)
    ensures forall c | CausallyClosed(c, vs) :: Closure(vs) <= c
    ensures forall n: nat :: Level(vs, n) <= Closure(vs)
  {
    LevelSaturates(vs);
    forall v | v in vs && Complete(v, Closure(vs)) ensures v.hash in Closure(vs) {
      assert v.hash in Level(vs, |vs| + 1);
    }
    forall c | CausallyClosed(c, vs) ensures Closure(vs) <= c {
      LevelIsLeast(vs, |vs|, c);
    }
    forall n: nat ensures Level(vs, n) <= Closure(vs) {
      LevelIsLeast(vs, n, Closure(vs));
    }
  }

  lemma ClosureWithin(vs: set<Vertex>, c: set<Hash>)
    requires CausallyClosed(c, vs)
    ensures Closure(vs) <= c
  {
    LevelIsLeast(vs, |vs|, c);
  }

  /** A larger set of vertices has a larger closure. */
  lemma ClosureIsMonotone(vs: set<Vertex>, ws: set<Vertex>)
    requires vs <= ws
    ensures Closure(vs) <= Closure(ws)
  {
    ClosureIsLeastClosed(vs);
    ClosureIsLeastClosed(ws);
  }

  // Safety: for every capacity and with no assumption on the hash function

  lemma {:induction false} LogInClosure(log: seq<Hash>, vertices: VertexMap, vs: set<Vertex>)
    requires TopoLog(log, vertices) && forall h | h in vertices :: vertices[h] in vs && vertices[h].hash == h
    ensures Elements(log) <= Closure(vs)
  {
    if log != [] {
      var before, h := log[..|log| - 1], log[|log| - 1];
      LogInClosure(before, vertices - {h}, vs);
      ClosureIsLeastClosed(vs);
      assert Complete(vertices[h], Closure(vs));
      assert log == before + [h];
      ElementsAppend(before, h);
    }
  }

  /** The DAG never leaves the causal closure of what was delivered. */
  lemma {:induction false} NeverOutsideClosure(ds: seq<Vertex>, capacity: int, digest: Digest)
    ensures Run(ds, capacity, digest).vertices.Keys <= Closure(Admitted(ds, digest))
  {
    var s := Run(ds, capacity, digest);
    RunKeepsInv(ds, capacity, digest);
    RunDrawsFrom(ds, capacity, digest, Admitted(ds, digest));
    LogInClosure(s.log, s.vertices, Admitted(ds, digest));
    TopoLogElements(s.log, s.vertices);
  }

  /** The orphan buffer never outgrows its capacity. */
  lemma {:induction false} BufferBounded(ds: seq<Vertex>, capacity: int, digest: Digest)
    ensures |Run(ds, capacity, digest).orphans| <= if capacity < 0 then 0 else capacity
  {
    if ds != [] {
      var before := ds[..|ds| - 1];
      BufferBounded(before, capacity, digest);
      RunKeepsInv(before, capacity, digest);
      LockedSize(Run(before, capacity, digest), ds[|ds| - 1], capacity);
    }
  }

  lemma LockedSize(s: State, v: Vertex, capacity: int)
    requires Inv(s)
    ensures var n := |Locked(s, v, capacity).orphans|;
            n <= |s.orphans| || n == |s.orphans| + 1 <= capacity
  {
    if v.hash !in s.vertices {
      if Complete(v, s.vertices.Keys) {
        var t := Cascade(s, [v]);
        CascadeDrawsFrom(s, [v], s.vertices.Values + s.orphans.Values + {v});
        assert t.orphans.Keys <= s.orphans.Keys;
        SubsetIsNotLarger(t.orphans.Keys, s.orphans.Keys);
        assert |t.orphans| == |t.orphans.Keys| && |s.orphans| == |s.orphans.Keys|;
      } else {
        ParkSize(s.orphans, s.vertices.Keys, v, capacity);
      }
    }
  }

  lemma ParkSize(orphans: VertexMap, present: set<Hash>, v: Vertex, capacity: int)
    requires Keyed(orphans)
    ensures var parked := Park(orphans, present, v, capacity);
            |parked| <= |orphans| || |parked| == |orphans| + 1 <= capacity
  {
  }

  // Liveness under redelivery

  /** A vertex delivered after all its parents are committed is committed. */
  lemma {:induction false} CommittedOnDelivery(ds: seq<Vertex>, k: nat, capacity: int, digest: Digest)
    requires k < |ds| && Admissible(ds[k], digest)
    requires Complete(ds[k], Run(ds[..k], capacity, digest).vertices.Keys)
    ensures ds[k].hash in Run(ds, capacity, digest).vertices
  {
    assert ds[..k + 1][..k] == ds[..k];
    var s := Run(ds[..k], capacity, digest);
    CascadeExtends(s, [ds[k]]);
    assert ds[k].hash in Run(ds[..k + 1], capacity, digest).vertices;
    RunExtends(ds, k + 1, capacity, digest);
  }

  /** The deliveries at the positions `at` come parents first. */
  ghost predicate ParentsFirst(ds: seq<Vertex>, at: seq<nat>, digest: Digest) {
    && (forall i, j | 0 <= i < j < |at| :: at[i] < at[j])
    && (forall i | 0 <= i < |at| :: at[i] < |ds|)
    && (forall i | 0 <= i < |at| :: Admissible(ds[at[i]], digest) && Complete(ds[at[i]], HashesAt(ds, at[..i])))
  }

  ghost function HashesAt(ds: seq<Vertex>, at: seq<nat>): set<Hash> {
    set i | 0 <= i < |at| && at[i] < |ds| :: ds[at[i]].hash
  }

  lemma {:induction false} ParentsFirstCommits(ds: seq<Vertex>, at: seq<nat>, n: nat, capacity: int, digest: Digest)
    requires ParentsFirst(ds, at, digest) && n <= |at|
    ensures HashesAt(ds, at[..n]) <= Run(ds, capacity, digest).vertices.Keys
    ensures n < |at| ==> HashesAt(ds, at[..n]) <= Run(ds[..at[n]], capacity, digest).vertices.Keys
    decreases n
  {
    forall i | 0 <= i < n
      ensures ds[at[i]].hash in Run(ds, capacity, digest).vertices
      ensures n < |at| ==> ds[at[i]].hash in Run(ds[..at[n]], capacity, digest).vertices
    {
      ParentsFirstCommits(ds, at, i, capacity, digest);
      assert at[i] < |ds|;
      CommittedOnDelivery(ds, at[i], capacity, digest);
      if n < |at| {
        var short := ds[..at[n]];
        assert short[..at[i]] == ds[..at[i]] && short[at[i]] == ds[at[i]];
        CommittedOnDelivery(short, at[i], capacity, digest);
      }
    }
  }

  /** Eviction, at any capacity, cannot stop convergence: once the deliveries
      contain the closure in some parents-first order as a subsequence, the DAG
      is the closure. */
  lemma {:induction false} ConvergesDespiteEviction(ds: seq<Vertex>, at: seq<nat>, capacity: int, digest: Digest)
    requires ParentsFirst(ds, at, digest)
    requires Closure(Admitted(ds, digest)) <= HashesAt(ds, at)
    ensures Run(ds, capacity, digest).vertices.Keys == Closure(Admitted(ds, digest))
  {
    assert at[..|at|] == at;
    ParentsFirstCommits(ds, at, |at|, capacity, digest);
    NeverOutsideClosure(ds, capacity, digest);
  }

  ghost function Flatten(passes: seq<seq<Vertex>>): seq<Vertex> {
    if passes == [] then [] else Flatten(passes[..|passes| - 1]) + passes[|passes| - 1]
  }

  lemma LevelWithin(vs: set<Vertex>, n: nat, c: set<Hash>)
    requires forall v | v in vs && Complete(v, Level(vs, n)) :: v.hash in c
    ensures Level(vs, n + 1) <= c
  {
  }

  /** What a committed set completes is committed whenever it is delivered. */
  lemma {:induction false} CommittedWhenComplete(ds: seq<Vertex>, m: nat, k: nat, c: set<Hash>, capacity: int, digest: Digest)
    requires m <= k < |ds| && c <= Run(ds[..m], capacity, digest).vertices.Keys
    requires Admissible(ds[k], digest) && Complete(ds[k], c)
    ensures ds[k].hash in Run(ds, capacity, digest).vertices
  {
    assert ds[..k][..m] == ds[..m];
    RunExtends(ds[..k], m, capacity, digest);
    StillComplete(ds[k], c, Run(ds[..m], capacity, digest), Run(ds[..k], capacity, digest));
    CommittedOnDelivery(ds, k, capacity, digest);
  }

  /** In a pass that starts with a set committed, what that set completes is committed. */
  lemma {:induction false} CommittedInPass(before: seq<Vertex>, pass: seq<Vertex>, k: nat, c: set<Hash>, capacity: int, digest: Digest)
    requires c <= Run(before, capacity, digest).vertices.Keys
    requires k < |pass| && Admissible(pass[k], digest) && Complete(pass[k], c)
    ensures pass[k].hash in Run(before + pass, capacity, digest).vertices
  {
    var ds := before + pass;
    assert ds[..|before|] == before && ds[|before| + k] == pass[k];
    CommittedWhenComplete(ds, |before|, |before| + k, c, capacity, digest);
  }

  lemma StillComplete(v: Vertex, c: set<Hash>, s: State, t: State)
    requires Complete(v, c) && c <= s.vertices.Keys && Extends(s, t)
    ensures Complete(v, t.vertices.Keys)
  {
  }

  /** `n` passes over all of `vs`, each in an order of its own, commit level `n`. */
  lemma {:induction false} PassesCommitLevels(passes: seq<seq<Vertex>>, vs: set<Vertex>, capacity: int, digest: Digest)
    requires forall i | 0 <= i < |passes| :: vs <= Admitted(passes[i], digest)
    ensures Level(vs, |passes|) <= Run(Flatten(passes), capacity, digest).vertices.Keys
  {
    if passes != [] {
      var n := |passes| - 1;
      var before, last := Flatten(passes[..n]), passes[n];
      PassesCommitLevels(passes[..n], vs, capacity, digest);
      var committed := Run(Flatten(passes), capacity, digest).vertices.Keys;
      forall v | v in vs && Complete(v, Level(vs, n)) ensures v.hash in committed {
        assert v in Admitted(last, digest);
        var k :| 0 <= k < |last| && last[k] == v;
        CommittedInPass(before, last, k, Level(vs, n), capacity, digest);
      }
      LevelWithin(vs, n, committed);
    }
  }

  /** As many full redeliveries as the ancestry is deep suffice, in any orders
      and at any capacity; |vs| always do. The passes may carry anything else
      that is not admitted. */
  lemma {:induction false} RedeliveryConverges(passes: seq<seq<Vertex>>, vs: set<Vertex>, capacity: int, digest: Digest)
    requires forall i | 0 <= i < |passes| :: Admitted(passes[i], digest) == vs
    requires Level(vs, |passes|) == Level(vs, |passes| + 1) || |passes| >= |vs|
    ensures Run(Flatten(passes), capacity, digest).vertices.Keys == Closure(vs)
  {
    var n := |passes|;
    PassesCommitLevels(passes, vs, capacity, digest);
    NeverOutsideClosure(Flatten(passes), capacity, digest);
    FlattenAdmitted(passes, vs, digest);
    LevelSaturates(vs);
    if n >= |vs| {
      LevelGrows(vs, |vs|, n);
    } else {
      LevelFixed(vs, n, |vs|);
    }
    ClosureIsMonotone(Admitted(Flatten(passes), digest), vs);
  }

  lemma {:induction false} FlattenAdmitted(passes: seq<seq<Vertex>>, vs: set<Vertex>, digest: Digest)
    requires forall i | 0 <= i < |passes| :: Admitted(passes[i], digest) == vs
    ensures Admitted(Flatten(passes), digest) <= vs
  {
    if passes != [] {
      var before, last := Flatten(passes[..|passes| - 1]), passes[|passes| - 1];
      FlattenAdmitted(passes[..|passes| - 1], vs, digest);
      forall v | v in Admitted(before + last, digest) ensures v in vs {
        assert v in Admitted(before, digest) || v in Admitted(last, digest);
      }
    }
  }
}
