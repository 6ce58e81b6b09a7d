/** The committed graph is acyclic, and its tips cover it. */
module Ancestry {
  import opened Sorting
  import opened Hashes
  import opened Vertices
  import opened Encoding
  import opened CausalState
  import opened Dag
  import opened Convergence

  /** Each vertex is committed strictly after all its parents. */
  lemma {:induction false} ParentsCommittedFirst(log: seq<Hash>, vertices: VertexMap, i: nat)
    requires TopoLog(log, vertices) && i < |log|
    ensures log[i] in vertices && Complete(vertices[log[i]], Elements(log[..i]))
  {
    var n := |log| - 1;
    if i < n {
      ParentsCommittedFirst(log[..n], vertices - {log[n]}, i);
      assert log[..n][..i] == log[..i];
    }
  }

  /** Commit order is a topological order in every run, whatever the hash function. */
  lemma {:induction false} CommitOrderIsTopological(ds: seq<Vertex>, capacity: int, digest: Digest)
    ensures var s := Run(ds, capacity, digest);
            && Distinct(s.log) && Elements(s.log) == s.vertices.Keys
            && forall i | 0 <= i < |s.log| :: Complete(s.vertices[s.log[i]], Elements(s.log[..i]))
  {
    var s := Run(ds, capacity, digest);
    RunKeepsInv(ds, capacity, digest);
    TopoLogElements(s.log, s.vertices);
    forall i | 0 <= i < |s.log|
      ensures s.log[i] in s.vertices && Complete(s.vertices[s.log[i]], Elements(s.log[..i]))
    {
      ParentsCommittedFirst(s.log, s.vertices, i);
    }
  }

  /** `c` holds with each committed member one of its parents, as any cycle does. */
  ghost predicate Cyclic(c: set<Hash>, vertices: VertexMap) {
    forall h | h in c && h in vertices :: exists p :: p in vertices[h].parents && p in c
  }

  lemma {:induction false} LogAvoidsCycle(log: seq<Hash>, vertices: VertexMap, all: VertexMap, c: set<Hash>)
    requires TopoLog(log, vertices) && Cyclic(c, all)
    requires forall h | h in vertices :: h in all && all[h] == vertices[h]
    ensures Elements(log) !! c
  {
    if log != [] {
      var before, h := log[..|log| - 1], log[|log| - 1];
      LogAvoidsCycle(before, vertices - {h}, all, c);
      assert log == before + [h];
      ElementsAppend(before, h);
      forall p | p in all[h].parents ensures p !in c {
        assert p in Elements(before);
      }
    }
  }

  /** No member of a cycle is ever committed: in particular no vertex that names
      itself as a parent and no two that name each other. */
  lemma {:induction false} CyclesNeverCommitted(ds: seq<Vertex>, capacity: int, digest: Digest, c: set<Hash>)
    requires Cyclic(c, Run(ds, capacity, digest).vertices)
    ensures Run(ds, capacity, digest).vertices.Keys !! c
  {
    var s := Run(ds, capacity, digest);
    RunKeepsInv(ds, capacity, digest);
    LogAvoidsCycle(s.log, s.vertices, s.vertices, c);
    TopoLogElements(s.log, s.vertices);
  }

  lemma {:induction false} LoopsNeverCommitted(ds: seq<Vertex>, capacity: int, digest: Digest, a: Hash, b: Hash)
    ensures var vertices := Run(ds, capacity, digest).vertices;
            && (a in vertices ==> a !in vertices[a].parents)
            && (a in vertices && b in vertices ==> !(a in vertices[b].parents && b in vertices[a].parents))
  {
    var vertices := Run(ds, capacity, digest).vertices;
    if a in vertices && a in vertices[a].parents {
      assert Cyclic({a}, vertices);
      CyclesNeverCommitted(ds, capacity, digest, {a});
    }
    if a in vertices && b in vertices && a in vertices[b].parents && b in vertices[a].parents {
      assert Cyclic({a, b}, vertices);
      CyclesNeverCommitted(ds, capacity, digest, {a, b});
    }
  }

  // Tips

  /** A chain of committed vertices, each a parent of the next. */
  ghost predicate Descends(path: seq<Hash>, vertices: VertexMap) {
    && path != []
    && (forall i | 0 <= i < |path| :: path[i] in vertices)
    && (forall i | 0 <= i < |path| - 1 :: path[i] in vertices[path[i + 1]].parents)
  }

  /** A committed vertex that is not a tip has a child, which is committed later. */
  lemma ChildIsLater(log: seq<Hash>, vertices: VertexMap, i: nat) returns (j: nat)
    requires TopoLog(log, vertices) && i < |log|
    requires log[i] in vertices && log[i] !in TipHashes(vertices)
    ensures i < j < |log| && log[j] in vertices && log[i] in vertices[log[j]].parents
  {
    var h := log[i];
    TopoLogElements(log, vertices);
    var g :| g in vertices && h in vertices[g].parents;
    assert g in Elements(log);
    j :| 0 <= j < |log| && log[j] == g;
    ParentsCommittedFirst(log, vertices, j);
    assert h in Elements(log[..j]);
    var k :| 0 <= k < j && log[..j][k] == h;
    assert k == i;
  }

  lemma DescendsFrom(h: Hash, rest: seq<Hash>, vertices: VertexMap)
    requires Descends(rest, vertices) && h in vertices && h in vertices[rest[0]].parents
    ensures Descends([h] + rest, vertices)
  {
  }

  /** Climbing from child to child ends at a tip, because every child is
      committed later. */
  lemma {:induction false} ClimbToTip(log: seq<Hash>, vertices: VertexMap, i: nat) returns (path: seq<Hash>)
    requires TopoLog(log, vertices) && i < |log|
    ensures Descends(path, vertices) && path[0] == log[i] && path[|path| - 1] in TipHashes(vertices)
    decreases |log| - i
  {
    ParentsCommittedFirst(log, vertices, i);
    if log[i] in TipHashes(vertices) {
      path := [log[i]];
    } else {
      var j := ChildIsLater(log, vertices, i);
      var rest := ClimbToTip(log, vertices, j);
      DescendsFrom(log[i], rest, vertices);
      path := [log[i]] + rest;
    }
  }

  ghost predicate LeadsToTip(h: Hash, path: seq<Hash>, vertices: VertexMap) {
    Descends(path, vertices) && path[0] == h && path[|path| - 1] in TipHashes(vertices)
  }

  lemma BelowSomeTip(s: State, h: Hash)
    requires Inv(s) && h in s.vertices
    ensures exists path :: LeadsToTip(h, path, s.vertices)
  {
    TopoLogElements(s.log, s.vertices);
    assert h in Elements(s.log);
    var i :| 0 <= i < |s.log| && s.log[i] == h;
    var path := ClimbToTip(s.log, s.vertices, i);
    assert LeadsToTip(h, path, s.vertices);
  }

  lemma SomeTip(s: State)
    requires Inv(s) && s.vertices.Keys != {}
    ensures TipHashes(s.vertices) != {}
  {
    var h :| h in s.vertices.Keys;
    BelowSomeTip(s, h);
    var path :| LeadsToTip(h, path, s.vertices);
    var tip := path[|path| - 1];
    assert tip in TipHashes(s.vertices);
  }

  ghost predicate CoveredByTips(vertices: VertexMap) {
    && (forall h | h in vertices :: exists path :: LeadsToTip(h, path, vertices))
    && (vertices.Keys != {} ==> TipHashes(vertices) != {})
  }

  lemma InvGivesCover(s: State)
    requires Inv(s)
    ensures CoveredByTips(s.vertices)
  {
    forall h | h in s.vertices ensures exists path :: LeadsToTip(h, path, s.vertices) {
      BelowSomeTip(s, h);
    }
    if s.vertices.Keys != {} {
      SomeTip(s);
    }
  }

  /** Tips cover the DAG: every committed vertex is a tip or an ancestor of one,
      and a nonempty DAG has a tip. */
  lemma {:induction false} TipsCover(ds: seq<Vertex>, capacity: int, digest: Digest)
    ensures CoveredByTips(Run(ds, capacity, digest).vertices)
  {
    RunKeepsInv(ds, capacity, digest);
    InvGivesCover(Run(ds, capacity, digest));
  }

  /** No tip is an ancestor of anything: a chain that starts at a tip ends there. */
  lemma TipsHaveNoDescendants(path: seq<Hash>, vertices: VertexMap)
    requires Descends(path, vertices)
    ensures path[0] in TipHashes(vertices) ==> |path| == 1
  {
    if |path| > 1 {
      assert path[0] in vertices[path[0 + 1]].parents;
    }
  }
}
