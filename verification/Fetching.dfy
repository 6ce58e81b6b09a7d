/** The handler that feeds a fetch response to the DAG. */
module Fetching {
  import opened Integers
  import opened Hashes
  import opened Vertices
  import opened Encoding
  import opened CausalState
  import opened Convergence
  import opened Agreement
  import opened Dag
  import opened PendingRequests

  /** The vertices of a response that are not committed when their turn comes;
      `before` is everything delivered earlier. */
  ghost function Handled(before: seq<Vertex>, vtxs: seq<Vertex>, capacity: int, digest: Digest): seq<Vertex> {
    if vtxs == [] then [] else
      var n := |vtxs| - 1;
      var earlier := Handled(before, vtxs[..n], capacity, digest);
      if vtxs[n].hash in Run(before + vtxs[..n], capacity, digest).vertices then earlier else earlier + [vtxs[n]]
  }

  /** A buffered channel after non-blocking sends: what fits gets in, in order. */
  function Offered(inbound: seq<Vertex>, vs: seq<Vertex>, size: int): seq<Vertex> {
    inbound + vs[..Larger(0, Smaller(|vs|, size - |inbound|))]
  }

  lemma OfferedOne(inbound: seq<Vertex>, vs: seq<Vertex>, v: Vertex, size: int)
    ensures Offered(inbound, vs + [v], size) ==
              if |Offered(inbound, vs, size)| < size then Offered(inbound, vs, size) + [v] else Offered(inbound, vs, size)
  {
    var room := size - |inbound|;
    if |vs| < room {
      assert vs[..|vs|] == vs && (vs + [v])[..|vs| + 1] == vs + [v];
    } else if 0 <= room {
      assert (vs + [v])[..room] == vs[..room];
    }
  }

  lemma HandledStep(before: seq<Vertex>, vtxs: seq<Vertex>, i: nat, capacity: int, digest: Digest)
    requires i < |vtxs|
    ensures var earlier := Handled(before, vtxs[..i], capacity, digest);
            Handled(before, vtxs[..i + 1], capacity, digest) ==
              if vtxs[i].hash in Run(before + vtxs[..i], capacity, digest).vertices then earlier else earlier + [vtxs[i]]
  {
    assert vtxs[..i + 1][..i] == vtxs[..i];
  }

  /** Position `i` brings `h` while it is not committed. */
  ghost predicate BringsNew(before: seq<Vertex>, vtxs: seq<Vertex>, i: nat, h: Hash, capacity: int, digest: Digest) {
    i < |vtxs| && vtxs[i].hash == h && h !in Run(before + vtxs[..i], capacity, digest).vertices
  }

  ghost predicate SomeBringsNew(before: seq<Vertex>, vtxs: seq<Vertex>, h: Hash, capacity: int, digest: Digest) {
    exists i :: BringsNew(before, vtxs, i, h, capacity, digest)
  }

  lemma BringsNewPrefix(before: seq<Vertex>, vtxs: seq<Vertex>, n: nat, i: nat, h: Hash, capacity: int, digest: Digest)
    requires n <= |vtxs|
    ensures BringsNew(before, vtxs[..n], i, h, capacity, digest) <==> i < n && BringsNew(before, vtxs, i, h, capacity, digest)
  {
    if i < n {
      assert vtxs[..n][..i] == vtxs[..i];
    }
  }

  /** The first `n` vertices, by recursion: some position below `n` brings `h` new. */
  lemma {:induction false} BringsNewStep(before: seq<Vertex>, vtxs: seq<Vertex>, n: nat, h: Hash, capacity: int, digest: Digest)
    requires n < |vtxs|
    ensures SomeBringsNew(before, vtxs[..n + 1], h, capacity, digest) <==>
              SomeBringsNew(before, vtxs[..n], h, capacity, digest) || BringsNew(before, vtxs, n, h, capacity, digest)
  {
    var shorter, longer := vtxs[..n], vtxs[..n + 1];
    forall i: nat
      ensures BringsNew(before, longer, i, h, capacity, digest) <==>
                BringsNew(before, shorter, i, h, capacity, digest) || (i == n && BringsNew(before, vtxs, n, h, capacity, digest))
    {
      BringsNewPrefix(before, vtxs, n, i, h, capacity, digest);
      BringsNewPrefix(before, vtxs, n + 1, i, h, capacity, digest);
    }
    if BringsNew(before, vtxs, n, h, capacity, digest) {
      assert BringsNew(before, longer, n, h, capacity, digest);
    }
  }

  /** The hashes handled are those that come while they are not committed. */
  lemma {:induction false} HandledIff(before: seq<Vertex>, vtxs: seq<Vertex>, h: Hash, capacity: int, digest: Digest)
    ensures h in HashesOf(Handled(before, vtxs, capacity, digest)) <==>
              SomeBringsNew(before, vtxs, h, capacity, digest)
  {
    if vtxs == [] {
      assert HashesOf([]) == {};
    } else {
      var n := |vtxs| - 1;
      HandledIff(before, vtxs[..n], h, capacity, digest);
      BringsNewStep(before, vtxs, n, h, capacity, digest);
      HandledHashes(before, vtxs, n, capacity, digest);
      assert vtxs[..n + 1] == vtxs;
    }
  }

  lemma HandledHashes(before: seq<Vertex>, vtxs: seq<Vertex>, i: nat, capacity: int, digest: Digest)
    requires i < |vtxs|
    ensures HashesOf(Handled(before, vtxs[..i + 1], capacity, digest)) ==
              HashesOf(Handled(before, vtxs[..i], capacity, digest)) +
              (if vtxs[i].hash in Run(before + vtxs[..i], capacity, digest).vertices then {} else {vtxs[i].hash})
  {
    HandledStep(before, vtxs, i, capacity, digest);
    HashesOfConcat(Handled(before, vtxs[..i], capacity, digest), [vtxs[i]]);
    assert HashesOf([vtxs[i]]) == {vtxs[i].hash};
  }

  lemma StaysCommitted(before: seq<Vertex>, vtxs: seq<Vertex>, i: nat, k: nat, h: Hash, capacity: int, digest: Digest)
    requires i <= k <= |vtxs| && h in Run(before + vtxs[..i], capacity, digest).vertices
    ensures h in Run(before + vtxs[..k], capacity, digest).vertices
  {
    var ds, m := before + vtxs[..k], |before| + i;
    assert ds[..m] == before + vtxs[..i];
    RunExtends(ds, m, capacity, digest);
    ExtendsKeeps(Run(ds[..m], capacity, digest), Run(ds, capacity, digest), h);
  }

  lemma ExtendsKeeps(s: State, t: State, h: Hash)
    requires Extends(s, t) && h in s.vertices
    ensures h in t.vertices
  {
  }

  lemma CommittedBringsNothing(before: seq<Vertex>, vtxs: seq<Vertex>, i: nat, k: nat, h: Hash, capacity: int, digest: Digest)
    requires i <= k && i <= |vtxs| && h in Run(before + vtxs[..i], capacity, digest).vertices
    ensures !BringsNew(before, vtxs, k, h, capacity, digest)
  {
    if k < |vtxs| {
      StaysCommitted(before, vtxs, i, k, h, capacity, digest);
    }
  }

  /** A hash committed before the response is skipped wherever it comes: its
      request stays pending. */
  lemma CommittedStaysPending(before: seq<Vertex>, vtxs: seq<Vertex>, h: Hash, capacity: int, digest: Digest)
    requires h in Run(before, capacity, digest).vertices
    ensures h !in HashesOf(Handled(before, vtxs, capacity, digest))
  {
    HandledIff(before, vtxs, h, capacity, digest);
    assert before + vtxs[..0] == before;
    forall k: nat ensures !BringsNew(before, vtxs, k, h, capacity, digest) {
      CommittedBringsNothing(before, vtxs, 0, k, h, capacity, digest);
    }
  }

  /** Position `i` is the first to bring `h`. */
  ghost predicate FirstAt(vtxs: seq<Vertex>, i: nat, h: Hash) {
    i < |vtxs| && vtxs[i].hash == h && forall j | 0 <= j < i :: vtxs[j].hash != h
  }

  /** Whether `h` is committed when it first comes decides for the whole response. */
  lemma FirstDecides(before: seq<Vertex>, vtxs: seq<Vertex>, i: nat, h: Hash, capacity: int, digest: Digest)
    requires FirstAt(vtxs, i, h)
    ensures h in HashesOf(Handled(before, vtxs, capacity, digest)) <==>
              h !in Run(before + vtxs[..i], capacity, digest).vertices
  {
    HandledIff(before, vtxs, h, capacity, digest);
    if h in Run(before + vtxs[..i], capacity, digest).vertices {
      forall k: nat ensures !BringsNew(before, vtxs, k, h, capacity, digest) {
        if i <= k { CommittedBringsNothing(before, vtxs, i, k, h, capacity, digest); }
      }
    } else {
      assert BringsNew(before, vtxs, i, h, capacity, digest);
    }
  }

  /** When nothing has been evicted, a hash of the response stays pending if and
      only if it lies in the causal closure of what was delivered before it
      comes: then an earlier vertex, of this response or not, has released it. */
  lemma {:induction false} StaysPendingIff(before: seq<Vertex>, vtxs: seq<Vertex>, i: nat, h: Hash, capacity: int, digest: Digest)
    requires FirstAt(vtxs, i, h)
    requires Consistent(Admitted(before + vtxs[..i], digest)) && NeverEvicts(before + vtxs[..i], capacity, digest)
    ensures h !in HashesOf(Handled(before, vtxs, capacity, digest)) <==>
              h in Closure(Admitted(before + vtxs[..i], digest))
  {
    FirstDecides(before, vtxs, i, h, capacity, digest);
    ConvergesToClosure(before + vtxs[..i], capacity, digest);
  }

  lemma PairAdmitted(c: Vertex, p: Vertex, digest: Digest)
    requires Admissible(c, digest) && Admissible(p, digest) && c.parents != [] && p.parents == []
    ensures Admitted([c, p], digest) == {c, p} && NonRoots({c, p}) == {c.hash}
    ensures Admitted([c], digest) == {c} && NonRoots({c}) == {c.hash}
  {
  }

  lemma PairCloses(c: Vertex, p: Vertex)
    requires c.parents == [p.hash] && p.parents == []
    ensures c.hash in Closure({c, p}) && Closure({c}) <= {c.hash}
  {
    ClosureIsLeastClosed({c, p});
    assert Complete(p, Closure({c, p}));
    assert Complete(c, Closure({c, p}));
    ClosureWithin({c}, {c.hash});
  }

  /** A failing response: the child waits in the buffer, and the response brings
      parent and child. The parent releases the child, the child is skipped,
      and its request stays pending although it has been answered. */
  lemma {:induction false} ReleasedStaysPending(c: Vertex, p: Vertex, capacity: int, digest: Digest)
    requires Admissible(c, digest) && Admissible(p, digest) && capacity >= 1
    requires c.parents == [p.hash] && p.parents == [] && c.hash != p.hash
    ensures c.hash !in HashesOf(Handled([c], [p, c], capacity, digest))
    ensures p.hash in HashesOf(Handled([c], [p, c], capacity, digest))
  {
    var vtxs := [p, c];
    PairAdmitted(c, p, digest);
    PairCloses(c, p);
    assert Consistent({c, p}) && Consistent({c});
    assert [c] + vtxs[..1] == [c, p] && [c] + vtxs[..0] == [c];
    CapacitySuffices([c, p], capacity, digest);
    CapacitySuffices([c], capacity, digest);
    StaysPendingIff([c], vtxs, 1, c.hash, capacity, digest);
    StaysPendingIff([c], vtxs, 0, p.hash, capacity, digest);
  }

  lemma MinusTwice<K, V>(m: map<K, V>, a: set<K>, b: set<K>)
    ensures m - a - b == m - (a + b)
  {
  }

  /** What one iteration contributes to the request table, the watchers and the channel. */
  lemma FetchStep<V, W>(before: seq<Vertex>, vtxs: seq<Vertex>, i: nat, reqs: map<Hash, V>, watchers: map<Hash, W>,
                        inbound: seq<Vertex>, size: int, capacity: int, digest: Digest)
    requires i < |vtxs|
    ensures var known := vtxs[i].hash in Run(before + vtxs[..i], capacity, digest).vertices;
            var done := Handled(before, vtxs[..i], capacity, digest);
            var next := Handled(before, vtxs[..i + 1], capacity, digest);
            var gone := if known then {} else {vtxs[i].hash};
            && reqs - HashesOf(done) - gone == reqs - HashesOf(next)
            && watchers - HashesOf(done) - gone == watchers - HashesOf(next)
            && Offered(inbound, next, size) ==
                 if known || |Offered(inbound, done, size)| >= size then Offered(inbound, done, size)
                 else Offered(inbound, done, size) + [vtxs[i]]
  {
    var done := Handled(before, vtxs[..i], capacity, digest);
    var known := vtxs[i].hash in Run(before + vtxs[..i], capacity, digest).vertices;
    var gone := if known then {} else {vtxs[i].hash};
    HandledStep(before, vtxs, i, capacity, digest);
    HandledHashes(before, vtxs, i, capacity, digest);
    MinusTwice(reqs, HashesOf(done), gone);
    MinusTwice(watchers, HashesOf(done), gone);
    OfferedOne(inbound, done, vtxs[i], size);
  }

  class Replica {
    const dag: DAG
    const pendingMgr: PendingManager
    const channelSize: int
    var inbound: seq<Vertex>  // the fetcher's ingress channel
    var round: int

    constructor (d: DAG, p: PendingManager, size: int)
      ensures dag == d && pendingMgr == p && channelSize == size && inbound == []
    {
      dag, pendingMgr, channelSize, inbound, round := d, p, size, [], 0;
    }

    ghost function Channels(): set<Channel>
      reads pendingMgr
    {
      set h, ch | h in pendingMgr.watchers && ch in pendingMgr.watchers[h] :: ch
    }

    /** The loop of the handler; `before` stands for everything delivered so far. */
    method HandleFetchResponse(vtxs: seq<Vertex>, now: int, ghost before: seq<Vertex>)
      requires dag.Valid() && pendingMgr.Valid()
      requires dag.Abs() == Run(before, dag.buffer.capacity, HashOf(dag.sha256))
      modifies this`inbound, dag, dag.buffer, dag.slasher, pendingMgr, Channels()
      ensures dag.Valid() && pendingMgr.Valid()
      ensures dag.Abs() == Run(before + vtxs, dag.buffer.capacity, HashOf(dag.sha256))
      ensures var handled := Handled(before, vtxs, dag.buffer.capacity, HashOf(dag.sha256));
              && pendingMgr.pendingRequests == old(pendingMgr.pendingRequests) - HashesOf(handled)
              && pendingMgr.watchers == old(pendingMgr.watchers) - HashesOf(handled)
              && inbound == Offered(old(inbound), handled, channelSize)
    {
      ghost var channels, capacity, digest := Channels(), dag.buffer.capacity, HashOf(dag.sha256);
      ghost var handled: seq<Vertex> := [];
      assert before + vtxs[..0] == before;
      for i := 0 to |vtxs|
        invariant dag.Valid() && pendingMgr.Valid() && Channels() <= channels
        invariant dag.Abs() == Run(before + vtxs[..i], capacity, digest)
        invariant handled == Handled(before, vtxs[..i], capacity, digest)
        invariant pendingMgr.pendingRequests == old(pendingMgr.pendingRequests) - HashesOf(handled)
        invariant pendingMgr.watchers == old(pendingMgr.watchers) - HashesOf(handled)
        invariant inbound == Offered(old(inbound), handled, channelSize)
      {
        RunAppend(before, vtxs, i, capacity, digest);
        FetchStep(before, vtxs, i, old(pendingMgr.pendingRequests), old(pendingMgr.watchers), old(inbound), channelSize,
                  capacity, digest);
        HandleVertex(vtxs[i], now);
        handled := Handled(before, vtxs[..i + 1], capacity, digest);
      }
      assert vtxs[..|vtxs|] == vtxs;
    }

    /** One iteration: skip what is committed, else mark it as retrieved, insert
        it, and hand it to the fetcher if its channel has room. */
    method HandleVertex(vtx: Vertex, now: int)
      requires dag.Valid() && pendingMgr.Valid()
      modifies this`inbound, dag, dag.buffer, dag.slasher, pendingMgr, Channels()
      ensures dag.Valid() && pendingMgr.Valid() && Channels() <= old(Channels())
      ensures dag.Abs() == Deliver(old(dag.Abs()), vtx, dag.buffer.capacity, HashOf(dag.sha256))
      ensures var known := vtx.hash in old(dag.vertices);
              var gone := if known then {} else {vtx.hash};
              && pendingMgr.pendingRequests == old(pendingMgr.pendingRequests) - gone
              && pendingMgr.watchers == old(pendingMgr.watchers) - gone
              && inbound == if known || |old(inbound)| >= channelSize then old(inbound) else old(inbound) + [vtx]
    {
      if vtx.hash in dag.vertices {
        NothingMinus(pendingMgr.pendingRequests);
        NothingMinus(pendingMgr.watchers);
        return;
      }
      MarkRetrieved(vtx.hash);
      var sync := dag.AddVertex(vtx, round, now);
      Offer(vtx);
    }

    /** The non-blocking send. */
    method Offer(vtx: Vertex)
      modifies this`inbound
      ensures inbound == if |old(inbound)| >= channelSize then old(inbound) else old(inbound) + [vtx]
    {
      if |inbound| < channelSize {
        inbound := inbound + [vtx];
      }
    }

    method MarkRetrieved(hash: Hash)
      requires pendingMgr.Valid()
      modifies pendingMgr, Channels()
      ensures pendingMgr.Valid() && Channels() <= old(Channels())
      ensures pendingMgr.pendingRequests == old(pendingMgr.pendingRequests) - {hash}
      ensures pendingMgr.watchers == old(pendingMgr.watchers) - {hash}
    {
      ChannelsOf(hash);
      pendingMgr.Remove(hash);
    }

    lemma ChannelsOf(h: Hash)
      ensures h in pendingMgr.watchers ==> forall ch | ch in pendingMgr.watchers[h] :: ch in Channels()
    {
    }
  }

  lemma NothingMinus<K, V>(m: map<K, V>)
    ensures m - {} == m
  {
  }
}
