/** The DAG object: concurrent-safe insertion over the counted orphan index. */
module Dag {
  import opened Integers
  import opened Sorting
  import opened Hashes
  import opened Vertices
  import opened Encoding
  import opened CausalState
  import opened OrphanBuffer
  import opened Slashing

  type RoundIndex = map<int, seq<Hash>>

  datatype SyncRequest = SyncRequest(missingHashes: seq<Hash>, suspectID: int)

  /** What a node reports of a vertex whose parent list is not canonical. */
  function MalformationReport(v: Vertex, policy: Policy): Report {
    var fault := FaultFrom(v.parents, 0);
    Demerit(v.author, policy.malformedVertexPenalty, v, if fault == None then "" else Describe(fault.value))
  }

  /** The report charges the author the configured penalty and names the first
      adjacent pair of parents that is not strictly ascending. */
  lemma ReportNamesFirstFault(v: Vertex, policy: Policy, i: nat)
    requires i + 1 < |v.parents| && Compare(v.parents[i], v.parents[i + 1]) >= 0
    requires forall j | 0 <= j < i :: Compare(v.parents[j], v.parents[j + 1]) < 0
    ensures MalformationReport(v, policy) ==
              Demerit(v.author, policy.malformedVertexPenalty, v,
                      if v.parents[i] == v.parents[i + 1] then "Duplicate parent hash detected: " + Hex(v.parents[i])
                      else "Unsorted parents: " + Hex(v.parents[i]) + " comes before " + Hex(v.parents[i + 1]))
  {
    NoFaultBefore(v.parents, 0, i);
    CompareIsNumeric(v.parents[i], v.parents[i + 1]);
    CompareIsNumeric(v.parents[i + 1], v.parents[i]);
  }

  lemma {:induction false} NoFaultBefore(parents: seq<Hash>, k: nat, i: nat)
    requires k <= i && i + 1 < |parents|
    requires forall j | k <= j < i :: Compare(parents[j], parents[j + 1]) < 0
    ensures FaultFrom(parents, k) == FaultFrom(parents, i)
    decreases i - k
  {
    if k < i {
      CompareIsNumeric(parents[k], parents[k + 1]);
      CompareIsNumeric(parents[k + 1], parents[k]);
      NoFaultBefore(parents, k + 1, i);
    }
  }

  /** The ledger after the malformation check of a vertex. */
  ghost function Penalised(l: Ledger, v: Vertex, digest: Digest, policy: Policy, now: int): Ledger {
    if HashValid(v, digest) && !Canonical(v)
    then Adjudicate(l, MalformationReport(v, policy), policy, now)
    else l
  }

  /** The committed hashes of one round. */
  ghost function RoundSet(vertices: VertexMap, round: int): set<Hash> {
    set h | h in vertices && vertices[h].round == round
  }

  /** The round index is a function of the committed set: it has the rounds that
      occur and, for each, its hashes in canonical order. */
  ghost predicate IndexesRounds(index: RoundIndex, vertices: VertexMap) {
    && (forall r :: r in index <==> RoundSet(vertices, r) != {})
    && (forall r | r in index :: index[r] == InOrder(RoundSet(vertices, r)))
  }

  /** The same up to the order inside the rounds in `unsorted`. */
  ghost predicate IndexesLazily(index: RoundIndex, vertices: VertexMap, unsorted: set<int>) {
    && (forall r :: r in index <==> RoundSet(vertices, r) != {})
    && (forall r | r in index :: Distinct(index[r]) && Elements(index[r]) == RoundSet(vertices, r))
    && (forall r | r in index && r !in unsorted :: index[r] == InOrder(RoundSet(vertices, r)))
    && (forall r | r in unsorted :: r in index)
  }

  lemma SortedIsLazy(index: RoundIndex, vertices: VertexMap)
    ensures IndexesRounds(index, vertices) <==> IndexesLazily(index, vertices, {})
  {
    if IndexesRounds(index, vertices) {
      forall r | r in index ensures Distinct(index[r]) && Elements(index[r]) == RoundSet(vertices, r) {
        InOrderElements(RoundSet(vertices, r));
      }
    }
  }

  lemma IndexAppend(index: RoundIndex, vertices: VertexMap, unsorted: set<int>, v: Vertex)
    requires IndexesLazily(index, vertices, unsorted) && v.hash !in vertices
    ensures var list := if v.round in index then index[v.round] else [];
            IndexesLazily(index[v.round := list + [v.hash]], vertices[v.hash := v], unsorted + {v.round})
  {
    var vertices' := vertices[v.hash := v];
    assert RoundSet(vertices', v.round) == RoundSet(vertices, v.round) + {v.hash};
    forall r | r != v.round ensures RoundSet(vertices', r) == RoundSet(vertices, r) { }
    var list := if v.round in index then index[v.round] else [];
    assert Elements(list) == RoundSet(vertices, v.round);
    assert v.hash !in Elements(list);
    ElementsAppend(list, v.hash);
    assert v.hash in RoundSet(vertices', v.round);
  }

  lemma IndexSortRound(index: RoundIndex, vertices: VertexMap, unsorted: set<int>, r: int)
    requires IndexesLazily(index, vertices, unsorted) && r in unsorted
    ensures IndexesLazily(index[r := Sort(index[r], Rank)], vertices, unsorted - {r})
  {
    SortDistinctHashes(index[r]);
    InOrderElements(RoundSet(vertices, r));
  }

  /** Index normalisation of the rounds the cascade touched. */
  method SortRounds(roundIndex: RoundIndex, affectedRounds: set<int>, ghost vertices: VertexMap)
    returns (index: RoundIndex)
    requires IndexesLazily(roundIndex, vertices, affectedRounds)
    ensures IndexesRounds(index, vertices)
  {
    index := roundIndex;
    var rounds := CollectSorted(affectedRounds);
    assert rounds[0..] == rounds;
    AscendingElements(affectedRounds, Id);
    for i := 0 to |rounds|
      invariant IndexesLazily(index, vertices, Elements(rounds[i..]))
    {
      RemoveFirst(rounds, i);
      IndexSortRound(index, vertices, Elements(rounds[i..]), rounds[i]);
      index := index[rounds[i] := Sort(index[rounds[i]], Rank)];
    }
    SortedIsLazy(index, vertices);
  }

  class DAG {
    var vertices: VertexMap
    var roundIndex: RoundIndex
    const buffer: Orphanage
    const slasher: Slasher
    const syncTriggerThreshold: int
    const sha256: Sha
    ghost var log: seq<Hash>  // hashes in commit order

    ghost function Abs(): State
      reads this, buffer
    {
      State(vertices, buffer.orphans, log)
    }

    ghost predicate Valid()
      reads this, buffer
    {
      && Inv(Abs())
      && buffer.Valid(vertices.Keys)
      && IndexesRounds(roundIndex, vertices)
    }

    constructor (orphanCapacity: int, threshold: int, policy: Policy, hashFunction: Sha)
      ensures Valid() && Abs() == EMPTY && fresh(buffer) && fresh(slasher)
      ensures slasher.Abs() == NO_PENALTIES && slasher.policy == policy
      ensures buffer.capacity == orphanCapacity && syncTriggerThreshold == threshold && sha256 == hashFunction
    {
      vertices, roundIndex, log := map[], map[], [];
      buffer := new Orphanage(orphanCapacity);
      slasher := new Slasher(policy);
      syncTriggerThreshold := threshold;
      sha256 := hashFunction;
    }

    method AddVertex(vtx: Vertex, currentNodeRound: int, now: int) returns (sync: Option<SyncRequest>)
      requires Valid()
      modifies this, buffer, slasher
      ensures Valid()
      ensures Abs() == Deliver(old(Abs()), vtx, buffer.capacity, HashOf(sha256))
      ensures slasher.Abs() == if vtx.hash in old(vertices) then old(slasher.Abs())
                               else Penalised(old(slasher.Abs()), vtx, HashOf(sha256), slasher.policy, now)
      ensures sync == if vtx.hash !in old(vertices) && Admissible(vtx, HashOf(sha256))
                      then SyncNeeded(old(vertices.Keys), vtx, currentNodeRound, syncTriggerThreshold)
                      else None
      ensures vtx.hash !in old(vertices) && Admissible(vtx, HashOf(sha256)) && Int64(vtx.round - currentNodeRound) ==>
                (sync.Some? <==> (exists p :: p in vtx.parents && p !in old(vertices)) &&
                                 vtx.round > currentNodeRound + syncTriggerThreshold)
      ensures sync.Some? ==> AsksForMissing(sync.value, vtx, old(vertices.Keys))
    {
      SyncMeans(vertices.Keys, vtx, currentNodeRound, syncTriggerThreshold);
      // Phase 0: optimistic duplicate check
      if vtx.hash in vertices {
        return None;
      }
      var admissible := Validate(vtx, now);
      if !admissible {
        return None;
      }
      sync := InsertLocked(vtx, currentNodeRound);
    }

    /** Phases 1 and 2, outside the lock: integrity, then malformation. */
    method Validate(vtx: Vertex, now: int) returns (admissible: bool)
      modifies slasher
      ensures admissible <==> Admissible(vtx, HashOf(sha256))
      ensures slasher.Abs() == Penalised(old(slasher.Abs()), vtx, HashOf(sha256), slasher.policy, now)
    {
      var calcHash := CalculateHash(vtx, sha256);
      if vtx.hash != calcHash {
        return false;
      }
      var fault := CheckMalformed(vtx.parents);
      if fault.Some? {
        slasher.AddDemerit(vtx.author, slasher.policy.malformedVertexPenalty, vtx, Describe(fault.value), now);
        return false;
      }
      return true;
    }

    /** The section under the lock. It repeats the duplicate check, so it makes
        no assumption about what was seen before the lock was taken. */
    method InsertLocked(vtx: Vertex, currentNodeRound: int) returns (sync: Option<SyncRequest>)
      requires Valid() && Canonical(vtx)
      modifies this, buffer
      ensures Valid()
      ensures Abs() == Locked(old(Abs()), vtx, buffer.capacity)
      ensures sync == if vtx.hash in old(vertices) then None
                      else SyncNeeded(old(vertices.Keys), vtx, currentNodeRound, syncTriggerThreshold)
    {
      sync := None;
      // Phase 3: duplicate check and causal links
      if vtx.hash !in vertices {
        var missing := GetMissingHashesLocked(vtx.parents);
        MissingIsAbsent(vtx, vertices.Keys, missing);
        if |missing| > 0 {
          // Phase 4: orphan handling and sync trigger
          StoreOrphan(vtx, missing);
          sync := SyncTrigger(vtx, missing, currentNodeRound);
        } else {
          // Phase 5: insertion and cascade
          ProcessInsertionLocked(vtx);
        }
      }
    }

    method SyncTrigger(vtx: Vertex, missing: seq<Hash>, currentNodeRound: int) returns (sync: Option<SyncRequest>)
      requires !Complete(vtx, vertices.Keys) && missing == InOrder(Absent(vtx, vertices.Keys))
      ensures sync == SyncNeeded(vertices.Keys, vtx, currentNodeRound, syncTriggerThreshold)
    {
      var shouldSync := Wrap64(vtx.round - currentNodeRound) > syncTriggerThreshold;
      sync := if shouldSync then Some(SyncRequest(missing, vtx.author)) else None;
    }

    method StoreOrphan(vtx: Vertex, missing: seq<Hash>)
      requires Valid() && missing != [] && Distinct(missing) && Elements(missing) == Absent(vtx, vertices.Keys)
      requires !Complete(vtx, vertices.Keys)
      modifies buffer
      ensures Valid()
      ensures Abs() == old(Abs()).(orphans := Park(old(buffer.orphans), vertices.Keys, vtx, buffer.capacity))
    {
      ParkKeepsInv(Abs(), vtx, buffer.capacity);
      buffer.AddOrphan(vtx, missing, vertices.Keys);
    }

    method GetMissingHashesLocked(hashes: seq<Hash>) returns (missing: seq<Hash>)
      ensures Elements(missing) == Elements(hashes) - vertices.Keys
      ensures StrictlyIncreasing(hashes) ==> StrictlyIncreasing(missing)
    {
      missing := [];
      for i := 0 to |hashes|
        invariant Elements(missing) == Elements(hashes[..i]) - vertices.Keys
        invariant StrictlyIncreasing(hashes) ==> StrictlyIncreasing(missing)
      {
        assert hashes[..i + 1] == hashes[..i] + [hashes[i]];
        ElementsAppend(hashes[..i], hashes[i]);
        ElementsAppend(missing, hashes[i]);
        if hashes[i] !in vertices {
          if StrictlyIncreasing(hashes) {
            AppendIncreasing(hashes, i, missing);
          }
          missing := missing + [hashes[i]];
        }
      }
      assert hashes[..|hashes|] == hashes;
    }

    method ProcessInsertionLocked(initialVtx: Vertex)
      requires Valid() && Complete(initialVtx, vertices.Keys)
      modifies this, buffer
      ensures Valid()
      ensures Abs() == Cascade(old(Abs()), [initialVtx])
    {
      SortedIsLazy(roundIndex, vertices);
      var worklist := [initialVtx];
      var affectedRounds: set<int> := {};
      while |worklist| > 0
        invariant Cascading(worklist, affectedRounds)
        invariant Cascade(Abs(), worklist) == Cascade(old(Abs()), [initialVtx])
        decreases |buffer.orphans| + |worklist|
      {
        var vtx := worklist[0];
        CascadeUnfolds(Abs(), worklist);
        assert vtx in worklist;
        ghost var s := Abs();
        worklist := worklist[1..];
        if vtx.hash in vertices {
          continue;
        }
        CommitReleases(s, vtx);
        var readyChildren := CommitVertex(vtx, worklist, affectedRounds);
        affectedRounds := affectedRounds + {vtx.round};
        worklist := worklist + readyChildren;
      }
      CascadeEnds(Abs());
      NormalizeIndex(affectedRounds);
    }

    /** Phase 6. */
    method NormalizeIndex(affectedRounds: set<int>)
      requires Cascading([], affectedRounds)
      modifies this`roundIndex
      ensures Valid() && Abs() == old(Abs())
    {
      roundIndex := SortRounds(roundIndex, affectedRounds, vertices);
    }

    /** What holds between two iterations of the cascade. */
    ghost predicate Cascading(worklist: seq<Vertex>, affectedRounds: set<int>)
      reads this, buffer
    {
      && Inv(Abs())
      && ReadyWork(Abs(), worklist)
      && buffer.Valid(vertices.Keys)
      && IndexesLazily(roundIndex, vertices, affectedRounds)
    }

    /** Steps A and B of one iteration: persist and index `vtx`, release what it
        unblocks, and put that in canonical order. */
    method CommitVertex(vtx: Vertex, ghost rest: seq<Vertex>, ghost affectedRounds: set<int>)
      returns (readyChildren: seq<Vertex>)
      requires Cascading(rest, affectedRounds)
      requires vtx.hash !in vertices && Complete(vtx, vertices.Keys)
      modifies this, buffer
      ensures Abs() == Commit(old(Abs()), vtx)
      ensures readyChildren == Released(old(Abs()), vtx)
      ensures Cascading(rest + readyChildren, affectedRounds + {vtx.round})
    {
      ghost var s, present := Abs(), vertices.Keys;
      CommitKeepsInv(s, vtx);
      CommitKeepsReady(s, vtx, rest);
      CommitVertices(s, vtx);
      IndexAppend(roundIndex, vertices, affectedRounds, vtx);
      vertices := vertices[vtx.hash := vtx];
      var list := if vtx.round in roundIndex then roundIndex[vtx.round] else [];
      roundIndex := roundIndex[vtx.round := list + [vtx.hash]];
      log := log + [vtx.hash];
      readyChildren := buffer.OnParentArrival(vtx.hash, present);
      if |readyChildren| > 0 {
        readyChildren := SortReady(readyChildren, s, vtx);
      }
    }

    /** The second sort of the released children; they are already in order. */
    method SortReady(children: seq<Vertex>, ghost s: State, ghost v: Vertex) returns (r: seq<Vertex>)
      requires Keyed(s.orphans) && children == Released(s, v)
      ensures r == children
    {
      ReadyListElements(s.orphans, s.vertices.Keys + {v.hash});
      SortSorts(children, VertexRank);
      r := SortVertices(children);
      UniqueSorted(children, r, VertexRank);
    }

    /** All vertices of a round, in canonical order whatever the order of arrival. */
    method GetVerticesByRound(round: int) returns (results: seq<Vertex>)
      requires Valid()
      ensures RoundListing(results, vertices, round)
    {
      RoundInOrder(vertices, round);
      InOrderUnique({}, []);
      var hashes := if round in roundIndex then roundIndex[round] else [];
      assert hashes == InOrder(RoundSet(vertices, round));
      results := Lookup(hashes);
    }

    /** The vertices of the given hashes, as far as committed. */
    method Lookup(hashes: seq<Hash>) returns (results: seq<Vertex>)
      requires forall k | 0 <= k < |hashes| :: hashes[k] in vertices
      ensures results == Select(hashes, vertices)
    {
      results := [];
      for i := 0 to |hashes|
        invariant |results| == i && forall k | 0 <= k < i :: results[k] == vertices[hashes[k]]
      {
        if hashes[i] in vertices {
          results := results + [vertices[hashes[i]]];
        }
      }
    }

    /** The vertices no committed vertex names as a parent. */
    method GetTips() returns (tips: set<Vertex>)
      requires Valid()
      ensures tips == set h | h in TipHashes(vertices) :: vertices[h]
      ensures forall v :: v in tips <==>
                (v.hash in vertices && vertices[v.hash] == v && forall h | h in vertices :: v.hash !in vertices[h].parents)
    {
      if |vertices| == 0 {
        return {};
      }
      var hasChild: set<Hash> := {};
      var todo := vertices.Keys;
      while todo != {}
        invariant todo <= vertices.Keys
        invariant forall p :: p in hasChild <==>
                    exists h :: h in vertices && h !in todo && p in vertices[h].parents
      {
        var h := Pick(todo);
        ghost var before := hasChild;
        hasChild := hasChild + set p | p in vertices[h].parents;
        todo := todo - {h};
        forall p ensures p in hasChild <==> exists g :: g in vertices && g !in todo && p in vertices[g].parents {
          if p in before {
            var g :| g in vertices && g !in todo && g != h && p in vertices[g].parents;
          }
        }
      }
      tips := set h | h in vertices && h !in hasChild :: vertices[h];
    }
  }

  /** Exactly the committed vertices of the round, in strictly ascending order of their hashes. */
  ghost predicate RoundListing(results: seq<Vertex>, vertices: VertexMap, round: int) {
    && (forall v :: v in results <==> v.hash in vertices && vertices[v.hash] == v && v.round == round)
    && (forall i | 0 <= i < |results| - 1 :: Compare(results[i].hash, results[i + 1].hash) < 0)
  }

  lemma RoundElements(vertices: VertexMap, round: int)
    requires Keyed(vertices)
    ensures var hs := InOrder(RoundSet(vertices, round));
            && (forall k | 0 <= k < |hs| :: hs[k] in vertices)
            && (forall v :: v in Select(hs, vertices) <==> v.hash in vertices && vertices[v.hash] == v && v.round == round)
            && IncreasingBy(Select(hs, vertices), VertexRank)
  {
    var hs := InOrder(RoundSet(vertices, round));
    InOrderElements(RoundSet(vertices, round));
    forall i | 0 <= i < |hs| ensures hs[i] in vertices {
      assert hs[i] in hs;
    }
    SelectElements(hs, vertices);
  }

  lemma RankedAscend(vs: seq<Vertex>)
    requires IncreasingBy(vs, VertexRank)
    ensures forall i | 0 <= i < |vs| - 1 :: Compare(vs[i].hash, vs[i + 1].hash) < 0
  {
    RankOrders();
    forall i | 0 <= i < |vs| - 1 ensures Less(vs[i].hash, vs[i + 1].hash) {
      assert VertexRank(vs[i]) < VertexRank(vs[i + 1]);
    }
  }

  lemma RoundInOrder(vertices: VertexMap, round: int)
    requires Keyed(vertices)
    ensures var hs := InOrder(RoundSet(vertices, round));
            (forall k | 0 <= k < |hs| :: hs[k] in vertices) && RoundListing(Select(hs, vertices), vertices, round)
  {
    RoundElements(vertices, round);
    RankedAscend(Select(InOrder(RoundSet(vertices, round)), vertices));
  }

  /** The sync event: raised for an orphan whose round is far enough ahead. */
  ghost function SyncNeeded(present: set<Hash>, v: Vertex, currentNodeRound: int, threshold: int): Option<SyncRequest> {
    if !Complete(v, present) && Wrap64(v.round - currentNodeRound) > threshold
    then Some(SyncRequest(InOrder(Absent(v, present)), v.author)) else None
  }

  /** The request names the author as suspect and exactly the parents not
      committed, in strictly ascending order. */
  ghost predicate AsksForMissing(r: SyncRequest, v: Vertex, committed: set<Hash>) {
    && r.suspectID == v.author
    && (forall p :: p in r.missingHashes <==> p in v.parents && p !in committed)
    && (forall i | 0 <= i < |r.missingHashes| - 1 :: Compare(r.missingHashes[i], r.missingHashes[i + 1]) < 0)
  }

  /** What a sync request is and when it is made, for round gaps that fit. */
  lemma SyncMeans(committed: set<Hash>, v: Vertex, currentNodeRound: int, threshold: int)
    ensures var sync := SyncNeeded(committed, v, currentNodeRound, threshold);
            && (Int64(v.round - currentNodeRound) ==>
                 (sync.Some? <==> (exists p :: p in v.parents && p !in committed) && v.round > currentNodeRound + threshold))
            && (sync.Some? ==> AsksForMissing(sync.value, v, committed))
  {
    var missing := InOrder(Absent(v, committed));
    InOrderElements(Absent(v, committed));
    RankOrders();
    forall i | 0 <= i < |missing| - 1 ensures Less(missing[i], missing[i + 1]) { }
  }

  ghost function TipHashes(vertices: VertexMap): set<Hash> {
    set h | h in vertices && forall g | g in vertices :: h !in vertices[g].parents
  }

  lemma RemoveFirst(rounds: seq<int>, i: nat)
    requires i < |rounds| && IncreasingBy(rounds, Id)
    ensures rounds[i] in Elements(rounds[i..])
    ensures Elements(rounds[i + 1..]) == Elements(rounds[i..]) - {rounds[i]}
  {
  }

  lemma AppendIncreasing(hashes: seq<Hash>, i: nat, missing: seq<Hash>)
    requires i < |hashes| && StrictlyIncreasing(hashes) && StrictlyIncreasing(missing)
    requires Elements(missing) <= Elements(hashes[..i])
    ensures StrictlyIncreasing(missing + [hashes[i]])
  {
    forall a | 0 <= a < |missing| ensures Rank(missing[a]) < Rank(hashes[i]) {
      assert missing[a] in Elements(missing);
      var k :| 0 <= k < i && hashes[..i][k] == missing[a];
      assert hashes[k] == missing[a];
    }
  }

  lemma MissingIsAbsent(v: Vertex, present: set<Hash>, missing: seq<Hash>)
    requires Elements(missing) == Elements(v.parents) - present && StrictlyIncreasing(missing)
    ensures Elements(missing) == Absent(v, present) && Distinct(missing)
    ensures missing == InOrder(Absent(v, present))
    ensures missing == [] <==> Complete(v, present)
  {
    assert Elements(missing) == Absent(v, present);
    assert forall h :: h in missing <==> h in Elements(missing);
    InOrderUnique(Absent(v, present), missing);
    IncompleteHasAbsent(v, present);
    DistinctIffSetSize(missing);
  }
}
