/** The buffer of vertices with missing parents: three redundant maps kept in
    step by insertion, release and eviction. */
module OrphanBuffer {
  import opened Sorting
  import opened Hashes
  import opened Vertices
  import opened CausalState

  type WaitLists = map<Hash, seq<Vertex>>

  /** `c` is registered as waiting for the hash `p`. */
  ghost predicate Waits(lists: WaitLists, p: Hash, c: Vertex) {
    p in lists && c in lists[p]
  }

  /** The lists hold each orphan under each of its absent parents, once, and nothing else. */
  ghost predicate Indexed(lists: WaitLists, orphans: VertexMap, present: set<Hash>) {
    && (forall p, c {:trigger Waits(lists, p, c)} :: Waits(lists, p, c) <==>
          c.hash in orphans && orphans[c.hash] == c && p in c.parents && p !in present)
    && WellListed(lists)
  }

  ghost predicate WellListed(lists: WaitLists) {
    forall p | p in lists :: lists[p] != [] && Distinct(lists[p])
  }

  /** Every count is positive and is the number of that orphan's absent parents. */
  ghost predicate Counted(counts: map<Hash, int>, orphans: VertexMap, present: set<Hash>) {
    && counts.Keys == orphans.Keys
    && (forall h | h in orphans :: counts[h] == |Absent(orphans[h], present)| && counts[h] > 0)
  }

  /** The arrival of `p` lowers exactly the counts of the orphans that list it. */
  lemma ArrivalLowersCount(v: Vertex, present: set<Hash>, p: Hash)
    requires p !in present
    ensures |Absent(v, present + {p})| == |Absent(v, present)| - (if p in v.parents then 1 else 0)
    ensures Complete(v, present + {p}) <==> |Absent(v, present + {p})| == 0
  {
    var before, after := Absent(v, present), Absent(v, present + {p});
    assert after == before - {p};
    if Complete(v, present + {p}) {
      assert after == {};
    } else {
      var q :| q in v.parents && q !in present + {p};
      assert q in after;
    }
  }

  lemma IncompleteHasAbsent(v: Vertex, present: set<Hash>)
    ensures Complete(v, present) <==> |Absent(v, present)| == 0
  {
    if !Complete(v, present) {
      var q :| q in v.parents && q !in present;
      assert q in Absent(v, present);
    } else {
      assert Absent(v, present) == {};
    }
  }

  lemma SameSize<K, A, B>(m: map<K, A>, n: map<K, B>)
    requires m.Keys == n.Keys
    ensures |m| == |n|
  {
  }

  /** The two ways a full buffer can react are one rule: everything but the victim stays. */
  lemma ParkWithVictim(orphans: VertexMap, present: set<Hash>, v: Vertex, capacity: int, victim: Hash)
    requires v.hash !in orphans && |orphans| >= capacity
    requires IsVictim(victim, orphans[v.hash := v], present)
    ensures victim == v.hash ==> Park(orphans, present, v, capacity) == orphans
    ensures victim != v.hash ==> Park(orphans, present, v, capacity) == (orphans - {victim})[v.hash := v]
  {
    var waiting := orphans[v.hash := v];
    assert HasVictim(waiting, present);
    VictimUnique(victim, Victim(waiting, present), waiting, present);
    if victim == v.hash {
      assert waiting - {victim} == orphans;
    } else {
      assert waiting - {victim} == (orphans - {victim})[v.hash := v];
    }
  }

  /** Deletes the entry for `hash` from a waiting list. */
  method Without(list: seq<Vertex>, hash: Hash) returns (rest: seq<Vertex>)
    requires Distinct(list)
    requires forall c, d | c in list && d in list && c.hash == d.hash :: c == d
    ensures forall c :: c in rest <==> c in list && c.hash != hash
    ensures Distinct(rest)
  {
    for i := 0 to |list|
      invariant forall k | 0 <= k < i :: list[k].hash != hash
    {
      if list[i].hash == hash {
        rest := list[..i] + list[i + 1..];
        assert list == list[..i] + [list[i]] + list[i + 1..];
        forall c ensures c in rest <==> c in list && c.hash != hash {
          if c in rest { assert c != list[i]; }
        }
        return;
      }
    }
    rest := list;
  }

  class Orphanage {
    var lostParents: WaitLists
    var lostParentCount: map<Hash, int>
    var orphans: VertexMap
    const capacity: int

    /** Agreement of the three maps, relative to the hashes committed so far. */
    ghost predicate Valid(present: set<Hash>)
      reads this
    {
      && Keyed(orphans)
      && Counted(lostParentCount, orphans, present)
      && Indexed(lostParents, orphans, present)
    }

    constructor (limit: int)
      ensures Valid({}) && orphans == map[] && capacity == limit
    {
      lostParents := map[];
      lostParentCount := map[];
      orphans := map[];
      capacity := limit;
    }

    method AddOrphan(vtx: Vertex, missingParents: seq<Hash>, ghost present: set<Hash>)
      requires Valid(present)
      requires missingParents != [] && Distinct(missingParents)
      requires Elements(missingParents) == Absent(vtx, present)
      modifies this
      ensures Valid(present)
      ensures orphans == Park(old(orphans), present, vtx, capacity)
    {
      if vtx.hash in lostParentCount {
        return;
      }
      DistinctIffSetSize(missingParents);
      var missingCount := |missingParents|;
      SameSize(lostParentCount, orphans);
      if |lostParentCount| >= capacity {
        var victim := FindVictim(vtx, missingCount, present);
        ParkWithVictim(orphans, present, vtx, capacity, victim);
        if victim == vtx.hash {
          return;
        }
        RemoveOrphan(victim, present);
      }
      Register(vtx, missingParents, present);
    }

    /** Dependency registration. */
    method Register(vtx: Vertex, missingParents: seq<Hash>, ghost present: set<Hash>)
      requires Valid(present) && vtx.hash !in orphans
      requires missingParents != [] && Distinct(missingParents)
      requires Elements(missingParents) == Absent(vtx, present)
      modifies this
      ensures Valid(present)
      ensures orphans == old(orphans)[vtx.hash := vtx]
    {
      DistinctIffSetSize(missingParents);
      for i := 0 to |missingParents|
        invariant orphans == old(orphans) && lostParentCount == old(lostParentCount)
        invariant WellListed(lostParents)
        invariant forall p, c :: Waits(lostParents, p, c) <==>
                    old(Waits(lostParents, p, c)) || (c == vtx && p in missingParents[..i])
      {
        var h := missingParents[i];
        ghost var before := lostParents;
        var list := if h in lostParents then lostParents[h] else [];
        assert !Waits(before, h, vtx);
        lostParents := lostParents[h := list + [vtx]];
        forall p, c ensures Waits(lostParents, p, c) <==> Waits(before, p, c) || (c == vtx && p == h) { }
        assert missingParents[..i + 1] == missingParents[..i] + [h];
      }
      assert missingParents[..|missingParents|] == missingParents;
      orphans := orphans[vtx.hash := vtx];
      lostParentCount := lostParentCount[vtx.hash := |missingParents|];
      assert forall p :: p in missingParents <==> p in Elements(missingParents);
    }

    /** Scans the counts in any order for the heaviest of residents and candidate. */
    method FindVictim(vtx: Vertex, missingCount: int, ghost present: set<Hash>) returns (victim: Hash)
      requires Valid(present) && vtx.hash !in orphans
      requires missingCount == |Absent(vtx, present)|
      ensures IsVictim(victim, orphans[vtx.hash := vtx], present)
    {
      ghost var waiting := orphans[vtx.hash := vtx];
      victim := vtx.hash;
      var maxMissing := missingCount;
      var todo := lostParentCount.Keys;
      while todo != {}
        invariant todo <= lostParentCount.Keys
        invariant victim in waiting && victim !in todo
        invariant maxMissing == |Absent(waiting[victim], present)|
        invariant forall o | o in waiting && o !in todo && o != victim ::
                    Heavier(waiting[victim], waiting[o], present)
      {
        var h := Pick(todo);
        todo := todo - {h};
        var count := lostParentCount[h];
        ghost var was := victim;
        if count > maxMissing {
          victim := h;
          maxMissing := count;
        } else if count == maxMissing {
          if Compare(h, victim) > 0 {
            victim := h;
          }
        }
        CompareIsNumeric(h, was);
        CompareIsNumeric(was, h);
        forall o | o in waiting && o !in todo && o != victim
          ensures Heavier(waiting[victim], waiting[o], present)
        {
          if o != h && o != was {
            HeavierIsTotal(waiting[victim], waiting[was], waiting[o], present);
          }
        }
      }
    }

    /** Purges a vertex and all its dependency entries. */
    method RemoveOrphan(hash: Hash, ghost present: set<Hash>)
      requires Valid(present)
      modifies this
      ensures Valid(present)
      ensures orphans == old(orphans) - {hash}
    {
      if hash !in orphans {
        return;
      }
      var vtx := orphans[hash];
      for i := 0 to |vtx.parents|
        invariant orphans == old(orphans) && lostParentCount == old(lostParentCount)
        invariant WellListed(lostParents)
        invariant forall p, c :: Waits(lostParents, p, c) <==>
                    old(Waits(lostParents, p, c)) && !(c == vtx && p in vtx.parents[..i])
      {
        var pHash := vtx.parents[i];
        ghost var before := lostParents;
        if pHash in lostParents {
          forall c, d | c in lostParents[pHash] && d in lostParents[pHash] && c.hash == d.hash
            ensures c == d
          {
            assert Waits(before, pHash, c) && Waits(before, pHash, d);
          }
          var rest := Without(lostParents[pHash], hash);
          if |rest| == 0 {
            lostParents := lostParents - {pHash};
          } else {
            lostParents := lostParents[pHash := rest];
          }
          forall p, c ensures Waits(lostParents, p, c) <==> Waits(before, p, c) && !(c == vtx && p == pHash) {
            if Waits(before, p, c) && p == pHash && c.hash == hash {
              assert c == vtx;
            }
          }
        } else {
          assert !Waits(before, pHash, vtx);
        }
        assert vtx.parents[..i + 1] == vtx.parents[..i] + [pHash];
      }
      assert vtx.parents[..|vtx.parents|] == vtx.parents;
      lostParentCount := lostParentCount - {hash};
      orphans := orphans - {hash};
    }

    /** One absent parent less for a waiting child; at zero it is released. */
    method LowerCount(hash: Hash) returns (released: bool)
      requires hash in lostParentCount
      modifies this
      ensures released <==> old(lostParentCount)[hash] <= 1
      ensures lostParents == old(lostParents)
      ensures lostParentCount == if released then old(lostParentCount) - {hash}
                                 else old(lostParentCount)[hash := old(lostParentCount)[hash] - 1]
      ensures orphans == if released then old(orphans) - {hash} else old(orphans)
    {
      var newCount := lostParentCount[hash] - 1;
      released := newCount <= 0;
      if released {
        lostParentCount := lostParentCount - {hash};
        orphans := orphans - {hash};
      } else {
        lostParentCount := lostParentCount[hash := newCount];
      }
    }

    /** One pass over the children of an arrived parent. */
    method LowerCounts(children: seq<Vertex>, ghost now: set<Hash>) returns (ready: seq<Vertex>)
      requires IncreasingBy(children, VertexRank)
      requires lostParentCount.Keys == orphans.Keys && Keyed(orphans)
      requires forall i | 0 <= i < |children| ::
                 var c := children[i];
                 && c.hash in orphans && orphans[c.hash] == c
                 && (lostParentCount[c.hash] <= 1 <==> Complete(c, now))
      modifies this
      ensures lostParents == old(lostParents)
      ensures Processed(old(orphans), old(lostParentCount), orphans, lostParentCount, children, now)
      ensures ReadySoFar(ready, children, now)
    {
      ready := [];
      ghost var before, counts := orphans, lostParentCount;
      for i := 0 to |children|
        invariant lostParents == old(lostParents)
        invariant Processed(before, counts, orphans, lostParentCount, children[..i], now)
        invariant ReadySoFar(ready, children[..i], now)
      {
        var child := children[i];
        ReadyStep(children, i, ready, now);
        ProcessedStep(before, counts, orphans, lostParentCount, children[..i], child, now);
        if child.hash in lostParentCount {
          var released := LowerCount(child.hash);
          if released {
            ready := ready + [child];
          }
        }
      }
      assert children[..|children|] == children;
    }

    /** Releases the orphans for which `pHash` was the last absent parent, in
        canonical order, and lowers the count of every other child of `pHash`. */
    method OnParentArrival(pHash: Hash, ghost present: set<Hash>) returns (ready: seq<Vertex>)
      requires Valid(present) && pHash !in present
      modifies this
      ensures Valid(present + {pHash})
      ensures ready == ReadyList(old(orphans), present + {pHash})
      ensures orphans == old(orphans) - ReadySet(old(orphans), present + {pHash})
    {
      ghost var now := present + {pHash};
      CountsAfterArrival(lostParentCount, orphans, present, pHash);
      if pHash !in lostParents {
        NoChildren(lostParents, orphans, present, pHash);
        InOrderUnique({}, []);
        return [];
      }
      ChildrenInOrder(lostParents, orphans, present, pHash);
      var children := SortVertices(lostParents[pHash]);
      ready := LowerCounts(children, now);
      ReleaseIsReadyList(old(orphans), present, pHash, children, ready);
      ready := SortVertices(ready);
      ArrivalRestoresIndex(old(orphans), old(lostParentCount), orphans, lostParentCount, lostParents, present, pHash, children);
      lostParents := lostParents - {pHash};
    }
  }

  /** The two maps once the children in `done` have been handled. */
  ghost predicate Processed(before: VertexMap, counts: map<Hash, int>, after: VertexMap, lowered: map<Hash, int>,
                            done: seq<Vertex>, now: set<Hash>) {
    && before.Keys <= counts.Keys && lowered.Keys == after.Keys
    && (forall h :: h in after <==> h in before && !(before[h] in done && Complete(before[h], now)))
    && (forall h | h in after :: after[h] == before[h])
    && (forall h | h in after :: lowered[h] == counts[h] - (if before[h] in done then 1 else 0))
  }

  /** The released children among `done`, in canonical order. */
  ghost predicate ReadySoFar(ready: seq<Vertex>, done: seq<Vertex>, now: set<Hash>) {
    && IncreasingBy(ready, VertexRank)
    && (forall w :: w in ready <==> w in done && Complete(w, now))
  }

  lemma ReadyStep(children: seq<Vertex>, i: nat, ready: seq<Vertex>, now: set<Hash>)
    requires i < |children| && IncreasingBy(children, VertexRank)
    requires ReadySoFar(ready, children[..i], now)
    ensures children[i] !in children[..i] && children[..i + 1] == children[..i] + [children[i]]
    ensures ReadySoFar(if Complete(children[i], now) then ready + [children[i]] else ready, children[..i + 1], now)
  {
    var child, done := children[i], children[..i];
    assert forall c :: c in children[..i + 1] <==> c in done || c == child;
    var ready' := if Complete(child, now) then ready + [child] else ready;
    forall a, b | 0 <= a < b < |ready'| ensures VertexRank(ready'[a]) < VertexRank(ready'[b]) {
      if b == |ready| {
        assert ready[a] in done;
      }
    }
  }

  lemma ProcessedStep(before: VertexMap, counts: map<Hash, int>, after: VertexMap, lowered: map<Hash, int>,
                      done: seq<Vertex>, child: Vertex, now: set<Hash>)
    requires Keyed(before) && child.hash in before && before[child.hash] == child && child !in done
    requires Processed(before, counts, after, lowered, done, now)
    ensures child.hash in after && child.hash in lowered && lowered[child.hash] == counts[child.hash]
    ensures if Complete(child, now)
            then Processed(before, counts, after - {child.hash}, lowered - {child.hash}, done + [child], now)
            else Processed(before, counts, after, lowered[child.hash := lowered[child.hash] - 1], done + [child], now)
  {
  }

  lemma CountsAfterArrival(counts: map<Hash, int>, orphans: VertexMap, present: set<Hash>, p: Hash)
    requires Counted(counts, orphans, present) && p !in present
    ensures forall h | h in orphans ::
              var left := counts[h] - (if p in orphans[h].parents then 1 else 0);
              left == |Absent(orphans[h], present + {p})| && (left == 0 <==> Complete(orphans[h], present + {p}))
  {
    forall h | h in orphans
      ensures var left := counts[h] - (if p in orphans[h].parents then 1 else 0);
              left == |Absent(orphans[h], present + {p})| && (left == 0 <==> Complete(orphans[h], present + {p}))
    {
      ArrivalLowersCount(orphans[h], present, p);
    }
  }

  lemma NoChildren(lists: WaitLists, orphans: VertexMap, present: set<Hash>, p: Hash)
    requires Keyed(orphans) && Indexed(lists, orphans, present)
    requires p !in lists && p !in present
    requires forall h | h in orphans :: !Complete(orphans[h], present)
    ensures ReadySet(orphans, present + {p}) == {}
    ensures Indexed(lists, orphans, present + {p})
    ensures forall h | h in orphans :: p !in orphans[h].parents
  {
    forall h | h in orphans ensures p !in orphans[h].parents && !Complete(orphans[h], present + {p}) {
      assert !Waits(lists, p, orphans[h]);
      var q :| q in orphans[h].parents && q !in present;
    }
  }

  lemma ChildrenInOrder(lists: WaitLists, orphans: VertexMap, present: set<Hash>, p: Hash)
    requires Keyed(orphans) && Indexed(lists, orphans, present) && p in lists && p !in present
    ensures var children := SortVertices(lists[p]);
            && IncreasingBy(children, VertexRank)
            && (forall c :: c in children <==> c.hash in orphans && orphans[c.hash] == c && p in c.parents)
  {
    var list := lists[p];
    RankOrders();
    forall c ensures c in list <==> c.hash in orphans && orphans[c.hash] == c && p in c.parents {
      assert Waits(lists, p, c) <==> c in list;
    }
    SortSorts(list, VertexRank);
    SortedDistinctIsIncreasing(list, SortVertices(list), VertexRank);
  }

  lemma StillIncomplete(v: Vertex, present: set<Hash>, p: Hash)
    requires !Complete(v, present) && p !in v.parents
    ensures !Complete(v, present + {p})
  {
  }

  /** An orphan that becomes complete was waiting for the arrival. */
  lemma ReleaseIsReadyList(orphans: VertexMap, present: set<Hash>, p: Hash, children: seq<Vertex>, ready: seq<Vertex>)
    requires Keyed(orphans) && forall h | h in orphans :: !Complete(orphans[h], present)
    requires forall c :: c in children <==> c.hash in orphans && orphans[c.hash] == c && p in c.parents
    requires ReadySoFar(ready, children, present + {p})
    ensures SortVertices(ready) == ReadyList(orphans, present + {p})
  {
    var list := ReadyList(orphans, present + {p});
    ReadyListElements(orphans, present + {p});
    forall h | h in orphans && p !in orphans[h].parents ensures !Complete(orphans[h], present + {p}) {
      StillIncomplete(orphans[h], present, p);
    }
    UniqueIncreasing(ready, list, VertexRank);
    SortSorts(ready, VertexRank);
    UniqueSorted(ready, SortVertices(ready), VertexRank);
  }

  lemma ArrivalRestoresIndex(before: VertexMap, counts: map<Hash, int>, after: VertexMap, lowered: map<Hash, int>,
                             lists: WaitLists, present: set<Hash>, p: Hash, children: seq<Vertex>)
    requires Keyed(before) && Indexed(lists, before, present) && p !in present
    requires forall h | h in before :: !Complete(before[h], present)
    requires forall c :: c in children <==> c.hash in before && before[c.hash] == c && p in c.parents
    requires Processed(before, counts, after, lowered, children, present + {p})
    ensures after == before - ReadySet(before, present + {p})
    ensures Indexed(lists - {p}, after, present + {p})
  {
    var now := present + {p};
    forall h | h in before && p !in before[h].parents ensures !Complete(before[h], now) {
      StillIncomplete(before[h], present, p);
    }
    forall q, c
      ensures Waits(lists - {p}, q, c) <==>
                c.hash in after && after[c.hash] == c && q in c.parents && q !in now
    {
      assert Waits(lists - {p}, q, c) <==> q != p && Waits(lists, q, c);
    }
  }

  /** The counts and the waiting lists carry no information of their own: given
      the orphans and the committed hashes, the counts are determined and the
      lists are determined up to the order that each release removes. */
  lemma IndexIsDetermined(orphans: VertexMap, present: set<Hash>,
                          countsA: map<Hash, int>, countsB: map<Hash, int>, listsA: WaitLists, listsB: WaitLists)
    requires Keyed(orphans)
    requires Counted(countsA, orphans, present) && Counted(countsB, orphans, present)
    requires Indexed(listsA, orphans, present) && Indexed(listsB, orphans, present)
    ensures countsA == countsB
    ensures listsA.Keys == listsB.Keys
    ensures forall p | p in listsA :: SortVertices(listsA[p]) == SortVertices(listsB[p])
  {
    forall p, c ensures Waits(listsA, p, c) <==> Waits(listsB, p, c) { }
    forall p ensures p in listsA <==> p in listsB {
      if p in listsA { assert Waits(listsA, p, listsA[p][0]); }
      if p in listsB { assert Waits(listsB, p, listsB[p][0]); }
    }
    forall p | p in listsA ensures SortVertices(listsA[p]) == SortVertices(listsB[p]) {
      assert p !in present by { assert Waits(listsA, p, listsA[p][0]); }
      ChildrenInOrder(listsA, orphans, present, p);
      ChildrenInOrder(listsB, orphans, present, p);
      UniqueIncreasing(SortVertices(listsA[p]), SortVertices(listsB[p]), VertexRank);
    }
  }
}
