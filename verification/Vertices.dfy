/** The vertex, its quorum certificates, and the canonical parent list. */
module Vertices {
  import opened Sorting
  import opened Hashes

  datatype Option<+T> = None | Some(value: T)

  type Signature = Bytes

  datatype QC = QC(
    qcType: int,
    vertexHash: Hash,
    round: int,
    proposerID: int,
    signatures: map<int, Signature>)

  /** `parentQCs` holds pointers in the source, so an entry may be missing. */
  datatype Vertex = Vertex(
    author: int,
    round: int,
    parents: seq<Hash>,
    parentQCs: seq<Option<QC>>,
    timestamp: int,
    payload: seq<Bytes>,
    signature: Signature,
    hash: Hash)

  function VertexRank(v: Vertex): int {
    Rank(v.hash)
  }

  /** `SortVertices`. */
  function SortVertices(vs: seq<Vertex>): seq<Vertex> {
    Sort(vs, VertexRank)
  }

  /** Canonical parents: strictly increasing, hence sorted and free of duplicates. */
  ghost predicate Canonical(v: Vertex) {
    StrictlyIncreasing(v.parents)
  }

  datatype Fault =
    | Duplicate(h: Hash)
    | Unsorted(before: Hash, after: Hash)

  /** The first adjacent pair out of order, from position `i` on. */
  function FaultFrom(parents: seq<Hash>, i: nat): Option<Fault>
    decreases |parents| - i
  {
    if i + 1 >= |parents| then None
    else if parents[i] == parents[i + 1] then Some(Duplicate(parents[i]))
    else if Less(parents[i + 1], parents[i]) then Some(Unsorted(parents[i], parents[i + 1]))
    else FaultFrom(parents, i + 1)
  }

  /** The text of a fault, with its hashes in hexadecimal. */
  function Describe(fault: Fault): string {
    match fault
    case Duplicate(h) => "Duplicate parent hash detected: " + Hex(h)
    case Unsorted(before, after) => "Unsorted parents: " + Hex(before) + " comes before " + Hex(after)
  }

  /** What `CheckMalformed` reports: the first adjacent pair out of order. */
  ghost predicate FirstFault(parents: seq<Hash>, i: nat, fault: Fault) {
    && i + 1 < |parents|
    && StrictlyIncreasing(parents[..i + 1])
    && (if parents[i] == parents[i + 1]
        then fault == Duplicate(parents[i])
        else Less(parents[i + 1], parents[i]) && fault == Unsorted(parents[i], parents[i + 1]))
  }

  lemma StrictlyIncreasingStep(hs: seq<Hash>, i: nat)
    requires i + 1 < |hs| && StrictlyIncreasing(hs[..i + 1]) && Less(hs[i], hs[i + 1])
    ensures StrictlyIncreasing(hs[..i + 2])
  {
    RankOrders();
    var p, q := hs[..i + 1], hs[..i + 2];
    forall a, b | 0 <= a < b < |q| ensures Rank(q[a]) < Rank(q[b]) {
      assert q[a] == p[a];
      assert Rank(p[a]) <= Rank(p[i]);
      if b <= i { assert q[b] == p[b]; }
    }
  }

  method CheckMalformed(parents: seq<Hash>) returns (fault: Option<Fault>)
    ensures fault == FaultFrom(parents, 0)
    ensures fault == None <==> StrictlyIncreasing(parents)
    ensures fault.Some? ==> exists i :: FirstFault(parents, i, fault.value)
  {
    if |parents| <= 1 {
      return None;
    }
    RankOrders();
    for i := 0 to |parents| - 1
      invariant StrictlyIncreasing(parents[..i + 1])
      invariant FaultFrom(parents, 0) == FaultFrom(parents, i)
    {
      if parents[i] == parents[i + 1] {
        assert FirstFault(parents, i, Duplicate(parents[i]));
        return Some(Duplicate(parents[i]));
      }
      if Compare(parents[i], parents[i + 1]) > 0 {
        CompareIsNumeric(parents[i], parents[i + 1]);
        CompareIsNumeric(parents[i + 1], parents[i]);
        assert FirstFault(parents, i, Unsorted(parents[i], parents[i + 1]));
        return Some(Unsorted(parents[i], parents[i + 1]));
      }
      CompareIsNumeric(parents[i], parents[i + 1]);
      StrictlyIncreasingStep(parents, i);
    }
    assert parents[..|parents|] == parents;
    return None;
  }

  /** `deduplicateAndSort`: the canonical list of the hashes given. */
  method DeduplicateAndSort(hs: seq<Hash>) returns (r: seq<Hash>)
    ensures r == InOrder(Elements(hs))
  {
    if |hs| <= 1 {
      InOrderUnique(Elements(hs), hs);
      return hs;
    }
    var seen: set<Hash> := {};
    var unique: seq<Hash> := [];
    for i := 0 to |hs|
      invariant seen == Elements(hs[..i]) == Elements(unique)
      invariant Distinct(unique)
    {
      assert hs[..i + 1] == hs[..i] + [hs[i]];
      if hs[i] !in seen {
        seen := seen + {hs[i]};
        unique := unique + [hs[i]];
      }
    }
    assert hs[..|hs|] == hs;
    SortDistinctHashes(unique);
    r := Sort(unique, Rank);
  }

  method Normalize(v: Vertex) returns (w: Vertex, hadDuplicate: bool)
    ensures w == v.(parents := InOrder(Elements(v.parents)))
    ensures hadDuplicate <==> !Distinct(v.parents)
  {
    var parents := DeduplicateAndSort(v.parents);
    InOrderElements(Elements(v.parents));
    DistinctIffSetSize(v.parents);
    w := v.(parents := parents);
    hadDuplicate := |w.parents| != |v.parents|;
  }

  /** The three descriptions of a canonical parent list agree, and normalising
      is a projection onto such lists that keeps the set of parents. */
  lemma CanonicalParents(v: Vertex)
    ensures Canonical(v) <==> v.parents == InOrder(Elements(v.parents))
    ensures Canonical(v) <==> forall i | 0 <= i < |v.parents| - 1 :: Less(v.parents[i], v.parents[i + 1])
    ensures Canonical(v) ==> Distinct(v.parents)
    ensures Canonical(v.(parents := InOrder(Elements(v.parents))))
    ensures Elements(InOrder(Elements(v.parents))) == Elements(v.parents)
  {
    RankOrders();
    InOrderElements(Elements(v.parents));
    if Canonical(v) {
      InOrderUnique(Elements(v.parents), v.parents);
    }
    if forall i | 0 <= i < |v.parents| - 1 :: Less(v.parents[i], v.parents[i + 1]) {
      AdjacentIncreasing(v.parents, |v.parents|);
      assert v.parents[..|v.parents|] == v.parents;
    }
  }

  lemma {:induction false} AdjacentIncreasing(hs: seq<Hash>, n: nat)
    requires n <= |hs|
    requires forall i | 0 <= i < |hs| - 1 :: Less(hs[i], hs[i + 1])
    ensures StrictlyIncreasing(hs[..n])
  {
    if n >= 2 {
      AdjacentIncreasing(hs, n - 1);
      StrictlyIncreasingStep(hs, n - 2);
    }
  }
}
