/** Building a proposal from a quorum of votes. */
module Proposing {
  import opened Sorting
  import opened Hashes
  import opened Vertices
  import opened Encoding
  import opened Quorums
  import opened CausalState
  import opened Convergence
  import opened Slashing
  import opened Dag
  import opened Agreement

  datatype Vote = Vote(round: int, vertexHash: Hash, voterID: int, signature: Signature)

  /** The parts of a network message a proposal depends on. */
  datatype Message = Message(fromID: int, vote: Option<Vote>)

  type VotePool = map<int, seq<Message>>

  ghost function VotedHashes(votes: seq<Message>): set<Hash> {
    set m | m in votes && m.vote.Some? :: m.vote.value.vertexHash
  }

  ghost function Voters(votes: seq<Message>): set<int> {
    set m | m in votes && m.vote.Some? :: m.fromID
  }

  /** One signature per sender; a later vote of the same sender replaces an earlier one. */
  function Signatures(votes: seq<Message>): map<int, Signature> {
    if votes == [] then map[] else
      var before, m := Signatures(votes[..|votes| - 1]), votes[|votes| - 1];
      if m.vote == None then before else before[m.fromID := m.vote.value.signature]
  }

  /** The hash of the last vote; all zero bytes if there is none. */
  function Representative(votes: seq<Message>): Hash {
    if votes == [] then NO_HASH
    else if votes[|votes| - 1].vote == None then Representative(votes[..|votes| - 1])
    else votes[|votes| - 1].vote.value.vertexHash
  }

  function Certificate(votes: seq<Message>, round: int, qcType: int, id: int): QC {
    QC(qcType, Representative(votes), round, id, Signatures(votes))
  }

  lemma {:induction false} SignersAreVoters(votes: seq<Message>)
    ensures Signatures(votes).Keys == Voters(votes)
  {
    if votes != [] {
      var before, m := votes[..|votes| - 1], votes[|votes| - 1];
      assert votes == before + [m];
      SignersAreVoters(before);
    }
  }

  /** The collected votes, or None where the source returns nil: too few, or no
      list for the round at all. */
  function CheckQuorum(pool: VotePool, round: int, required: int): Option<seq<Message>>
  {
    if round in pool && |pool[round]| >= required then Some(pool[round]) else None
  }

  class Proposer {
    const id: int
    const policy: QuorumPolicy
    const sha256: Sha
    const sign: Bytes -> Signature
    var lastProposedRound: int
    var sent: seq<Vertex>  // everything handed to the broadcaster

    /** At most one proposal per round, and never for an earlier one. */
    ghost predicate Valid()
      reads this
    {
      && (forall i, j | 0 <= i < j < |sent| :: sent[i].round < sent[j].round)
      && (forall i | 0 <= i < |sent| :: sent[i].round <= lastProposedRound && sent[i].author == id)
    }

    constructor (nodeID: int, quorum: QuorumPolicy, hashFunction: Sha, signer: Bytes -> Signature)
      ensures Valid() && sent == [] && lastProposedRound == -1
      ensures id == nodeID && policy == quorum && sha256 == hashFunction && sign == signer
    {
      id, policy, sha256, sign := nodeID, quorum, hashFunction, signer;
      lastProposedRound, sent := -1, [];
    }

    method Propose(qcType: int, pool: VotePool, round: int, now: int)
      requires Valid()
      modifies this
      ensures Valid()
      ensures var votes := CheckQuorum(pool, round, policy.QuorumSize(qcType));
              if votes == None || round + 1 <= old(lastProposedRound)
              then sent == old(sent) && lastProposedRound == old(lastProposedRound)
              else
                && lastProposedRound == round + 1
                && |sent| == |old(sent)| + 1 && sent[..|old(sent)|] == old(sent)
                && IsProposal(sent[|sent| - 1], votes.value, round, qcType, id, now, HashOf(sha256))
                && sent[|sent| - 1].signature == sign(sent[|sent| - 1].hash)
      ensures var go := round in pool && |pool[round]| >= policy.QuorumSize(qcType) && round + 1 > old(lastProposedRound);
              && (|sent| == |old(sent)| + 1 <==> go)
              && (!go ==> sent == old(sent) && lastProposedRound == old(lastProposedRound))
      ensures |sent| > |old(sent)| ==>
                var v := sent[|sent| - 1];
                && v.author == id && v.round == round + 1 && v.timestamp == now && v.payload == []
                && v.hash == sha256(Encode(v)) && v.signature == sign(v.hash)
      ensures round in pool && |Voters(pool[round])| >= policy.QuorumSize(qcType) && round + 1 > old(lastProposedRound) ==>
                |sent| == |old(sent)| + 1 && ProposesAccepted(sent[|sent| - 1], policy, qcType, pool[round])
    {
      EnoughVoters(pool, round, qcType, id, policy);
      var quorumVotes := CheckQuorum(pool, round, policy.QuorumSize(qcType));
      if quorumVotes == None {
        return;
      }
      var nextRound := round + 1;
      if nextRound <= lastProposedRound {
        return;
      }
      var qc := AssembleQC(quorumVotes.value, round, qcType, id);
      var parentHashes := ExtractHashesFromVotes(quorumVotes.value);
      var vtx := Vertex(id, nextRound, parentHashes, [Some(qc)], now, [], [], NO_HASH);
      vtx := Seal(vtx);
      assert IsProposal(vtx, quorumVotes.value, round, qcType, id, now, HashOf(sha256));
      sent := sent + [vtx];
      if nextRound > lastProposedRound {
        lastProposedRound := nextRound;
      }
    }

    /** Hashes and signs: the last two fields, which the hash does not cover. */
    method Seal(vtx: Vertex) returns (sealed: Vertex)
      ensures sealed == vtx.(hash := sealed.hash, signature := sign(sealed.hash))
      ensures HashValid(sealed, HashOf(sha256))
    {
      var hash := CalculateHash(vtx, sha256);
      EncodeIgnoresSeal(vtx, hash, sign(hash));
      sealed := vtx.(hash := hash, signature := sign(hash));
    }
  }

  /** The vertex names exactly the voted hashes, in strictly ascending order, and
      carries one certificate, which its own policy accepts. */
  ghost predicate ProposesAccepted(v: Vertex, policy: QuorumPolicy, qcType: int, votes: seq<Message>) {
    && (forall h :: h in v.parents <==> exists m :: m in votes && m.vote.Some? && m.vote.value.vertexHash == h)
    && (forall i | 0 <= i < |v.parents| - 1 :: Compare(v.parents[i], v.parents[i + 1]) < 0)
    && |v.parentQCs| == 1 && v.parentQCs[0].Some?
    && v.parentQCs[0].value.qcType == qcType && policy.IsQuorum(v.parentQCs[0].value)
  }

  lemma {:induction false} VotersAreFewer(votes: seq<Message>)
    ensures |Voters(votes)| <= |votes|
  {
    if votes != [] {
      var before, m := votes[..|votes| - 1], votes[|votes| - 1];
      assert votes == before + [m];
      VotersAreFewer(before);
      assert Voters(votes) <= Voters(before) + {m.fromID};
      SubsetIsNotLarger(Voters(votes), Voters(before) + {m.fromID});
    }
  }

  /** As many different voters as the policy asks for are enough: whatever
      other votes there are, the proposal made from them is accepted. */
  lemma EnoughVoters(pool: VotePool, round: int, qcType: int, id: int, policy: QuorumPolicy)
    ensures round in pool && |Voters(pool[round])| >= policy.QuorumSize(qcType) ==>
              && |pool[round]| >= policy.QuorumSize(qcType)
              && policy.IsQuorum(Certificate(pool[round], round, qcType, id))
              && (forall v: Vertex | v.parents == InOrder(VotedHashes(pool[round])) &&
                                     v.parentQCs == [Some(Certificate(pool[round], round, qcType, id))] ::
                   ProposesAccepted(v, policy, qcType, pool[round]))
  {
    if round in pool {
      VotersAreFewer(pool[round]);
      CertificateIsQuorumIff(pool[round], round, qcType, id, policy);
      VotedInOrder(pool[round]);
    }
  }

  lemma VotedInOrder(votes: seq<Message>)
    ensures var hs := InOrder(VotedHashes(votes));
            && (forall h :: h in hs <==> exists m :: m in votes && m.vote.Some? && m.vote.value.vertexHash == h)
            && (forall i | 0 <= i < |hs| - 1 :: Compare(hs[i], hs[i + 1]) < 0)
  {
    var hs := InOrder(VotedHashes(votes));
    InOrderElements(VotedHashes(votes));
    RankOrders();
    forall i | 0 <= i < |hs| - 1 ensures Less(hs[i], hs[i + 1]) { }
  }

  /** Vote `i` is the last one of its sender. */
  ghost predicate LastOf(votes: seq<Message>, i: nat, sender: int) {
    && i < |votes| && votes[i].vote.Some? && votes[i].fromID == sender
    && forall j | i < j < |votes| && votes[j].vote.Some? :: votes[j].fromID != sender
  }

  /** Vote `i` is the last one with content. */
  ghost predicate LastVote(votes: seq<Message>, i: nat) {
    i < |votes| && votes[i].vote.Some? && forall j | i < j < |votes| :: votes[j].vote == None
  }

  lemma {:induction false} LastSignatureCounts(votes: seq<Message>, sender: int)
    ensures sender in Signatures(votes) ==>
              exists i: nat :: LastOf(votes, i, sender) && Signatures(votes)[sender] == votes[i].vote.value.signature
  {
    if votes != [] {
      var n := |votes| - 1;
      LastSignatureCounts(votes[..n], sender);
      if votes[n].vote.Some? && votes[n].fromID == sender {
        assert LastOf(votes, n, sender);
      } else if sender in Signatures(votes) {
        var i: nat :| LastOf(votes[..n], i, sender) && Signatures(votes[..n])[sender] == votes[..n][i].vote.value.signature;
        assert LastOf(votes, i, sender);
      }
    }
  }

  lemma RepresentativeStep(before: seq<Message>, m: Message)
    ensures Representative(before + [m]) == if m.vote.Some? then m.vote.value.vertexHash else Representative(before)
  {
    assert (before + [m])[..|before|] == before;
  }

  /** A vote with content becomes the last one; any other leaves the last one. */
  lemma LastVoteStep(before: seq<Message>, m: Message)
    ensures m.vote.Some? ==> LastVote(before + [m], |before|)
    ensures m.vote == None ==> forall i: nat | LastVote(before, i) :: LastVote(before + [m], i)
  {
  }

  lemma {:induction false} LastVoteRepresents(votes: seq<Message>)
    ensures (forall m | m in votes :: m.vote == None) ==> Representative(votes) == NO_HASH
    ensures (exists m :: m in votes && m.vote.Some?) ==>
              exists i: nat :: LastVote(votes, i) && Representative(votes) == votes[i].vote.value.vertexHash
  {
    if votes != [] {
      var before, last := votes[..|votes| - 1], votes[|votes| - 1];
      assert votes == before + [last];
      LastVoteRepresents(before);
      RepresentativeStep(before, last);
      LastVoteStep(before, last);
    }
  }

  /** What a certificate says: its type, round and maker, the hash of the last
      vote, and for each voter, and nobody else, the signature of its last vote. */
  lemma {:induction false} CertificateMeans(votes: seq<Message>, round: int, qcType: int, id: int)
    ensures var qc := Certificate(votes, round, qcType, id);
            && qc.qcType == qcType && qc.round == round && qc.proposerID == id
            && (forall s :: s in qc.signatures <==> exists m :: m in votes && m.vote.Some? && m.fromID == s)
            && (forall s | s in qc.signatures ::
                 exists i: nat :: LastOf(votes, i, s) && qc.signatures[s] == votes[i].vote.value.signature)
            && ((exists m :: m in votes && m.vote.Some?) ==>
                 exists i: nat :: LastVote(votes, i) && qc.vertexHash == votes[i].vote.value.vertexHash)
            && ((forall m | m in votes :: m.vote == None) ==> forall k | 0 <= k < 32 :: qc.vertexHash[k] == 0)
  {
    SignersAreVoters(votes);
    var sigs := Signatures(votes);
    forall s ensures s in sigs <==> exists m :: m in votes && m.vote.Some? && m.fromID == s {
      assert s in sigs <==> s in Voters(votes);
    }
    forall s | s in sigs ensures exists i: nat :: LastOf(votes, i, s) && sigs[s] == votes[i].vote.value.signature {
      LastSignatureCounts(votes, s);
    }
    LastVoteRepresents(votes);
  }

  /** `v` is the proposal the votes call for. */
  ghost predicate IsProposal(v: Vertex, votes: seq<Message>, round: int, qcType: int, id: int, now: int, digest: Digest) {
    && v.author == id && v.round == round + 1 && v.timestamp == now && v.payload == []
    && v.parents == InOrder(VotedHashes(votes))
    && v.parentQCs == [Some(Certificate(votes, round, qcType, id))]
    && HashValid(v, digest)
  }

  method ExtractHashesFromVotes(votes: seq<Message>) returns (hashes: seq<Hash>)
    ensures hashes == InOrder(VotedHashes(votes))
  {
    var hashSet: set<Hash> := {};
    for i := 0 to |votes|
      invariant hashSet == VotedHashes(votes[..i])
    {
      assert votes[..i + 1] == votes[..i] + [votes[i]];
      if votes[i].vote.Some? {
        hashSet := hashSet + {votes[i].vote.value.vertexHash};
      }
    }
    assert votes[..|votes|] == votes;
    var todo := hashSet;
    hashes := [];
    while todo != {}
      invariant todo <= hashSet && Distinct(hashes) && Elements(hashes) == hashSet - todo
    {
      var h := Pick(todo);
      ElementsAppend(hashes, h);
      assert h !in Elements(hashes);
      hashes := hashes + [h];
      todo := todo - {h};
    }
    assert Elements(hashes) == hashSet;
    SortDistinctHashes(hashes);
    hashes := Sort(hashes, Rank);
  }

  method AssembleQC(votes: seq<Message>, round: int, qcType: int, id: int) returns (qc: QC)
    ensures qc == Certificate(votes, round, qcType, id)
  {
    var signatures: map<int, Signature> := map[];
    var representativeHash: Hash := NO_HASH;
    for i := 0 to |votes|
      invariant signatures == Signatures(votes[..i])
      invariant representativeHash == Representative(votes[..i])
    {
      assert votes[..i + 1][..i] == votes[..i];
      if votes[i].vote.Some? {
        signatures := signatures[votes[i].fromID := votes[i].vote.value.signature];
        representativeHash := votes[i].vote.value.vertexHash;
      }
    }
    assert votes[..|votes|] == votes;
    qc := QC(qcType, representativeHash, round, id, signatures);
  }

  /** The certificate of a proposal is a quorum exactly when enough different
      senders voted; votes without content and repeated senders do not help. */
  lemma CertificateIsQuorumIff(votes: seq<Message>, round: int, qcType: int, id: int, policy: QuorumPolicy)
    ensures policy.IsQuorum(Certificate(votes, round, qcType, id)) <==> |Voters(votes)| >= policy.QuorumSize(qcType)
  {
    SignersAreVoters(votes);
    var sigs := Signatures(votes);
    assert |sigs| == |sigs.Keys|;
  }

  lemma {:induction false} DistinctVoters(votes: seq<Message>)
    requires forall i | 0 <= i < |votes| :: votes[i].vote.Some?
    requires forall i, j | 0 <= i < j < |votes| :: votes[i].fromID != votes[j].fromID
    ensures |Voters(votes)| == |votes|
  {
    if votes != [] {
      var before, m := votes[..|votes| - 1], votes[|votes| - 1];
      assert votes == before + [m];
      DistinctVoters(before);
      assert m.fromID !in Voters(before);
      assert Voters(votes) == Voters(before) + {m.fromID};
    }
  }

  /** A proposal made from proper votes, one per sender, carries a certificate
      its own policy accepts. */
  lemma ProperVotesGiveQuorum(pool: VotePool, round: int, qcType: int, id: int, policy: QuorumPolicy)
    requires CheckQuorum(pool, round, policy.QuorumSize(qcType)).Some?
    requires forall i | 0 <= i < |pool[round]| :: pool[round][i].vote.Some?
    requires forall i, j | 0 <= i < j < |pool[round]| :: pool[round][i].fromID != pool[round][j].fromID
    ensures policy.IsQuorum(Certificate(pool[round], round, qcType, id))
  {
    DistinctVoters(pool[round]);
    CertificateIsQuorumIff(pool[round], round, qcType, id, policy);
  }

  lemma RoomMeansKept(s: State, v: Vertex, capacity: int)
    requires Room(s, v, capacity)
    ensures var t := Locked(s, v, capacity);
            v.hash in t.vertices || v.hash in t.orphans
  {
    if v.hash !in s.vertices && Complete(v, s.vertices.Keys) {
      CascadeExtends(s, [v]);
    }
  }

  /** Every replica's DAG takes a proposal: its parents are the voted hashes in
      canonical form, it is committed or waits for them if there is room, and
      its author is not penalised. */
  lemma ProposalIsAccepted(v: Vertex, votes: seq<Message>, round: int, qcType: int, id: int, now: int,
                           s: State, capacity: int, digest: Digest, l: Ledger, policy: Policy, at: int)
    requires IsProposal(v, votes, round, qcType, id, now, digest)
    ensures Admissible(v, digest) && Elements(v.parents) == VotedHashes(votes)
    ensures var t := Deliver(s, v, capacity, digest);
            Room(s, v, capacity) ==> v.hash in t.vertices || v.hash in t.orphans
    ensures Penalised(l, v, digest, policy, at) == l
  {
    InOrderElements(VotedHashes(votes));
    if Room(s, v, capacity) {
      RoomMeansKept(s, v, capacity);
    }
  }

  /** The broadcasts of one proposer never contain an equivocation. */
  lemma NoSelfEquivocation(p: Proposer, i: nat, j: nat, reporter: int, at: int, why: string)
    requires p.Valid() && i < |p.sent| && j < |p.sent| && i != j
    ensures !Evidence(p.id, MsgVertex, Some(p.sent[i]), Some(p.sent[j]), reporter, at, why).IsValid()
  {
  }
}
