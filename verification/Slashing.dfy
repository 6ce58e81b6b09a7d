/** Evidence of protocol violations and the ledger of penalties. */
module Slashing {
  import opened Hashes
  import opened Vertices

  datatype MessageType = MsgVertex | MsgVote | MsgFetchReq | MsgFetchRes | MsgEvidence | MsgInvalidPayload | Unknown(code: int)

  datatype Evidence = Evidence(
    targetID: int,
    kind: MessageType,
    proof1: Option<Vertex>,
    proof2: Option<Vertex>,
    reporterID: int,
    timestamp: int,
    description: string)
  {
    ghost predicate IsValid() {
      if proof1 == None || proof1.value.author != targetID then false
      else if proof2.Some? && proof1.value.author != proof2.value.author then false
      else if proof2.Some? && proof1.value.round == proof2.value.round && proof1.value.hash != proof2.value.hash then true
      else kind == MsgInvalidPayload && !Canonical(proof1.value)
    }
  }

  datatype Policy = Policy(
    nodeID: int,
    slashThreshold: int,
    malformedVertexPenalty: int,
    equivocationPenalty: int)

  datatype Ledger = Ledger(
    penaltyTable: map<int, int>,
    processedEv: set<Hash>,
    evidences: map<int, seq<Evidence>>)

  const NO_PENALTIES := Ledger(map[], {}, map[])

  function Penalty(l: Ledger, id: int): int {
    if id in l.penaltyTable then l.penaltyTable[id] else 0
  }

  predicate Slashed(l: Ledger, id: int, policy: Policy) {
    Penalty(l, id) >= policy.slashThreshold
  }

  function Entries(l: Ledger, id: int): seq<Evidence> {
    if id in l.evidences then l.evidences[id] else []
  }

  /** The three ways a violation reaches the ledger. */
  datatype Report =
    | Demerit(author: int, amount: int, vtx: Vertex, reason: string)
    | External(ev: Evidence)
    | Equivocation(vtx1: Vertex, vtx2: Option<Vertex>)

  datatype Charge = Charge(target: int, amount: int, proof: Hash)

  /** What a report costs, if it is acted on. */
  ghost function ChargeFor(l: Ledger, r: Report, policy: Policy): Option<Charge> {
    match r
    case Demerit(author, amount, vtx, _) =>
      if Slashed(l, author, policy) || vtx.hash in l.processedEv then None
      else Some(Charge(author, amount, vtx.hash))
    case External(ev) =>
      if !ev.IsValid() || Slashed(l, ev.targetID, policy) || ev.proof1.value.hash in l.processedEv then None
      else Some(Charge(ev.targetID, policy.equivocationPenalty, ev.proof1.value.hash))
    case Equivocation(vtx1, vtx2) =>
      if vtx1.hash in l.processedEv then None
      else Some(Charge(vtx1.author, policy.equivocationPenalty, vtx1.hash))
  }

  /** The evidence a report leaves behind. */
  function EvidenceFor(r: Report, policy: Policy, now: int): Evidence {
    match r
    case Demerit(author, _, vtx, reason) =>
      Evidence(author, MsgInvalidPayload, Some(vtx), None, policy.nodeID, now, reason)
    case External(ev) =>
      Evidence(ev.targetID, ev.kind, ev.proof1, ev.proof2, policy.nodeID, now, ev.description)
    case Equivocation(vtx1, vtx2) =>
      Evidence(vtx1.author, MsgVertex, Some(vtx1), vtx2, policy.nodeID, now,
               "Local detection: Equivocation (Double Propose/Vote)")
  }

  ghost function Record(l: Ledger, c: Charge, e: Evidence): Ledger {
    Ledger(
      l.penaltyTable[c.target := Penalty(l, c.target) + c.amount],
      l.processedEv + {c.proof},
      l.evidences[c.target := Entries(l, c.target) + [e]])
  }

  /** The ledger after one report. */
  ghost function Adjudicate(l: Ledger, r: Report, policy: Policy, now: int): Ledger {
    match ChargeFor(l, r, policy)
    case None => l
    case Some(c) => Record(l, c, EvidenceFor(r, policy, now))
  }

  class Slasher {
    var evidences: map<int, seq<Evidence>>
    var penaltyTable: map<int, int>
    var processedEv: set<Hash>
    const policy: Policy

    function Abs(): Ledger
      reads this
    {
      Ledger(penaltyTable, processedEv, evidences)
    }

    constructor (config: Policy)
      ensures Abs() == NO_PENALTIES && policy == config
    {
      evidences, penaltyTable, processedEv := map[], map[], {};
      policy := config;
    }

    method ExecuteSlasher(target: int, amount: int, evHash: Hash, kind: MessageType,
                          p1: Option<Vertex>, p2: Option<Vertex>, reason: string, now: int)
      modifies this
      ensures Abs() == Record(old(Abs()), Charge(target, amount, evHash),
                              Evidence(target, kind, p1, p2, policy.nodeID, now, reason))
    {
      penaltyTable := penaltyTable[target := GetPenalty(target) + amount];
      processedEv := processedEv + {evHash};
      var evidence := Evidence(target, kind, p1, p2, policy.nodeID, now, reason);
      var list := if target in evidences then evidences[target] else [];
      evidences := evidences[target := list + [evidence]];
    }

    method HandleEquivocation(vtx1: Vertex, vtx2: Option<Vertex>, now: int) returns (ev: Option<Evidence>)
      modifies this
      ensures Abs() == Adjudicate(old(Abs()), Equivocation(vtx1, vtx2), policy, now)
      ensures ev == if vtx1.hash in old(processedEv) then None
                    else Some(EvidenceFor(Equivocation(vtx1, vtx2), policy, now))
    {
      if vtx1.hash in processedEv {
        return None;
      }
      ExecuteSlasher(vtx1.author, policy.equivocationPenalty, vtx1.hash, MsgVertex, Some(vtx1), vtx2,
                     "Local detection: Equivocation (Double Propose/Vote)", now);
      var evList := evidences[vtx1.author];
      ev := Some(evList[|evList| - 1]);
    }

    method ProcessExternalEvidence(ev: Evidence, now: int)
      modifies this
      ensures Abs() == Adjudicate(old(Abs()), External(ev), policy, now)
    {
      var valid := CheckEvidence(ev);
      if !valid {
        return;
      }
      if GetPenalty(ev.targetID) >= policy.slashThreshold || ev.proof1.value.hash in processedEv {
        return;
      }
      ExecuteSlasher(ev.targetID, policy.equivocationPenalty, ev.proof1.value.hash, ev.kind, ev.proof1, ev.proof2,
                     ev.description, now);
    }

    method AddDemerit(author: int, amount: int, vtx: Vertex, reason: string, now: int)
      modifies this
      ensures Abs() == Adjudicate(old(Abs()), Demerit(author, amount, vtx, reason), policy, now)
    {
      if GetPenalty(author) >= policy.slashThreshold || vtx.hash in processedEv {
        return;
      }
      ExecuteSlasher(author, amount, vtx.hash, MsgInvalidPayload, Some(vtx), None, reason, now);
    }

    function GetPenalty(validatorID: int): int
      reads this
    {
      Penalty(Abs(), validatorID)
    }

    predicate IsSlashed(validatorID: int)
      reads this
    {
      Slashed(Abs(), validatorID, policy)
    }
  }

  /** Somewhere a parent does not come strictly before the next one. */
  ghost predicate OutOfOrder(parents: seq<Hash>) {
    exists i :: 0 <= i < |parents| - 1 && Compare(parents[i], parents[i + 1]) >= 0
  }

  lemma OutOfOrderIsMalformed(v: Vertex)
    ensures OutOfOrder(v.parents) <==> !Canonical(v)
  {
    CanonicalParents(v);
  }

  /** Runs `Evidence.IsValid` with the index loop of `CheckMalformed`. */
  method CheckEvidence(ev: Evidence) returns (valid: bool)
    ensures valid <==> ev.IsValid()
    ensures valid <==>
              && ev.proof1.Some? && ev.proof1.value.author == ev.targetID
              && (ev.proof2.Some? ==> ev.proof2.value.author == ev.targetID)
              && ((ev.proof2.Some? && ev.proof2.value.round == ev.proof1.value.round && ev.proof2.value.hash != ev.proof1.value.hash) ||
                  (ev.kind == MsgInvalidPayload && OutOfOrder(ev.proof1.value.parents)))
  {
    if ev.proof1 == None || ev.proof1.value.author != ev.targetID {
      return false;
    }
    OutOfOrderIsMalformed(ev.proof1.value);
    if ev.proof2.Some? {
      if ev.proof1.value.author != ev.proof2.value.author {
        return false;
      }
      if ev.proof1.value.round == ev.proof2.value.round && ev.proof1.value.hash != ev.proof2.value.hash {
        return true;
      }
    }
    if ev.kind == MsgInvalidPayload {
      var fault := CheckMalformed(ev.proof1.value.parents);
      return fault.Some?;
    }
    return false;
  }
}
