/** Runs of the penalty ledger over arbitrary reports from all three entry points. */
module LedgerRuns {
  import opened Sorting
  import opened Hashes
  import opened Vertices
  import opened Slashing

  /** The ledger after a sequence of reports; `clock` gives the time of each. */
  ghost function Judge(rs: seq<Report>, policy: Policy, clock: nat -> int): Ledger {
    if rs == [] then NO_PENALTIES
    else Adjudicate(Judge(rs[..|rs| - 1], policy, clock), rs[|rs| - 1], policy, clock(|rs| - 1))
  }

  /** The charges actually made, in order. */
  ghost function Charges(rs: seq<Report>, policy: Policy, clock: nat -> int): seq<Charge> {
    if rs == [] then [] else
      var before := rs[..|rs| - 1];
      match ChargeFor(Judge(before, policy, clock), rs[|rs| - 1], policy)
      case None => Charges(before, policy, clock)
      case Some(c) => Charges(before, policy, clock) + [c]
  }

  ghost function Total(cs: seq<Charge>, id: int): int {
    if cs == [] then 0
    else Total(cs[..|cs| - 1], id) + (if cs[|cs| - 1].target == id then cs[|cs| - 1].amount else 0)
  }

  ghost function Proofs(cs: seq<Charge>): seq<Hash> {
    if cs == [] then [] else Proofs(cs[..|cs| - 1]) + [cs[|cs| - 1].proof]
  }

  /** The ledger `l` is the outcome of the charges `cs`. */
  ghost predicate Accounts(l: Ledger, cs: seq<Charge>, id: int) {
    Distinct(Proofs(cs)) && Elements(Proofs(cs)) == l.processedEv && Penalty(l, id) == Total(cs, id)
  }

  lemma RecordAccounts(l: Ledger, cs: seq<Charge>, c: Charge, e: Evidence, id: int)
    requires Accounts(l, cs, id) && c.proof !in l.processedEv
    ensures Accounts(Record(l, c, e), cs + [c], id)
  {
  }

  /** Across all entry points a proof hash is charged at most once, the
      processed set is exactly the set of charged hashes, and every penalty is
      the sum of the charges made against that validator. */
  lemma {:induction false} ChargedOnce(rs: seq<Report>, policy: Policy, clock: nat -> int, id: int)
    ensures Accounts(Judge(rs, policy, clock), Charges(rs, policy, clock), id)
  {
    if rs != [] {
      var n := |rs| - 1;
      ChargedOnce(rs[..n], policy, clock, id);
      var l := Judge(rs[..n], policy, clock);
      var charge := ChargeFor(l, rs[n], policy);
      if charge.Some? {
        RecordAccounts(l, Charges(rs[..n], policy, clock), charge.value, EvidenceFor(rs[n], policy, clock(n)), id);
      }
    }
  }

  ghost predicate NonNegative(rs: seq<Report>, policy: Policy) {
    && policy.equivocationPenalty >= 0
    && forall r | r in rs && r.Demerit? :: r.amount >= 0
  }

  lemma ReportNeverLowers(l: Ledger, r: Report, policy: Policy, now: int, id: int)
    requires policy.equivocationPenalty >= 0 && (r.Demerit? ==> r.amount >= 0)
    ensures Penalty(l, id) <= Penalty(Adjudicate(l, r, policy, now), id)
  {
  }

  /** No later report lowers a penalty, so a slashed validator stays slashed. */
  lemma {:induction false} SlashedStaysSlashed(rs: seq<Report>, n: nat, policy: Policy, clock: nat -> int, id: int)
    requires n <= |rs| && NonNegative(rs, policy)
    ensures Penalty(Judge(rs[..n], policy, clock), id) <= Penalty(Judge(rs, policy, clock), id)
    ensures Slashed(Judge(rs[..n], policy, clock), id, policy) ==> Slashed(Judge(rs, policy, clock), id, policy)
  {
    if n == |rs| {
      assert rs[..n] == rs;
    } else {
      var last := |rs| - 1;
      var before := rs[..last];
      assert before[..n] == rs[..n];
      SlashedStaysSlashed(before, n, policy, clock, id);
      assert rs[last] in rs;
      ReportNeverLowers(Judge(before, policy, clock), rs[last], policy, clock(last), id);
    }
  }

  /** What a ledger becomes when `target` is charged `amount` for `proof`. */
  ghost predicate ChargedWith(before: Ledger, after: Ledger, target: int, amount: int, proof: Hash, e: Evidence) {
    && (forall id :: Penalty(after, id) == Penalty(before, id) + (if id == target then amount else 0))
    && (forall h :: h in after.processedEv <==> h in before.processedEv || h == proof)
    && (forall id :: Entries(after, id) == if id == target then Entries(before, id) + [e] else Entries(before, id))
  }

  lemma LastReport(rs: seq<Report>, r: Report, policy: Policy, clock: nat -> int)
    ensures Judge(rs + [r], policy, clock) == Adjudicate(Judge(rs, policy, clock), r, policy, clock(|rs|))
  {
    assert (rs + [r])[..|rs|] == rs;
  }

  /** Evidence from a peer costs its target the equivocation penalty exactly if
      it is valid, the target is below the threshold and the proof is new. */
  lemma ExternalCosts(rs: seq<Report>, ev: Evidence, policy: Policy, clock: nat -> int)
    ensures var l, l' := Judge(rs, policy, clock), Judge(rs + [External(ev)], policy, clock);
            if ev.IsValid() && Penalty(l, ev.targetID) < policy.slashThreshold && ev.proof1.value.hash !in l.processedEv
            then ChargedWith(l, l', ev.targetID, policy.equivocationPenalty, ev.proof1.value.hash,
                   Evidence(ev.targetID, ev.kind, ev.proof1, ev.proof2, policy.nodeID, clock(|rs|), ev.description))
            else l' == l
  {
    LastReport(rs, External(ev), policy, clock);
  }

  /** An equivocation found locally costs the author of the first vertex the
      equivocation penalty exactly if that proof is new, slashed or not. */
  lemma EquivocationCosts(rs: seq<Report>, v: Vertex, w: Option<Vertex>, policy: Policy, clock: nat -> int)
    ensures var l, l' := Judge(rs, policy, clock), Judge(rs + [Equivocation(v, w)], policy, clock);
            if v.hash !in l.processedEv
            then ChargedWith(l, l', v.author, policy.equivocationPenalty, v.hash,
                   Evidence(v.author, MsgVertex, Some(v), w, policy.nodeID, clock(|rs|),
                            "Local detection: Equivocation (Double Propose/Vote)"))
            else l' == l
  {
    LastReport(rs, Equivocation(v, w), policy, clock);
  }

  /** A demerit costs its amount exactly if its author is below the threshold
      and the proof is new. */
  lemma DemeritCosts(rs: seq<Report>, author: int, amount: int, v: Vertex, reason: string, policy: Policy, clock: nat -> int)
    ensures var l, l' := Judge(rs, policy, clock), Judge(rs + [Demerit(author, amount, v, reason)], policy, clock);
            if Penalty(l, author) < policy.slashThreshold && v.hash !in l.processedEv
            then ChargedWith(l, l', author, amount, v.hash,
                   Evidence(author, MsgInvalidPayload, Some(v), None, policy.nodeID, clock(|rs|), reason))
            else l' == l
  {
    LastReport(rs, Demerit(author, amount, v, reason), policy, clock);
  }

  /** The report is what it claims to be. */
  ghost predicate Genuine(r: Report) {
    match r
    case Demerit(author, _, vtx, _) => vtx.author == author && !Canonical(vtx)
    case External(_) => true
    case Equivocation(v, other) =>
      other.Some? && v.author == other.value.author && v.round == other.value.round && v.hash != other.value.hash
  }

  ghost predicate AllValid(l: Ledger) {
    forall id, k | id in l.evidences && 0 <= k < |l.evidences[id]| :: l.evidences[id][k].IsValid()
  }

  ghost predicate Acted(rs: seq<Report>, i: nat, policy: Policy, clock: nat -> int)
    requires i < |rs|
  {
    ChargeFor(Judge(rs[..i], policy, clock), rs[i], policy).Some?
  }

  lemma EvidenceValidIffGenuine(l: Ledger, r: Report, policy: Policy, now: int)
    requires ChargeFor(l, r, policy).Some?
    ensures EvidenceFor(r, policy, now).IsValid() <==> Genuine(r)
  {
  }

  lemma RecordedValidity(l: Ledger, c: Charge, e: Evidence)
    ensures AllValid(Record(l, c, e)) <==> AllValid(l) && e.IsValid()
  {
    var l' := Record(l, c, e);
    var k := |Entries(l, c.target)|;
    assert l'.evidences[c.target][k] == e;
    if AllValid(l') {
      forall id, j | id in l.evidences && 0 <= j < |l.evidences[id]| ensures l.evidences[id][j].IsValid() {
        assert l'.evidences[id][j] == l.evidences[id][j];
      }
    }
  }

  /** The ledger verifies itself for any peer exactly when every report acted
      on was genuine; reports from peers are genuine by construction. */
  lemma {:induction false} LedgerVerifiesItself(rs: seq<Report>, policy: Policy, clock: nat -> int)
    ensures AllValid(Judge(rs, policy, clock)) <==>
              forall i | 0 <= i < |rs| && Acted(rs, i, policy, clock) :: Genuine(rs[i])
  {
    if rs != [] {
      var n := |rs| - 1;
      var before := rs[..n];
      LedgerVerifiesItself(before, policy, clock);
      assert forall i | 0 <= i < n :: before[..i] == rs[..i];
      assert forall i | 0 <= i < n :: Acted(rs, i, policy, clock) <==> Acted(before, i, policy, clock);
      var l := Judge(before, policy, clock);
      if ChargeFor(l, rs[n], policy).Some? {
        assert Acted(rs, n, policy, clock);
        EvidenceValidIffGenuine(l, rs[n], policy, clock(n));
        RecordedValidity(l, ChargeFor(l, rs[n], policy).value, EvidenceFor(rs[n], policy, clock(n)));
      } else {
        assert !Acted(rs, n, policy, clock);
      }
    }
  }

  /** `HandleEquivocation` acts on any pair: called with a vertex twice it
      charges the author and records evidence that no peer accepts. */
  lemma EquivocationUnchecked(v: Vertex, policy: Policy, clock: nat -> int)
    ensures var l := Judge([Equivocation(v, Some(v))], policy, clock);
            !AllValid(l) && Penalty(l, v.author) == policy.equivocationPenalty
  {
    var r := Equivocation(v, Some(v));
    assert [r][..0] == [];
    assert ChargeFor(NO_PENALTIES, r, policy).Some?;
    RecordedValidity(NO_PENALTIES, Charge(v.author, policy.equivocationPenalty, v.hash), EvidenceFor(r, policy, clock(0)));
  }
}
