/** What collision freedom of the hash function gives: the hypotheses of the
    results on convergence and on penalties, from facts that can be checked
    vertex by vertex. */
module CollisionFreedom {
  import opened Integers
  import opened Sorting
  import opened Hashes
  import opened Vertices
  import opened Encoding
  import opened CausalState
  import opened Convergence
  import opened Agreement
  import opened Slashing
  import opened Demerits
  import opened Concurrency
  import opened Codec

  /** The hash function does not collide on the streams that occur. */
  ghost predicate CollisionFree(vs: set<Vertex>, sha: Sha) {
    forall v, w {:trigger Encode(v), Encode(w)} | v in vs && w in vs && sha(Encode(v)) == sha(Encode(w)) ::
      Encode(v) == Encode(w)
  }

  /** Within what a Go `int` and a slice of fewer than 2^31 elements can hold. */
  ghost predicate Sized(v: Vertex) {
    Fits(8, v.round) && Fits(4, |v.parents|)
  }

  /** Author, round and parents are written first and can be read off. */
  lemma HeadRoundTrip(v: Vertex)
    requires Fits(4, |v.parents|)
    ensures var bs := Encode(v);
            && DecodeInt(4, bs).Some? && DecodeInt(4, bs).value.0 == Reduce(4, v.author)
            && DecodeInt(8, DecodeInt(4, bs).value.1).Some?
            && DecodeInt(8, DecodeInt(4, bs).value.1).value.0 == Reduce(8, v.round)
            && DecodeList(DecodeInt(8, DecodeInt(4, bs).value.1).value.1, DecodeHash).Some?
            && DecodeList(DecodeInt(8, DecodeInt(4, bs).value.1).value.1, DecodeHash).value.0 == v.parents
  {
    var tail := BigEndian(4, |v.parentQCs|) + (EncodeAll(v.parentQCs, EncodeQCEntry) + (BigEndian(8, v.timestamp) +
                (BigEndian(4, |v.payload|) + EncodeAll(v.payload, Prefixed))));
    var parents := BigEndian(4, |v.parents|) + (EncodeAll(v.parents, EncodeHash) + tail);
    Regroup9(BigEndian(4, v.author), BigEndian(8, v.round), BigEndian(4, |v.parents|), EncodeAll(v.parents, EncodeHash),
             BigEndian(4, |v.parentQCs|), EncodeAll(v.parentQCs, EncodeQCEntry), BigEndian(8, v.timestamp),
             BigEndian(4, |v.payload|), EncodeAll(v.payload, Prefixed), []);
    NothingAppended(Encode(v));
    NothingAppended(EncodeAll(v.payload, Prefixed));
    assert Encode(v) == BigEndian(4, v.author) + (BigEndian(8, v.round) + parents);
    IntRoundTrip(4, v.author, BigEndian(8, v.round) + parents);
    IntRoundTrip(8, v.round, parents);
    ParentsRoundTrip(v.parents, tail);
  }

  lemma NothingAppended(bs: Bytes)
    ensures bs + [] == bs
  {
  }

  /** Equal streams have equal parents and rounds, whatever else they contain:
      nil certificates and authors outside 32 bits included. */
  lemma StreamFixesShape(v: Vertex, w: Vertex)
    requires Sized(v) && Sized(w) && Encode(v) == Encode(w)
    ensures v.parents == w.parents && v.round == w.round && Reduce(4, v.author) == Reduce(4, w.author)
  {
    HeadRoundTrip(v);
    HeadRoundTrip(w);
    SignedInverse(8, v.round);
    SignedInverse(8, w.round);
  }

  /** What the results on the DAG ask of the deliveries. */
  lemma {:induction false} CollisionFreeIsConsistent(vs: set<Vertex>, sha: Sha)
    requires CollisionFree(vs, sha)
    requires forall v | v in vs :: HashValid(v, HashOf(sha)) && Sized(v)
    ensures Consistent(vs)
  {
    forall v, w | v in vs && w in vs && v.hash == w.hash ensures SameShape(v, w) {
      assert sha(Encode(v)) == HashOf(sha)(v) == HashOf(sha)(w) == sha(Encode(w));
      StreamFixesShape(v, w);
    }
  }

  /** What the results on penalties ask besides: authors within 32 bits. */
  lemma {:induction false} CollisionFreeAttributes(vs: set<Vertex>, sha: Sha)
    requires CollisionFree(vs, sha)
    requires forall v | v in vs :: HashValid(v, HashOf(sha)) && Sized(v) && Fits(4, v.author)
    ensures Attributed(vs)
  {
    forall v, w | v in vs && w in vs && v.hash == w.hash ensures v.author == w.author {
      assert sha(Encode(v)) == HashOf(sha)(v) == HashOf(sha)(w) == sha(Encode(w));
      StreamFixesShape(v, w);
      SignedInverse(4, v.author);
      SignedInverse(4, w.author);
    }
  }

  /** Replicas agree on the DAG: any authors, any certificates. */
  lemma {:induction false} CollisionFreeReplicasAgree(ds: seq<Vertex>, es: seq<Vertex>, capA: int, capB: int, sha: Sha)
    requires CollisionFree(Admitted(ds, HashOf(sha)), sha) && forall v | v in ds :: Sized(v)
    requires Shapes(Admitted(ds, HashOf(sha))) == Shapes(Admitted(es, HashOf(sha)))
    requires NeverEvicts(ds, capA, HashOf(sha)) && NeverEvicts(es, capB, HashOf(sha))
    ensures var s, t := Run(ds, capA, HashOf(sha)), Run(es, capB, HashOf(sha));
            SameDag(s.vertices, t.vertices) && SameDag(s.orphans, t.orphans)
  {
    CollisionFreeIsConsistent(Admitted(ds, HashOf(sha)), sha);
    ReplicasAgree(ds, es, capA, capB, HashOf(sha));
  }

  /** Penalties follow the formula when every author fits into 32 bits. */
  lemma {:induction false} CollisionFreePenalty(ds: seq<Vertex>, cfg: Settings, env: nat -> Moment, a: int, sha: Sha)
    requires Punishing(cfg.policy) && cfg.digest == HashOf(sha)
    requires CollisionFree(HashValidOnes(Elements(ds), cfg.digest), sha)
    requires forall v | v in ds :: Sized(v) && Fits(4, v.author)
    ensures Penalty(Replay(ds, cfg, env).ledger, a) ==
              cfg.policy.malformedVertexPenalty *
                Smaller(|Offences(Pairs(Elements(ds), cfg.digest), a)|, SlashCount(cfg.policy))
  {
    var vs := HashValidOnes(Elements(ds), cfg.digest);
    CollisionFreeIsConsistent(vs, sha);
    CollisionFreeAttributes(vs, sha);
    AttributedNotDivertible(Elements(ds), cfg.digest, a, SlashCount(cfg.policy));
    PenaltyFormula(ds, cfg, env, a);
  }

  /** Replicas punish alike when every author fits into 32 bits. */
  lemma {:induction false} CollisionFreePenaltiesAgree(ds: seq<Vertex>, es: seq<Vertex>, cfg: Settings,
                                                       envA: nat -> Moment, envB: nat -> Moment, a: int, sha: Sha)
    requires Punishing(cfg.policy) && cfg.digest == HashOf(sha)
    requires Pairs(Elements(ds), cfg.digest) == Pairs(Elements(es), cfg.digest)
    requires CollisionFree(HashValidOnes(Elements(ds), cfg.digest), sha)
    requires CollisionFree(HashValidOnes(Elements(es), cfg.digest), sha)
    requires (forall v | v in ds :: Sized(v) && Fits(4, v.author)) && (forall v | v in es :: Sized(v) && Fits(4, v.author))
    ensures Penalty(Replay(ds, cfg, envA).ledger, a) == Penalty(Replay(es, cfg, envB).ledger, a)
  {
    CollisionFreePenalty(ds, cfg, envA, a, sha);
    CollisionFreePenalty(es, cfg, envB, a, sha);
  }

  /** Every schedule of threads leaves the whole node in the state of some
      sequential order: any authors, any certificates. */
  lemma {:induction false} CollisionFreeSchedule(calls: seq<Vertex>, schedule: seq<nat>, cfg: Settings,
                                                 env: nat -> Moment, sha: Sha)
    requires Schedulable(calls, schedule) && cfg.digest == HashOf(sha)
    requires CollisionFree(HashValidOnes(Elements(calls), cfg.digest), sha) && forall v | v in calls :: Sized(v)
    ensures var c := Execute(calls, schedule, cfg, env);
            Schedulable(calls, c.effects) && c.shared == Replay(Calls(calls, c.effects), cfg, env)
  {
    CollisionFreeIsConsistent(HashValidOnes(Elements(calls), cfg.digest), sha);
    EveryScheduleJudgesAlike(calls, schedule, cfg, env);
  }

  /** And when every author fits into 32 bits, with the penalties of the formula. */
  lemma {:induction false} CollisionFreeSchedulePunishes(calls: seq<Vertex>, schedule: seq<nat>, cfg: Settings,
                                                         env: nat -> Moment, a: int, sha: Sha)
    requires Schedulable(calls, schedule) && AllReturned(Execute(calls, schedule, cfg, env))
    requires Punishing(cfg.policy) && cfg.digest == HashOf(sha)
    requires CollisionFree(HashValidOnes(Elements(calls), cfg.digest), sha)
    requires forall v | v in calls :: Sized(v) && Fits(4, v.author)
    ensures Penalty(Execute(calls, schedule, cfg, env).shared.ledger, a) ==
              cfg.policy.malformedVertexPenalty *
                Smaller(|Offences(Pairs(Elements(calls), cfg.digest), a)|, SlashCount(cfg.policy))
  {
    var vs := HashValidOnes(Elements(calls), cfg.digest);
    CollisionFreeIsConsistent(vs, sha);
    CollisionFreeAttributes(vs, sha);
    AttributedNotDivertible(Elements(calls), cfg.digest, a, SlashCount(cfg.policy));
    EverySchedulePunishesAlike(calls, schedule, cfg, env, a);
  }

  lemma ShiftedIsMalformed(v: Vertex, k: int, sha: Sha)
    requires Malformed(v, HashOf(sha))
    ensures Malformed(v.(author := v.author + k * 0x1_0000_0000), HashOf(sha))
  {
    AuthorsCollide(v, k, sha);
  }

  /** Without the bound on authors the order of two deliveries decides, for
      every hash function: if the copy under a shifted author comes first, the
      real author is never charged. */
  lemma {:induction false} PenaltyDependsOnOrder(v: Vertex, k: int, cfg: Settings, env: nat -> Moment, sha: Sha)
    requires Punishing(cfg.policy) && cfg.digest == HashOf(sha) && Malformed(v, cfg.digest) && k != 0
    ensures var w := v.(author := v.author + k * 0x1_0000_0000);
            && Penalty(Replay([v, w], cfg, env).ledger, v.author) == cfg.policy.malformedVertexPenalty
            && Penalty(Replay([w, v], cfg, env).ledger, v.author) == 0
  {
    ShiftedIsMalformed(v, k, sha);
    PairOrderIff(v, v.(author := v.author + k * 0x1_0000_0000), cfg, env);
  }
}
