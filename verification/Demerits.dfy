/** Penalties caused by vertex delivery alone: what they are, and when the
    order of delivery matters. */
module Demerits {
  import opened Integers
  import opened Sorting
  import opened Hashes
  import opened Vertices
  import opened Encoding
  import opened CausalState
  import opened Dag
  import opened Slashing
  import opened LedgerRuns
  import opened Convergence
  import opened Agreement

  /** A replica: its DAG, its penalty ledger, and the sync requests it decided on. */
  datatype Node = Node(dag: State, ledger: Ledger, syncs: seq<SyncRequest>)

  const NEW_NODE := Node(EMPTY, NO_PENALTIES, [])

  datatype Settings = Settings(capacity: int, threshold: int, digest: Digest, policy: Policy)

  /** The clock reading and the round of the node when a call is made. */
  datatype Moment = Moment(now: int, round: int)

  function Listed<T>(x: Option<T>): seq<T> {
    if x == None then [] else [x.value]
  }

  /** One `AddVertex` call on a whole node. */
  ghost function Receive(n: Node, v: Vertex, cfg: Settings, m: Moment): Node {
    if v.hash in n.dag.vertices then n
    else Node(
      Deliver(n.dag, v, cfg.capacity, cfg.digest),
      Penalised(n.ledger, v, cfg.digest, cfg.policy, m.now),
      n.syncs + (if Admissible(v, cfg.digest) then Listed(SyncNeeded(n.dag.vertices.Keys, v, m.round, cfg.threshold)) else []))
  }

  /** `env(k)` is the moment of the call at position `k`. */
  ghost function Replay(ds: seq<Vertex>, cfg: Settings, env: nat -> Moment): Node {
    if ds == [] then NEW_NODE
    else Receive(Replay(ds[..|ds| - 1], cfg, env), ds[|ds| - 1], cfg, env(|ds| - 1))
  }

  /** A hash-valid vertex whose parent list is not canonical. */
  ghost predicate Malformed(v: Vertex, digest: Digest) {
    HashValid(v, digest) && !Canonical(v)
  }

  ghost function HashValidOnes(vs: set<Vertex>, digest: Digest): set<Vertex> {
    set v | v in vs && HashValid(v, digest)
  }

  lemma {:induction false} ReplayRunsTheDag(ds: seq<Vertex>, cfg: Settings, env: nat -> Moment)
    ensures Replay(ds, cfg, env).dag == Run(ds, cfg.capacity, cfg.digest)
  {
    if ds != [] {
      ReplayRunsTheDag(ds[..|ds| - 1], cfg, env);
    }
  }

  /** The hash of a malformed vertex is never in the DAG. */
  lemma MalformedNotCommitted(ds: seq<Vertex>, v: Vertex, cfg: Settings, all: set<Vertex>)
    requires Consistent(HashValidOnes(all, cfg.digest)) && Elements(ds) <= all
    requires v in all && Malformed(v, cfg.digest)
    ensures v.hash !in Run(ds, cfg.capacity, cfg.digest).vertices
  {
    var s := Run(ds, cfg.capacity, cfg.digest);
    RunDrawsFrom(ds, cfg.capacity, cfg.digest, Admitted(ds, cfg.digest));
    RunKeepsInv(ds, cfg.capacity, cfg.digest);
    forall h | h in s.vertices ensures s.vertices[h].hash != v.hash {
      var w := s.vertices[h];
      assert w in Elements(ds);
      assert w in HashValidOnes(all, cfg.digest) && v in HashValidOnes(all, cfg.digest);
      assert w.hash == v.hash ==> SameShape(v, w);
    }
  }

  // Who is charged for what

  /** Hashes of malformed deliveries, with the authors they came under. */
  ghost function Pairs(vs: set<Vertex>, digest: Digest): set<(Hash, int)> {
    set v | v in vs && Malformed(v, digest) :: (v.hash, v.author)
  }

  /** The distinct malformed vertices that came under author `a`. */
  ghost function Offences(pairs: set<(Hash, int)>, a: int): set<Hash> {
    set p | p in pairs && p.1 == a :: p.0
  }

  type Blame = map<Hash, int>

  /** The hashes blamed on `a`. */
  ghost function Of(c: Blame, a: int): set<Hash> {
    set h | h in c && c[h] == a
  }

  /** The ledger is the outcome of blaming each hash in `c` once, and nobody is
      charged after reaching the threshold. */
  ghost predicate Paid(l: Ledger, c: Blame, policy: Policy) {
    && l.processedEv == c.Keys
    && (forall a :: Penalty(l, a) == policy.malformedVertexPenalty * |Of(c, a)|)
    && (forall a :: Penalty(l, a) < policy.slashThreshold + policy.malformedVertexPenalty)
  }

  /** Besides, only delivered pairs are blamed, and a pair that was delivered is
      unblamed only if its author had already been slashed. */
  ghost predicate Books(l: Ledger, c: Blame, pairs: set<(Hash, int)>, policy: Policy) {
    && Paid(l, c, policy)
    && (forall h | h in c :: (h, c[h]) in pairs)
    && (forall p | p in pairs :: p.0 in c || Penalty(l, p.1) >= policy.slashThreshold)
  }

  ghost predicate Punishing(policy: Policy) {
    policy.malformedVertexPenalty > 0 && policy.slashThreshold > 0
  }

  /** The blame after one more malformed delivery. */
  ghost function Blamed(l: Ledger, c: Blame, v: Vertex, policy: Policy): Blame {
    if ChargeFor(l, MalformationReport(v, policy), policy).Some? then c[v.hash := v.author] else c
  }

  lemma OfAfter(c: Blame, h: Hash, a: int, b: int)
    requires h !in c
    ensures h !in Of(c, b) && Of(c[h := a], b) == if b == a then Of(c, b) + {h} else Of(c, b)
  {
  }

  lemma OneMoreTimes<T>(p: int, s: set<T>, x: T)
    requires x !in s
    ensures p * |s + {x}| == p * |s| + p
  {
    assert |s + {x}| == |s| + 1;
  }

  lemma BlameOneMore(c: Blame, h: Hash, a: int, b: int, p: int)
    requires h !in c
    ensures p * |Of(c[h := a], b)| == p * |Of(c, b)| + (if b == a then p else 0)
  {
    OfAfter(c, h, a, b);
    OneMoreTimes(p, Of(c, b), h);
  }

  lemma RecordedPenalty(l: Ledger, charge: Charge, e: Evidence, b: int)
    ensures Penalty(Record(l, charge, e), b) == Penalty(l, b) + (if b == charge.target then charge.amount else 0)
  {
  }

  lemma PaidCharge(l: Ledger, c: Blame, h: Hash, a: int, e: Evidence, policy: Policy)
    requires Punishing(policy) && Paid(l, c, policy) && h !in c && Penalty(l, a) < policy.slashThreshold
    ensures Paid(Record(l, Charge(a, policy.malformedVertexPenalty, h), e), c[h := a], policy)
  {
    var p := policy.malformedVertexPenalty;
    var l' := Record(l, Charge(a, p, h), e);
    forall b
      ensures Penalty(l', b) == p * |Of(c[h := a], b)|
      ensures Penalty(l', b) < policy.slashThreshold + p
    {
      RecordedPenalty(l, Charge(a, p, h), e, b);
      BlameOneMore(c, h, a, b, p);
    }
  }

  lemma BooksCharge(l: Ledger, c: Blame, pairs: set<(Hash, int)>, h: Hash, a: int, e: Evidence, policy: Policy)
    requires Punishing(policy) && Books(l, c, pairs, policy) && h !in c && Penalty(l, a) < policy.slashThreshold
    ensures Books(Record(l, Charge(a, policy.malformedVertexPenalty, h), e), c[h := a], pairs + {(h, a)}, policy)
  {
    var charge := Charge(a, policy.malformedVertexPenalty, h);
    PaidCharge(l, c, h, a, e, policy);
    forall p | p in pairs + {(h, a)}
      ensures p.0 in c[h := a] || Penalty(Record(l, charge, e), p.1) >= policy.slashThreshold
    {
      RecordedPenalty(l, charge, e, p.1);
    }
  }

  lemma BooksStep(l: Ledger, c: Blame, pairs: set<(Hash, int)>, v: Vertex, policy: Policy, now: int)
    requires Punishing(policy) && Books(l, c, pairs, policy)
    ensures Books(Adjudicate(l, MalformationReport(v, policy), policy, now), Blamed(l, c, v, policy),
                  pairs + {(v.hash, v.author)}, policy)
  {
    var r := MalformationReport(v, policy);
    if ChargeFor(l, r, policy).Some? {
      BooksCharge(l, c, pairs, v.hash, v.author, EvidenceFor(r, policy, now), policy);
    }
  }

  /** Whom the deliveries have been blamed on. */
  ghost function Charged(ds: seq<Vertex>, cfg: Settings, env: nat -> Moment): Blame {
    if ds == [] then map[] else
      var before, v := ds[..|ds| - 1], ds[|ds| - 1];
      var n := Replay(before, cfg, env);
      if v.hash !in n.dag.vertices && Malformed(v, cfg.digest)
      then Blamed(n.ledger, Charged(before, cfg, env), v, cfg.policy) else Charged(before, cfg, env)
  }

  lemma PairsStep(ds: seq<Vertex>, digest: Digest)
    requires ds != []
    ensures var before, v := Elements(ds[..|ds| - 1]), ds[|ds| - 1];
            && Elements(ds) == before + {v}
            && Pairs(Elements(ds), digest) ==
                 Pairs(before, digest) + (if Malformed(v, digest) then {(v.hash, v.author)} else {})
  {
    assert ds == ds[..|ds| - 1] + [ds[|ds| - 1]];
  }

  lemma {:induction false} ReplayBooks(ds: seq<Vertex>, cfg: Settings, env: nat -> Moment)
    requires Punishing(cfg.policy) && Consistent(HashValidOnes(Elements(ds), cfg.digest))
    ensures Books(Replay(ds, cfg, env).ledger, Charged(ds, cfg, env), Pairs(Elements(ds), cfg.digest), cfg.policy)
  {
    if ds == [] {
      NothingBooked(cfg.policy);
    } else {
      var before, v := ds[..|ds| - 1], ds[|ds| - 1];
      PairsStep(ds, cfg.digest);
      assert HashValidOnes(Elements(before), cfg.digest) <= HashValidOnes(Elements(ds), cfg.digest);
      ReplayBooks(before, cfg, env);
      if Malformed(v, cfg.digest) {
        ReplayRunsTheDag(before, cfg, env);
        MalformedNotCommitted(before, v, cfg, Elements(ds));
        BooksStep(Replay(before, cfg, env).ledger, Charged(before, cfg, env), Pairs(Elements(before), cfg.digest), v,
                  cfg.policy, env(|ds| - 1).now);
      }
    }
  }

  lemma NothingBooked(policy: Policy)
    requires Punishing(policy)
    ensures Books(NO_PENALTIES, map[], {}, policy)
    ensures forall digest :: Pairs(Elements([]), digest) == {}
  {
    forall a ensures Of(map[], a) == {} { }
  }

  ghost predicate Extended(c: Blame, d: Blame) {
    forall h | h in c :: h in d && d[h] == c[h]
  }

  lemma BlamedExtends(l: Ledger, c: Blame, v: Vertex, policy: Policy)
    requires l.processedEv == c.Keys
    ensures Extended(c, Blamed(l, c, v, policy))
  {
  }

  lemma ChargedStep(ds: seq<Vertex>, v: Vertex, cfg: Settings, env: nat -> Moment)
    requires Punishing(cfg.policy) && Consistent(HashValidOnes(Elements(ds), cfg.digest))
    ensures Extended(Charged(ds, cfg, env), Charged(ds + [v], cfg, env))
  {
    var l, c := Replay(ds, cfg, env).ledger, Charged(ds, cfg, env);
    assert l.processedEv == c.Keys by { ReplayBooks(ds, cfg, env); }
    BlamedExtends(l, c, v, cfg.policy);
    assert (ds + [v])[..|ds|] == ds;
    assert Charged(ds + [v], cfg, env) == c || Charged(ds + [v], cfg, env) == Blamed(l, c, v, cfg.policy);
  }

  lemma ExtendsTwice(c: Blame, d: Blame, e: Blame)
    requires Extended(c, d) && Extended(d, e)
    ensures Extended(c, e)
  {
  }

  /** Nobody is ever blamed for a hash that somebody was blamed for before. */
  lemma {:induction false} ChargedGrows(first: seq<Vertex>, rest: seq<Vertex>, cfg: Settings, env: nat -> Moment)
    requires Punishing(cfg.policy) && Consistent(HashValidOnes(Elements(first + rest), cfg.digest))
    ensures Extended(Charged(first, cfg, env), Charged(first + rest, cfg, env))
    decreases |rest|
  {
    if rest == [] {
      assert first + rest == first;
    } else {
      var n := |rest| - 1;
      var shorter := first + rest[..n];
      assert first + rest == shorter + [rest[n]];
      FewerAreConsistent(shorter, first + rest, cfg.digest);
      ChargedGrows(first, rest[..n], cfg, env);
      ChargedStep(shorter, rest[n], cfg, env);
      ExtendsTwice(Charged(first, cfg, env), Charged(shorter, cfg, env), Charged(shorter + [rest[n]], cfg, env));
    }
  }

  lemma FewerAreConsistent(ds: seq<Vertex>, es: seq<Vertex>, digest: Digest)
    requires Consistent(HashValidOnes(Elements(es), digest)) && forall v | v in ds :: v in es
    ensures Consistent(HashValidOnes(Elements(ds), digest))
  {
    assert Elements(ds) <= Elements(es);
    assert HashValidOnes(Elements(ds), digest) <= HashValidOnes(Elements(es), digest);
  }

  // The formula

  /** Least number of charges of `p` that reach `t`. */
  function ChargesToSlash(t: int, p: int): int
    requires p > 0
  {
    (t + p - 1) / p
  }

  function SlashCount(policy: Policy): int {
    if policy.malformedVertexPenalty > 0 then ChargesToSlash(policy.slashThreshold, policy.malformedVertexPenalty) else 0
  }

  lemma Positive(p: int, d: int)
    requires p > 0 && d > 0
    ensures p * d > 0
  {
  }

  lemma TimesGrows(p: int, x: int, y: int)
    requires p > 0
    ensures x >= y <==> p * x >= p * y
  {
    assert p * (x - y) == p * x - p * y;
    if x > y {
      Positive(p, x - y);
    } else if x < y {
      Positive(p, y - x);
      assert p * (y - x) == p * y - p * x;
    }
  }

  lemma ReachesThreshold(n: int, t: int, p: int)
    requires p > 0
    ensures p * n >= t <==> n >= ChargesToSlash(t, p)
    ensures p * n < t + p <==> n <= ChargesToSlash(t, p)
    ensures t > 0 ==> ChargesToSlash(t, p) > 0
  {
    var c := ChargesToSlash(t, p);
    assert p * c <= t + p - 1 < p * c + p;
    assert p * (c + 1) == p * c + p && p * (c - 1) == p * c - p;
    TimesGrows(p, n, c);
    TimesGrows(p, n, c + 1);
    TimesGrows(p, c - 1, n);
  }

  /** The books in numbers of hashes: nobody is blamed more often than it takes
      to be slashed, and only those blamed that often are slashed. */
  lemma BlameCounts(l: Ledger, c: Blame, pairs: set<(Hash, int)>, policy: Policy, a: int)
    requires Punishing(policy) && Books(l, c, pairs, policy)
    ensures |Of(c, a)| <= SlashCount(policy) && (Penalty(l, a) >= policy.slashThreshold <==> |Of(c, a)| == SlashCount(policy))
    ensures Of(c, a) <= Offences(pairs, a)
  {
    ReachesThreshold(|Of(c, a)|, policy.slashThreshold, policy.malformedVertexPenalty);
    forall h | h in Of(c, a) ensures h in Offences(pairs, a) {
      assert (h, c[h]) in pairs;
    }
  }

  /** Blaming others, within what it takes to slash them, for offences of `a`
      that also came under their names, so that `a` is slashed no more. */
  ghost predicate Diverts(f: Blame, pairs: set<(Hash, int)>, a: int, limit: int) {
    && f.Keys != {}
    && (forall h | h in f :: (h, a) in pairs && (h, f[h]) in pairs && f[h] != a)
    && (forall b :: |Of(f, b)| <= limit)
    && |Offences(pairs, a)| - |f.Keys| < limit
  }

  ghost predicate Divertible(pairs: set<(Hash, int)>, a: int, limit: int) {
    exists f :: Diverts(f, pairs, a, limit)
  }

  lemma OfIsMonotone(c: Blame, d: Blame, a: int)
    requires Extended(c, d)
    ensures |Of(c, a)| <= |Of(d, a)|
  {
    SubsetIsNotLarger(Of(c, a), Of(d, a));
  }

  /** Without a diversion the number of charges is determined. */
  lemma UndivertedCount(l: Ledger, c: Blame, pairs: set<(Hash, int)>, policy: Policy, a: int)
    requires Punishing(policy) && Books(l, c, pairs, policy) && !Divertible(pairs, a, SlashCount(policy))
    ensures |Of(c, a)| == Smaller(|Offences(pairs, a)|, SlashCount(policy))
  {
    var limit, mine, all := SlashCount(policy), Of(c, a), Offences(pairs, a);
    BlameCounts(l, c, pairs, policy, a);
    SubsetIsNotLarger(mine, all);
    if |mine| < limit {
      var f := map h | h in c && h in all && c[h] != a :: c[h];
      AllBlamed(l, c, pairs, policy, a);
      SplitBlame(c, all, a, f);
      if f.Keys != {} {
        forall b ensures |Of(f, b)| <= limit {
          OfIsMonotone(f, c, b);
          BlameCounts(l, c, pairs, policy, b);
        }
        forall h | h in f ensures (h, a) in pairs && (h, f[h]) in pairs && f[h] != a {
          assert h in all;
        }
        assert Diverts(f, pairs, a, limit);
      }
    }
  }

  lemma SplitBlame(c: Blame, all: set<Hash>, a: int, f: Blame)
    requires Of(c, a) <= all <= c.Keys
    requires f == map h | h in c && h in all && c[h] != a :: c[h]
    ensures |all| == |Of(c, a)| + |f.Keys|
  {
    assert Of(c, a) + f.Keys == all;
    DisjointSize(Of(c, a), f.Keys);
  }

  /** Somebody was blamed for everything that came under an unslashed name. */
  lemma AllBlamed(l: Ledger, c: Blame, pairs: set<(Hash, int)>, policy: Policy, a: int)
    requires Punishing(policy) && Books(l, c, pairs, policy) && |Of(c, a)| < SlashCount(policy)
    ensures Offences(pairs, a) <= c.Keys
  {
    BlameCounts(l, c, pairs, policy, a);
    forall h | h in Offences(pairs, a) ensures h in c.Keys {
      assert (h, a) in pairs;
    }
  }

  lemma DisjointSize<T>(a: set<T>, b: set<T>)
    requires a !! b
    ensures |a + b| == |a| + |b|
  {
  }

  /** The penalty of `a` is a function of how many distinct malformed vertices
      came under its name: one charge each, until the threshold is reached,
      unless the blame for some of them can be diverted. */
  lemma {:induction false} PenaltyFormula(ds: seq<Vertex>, cfg: Settings, env: nat -> Moment, a: int)
    requires Punishing(cfg.policy) && Consistent(HashValidOnes(Elements(ds), cfg.digest))
    requires !Divertible(Pairs(Elements(ds), cfg.digest), a, SlashCount(cfg.policy))
    ensures Penalty(Replay(ds, cfg, env).ledger, a) ==
              cfg.policy.malformedVertexPenalty *
                Smaller(|Offences(Pairs(Elements(ds), cfg.digest), a)|, SlashCount(cfg.policy))
  {
    ReplayBooks(ds, cfg, env);
    UndivertedCount(Replay(ds, cfg, env).ledger, Charged(ds, cfg, env), Pairs(Elements(ds), cfg.digest), cfg.policy, a);
  }

  /** One hash, one author. */
  ghost predicate Attributed(vs: set<Vertex>) {
    forall v, w | v in vs && w in vs && v.hash == w.hash :: v.author == w.author
  }

  /** When a hash names its author no blame can be diverted. */
  lemma AttributedNotDivertible(vs: set<Vertex>, digest: Digest, a: int, limit: int)
    requires Attributed(HashValidOnes(vs, digest))
    ensures !Divertible(Pairs(vs, digest), a, limit)
  {
    forall f ensures !Diverts(f, Pairs(vs, digest), a, limit) {
      if f.Keys != {} {
        var h :| h in f.Keys;
        OneAuthor(vs, digest, h, a, f[h]);
      }
    }
  }

  lemma OneAuthor(vs: set<Vertex>, digest: Digest, h: Hash, a: int, b: int)
    requires Attributed(HashValidOnes(vs, digest))
    ensures (h, a) in Pairs(vs, digest) && (h, b) in Pairs(vs, digest) ==> a == b
  {
    if (h, a) in Pairs(vs, digest) && (h, b) in Pairs(vs, digest) {
      var v :| v in vs && Malformed(v, digest) && (v.hash, v.author) == (h, a);
      var w :| w in vs && Malformed(w, digest) && (w.hash, w.author) == (h, b);
      assert v in HashValidOnes(vs, digest) && w in HashValidOnes(vs, digest);
    }
  }

  /** Two replicas given malformed vertices with the same hashes and authors,
      in any orders and among any others, punish alike. */
  lemma {:induction false} PenaltiesAgree(ds: seq<Vertex>, es: seq<Vertex>, cfg: Settings,
                                          envA: nat -> Moment, envB: nat -> Moment, a: int)
    requires Punishing(cfg.policy)
    requires Consistent(HashValidOnes(Elements(ds), cfg.digest)) && Consistent(HashValidOnes(Elements(es), cfg.digest))
    requires Pairs(Elements(ds), cfg.digest) == Pairs(Elements(es), cfg.digest)
    requires !Divertible(Pairs(Elements(ds), cfg.digest), a, SlashCount(cfg.policy))
    ensures Penalty(Replay(ds, cfg, envA).ledger, a) == Penalty(Replay(es, cfg, envB).ledger, a)
  {
    PenaltyFormula(ds, cfg, envA, a);
    PenaltyFormula(es, cfg, envB, a);
  }

  // When the order matters

  /** The orders of delivering `vs`, with any repetitions, all punish `a` alike. */
  ghost predicate EveryOrderPunishesAlike(vs: set<Vertex>, cfg: Settings, a: int) {
    forall ds, es, envA, envB {:trigger Replay(ds, cfg, envA), Replay(es, cfg, envB)} |
      Elements(ds) == vs && Elements(es) == vs ::
        Penalty(Replay(ds, cfg, envA).ledger, a) == Penalty(Replay(es, cfg, envB).ledger, a)
  }

  lemma BlamedFirst(vs: set<Vertex>, some: set<Vertex>, cfg: Settings, env: nat -> Moment)
    returns (first: seq<Vertex>, ds: seq<Vertex>)
    requires Punishing(cfg.policy) && Consistent(HashValidOnes(vs, cfg.digest)) && some <= vs
    ensures Elements(first) == some && Elements(ds) == vs
    ensures Books(Replay(first, cfg, env).ledger, Charged(first, cfg, env), Pairs(some, cfg.digest), cfg.policy)
    ensures Books(Replay(ds, cfg, env).ledger, Charged(ds, cfg, env), Pairs(vs, cfg.digest), cfg.policy)
    ensures Extended(Charged(first, cfg, env), Charged(ds, cfg, env))
  {
    first := ListOf(some);
    var rest := ListOf(vs - some);
    ds := first + rest;
    ElementsConcat(first, rest);
    assert some + (vs - some) == vs;
    assert HashValidOnes(some, cfg.digest) <= HashValidOnes(vs, cfg.digest);
    ReplayBooks(first, cfg, env);
    ReplayBooks(ds, cfg, env);
    ChargedGrows(first, rest, cfg, env);
  }

  /** Deliver first what came under the name of `a`: then `a` is blamed for all
      of it, or slashed. */
  lemma OwnFirst(vs: set<Vertex>, cfg: Settings, env: nat -> Moment, a: int) returns (ds: seq<Vertex>)
    requires Punishing(cfg.policy) && Consistent(HashValidOnes(vs, cfg.digest))
    ensures Elements(ds) == vs
    ensures |Of(Charged(ds, cfg, env), a)| == Smaller(|Offences(Pairs(vs, cfg.digest), a)|, SlashCount(cfg.policy))
    ensures Penalty(Replay(ds, cfg, env).ledger, a) == cfg.policy.malformedVertexPenalty * |Of(Charged(ds, cfg, env), a)|
  {
    var own := set v | v in vs && v.author == a;
    var first;
    first, ds := BlamedFirst(vs, own, cfg, env);
    var before, after := Charged(first, cfg, env), Charged(ds, cfg, env);
    OwnPairs(vs, own, cfg.digest, a);
    OneNameOnly(Pairs(own, cfg.digest), a, SlashCount(cfg.policy));
    UndivertedCount(Replay(first, cfg, env).ledger, before, Pairs(own, cfg.digest), cfg.policy, a);
    OfIsMonotone(before, after, a);
    BlameCounts(Replay(ds, cfg, env).ledger, after, Pairs(vs, cfg.digest), cfg.policy, a);
    SubsetIsNotLarger(Of(after, a), Offences(Pairs(vs, cfg.digest), a));
  }

  lemma OwnPairs(vs: set<Vertex>, own: set<Vertex>, digest: Digest, a: int)
    requires own == set v | v in vs && v.author == a
    ensures Offences(Pairs(own, digest), a) == Offences(Pairs(vs, digest), a)
    ensures forall p | p in Pairs(own, digest) :: p.1 == a
  {
    forall h | h in Offences(Pairs(vs, digest), a) ensures h in Offences(Pairs(own, digest), a) {
      assert (h, a) in Pairs(vs, digest);
      var v :| v in vs && Malformed(v, digest) && (v.hash, v.author) == (h, a);
      assert v in own;
      assert (h, a) in Pairs(own, digest);
    }
    forall h | h in Offences(Pairs(own, digest), a) ensures h in Offences(Pairs(vs, digest), a) {
      assert (h, a) in Pairs(own, digest);
      assert (h, a) in Pairs(vs, digest);
    }
  }

  lemma OneNameOnly(pairs: set<(Hash, int)>, a: int, limit: int)
    requires forall p | p in pairs :: p.1 == a
    ensures !Divertible(pairs, a, limit)
  {
    forall f ensures !Diverts(f, pairs, a, limit) {
      if f.Keys != {} {
        var h :| h in f.Keys;
        assert (h, f[h]) in pairs ==> (h, f[h]).1 == a;
      }
    }
  }

  lemma SizeBetween<T>(mine: set<T>, others: set<T>, all: set<T>)
    requires mine <= all - others && others <= all
    ensures |mine| <= |all| - |others|
  {
    SubsetIsNotLarger(mine, all - others);
    DisjointSize(all - others, others);
    assert (all - others) + others == all;
  }

  /** What is blamed on others is not blamed on `a`. */
  lemma RestOfOffences(c: Blame, f: Blame, all: set<Hash>, a: int)
    requires Extended(f, c) && (forall h | h in f :: f[h] != a) && f.Keys <= all && Of(c, a) <= all
    ensures |Of(c, a)| <= |all| - |f.Keys|
  {
    assert forall h | h in Of(c, a) :: h !in f.Keys;
    SizeBetween(Of(c, a), f.Keys, all);
  }

  /** Deliver first what `f` blames on others: then they are blamed for it. */
  lemma DivertedFirst(vs: set<Vertex>, cfg: Settings, env: nat -> Moment, a: int, f: Blame) returns (ds: seq<Vertex>)
    requires Punishing(cfg.policy) && Consistent(HashValidOnes(vs, cfg.digest))
    requires Diverts(f, Pairs(vs, cfg.digest), a, SlashCount(cfg.policy))
    ensures Elements(ds) == vs
    ensures |Of(Charged(ds, cfg, env), a)| <= |Offences(Pairs(vs, cfg.digest), a)| - |f.Keys|
    ensures Penalty(Replay(ds, cfg, env).ledger, a) == cfg.policy.malformedVertexPenalty * |Of(Charged(ds, cfg, env), a)|
  {
    var others := set v | v in vs && Malformed(v, cfg.digest) && v.hash in f && v.author == f[v.hash];
    var first;
    first, ds := BlamedFirst(vs, others, cfg, env);
    NamesInF(vs, others, cfg.digest, a, SlashCount(cfg.policy), f);
    OthersBlamed(Replay(first, cfg, env).ledger, Charged(first, cfg, env), Pairs(others, cfg.digest), cfg.policy, f);
    assert Extended(f, Charged(ds, cfg, env));
    BlameCounts(Replay(ds, cfg, env).ledger, Charged(ds, cfg, env), Pairs(vs, cfg.digest), cfg.policy, a);
    KeysAreOffences(f, Pairs(vs, cfg.digest), a);
    RestOfOffences(Charged(ds, cfg, env), f, Offences(Pairs(vs, cfg.digest), a), a);
  }

  lemma KeysAreOffences(f: Blame, pairs: set<(Hash, int)>, a: int)
    requires forall h | h in f :: (h, a) in pairs
    ensures f.Keys <= Offences(pairs, a)
  {
    forall h | h in f.Keys ensures h in Offences(pairs, a) {
      assert (h, a) in pairs && (h, a).1 == a;
    }
  }

  /** The pairs of `f`, as a set. */
  ghost predicate Graph(pairs: set<(Hash, int)>, f: Blame) {
    && (forall p | p in pairs :: p.0 in f && p.1 == f[p.0])
    && (forall h | h in f :: (h, f[h]) in pairs)
  }

  lemma NamesInF(vs: set<Vertex>, others: set<Vertex>, digest: Digest, a: int, limit: int, f: Blame)
    requires Diverts(f, Pairs(vs, digest), a, limit)
    requires others == set v | v in vs && Malformed(v, digest) && v.hash in f && v.author == f[v.hash]
    ensures Graph(Pairs(others, digest), f) && forall b :: |Of(f, b)| <= limit
  {
    forall h | h in f ensures (h, f[h]) in Pairs(others, digest) {
      assert (h, f[h]) in Pairs(vs, digest);
      var v :| v in vs && Malformed(v, digest) && (v.hash, v.author) == (h, f[h]);
      assert v in others;
    }
  }

  lemma GraphOffences(pairs: set<(Hash, int)>, f: Blame, b: int)
    requires Graph(pairs, f)
    ensures Offences(pairs, b) == Of(f, b)
  {
    forall h | h in Of(f, b) ensures h in Offences(pairs, b) {
      assert (h, f[h]) in pairs && (h, f[h]).1 == b;
    }
  }

  lemma GraphNotDivertible(pairs: set<(Hash, int)>, f: Blame, b: int, limit: int)
    requires Graph(pairs, f)
    ensures !Divertible(pairs, b, limit)
  {
    forall e ensures !Diverts(e, pairs, b, limit) {
      if e.Keys != {} {
        var g :| g in e.Keys;
        assert (g, b) in pairs ==> (g, b).1 == f[g];
        assert (g, e[g]) in pairs ==> (g, e[g]).1 == f[g];
      }
    }
  }

  lemma OthersBlamed(l: Ledger, c: Blame, pairs: set<(Hash, int)>, policy: Policy, f: Blame)
    requires Punishing(policy) && Books(l, c, pairs, policy)
    requires Graph(pairs, f) && forall b :: |Of(f, b)| <= SlashCount(policy)
    ensures Extended(f, c)
  {
    forall h | h in f ensures h in c && c[h] == f[h] {
      var b := f[h];
      GraphOffences(pairs, f, b);
      GraphNotDivertible(pairs, f, b, SlashCount(policy));
      UndivertedCount(l, c, pairs, policy, b);
      BlameCounts(l, c, pairs, policy, b);
      SameSizeSubset(Of(c, b), Of(f, b));
      assert h in Of(f, b);
    }
  }

  lemma SameSizeSubset<T>(a: set<T>, b: set<T>)
    requires a <= b && |a| == |b|
    ensures a == b
  {
    if a != b {
      ProperSubsetIsSmaller(a, b);
    }
  }

  function AnyTime(k: nat): Moment {
    Moment(0, 0)
  }

  lemma FewerCharges(p: int, own: int, other: int, all: int, diverted: int, limit: int)
    requires p > 0 && own == Smaller(all, limit) && other <= all - diverted
    requires diverted > 0 && all - diverted < limit
    ensures p * other < p * own
  {
    TimesGrows(p, other, own);
  }

  /** A diversion gives two orders with different outcomes. */
  lemma OrdersDiffer(vs: set<Vertex>, cfg: Settings, a: int) returns (ds: seq<Vertex>, es: seq<Vertex>)
    requires Punishing(cfg.policy) && Consistent(HashValidOnes(vs, cfg.digest))
    requires Divertible(Pairs(vs, cfg.digest), a, SlashCount(cfg.policy))
    ensures Elements(ds) == vs && Elements(es) == vs
    ensures Penalty(Replay(es, cfg, AnyTime).ledger, a) < Penalty(Replay(ds, cfg, AnyTime).ledger, a)
  {
    var limit, pairs := SlashCount(cfg.policy), Pairs(vs, cfg.digest);
    var f :| Diverts(f, pairs, a, limit);
    ds := OwnFirst(vs, cfg, AnyTime, a);
    es := DivertedFirst(vs, cfg, AnyTime, a, f);
    NonemptySize(f.Keys);
    FewerCharges(cfg.policy.malformedVertexPenalty, |Of(Charged(ds, cfg, AnyTime), a)|, |Of(Charged(es, cfg, AnyTime), a)|,
                 |Offences(pairs, a)|, |f.Keys|, limit);
  }

  lemma TwoOrders(vs: set<Vertex>, cfg: Settings, a: int, ds: seq<Vertex>, es: seq<Vertex>, env: nat -> Moment)
    requires Elements(ds) == vs && Elements(es) == vs
    requires Penalty(Replay(ds, cfg, env).ledger, a) != Penalty(Replay(es, cfg, env).ledger, a)
    ensures !EveryOrderPunishesAlike(vs, cfg, a)
  {
  }

  lemma UndivertedOrders(vs: set<Vertex>, cfg: Settings, a: int)
    requires Punishing(cfg.policy) && Consistent(HashValidOnes(vs, cfg.digest))
    requires !Divertible(Pairs(vs, cfg.digest), a, SlashCount(cfg.policy))
    ensures EveryOrderPunishesAlike(vs, cfg, a)
  {
    forall ds: seq<Vertex>, es: seq<Vertex>, envA, envB | Elements(ds) == vs && Elements(es) == vs
      ensures Penalty(Replay(ds, cfg, envA).ledger, a) == Penalty(Replay(es, cfg, envB).ledger, a)
    {
      PenaltiesAgree(ds, es, cfg, envA, envB, a);
    }
  }

  /** Exactly when the order does not matter: the penalty of `a` is the same in
      every order of delivering `vs` if and only if no blame can be diverted
      from `a` far enough. */
  lemma {:induction false} OrderIrrelevantIff(vs: set<Vertex>, cfg: Settings, a: int)
    requires Punishing(cfg.policy) && Consistent(HashValidOnes(vs, cfg.digest))
    ensures EveryOrderPunishesAlike(vs, cfg, a) <==> !Divertible(Pairs(vs, cfg.digest), a, SlashCount(cfg.policy))
  {
    if Divertible(Pairs(vs, cfg.digest), a, SlashCount(cfg.policy)) {
      var ds, es := OrdersDiffer(vs, cfg, a);
      TwoOrders(vs, cfg, a, ds, es, AnyTime);
    } else {
      UndivertedOrders(vs, cfg, a);
    }
  }

  /** Two malformed copies of one hash: the order in which they come matters to
      somebody if and only if they name different authors. */
  lemma {:induction false} PairOrderIff(v: Vertex, w: Vertex, cfg: Settings, env: nat -> Moment)
    requires Punishing(cfg.policy) && Malformed(v, cfg.digest) && Malformed(w, cfg.digest) && v.hash == w.hash
    ensures Penalty(Replay([v, w], cfg, env).ledger, v.author) == cfg.policy.malformedVertexPenalty
    ensures Penalty(Replay([w, v], cfg, env).ledger, v.author) ==
              if w.author == v.author then cfg.policy.malformedVertexPenalty else 0
    ensures (forall a :: Penalty(Replay([v, w], cfg, env).ledger, a) == Penalty(Replay([w, v], cfg, env).ledger, a))
              <==> v.author == w.author
  {
    FirstIsCharged(v, w, cfg, env);
    FirstIsCharged(w, v, cfg, env);
  }

  lemma FirstIsCharged(v: Vertex, w: Vertex, cfg: Settings, env: nat -> Moment)
    requires Punishing(cfg.policy) && Malformed(v, cfg.digest) && Malformed(w, cfg.digest) && v.hash == w.hash
    ensures forall a :: Penalty(Replay([v, w], cfg, env).ledger, a) ==
                          if a == v.author then cfg.policy.malformedVertexPenalty else 0
  {
    var none, one := Replay([], cfg, env), Replay([v], cfg, env);
    assert [v][..0] == [] && [v, w][..1] == [v];
    assert none == NEW_NODE && one.dag == EMPTY;
    assert v.hash in one.ledger.processedEv;
    assert Replay([v, w], cfg, env).ledger == one.ledger;
  }

  // The evidence left behind

  /** Every entry that vertex delivery leaves in the ledger is evidence any peer accepts. */
  lemma {:induction false} DeliveredEvidenceIsValid(ds: seq<Vertex>, cfg: Settings, env: nat -> Moment)
    ensures AllValid(Replay(ds, cfg, env).ledger)
  {
    if ds != [] {
      var n := |ds| - 1;
      DeliveredEvidenceIsValid(ds[..n], cfg, env);
      PenalisedStaysValid(Replay(ds[..n], cfg, env).ledger, ds[n], cfg.digest, cfg.policy, env(n).now);
    }
  }

  lemma PenalisedStaysValid(l: Ledger, v: Vertex, digest: Digest, policy: Policy, now: int)
    requires AllValid(l)
    ensures AllValid(Penalised(l, v, digest, policy, now))
  {
    var r := MalformationReport(v, policy);
    if HashValid(v, digest) && !Canonical(v) && ChargeFor(l, r, policy).Some? {
      RecordedValidity(l, ChargeFor(l, r, policy).value, EvidenceFor(r, policy, now));
    }
  }
}
