/** Quorum sizes and what they force. Ratios are exact reals. */
module Quorums {
  import opened Integers
  import opened Sorting
  import opened Hashes
  import opened Vertices
  import opened Convergence

  const QC_GLOBAL := 0

  datatype QuorumPolicy = QuorumPolicy(
    oldTotalN: int,
    newTotalN: int,
    oldCommitteeN: int,
    newCommitteeN: int,
    isTransitioning: bool,
    globalRatio: real,
    committeeRatio: real)
  {
    /** The ratio and the two membership sizes that govern a certificate type. */
    function Scope(qcType: int): (real, int, int) {
      if qcType == QC_GLOBAL then (globalRatio, oldTotalN, newTotalN)
      else (committeeRatio, oldCommitteeN, newCommitteeN)
    }

    function QuorumSize(qcType: int): int {
      var (ratio, oldN, newN) := Scope(qcType);
      if !isTransitioning then Threshold(newN, ratio)
      else
        var oldQ, newQ := Threshold(oldN, ratio), Threshold(newN, ratio);
        if oldQ > newQ then oldQ else newQ
    }

    predicate IsQuorum(qc: QC) {
      |qc.signatures| >= QuorumSize(qc.qcType)
    }
  }

  function Threshold(n: int, ratio: real): int {
    (n as real * ratio).Floor + 1
  }

  /** The threshold is the least integer above `n * ratio`. */
  lemma ThresholdIsLeastAbove(n: int, ratio: real, k: int)
    ensures k >= Threshold(n, ratio) <==> k as real > n as real * ratio
  {
  }

  /** The default network and committee of four: three signers at 0.67, all four at 0.75. */
  lemma DefaultSizes()
    ensures Threshold(4, 0.67) == 3 && Threshold(4, 0.75) == 4
  {
    assert 4.0 * 0.67 == 2.68 && 4.0 * 0.75 == 3.0;
  }

  lemma ScaledGrows(m: real, n: real, ratio: real)
    requires m <= n && 0.0 <= ratio
    ensures m * ratio <= n * ratio
  {
    assert n * ratio - m * ratio == (n - m) * ratio;
    assert (n - m) * ratio >= 0.0;
  }

  lemma ThresholdGrows(m: int, n: int, ratio: real)
    requires m <= n && 0.0 <= ratio
    ensures Threshold(m, ratio) <= Threshold(n, ratio)
  {
    ScaledGrows(m as real, n as real, ratio);
  }

  lemma ScaledBetween(n: real, ratio: real)
    requires n > 0.0 && 2.0 / 3.0 <= ratio < 1.0
    ensures 2.0 * n <= 3.0 * (n * ratio) < 3.0 * n
  {
    assert n * (1.0 - ratio) > 0.0;
    assert n * (1.0 - ratio) == n - n * ratio;
    assert n * (ratio - 2.0 / 3.0) >= 0.0;
    assert n * (ratio - 2.0 / 3.0) == n * ratio - n * (2.0 / 3.0);
  }

  lemma ThresholdBounds(n: int, ratio: real)
    requires n >= 1 && 2.0 / 3.0 <= ratio < 1.0
    ensures 1 <= Threshold(n, ratio) <= n && 3 * Threshold(n, ratio) > 2 * n
  {
    ScaledBetween(n as real, ratio);
  }

  lemma Overlap<T>(a: set<T>, b: set<T>, u: set<T>)
    requires a <= u && b <= u
    ensures |a * b| >= |a| + |b| - |u|
  {
    assert |a + b| == |a| + |b| - |a * b|;
    SubsetIsNotLarger(a + b, u);
  }

  /** Any two quorums of one membership share more than a third of it, hence an
      honest member when fewer than a third are faulty. */
  lemma QuorumsIntersect<T>(members: set<T>, a: set<T>, b: set<T>, ratio: real, f: nat)
    requires members != {} && 2.0 / 3.0 <= ratio < 1.0
    requires a <= members && b <= members
    requires |a| >= Threshold(|members|, ratio) && |b| >= Threshold(|members|, ratio)
    ensures 3 * |a * b| > |members|
    ensures |members| >= 3 * f + 1 ==> |a * b| > f
  {
    assert |members| >= 1;
    ThresholdBounds(|members|, ratio);
    Overlap(a, b, members);
  }

  /** During a transition the size is the one for the larger membership. */
  lemma TransitionSize(p: QuorumPolicy, qcType: int)
    requires p.isTransitioning && p.globalRatio >= 0.0 && p.committeeRatio >= 0.0
    ensures qcType == QC_GLOBAL ==>
              p.QuorumSize(qcType) == Threshold(Larger(p.oldTotalN, p.newTotalN), p.globalRatio)
    ensures qcType != QC_GLOBAL ==>
              p.QuorumSize(qcType) == Threshold(Larger(p.oldCommitteeN, p.newCommitteeN), p.committeeRatio)
  {
    var (ratio, oldN, newN) := p.Scope(qcType);
    ThresholdGrows(oldN + newN - Larger(oldN, newN), Larger(oldN, newN), ratio);
  }

  /** The membership size a policy makes its decision for. */
  function Governing(p: QuorumPolicy, qcType: int): int {
    if qcType == QC_GLOBAL
    then (if p.isTransitioning then Larger(p.oldTotalN, p.newTotalN) else p.newTotalN)
    else (if p.isTransitioning then Larger(p.oldCommitteeN, p.newCommitteeN) else p.newCommitteeN)
  }

  /** Both ratios ask for two thirds, and not for everybody. */
  predicate Proper(p: QuorumPolicy) {
    2.0 / 3.0 <= p.globalRatio < 1.0 && 2.0 / 3.0 <= p.committeeRatio < 1.0
  }

  lemma SizeIsThreshold(p: QuorumPolicy, qcType: int)
    requires p.globalRatio >= 0.0 && p.committeeRatio >= 0.0
    ensures p.QuorumSize(qcType) ==
              Threshold(Governing(p, qcType), if qcType == QC_GLOBAL then p.globalRatio else p.committeeRatio)
  {
    if p.isTransitioning {
      TransitionSize(p, qcType);
    }
  }

  /** A certificate of type `qcType` that the policy accepts and whose signers
      are members. Nothing else is looked at: in a transition its signers may
      come from both views. */
  ghost predicate Accepted(p: QuorumPolicy, qc: QC, qcType: int, members: set<int>) {
    qc.qcType == qcType && p.IsQuorum(qc) && qc.signatures.Keys <= members
  }

  /** The signers of any two accepted certificates of one type share more than
      a third of the membership, with or without a transition, as long as the
      membership is not larger than the size the policy decides for. */
  lemma {:induction false} CertificatesIntersect(p: QuorumPolicy, qc1: QC, qc2: QC, qcType: int, members: set<int>)
    requires Proper(p) && 1 <= |members| <= Governing(p, qcType)
    requires Accepted(p, qc1, qcType, members) && Accepted(p, qc2, qcType, members)
    ensures 3 * |qc1.signatures.Keys * qc2.signatures.Keys| > |members|
  {
    SizeIsThreshold(p, qcType);
    ThresholdBounds(Governing(p, qcType), if qcType == QC_GLOBAL then p.globalRatio else p.committeeRatio);
    MapSize(qc1.signatures);
    MapSize(qc2.signatures);
    Overlap(qc1.signatures.Keys, qc2.signatures.Keys, members);
  }

  lemma MapSize<K, V>(m: map<K, V>)
    ensures |m| == |m.Keys|
  {
  }

  /** Any two accepted certificates of type `qcType` have a common signer. */
  ghost predicate CertificatesMeet(p: QuorumPolicy, qcType: int, members: set<int>) {
    forall a, b {:trigger Accepted(p, a, qcType, members), Accepted(p, b, qcType, members)} |
      Accepted(p, a, qcType, members) && Accepted(p, b, qcType, members) ::
        a.signatures.Keys * b.signatures.Keys != {}
  }

  lemma {:induction false} SubsetOfSize<T>(s: set<T>, k: nat) returns (t: set<T>)
    requires k <= |s|
    ensures t <= s && |t| == k
    decreases |s|
  {
    if k == |s| {
      t := s;
    } else {
      var x :| x in s;
      assert |s - {x}| == |s| - 1;
      t := SubsetOfSize(s - {x}, k);
    }
  }

  function SignedBy(qcType: int, signers: set<int>): QC {
    QC(qcType, NO_HASH, 0, 0, map i | i in signers :: [])
  }

  lemma SignedByAccepted(p: QuorumPolicy, qcType: int, signers: set<int>, members: set<int>)
    requires |signers| >= p.QuorumSize(qcType) && signers <= members
    ensures Accepted(p, SignedBy(qcType, signers), qcType, members)
    ensures SignedBy(qcType, signers).signatures.Keys == signers
  {
    MapSize(SignedBy(qcType, signers).signatures);
    assert SignedBy(qcType, signers).signatures.Keys == signers;
  }

  lemma SizeWithout<T>(s: set<T>, t: set<T>)
    requires t <= s
    ensures |s - t| == |s| - |t|
  {
    assert s == (s - t) + t;
  }

  /** Two quorums that fit side by side give certificates without a common signer. */
  lemma DisjointCertificates(p: QuorumPolicy, qcType: int, members: set<int>)
    requires 2 * p.QuorumSize(qcType) <= |members|
    ensures !CertificatesMeet(p, qcType, members)
  {
    var q := Larger(p.QuorumSize(qcType), 0);
    var a := SubsetOfSize(members, q);
    SizeWithout(members, a);
    var b := SubsetOfSize(members - a, q);
    SignedByAccepted(p, qcType, a, members);
    SignedByAccepted(p, qcType, b, members);
    assert a * b == {};
  }

  /** Accepted certificates always meet exactly when two quorums do not fit side
      by side into the membership they may be drawn from. */
  lemma {:induction false} CertificatesMeetIff(p: QuorumPolicy, qcType: int, members: set<int>)
    ensures CertificatesMeet(p, qcType, members) <==> 2 * p.QuorumSize(qcType) > |members|
  {
    if 2 * p.QuorumSize(qcType) <= |members| {
      DisjointCertificates(p, qcType, members);
    } else {
      forall a, b | Accepted(p, a, qcType, members) && Accepted(p, b, qcType, members)
        ensures a.signatures.Keys * b.signatures.Keys != {}
      {
        MapSize(a.signatures);
        MapSize(b.signatures);
        Overlap(a.signatures.Keys, b.signatures.Keys, members);
      }
    }
  }

  /** The two views have the sizes that the policy was told. */
  ghost predicate SizesOf(p: QuorumPolicy, qcType: int, oldView: set<int>, newView: set<int>) {
    if qcType == QC_GLOBAL then p.oldTotalN == |oldView| && p.newTotalN == |newView|
    else p.oldCommitteeN == |oldView| && p.newCommitteeN == |newView|
  }

  /** What a transition guarantees, in the sizes and the ratio of the policy. */
  lemma {:induction false} TransitionSafeIff(p: QuorumPolicy, qcType: int, oldView: set<int>, newView: set<int>)
    requires p.isTransitioning && p.globalRatio >= 0.0 && p.committeeRatio >= 0.0
    requires SizesOf(p, qcType, oldView, newView)
    ensures CertificatesMeet(p, qcType, oldView + newView) <==>
              2 * Threshold(Larger(|oldView|, |newView|), if qcType == QC_GLOBAL then p.globalRatio else p.committeeRatio)
                > |oldView + newView|
  {
    SizeIsThreshold(p, qcType);
    CertificatesMeetIff(p, qcType, oldView + newView);
  }

  function Range(lo: int, hi: int): set<int>
    requires lo <= hi
    decreases hi - lo
  {
    if lo == hi then {} else Range(lo, hi - 1) + {hi - 1}
  }

  lemma {:induction false} RangeSize(lo: int, hi: int)
    requires lo <= hi
    ensures |Range(lo, hi)| == hi - lo
    ensures forall i :: i in Range(lo, hi) <==> lo <= i < hi
    decreases hi - lo
  {
    if lo < hi {
      RangeSize(lo, hi - 1);
    }
  }

  lemma {:induction false} RangesJoin(lo: int, mid: int, hi: int)
    requires lo <= mid <= hi
    ensures Range(lo, mid) + Range(mid, hi) == Range(lo, hi)
    decreases hi - mid
  {
    if mid < hi {
      RangesJoin(lo, mid, hi - 1);
      UnionAssociates(Range(lo, mid), Range(mid, hi - 1), {hi - 1});
    }
  }

  /** In a transition between disjoint views, two quorums for the larger one
      usually fit into the union of both. */
  lemma DisjointViewsUnsafe(p: QuorumPolicy, qcType: int, m: nat, n: nat)
    requires 2 * p.QuorumSize(qcType) <= m + n
    ensures !CertificatesMeet(p, qcType, Range(0, m) + Range(m, m + n))
    ensures |Range(0, m)| == m && |Range(m, m + n)| == n
  {
    RangesJoin(0, m, m + n);
    RangeSize(0, m);
    RangeSize(m, m + n);
    RangeSize(0, m + n);
    CertificatesMeetIff(p, qcType, Range(0, m + n));
  }

  // The sizes of a failing transition.
  const LEAVING: nat := 10
  const JOINING: nat := 6

  /** A transition that fails: ten members leave and six others join. The size
      is seven, and seven signers can be found twice among the sixteen, the
      second time with members of both views. */
  lemma {:induction false} TransitionUnsafe()
    ensures var p := QuorumPolicy(LEAVING, JOINING, LEAVING, JOINING, true, 0.67, 0.67);
            var oldView, newView := Range(0, LEAVING), Range(LEAVING, LEAVING + JOINING);
            && SizesOf(p, QC_GLOBAL, oldView, newView)
            && p.QuorumSize(QC_GLOBAL) == 7
            && !CertificatesMeet(p, QC_GLOBAL, oldView + newView)
  {
    var p := QuorumPolicy(LEAVING, JOINING, LEAVING, JOINING, true, 0.67, 0.67);
    assert 10.0 * 0.67 == 6.7 && 6.0 * 0.67 == 4.02;
    assert p.QuorumSize(QC_GLOBAL) == 7;
    DisjointViewsUnsafe(p, QC_GLOBAL, LEAVING, JOINING);
  }

  /** Nested views are safe: growing or shrinking a membership keeps intersection. */
  lemma {:induction false} NestedViewsSafe(p: QuorumPolicy, qcType: int, oldView: set<int>, newView: set<int>)
    requires p.isTransitioning && Proper(p) && SizesOf(p, qcType, oldView, newView)
    requires oldView + newView != {} && (oldView <= newView || newView <= oldView)
    ensures CertificatesMeet(p, qcType, oldView + newView)
  {
    var larger := Larger(|oldView|, |newView|);
    SubsetIsNotLarger(oldView, oldView + newView);
    SubsetIsNotLarger(newView, oldView + newView);
    assert oldView + newView == if oldView <= newView then newView else oldView;
    assert |oldView + newView| == larger >= 1;
    ThresholdBounds(larger, if qcType == QC_GLOBAL then p.globalRatio else p.committeeRatio);
    TransitionSafeIff(p, qcType, oldView, newView);
  }

  /** With the default ratio 0.67 a network of 3f + 1 asks for the textbook
      2f + 1 only up to f = 32, and for more beyond. */
  lemma TextbookSize(f: nat)
    ensures Threshold(3 * f + 1, 0.67) == 2 * f + 1 <==> f <= 32
    ensures Threshold(3 * f + 1, 0.67) >= 2 * f + 1
  {
    var x := (3 * f + 1) as real * 0.67;
    assert x == 2.0 * f as real + (0.01 * f as real + 0.67);
  }
}
