/** What the hashed byte stream determines. The decoder is a ghost: the source
    never parses the stream, it only hashes it. */
module Codec {
  import opened Sorting
  import opened Hashes
  import opened Vertices
  import opened Encoding

  type Parsed<T> = Option<(T, Bytes)>

  // Integers

  /** `x` fits in `n` bytes of two's complement. */
  ghost predicate Fits(n: nat, x: int)
    requires n > 0
  {
    if n == 1 then -128 <= x < 128 else Fits(n - 1, x / 256)
  }

  function Signed(bs: Bytes): int
    requires bs != []
  {
    var n := |bs| - 1;
    if n > 0 then Signed(bs[..n]) * 256 + bs[n] as int
    else if bs[0] < 128 then bs[0] as int else bs[0] as int - 256
  }

  /** What a conversion to `n` bytes keeps of `x`. */
  function Reduce(n: nat, x: int): int
    requires n > 0
  {
    Signed(BigEndian(n, x))
  }

  lemma {:induction false} SignedInverse(n: nat, x: int)
    requires n > 0 && Fits(n, x)
    ensures Reduce(n, x) == x
  {
    if n > 1 {
      SignedInverse(n - 1, x / 256);
      assert BigEndian(n, x)[..n - 1] == BigEndian(n - 1, x / 256);
    } else {
      assert BigEndian(1, x) == BigEndian(0, x / 256) + [(x % 256) as byte];
    }
  }

  lemma {:induction false} SignedFits(bs: Bytes)
    requires bs != []
    ensures Fits(|bs|, Signed(bs))
  {
    if |bs| > 1 {
      SignedFits(bs[..|bs| - 1]);
      assert Signed(bs) / 256 == Signed(bs[..|bs| - 1]);
    }
  }

  lemma LastByte(n: nat, x: int)
    requires n > 0
    ensures BigEndian(n, x) == BigEndian(n - 1, x / 256) + [(x % 256) as byte]
  {
  }

  lemma ReduceStep(n: nat, x: int)
    requires n > 1
    ensures Reduce(n, x) == Reduce(n - 1, x / 256) * 256 + x % 256
  {
    LastByte(n, x);
    assert BigEndian(n, x)[..n - 1] == BigEndian(n - 1, x / 256);
  }

  lemma ReduceOne(x: int)
    ensures Reduce(1, x) % 256 == x % 256
  {
    LastByte(1, x);
  }

  lemma QuotientAndRest(s: int, b: int)
    requires 0 <= b < 256
    ensures (s * 256 + b) / 256 == s && (s * 256 + b) % 256 == b
  {
  }

  /** The bytes depend on the reduced value only. */
  lemma {:induction false} BytesOfReduced(n: nat, x: int)
    requires n > 0
    ensures BigEndian(n, Reduce(n, x)) == BigEndian(n, x)
  {
    var y := Reduce(n, x);
    LastByte(n, x);
    LastByte(n, y);
    if n > 1 {
      ReduceStep(n, x);
      QuotientAndRest(Reduce(n - 1, x / 256), x % 256);
      BytesOfReduced(n - 1, x / 256);
    } else {
      ReduceOne(x);
    }
  }

  lemma ShiftedQuotient(x: int, k: int, p: int)
    ensures (x + k * (256 * p)) / 256 == x / 256 + k * p && (x + k * (256 * p)) % 256 == x % 256
  {
    assert k * (256 * p) == 256 * (k * p);
  }

  /** Multiples of 256^n leave no trace. */
  lemma {:induction false} BytesArePeriodic(n: nat, x: int, k: int)
    ensures BigEndian(n, x + k * Pow256(n)) == BigEndian(n, x)
  {
    if n > 0 {
      ShiftedQuotient(x, k, Pow256(n - 1));
      BytesArePeriodic(n - 1, x / 256, k);
    }
  }

  /** The widths the source writes are the usual signed ranges. */
  lemma FitsIsRange(x: int)
    ensures Fits(1, x) <==> -0x80 <= x < 0x80
    ensures Fits(4, x) <==> -0x8000_0000 <= x < 0x8000_0000
    ensures Fits(8, x) <==> -0x8000_0000_0000_0000 <= x < 0x8000_0000_0000_0000
  {
    FitsStep(2, x);
    FitsStep(3, x);
    FitsStep(4, x);
    var y := x / 256 / 256 / 256 / 256;
    FitsStep(8, x);
    FitsStep(7, x / 256);
    FitsStep(6, x / 256 / 256);
    FitsStep(5, x / 256 / 256 / 256);
    FitsStep(4, y);
    FitsStep(3, y / 256);
    FitsStep(2, y / 256 / 256);
    FitsStep(3, x / 256);
    FitsStep(2, x / 256 / 256);
  }

  lemma FitsStep(n: nat, x: int)
    requires n > 1
    ensures Fits(n, x) <==> Fits(n - 1, x / 256)
  {
  }

  function DecodeInt(n: nat, bs: Bytes): Parsed<int>
    requires n > 0
  {
    if |bs| < n then None else Some((Signed(bs[..n]), bs[n..]))
  }

  lemma IntRoundTrip(n: nat, x: int, rest: Bytes)
    requires n > 0
    ensures DecodeInt(n, BigEndian(n, x) + rest) == Some((Reduce(n, x), rest))
  {
    var bs := BigEndian(n, x) + rest;
    assert bs[..n] == BigEndian(n, x) && bs[n..] == rest;
  }

  lemma IntYields(n: nat, bs: Bytes)
    requires n > 0 && DecodeInt(n, bs).Some?
    ensures Fits(n, DecodeInt(n, bs).value.0)
  {
    SignedFits(bs[..n]);
  }

  // Length-prefixed strings

  function DecodePrefixed(bs: Bytes): Parsed<Bytes> {
    match DecodeInt(4, bs)
    case None => None
    case Some((n, tail)) => if 0 <= n <= |tail| then Some((tail[..n], tail[n..])) else None
  }

  lemma PrefixedRoundTrip(b: Bytes, rest: Bytes)
    requires Fits(4, |b|)
    ensures DecodePrefixed(Prefixed(b) + rest) == Some((b, rest))
  {
    ConcatAssociates(BigEndian(4, |b|), b, rest);
    IntRoundTrip(4, |b|, b + rest);
    SignedInverse(4, |b|);
    assert (b + rest)[..|b|] == b && (b + rest)[|b|..] == rest;
  }

  ghost predicate FitsLength(b: Bytes) {
    Fits(4, |b|)
  }

  lemma PrefixedYields(bs: Bytes)
    ensures DecodePrefixed(bs).Some? ==> FitsLength(DecodePrefixed(bs).value.0)
  {
    if DecodePrefixed(bs).Some? {
      IntYields(4, bs);
    }
  }

  function DecodeHash(bs: Bytes): Parsed<Hash> {
    match DecodePrefixed(bs)
    case None => None
    case Some((b, tail)) => if |b| == 32 then Some((b, tail)) else None
  }

  lemma HashRoundTrip(h: Hash, rest: Bytes)
    ensures DecodeHash(EncodeHash(h) + rest) == Some((h, rest))
  {
    FitsIsRange(32);
    PrefixedRoundTrip(h, rest);
  }

  // Sequences

  function DecodeAll<T>(n: nat, bs: Bytes, dec: Bytes -> Parsed<T>): Parsed<seq<T>> {
    if n == 0 then Some(([], bs)) else
      match dec(bs)
      case None => None
      case Some((x, tail)) =>
        match DecodeAll(n - 1, tail, dec)
        case None => None
        case Some((xs, end)) => Some(([x] + xs, end))
  }

  /** What is written for `x` is read back as `y`, whatever follows. */
  ghost predicate ReadAs<T, U>(x: T, y: U, enc: T -> Bytes, dec: Bytes -> Parsed<U>) {
    forall rest :: dec(enc(x) + rest) == Some((y, rest))
  }

  ghost predicate AllReadAs<T, U>(s: seq<T>, t: seq<U>, enc: T -> Bytes, dec: Bytes -> Parsed<U>) {
    |s| == |t| && forall i | 0 <= i < |s| :: ReadAs(s[i], t[i], enc, dec)
  }

  lemma {:induction false} AllRoundTrip<T, U>(s: seq<T>, t: seq<U>, enc: T -> Bytes, dec: Bytes -> Parsed<U>, rest: Bytes)
    requires AllReadAs(s, t, enc, dec)
    ensures DecodeAll(|s|, EncodeAll(s, enc) + rest, dec) == Some((t, rest))
  {
    if s == [] {
      assert EncodeAll(s, enc) + rest == rest;
    } else {
      var tail := EncodeAll(s[1..], enc);
      ConcatAssociates(enc(s[0]), tail, rest);
      assert ReadAs(s[0], t[0], enc, dec);
      assert dec(enc(s[0]) + (tail + rest)) == Some((t[0], tail + rest));
      AllRoundTrip(s[1..], t[1..], enc, dec, rest);
      assert t == [t[0]] + t[1..];
    }
  }

  lemma {:induction false} AllYields<T>(n: nat, bs: Bytes, dec: Bytes -> Parsed<T>, p: T -> bool)
    requires forall b :: dec(b).Some? ==> p(dec(b).value.0)
    ensures var r := DecodeAll(n, bs, dec);
            r.Some? ==> |r.value.0| == n && forall i | 0 <= i < n :: p(r.value.0[i])
  {
    if n > 0 && dec(bs).Some? {
      AllYields(n - 1, dec(bs).value.1, dec, p);
    }
  }

  /** A count followed by that many items. */
  function DecodeList<T>(bs: Bytes, dec: Bytes -> Parsed<T>): Parsed<seq<T>> {
    match DecodeInt(4, bs)
    case None => None
    case Some((n, tail)) => if n < 0 then None else DecodeAll(n, tail, dec)
  }

  lemma ListRoundTrip<T, U>(s: seq<T>, t: seq<U>, enc: T -> Bytes, dec: Bytes -> Parsed<U>, rest: Bytes)
    requires Fits(4, |s|) && AllReadAs(s, t, enc, dec)
    ensures DecodeList(BigEndian(4, |s|) + (EncodeAll(s, enc) + rest), dec) == Some((t, rest))
  {
    IntRoundTrip(4, |s|, EncodeAll(s, enc) + rest);
    SignedInverse(4, |s|);
    AllRoundTrip(s, t, enc, dec, rest);
  }

  lemma ListYields<T>(bs: Bytes, dec: Bytes -> Parsed<T>, p: T -> bool)
    requires forall b :: dec(b).Some? ==> p(dec(b).value.0)
    ensures var r := DecodeList(bs, dec);
            r.Some? ==> Fits(4, |r.value.0|) && forall i | 0 <= i < |r.value.0| :: p(r.value.0[i])
  {
    if DecodeList(bs, dec).Some? {
      IntYields(4, bs);
      AllYields(DecodeInt(4, bs).value.0, DecodeInt(4, bs).value.1, dec, p);
    }
  }

  lemma {:induction false} SameEncodings<T>(s: seq<T>, t: seq<T>, enc: T -> Bytes)
    requires |s| == |t| && forall i | 0 <= i < |s| :: enc(s[i]) == enc(t[i])
    ensures EncodeAll(s, enc) == EncodeAll(t, enc)
  {
    if s != [] {
      SameEncodings(s[1..], t[1..], enc);
    }
  }

  // Certificates

  /** What the stream tells of a certificate: integers reduced to their widths,
      and the signatures in the order of the signers. */
  datatype Cert = Cert(qcType: int, round: int, proposerID: int, vertexHash: Hash, entries: seq<(int, Signature)>)

  function DecodeSignature(bs: Bytes): Parsed<(int, Signature)> {
    match DecodeInt(4, bs)
    case None => None
    case Some((id, tail)) =>
      match DecodePrefixed(tail)
      case None => None
      case Some((sig, end)) => Some(((id, sig), end))
  }

  function ReducedEntry(e: (int, Signature)): (int, Signature) {
    (Reduce(4, e.0), e.1)
  }

  ghost predicate EncodableEntry(e: (int, Signature)) {
    Fits(4, e.0) && Fits(4, |e.1|)
  }

  lemma EntryReadAs(e: (int, Signature))
    requires Fits(4, |e.1|)
    ensures ReadAs(e, ReducedEntry(e), EncodeSignature, DecodeSignature)
  {
    forall rest ensures DecodeSignature(EncodeSignature(e) + rest) == Some((ReducedEntry(e), rest)) {
      ConcatAssociates(BigEndian(4, e.0), Prefixed(e.1), rest);
      IntRoundTrip(4, e.0, Prefixed(e.1) + rest);
      PrefixedRoundTrip(e.1, rest);
    }
  }

  lemma EntryYields(bs: Bytes)
    ensures DecodeSignature(bs).Some? ==> EncodableEntry(DecodeSignature(bs).value.0)
  {
    if DecodeSignature(bs).Some? {
      IntYields(4, bs);
      PrefixedYields(DecodeInt(4, bs).value.1);
    }
  }

  function MapOf(entries: seq<(int, Signature)>): map<int, Signature> {
    if entries == [] then map[] else MapOf(entries[1..])[entries[0].0 := entries[0].1]
  }

  lemma {:induction false} MapOfEntries(ids: seq<int>, sigs: map<int, Signature>)
    requires forall k | 0 <= k < |ids| :: ids[k] in sigs
    ensures var m := MapOf(Entries(ids, sigs));
            m.Keys == Elements(ids) && forall i | i in m :: i in sigs && m[i] == sigs[i]
  {
    if ids != [] {
      MapOfEntries(ids[1..], sigs);
      assert Entries(ids, sigs)[1..] == Entries(ids[1..], sigs);
      assert ids == [ids[0]] + ids[1..];
    }
  }

  lemma {:induction false} MapOfYields(entries: seq<(int, Signature)>)
    requires forall k | 0 <= k < |entries| :: EncodableEntry(entries[k])
    ensures var m := MapOf(entries);
            |m| <= |entries| && forall i | i in m :: EncodableEntry((i, m[i]))
  {
    if entries != [] {
      MapOfYields(entries[1..]);
      var m := MapOf(entries[1..]);
      assert EncodableEntry(entries[0]);
      assert m[entries[0].0 := entries[0].1].Keys == m.Keys + {entries[0].0};
    }
  }

  function DecodeCert(bs: Bytes): Parsed<Cert> {
    match DecodeInt(1, bs)
    case None => None
    case Some((qcType, r1)) =>
    match DecodeInt(8, r1)
    case None => None
    case Some((round, r2)) =>
    match DecodeInt(4, r2)
    case None => None
    case Some((proposer, r3)) =>
    match DecodeHash(r3)
    case None => None
    case Some((hash, r4)) =>
    match DecodeList(r4, DecodeSignature)
    case None => None
    case Some((entries, end)) => Some((Cert(qcType, round, proposer, hash, entries), end))
  }

  ghost function ReducedEntries(sigs: map<int, Signature>): (r: seq<(int, Signature)>)
    ensures |r| == |SortedEntries(sigs)|
    ensures forall i | 0 <= i < |r| :: r[i] == ReducedEntry(SortedEntries(sigs)[i])
  {
    var list := SortedEntries(sigs);
    seq(|list|, i requires 0 <= i < |list| => ReducedEntry(list[i]))
  }

  ghost function CertOf(qc: QC): Cert {
    Cert(Reduce(1, qc.qcType), Reduce(8, qc.round), Reduce(4, qc.proposerID), qc.vertexHash, ReducedEntries(qc.signatures))
  }

  /** The certificate a reader makes of it. */
  function QCOf(c: Cert): QC {
    QC(c.qcType, c.vertexHash, c.round, c.proposerID, MapOf(c.entries))
  }

  /** Every count and every signature length fits its prefix. */
  ghost predicate LengthsFitQC(qc: QC) {
    Fits(4, |qc.signatures|) && forall i | i in qc.signatures :: FitsLength(qc.signatures[i])
  }

  ghost predicate EncodableQC(qc: QC) {
    && Fits(1, qc.qcType) && Fits(8, qc.round) && Fits(4, qc.proposerID)
    && Fits(4, |qc.signatures|)
    && forall i | i in qc.signatures :: EncodableEntry((i, qc.signatures[i]))
  }

  /** Each entry of the list is an entry of the map. */
  ghost predicate EntriesOf(list: seq<(int, Signature)>, sigs: map<int, Signature>) {
    forall k | 0 <= k < |list| :: list[k].0 in sigs && list[k].1 == sigs[list[k].0]
  }

  lemma EntriesAreOf(ids: seq<int>, sigs: map<int, Signature>)
    requires forall k | 0 <= k < |ids| :: ids[k] in sigs
    ensures |Entries(ids, sigs)| == |ids| && EntriesOf(Entries(ids, sigs), sigs)
  {
  }

  lemma SameMap<K, V>(m: map<K, V>, n: map<K, V>)
    requires m.Keys == n.Keys && forall i | i in m :: i in n && m[i] == n[i]
    ensures m == n
  {
  }

  lemma SignersInOrder(sigs: map<int, Signature>)
    ensures var ids := Ascending(sigs.Keys, Id);
            && Elements(ids) == sigs.Keys && |ids| == |sigs|
            && forall k | 0 <= k < |ids| :: ids[k] in sigs
  {
    var ids := Ascending(sigs.Keys, Id);
    AscendingElements(sigs.Keys, Id);
    AscendingLength(sigs.Keys, Id);
    assert |sigs.Keys| == |sigs|;
    forall k | 0 <= k < |ids| ensures ids[k] in sigs {
      assert ids[k] in ids;
    }
  }

  lemma SortedEntriesOf(sigs: map<int, Signature>)
    ensures |SortedEntries(sigs)| == |sigs| && EntriesOf(SortedEntries(sigs), sigs)
    ensures MapOf(SortedEntries(sigs)) == sigs
  {
    var ids := Ascending(sigs.Keys, Id);
    SignersInOrder(sigs);
    EntriesAreOf(ids, sigs);
    MapOfEntries(ids, sigs);
    SameMap(MapOf(Entries(ids, sigs)), sigs);
  }

  lemma EntriesReadAs(sigs: map<int, Signature>)
    requires forall i | i in sigs :: FitsLength(sigs[i])
    ensures AllReadAs(SortedEntries(sigs), ReducedEntries(sigs), EncodeSignature, DecodeSignature)
  {
    var list := SortedEntries(sigs);
    SortedEntriesOf(sigs);
    forall k | 0 <= k < |list| ensures ReadAs(list[k], ReducedEntries(sigs)[k], EncodeSignature, DecodeSignature) {
      assert list[k].1 == sigs[list[k].0];
      EntryReadAs(list[k]);
    }
  }

  /** Regroups a stream of six parts so that it can be read from the front. */
  lemma Regroup6(a: Bytes, b: Bytes, c: Bytes, d: Bytes, e: Bytes, f: Bytes, rest: Bytes)
    ensures a + b + c + d + e + f + rest == a + (b + (c + (d + (e + (f + rest)))))
  {
  }

  lemma CertRoundTrip(qc: QC, rest: Bytes)
    requires LengthsFitQC(qc)
    ensures DecodeCert(EncodeQC(qc) + rest) == Some((CertOf(qc), rest))
  {
    var sigs := EncodeAll(SortedEntries(qc.signatures), EncodeSignature);
    var r4 := BigEndian(4, |qc.signatures|) + (sigs + rest);
    Regroup6(BigEndian(1, qc.qcType), BigEndian(8, qc.round), BigEndian(4, qc.proposerID),
             EncodeHash(qc.vertexHash), BigEndian(4, |qc.signatures|), sigs, rest);
    IntRoundTrip(1, qc.qcType, BigEndian(8, qc.round) + (BigEndian(4, qc.proposerID) + (EncodeHash(qc.vertexHash) + r4)));
    IntRoundTrip(8, qc.round, BigEndian(4, qc.proposerID) + (EncodeHash(qc.vertexHash) + r4));
    IntRoundTrip(4, qc.proposerID, EncodeHash(qc.vertexHash) + r4);
    HashRoundTrip(qc.vertexHash, r4);
    SortedEntriesOf(qc.signatures);
    EntriesReadAs(qc.signatures);
    ListRoundTrip(SortedEntries(qc.signatures), ReducedEntries(qc.signatures), EncodeSignature, DecodeSignature, rest);
  }

  lemma EncodableEntriesUnchanged(sigs: map<int, Signature>)
    requires forall i | i in sigs :: EncodableEntry((i, sigs[i]))
    ensures ReducedEntries(sigs) == SortedEntries(sigs)
  {
    var list := SortedEntries(sigs);
    SortedEntriesOf(sigs);
    forall k | 0 <= k < |list| ensures ReducedEntry(list[k]) == list[k] {
      assert EncodableEntry((list[k].0, sigs[list[k].0]));
      SignedInverse(4, list[k].0);
    }
  }

  /** A certificate within all widths is read back, signature map included. */
  lemma QCRoundTrip(qc: QC, rest: Bytes)
    requires EncodableQC(qc)
    ensures DecodeCert(EncodeQC(qc) + rest) == Some((CertOf(qc), rest)) && QCOf(CertOf(qc)) == qc
  {
    forall i | i in qc.signatures ensures FitsLength(qc.signatures[i]) {
      assert EncodableEntry((i, qc.signatures[i]));
    }
    CertRoundTrip(qc, rest);
    SignedInverse(1, qc.qcType);
    SignedInverse(8, qc.round);
    SignedInverse(4, qc.proposerID);
    EncodableEntriesUnchanged(qc.signatures);
    SortedEntriesOf(qc.signatures);
  }

  ghost predicate EncodableCert(c: Cert) {
    EncodableQC(QCOf(c))
  }

  lemma CertYields(bs: Bytes)
    ensures DecodeCert(bs).Some? ==> EncodableCert(DecodeCert(bs).value.0)
  {
    if DecodeCert(bs).Some? {
      IntYields(1, bs);
      var r1 := DecodeInt(1, bs).value.1;
      IntYields(8, r1);
      var r2 := DecodeInt(8, r1).value.1;
      IntYields(4, r2);
      var r4 := DecodeHash(DecodeInt(4, r2).value.1).value.1;
      forall b ensures DecodeSignature(b).Some? ==> EncodableEntry(DecodeSignature(b).value.0) {
        EntryYields(b);
      }
      ListYields(r4, DecodeSignature, EncodableEntry);
      var entries := DecodeList(r4, DecodeSignature).value.0;
      MapOfYields(entries);
      FitsIsRange(|entries|);
      FitsIsRange(|MapOf(entries)|);
    }
  }

  lemma SameCertSameBytes(a: QC, b: QC)
    requires CertOf(a) == CertOf(b)
    ensures EncodeQC(a) == EncodeQC(b)
  {
    BytesOfReduced(1, a.qcType);
    BytesOfReduced(1, b.qcType);
    BytesOfReduced(8, a.round);
    BytesOfReduced(8, b.round);
    BytesOfReduced(4, a.proposerID);
    BytesOfReduced(4, b.proposerID);
    SortedEntriesOf(a.signatures);
    SortedEntriesOf(b.signatures);
    var s, t := SortedEntries(a.signatures), SortedEntries(b.signatures);
    assert |ReducedEntries(a.signatures)| == |s| && |ReducedEntries(b.signatures)| == |t|;
    forall i | 0 <= i < |s| ensures EncodeSignature(s[i]) == EncodeSignature(t[i]) {
      assert ReducedEntries(a.signatures)[i] == ReducedEntries(b.signatures)[i];
      BytesOfReduced(4, s[i].0);
      BytesOfReduced(4, t[i].0);
    }
    SameEncodings(s, t, EncodeSignature);
  }

  // Vertices

  /** What the stream tells of a vertex without nil certificates. */
  datatype Fields = Fields(author: int, round: int, parents: seq<Hash>, certs: seq<Cert>, timestamp: int, payload: seq<Bytes>)

  ghost predicate NilFree(v: Vertex) {
    forall i | 0 <= i < |v.parentQCs| :: v.parentQCs[i].Some?
  }

  ghost function CertsOf(v: Vertex): (certs: seq<Cert>)
    requires NilFree(v)
    ensures |certs| == |v.parentQCs|
    ensures forall i | 0 <= i < |certs| :: certs[i] == CertOf(v.parentQCs[i].value)
  {
    seq(|v.parentQCs|, i requires 0 <= i < |v.parentQCs| => CertOf(v.parentQCs[i].value))
  }

  ghost function FieldsOf(v: Vertex): Fields
    requires NilFree(v)
  {
    Fields(Reduce(4, v.author), Reduce(8, v.round), v.parents, CertsOf(v), Reduce(8, v.timestamp), v.payload)
  }

  /** Every list and every string is shorter than 2^31, as its prefix can tell. */
  ghost predicate LengthsFit(v: Vertex) {
    && Fits(4, |v.parents|)
    && Fits(4, |v.parentQCs|)
    && (forall i | 0 <= i < |v.parentQCs| && v.parentQCs[i].Some? :: LengthsFitQC(v.parentQCs[i].value))
    && Fits(4, |v.payload|) && (forall i | 0 <= i < |v.payload| :: FitsLength(v.payload[i]))
  }

  function DecodeFields(bs: Bytes): Parsed<Fields> {
    match DecodeInt(4, bs)
    case None => None
    case Some((author, r1)) =>
    match DecodeInt(8, r1)
    case None => None
    case Some((round, r2)) =>
    match DecodeList(r2, DecodeHash)
    case None => None
    case Some((parents, r3)) =>
    match DecodeList(r3, DecodeCert)
    case None => None
    case Some((certs, r4)) =>
    match DecodeInt(8, r4)
    case None => None
    case Some((timestamp, r5)) =>
    match DecodeList(r5, DecodePrefixed)
    case None => None
    case Some((payload, end)) => Some((Fields(author, round, parents, certs, timestamp, payload), end))
  }

  lemma Regroup9(a: Bytes, b: Bytes, c: Bytes, d: Bytes, e: Bytes, f: Bytes, g: Bytes, h: Bytes, i: Bytes, rest: Bytes)
    ensures a + b + c + d + e + f + g + h + i + rest ==
              a + (b + (c + (d + (e + (f + (g + (h + (i + rest))))))))
  {
  }

  lemma ParentsRoundTrip(parents: seq<Hash>, rest: Bytes)
    requires Fits(4, |parents|)
    ensures DecodeList(BigEndian(4, |parents|) + (EncodeAll(parents, EncodeHash) + rest), DecodeHash) == Some((parents, rest))
  {
    forall i | 0 <= i < |parents| ensures ReadAs(parents[i], parents[i], EncodeHash, DecodeHash) {
      forall r ensures DecodeHash(EncodeHash(parents[i]) + r) == Some((parents[i], r)) { HashRoundTrip(parents[i], r); }
    }
    ListRoundTrip(parents, parents, EncodeHash, DecodeHash, rest);
  }

  lemma CertificatesRoundTrip(v: Vertex, rest: Bytes)
    requires NilFree(v) && LengthsFit(v)
    ensures DecodeList(BigEndian(4, |v.parentQCs|) + (EncodeAll(v.parentQCs, EncodeQCEntry) + rest), DecodeCert) ==
              Some((CertsOf(v), rest))
  {
    var qcs, certs := v.parentQCs, CertsOf(v);
    forall i | 0 <= i < |qcs| ensures ReadAs(qcs[i], certs[i], EncodeQCEntry, DecodeCert) {
      forall r ensures DecodeCert(EncodeQCEntry(qcs[i]) + r) == Some((certs[i], r)) { CertRoundTrip(qcs[i].value, r); }
    }
    ListRoundTrip(qcs, certs, EncodeQCEntry, DecodeCert, rest);
  }

  lemma PayloadRoundTrip(payload: seq<Bytes>, rest: Bytes)
    requires Fits(4, |payload|) && forall i | 0 <= i < |payload| :: FitsLength(payload[i])
    ensures DecodeList(BigEndian(4, |payload|) + (EncodeAll(payload, Prefixed) + rest), DecodePrefixed) == Some((payload, rest))
  {
    forall i | 0 <= i < |payload| ensures ReadAs(payload[i], payload[i], Prefixed, DecodePrefixed) {
      forall r ensures DecodePrefixed(Prefixed(payload[i]) + r) == Some((payload[i], r)) { PrefixedRoundTrip(payload[i], r); }
    }
    ListRoundTrip(payload, payload, Prefixed, DecodePrefixed, rest);
  }

  /** Without nil certificates the stream is read back, every integer reduced
      to its width, and nothing behind it is touched. */
  lemma FieldsRoundTrip(v: Vertex, rest: Bytes)
    requires NilFree(v) && LengthsFit(v)
    ensures DecodeFields(Encode(v) + rest) == Some((FieldsOf(v), rest))
  {
    var payload := EncodeAll(v.payload, Prefixed);
    var qcs := EncodeAll(v.parentQCs, EncodeQCEntry);
    var parents := EncodeAll(v.parents, EncodeHash);
    var r5 := BigEndian(4, |v.payload|) + (payload + rest);
    var r4 := BigEndian(8, v.timestamp) + r5;
    var r3 := BigEndian(4, |v.parentQCs|) + (qcs + r4);
    var r2 := BigEndian(4, |v.parents|) + (parents + r3);
    var r1 := BigEndian(8, v.round) + r2;
    assert Encode(v) + rest == BigEndian(4, v.author) + r1 by {
      Regroup9(BigEndian(4, v.author), BigEndian(8, v.round), BigEndian(4, |v.parents|), parents,
               BigEndian(4, |v.parentQCs|), qcs, BigEndian(8, v.timestamp), BigEndian(4, |v.payload|), payload, rest);
    }
    IntRoundTrip(4, v.author, r1);
    IntRoundTrip(8, v.round, r2);
    ParentsRoundTrip(v.parents, r3);
    CertificatesRoundTrip(v, r4);
    IntRoundTrip(8, v.timestamp, r5);
    PayloadRoundTrip(v.payload, rest);
  }

  lemma SameFieldsSameBytes(v: Vertex, w: Vertex)
    requires NilFree(v) && NilFree(w) && FieldsOf(v) == FieldsOf(w)
    ensures Encode(v) == Encode(w)
  {
    BytesOfReduced(4, v.author);
    BytesOfReduced(4, w.author);
    BytesOfReduced(8, v.round);
    BytesOfReduced(8, w.round);
    BytesOfReduced(8, v.timestamp);
    BytesOfReduced(8, w.timestamp);
    assert |CertsOf(v)| == |v.parentQCs| && |CertsOf(w)| == |w.parentQCs|;
    forall i | 0 <= i < |v.parentQCs| ensures EncodeQCEntry(v.parentQCs[i]) == EncodeQCEntry(w.parentQCs[i]) {
      assert CertsOf(v)[i] == CertsOf(w)[i];
      SameCertSameBytes(v.parentQCs[i].value, w.parentQCs[i].value);
    }
    SameEncodings(v.parentQCs, w.parentQCs, EncodeQCEntry);
  }

  /** Exactly what the stream determines, for vertices without nil certificates:
      two streams are equal if and only if the hashed fields agree, every
      integer modulo its width. */
  lemma {:induction false} EqualStreamsIff(v: Vertex, w: Vertex)
    requires NilFree(v) && LengthsFit(v) && NilFree(w) && LengthsFit(w)
    ensures Encode(v) == Encode(w) <==> FieldsOf(v) == FieldsOf(w)
  {
    if Encode(v) == Encode(w) {
      FieldsRoundTrip(v, []);
      FieldsRoundTrip(w, []);
    }
    if FieldsOf(v) == FieldsOf(w) {
      SameFieldsSameBytes(v, w);
    }
  }

  /** The hashed fields. */
  function Content(v: Vertex): Vertex {
    v.(signature := [], hash := NO_HASH)
  }

  /** Every field and length within its encoded width, and no nil certificate. */
  ghost predicate Encodable(v: Vertex) {
    && Fits(4, v.author) && Fits(8, v.round) && Fits(8, v.timestamp)
    && NilFree(v) && LengthsFit(v)
    && (forall i | 0 <= i < |v.parentQCs| :: EncodableQC(v.parentQCs[i].value))
  }

  function QCsOf(certs: seq<Cert>): (qcs: seq<Option<QC>>)
    ensures |qcs| == |certs| && forall i | 0 <= i < |qcs| :: qcs[i] == Some(QCOf(certs[i]))
  {
    seq(|certs|, i requires 0 <= i < |certs| => Some(QCOf(certs[i])))
  }

  /** The vertex a reader makes of the fields. */
  function VertexOf(f: Fields): Vertex {
    Vertex(f.author, f.round, f.parents, QCsOf(f.certs), f.timestamp, f.payload, [], NO_HASH)
  }

  /** Within all widths the fields are the vertex, up to what is not hashed. */
  lemma VertexRoundTrip(v: Vertex, rest: Bytes)
    requires Encodable(v)
    ensures DecodeFields(Encode(v) + rest) == Some((FieldsOf(v), rest)) && VertexOf(FieldsOf(v)) == Content(v)
  {
    FieldsRoundTrip(v, rest);
    SignedInverse(4, v.author);
    SignedInverse(8, v.round);
    SignedInverse(8, v.timestamp);
    forall i | 0 <= i < |v.parentQCs| ensures QCsOf(CertsOf(v))[i] == v.parentQCs[i] {
      QCRoundTrip(v.parentQCs[i].value, []);
    }
    assert QCsOf(CertsOf(v)) == v.parentQCs;
  }

  lemma LengthsOfCert(c: Cert)
    requires EncodableCert(c)
    ensures LengthsFitQC(QCOf(c))
  {
    forall i | i in QCOf(c).signatures ensures FitsLength(QCOf(c).signatures[i]) {
      assert EncodableEntry((i, QCOf(c).signatures[i]));
    }
  }

  /** Whatever the decoder returns is within all widths. */
  lemma FieldsYield(bs: Bytes)
    requires DecodeFields(bs).Some?
    ensures Encodable(VertexOf(DecodeFields(bs).value.0))
  {
    IntYields(4, bs);
    var r1 := DecodeInt(4, bs).value.1;
    IntYields(8, r1);
    var r2 := DecodeInt(8, r1).value.1;
    ListYields(r2, DecodeHash, _ => true);
    var r3 := DecodeList(r2, DecodeHash).value.1;
    forall b ensures DecodeCert(b).Some? ==> EncodableCert(DecodeCert(b).value.0) { CertYields(b); }
    ListYields(r3, DecodeCert, EncodableCert);
    var certs := DecodeList(r3, DecodeCert).value.0;
    forall i | 0 <= i < |certs| ensures LengthsFitQC(QCOf(certs[i])) { LengthsOfCert(certs[i]); }
    var r4 := DecodeList(r3, DecodeCert).value.1;
    IntYields(8, r4);
    var r5 := DecodeInt(8, r4).value.1;
    forall b ensures DecodePrefixed(b).Some? ==> FitsLength(DecodePrefixed(b).value.0) { PrefixedYields(b); }
    ListYields(r5, DecodePrefixed, FitsLength);
  }

  /** This decoder recovers the vertex from its stream exactly when all fields
      fit and no certificate is nil. */
  lemma {:induction false} DecodesExactlyWhenEncodable(v: Vertex, rest: Bytes)
    ensures Encodable(v) <==>
              var r := DecodeFields(Encode(v) + rest);
              r.Some? && VertexOf(r.value.0) == Content(v) && r.value.1 == rest
  {
    if Encodable(v) {
      VertexRoundTrip(v, rest);
    }
    var r := DecodeFields(Encode(v) + rest);
    if r.Some? && VertexOf(r.value.0) == Content(v) {
      FieldsYield(Encode(v) + rest);
      assert Encodable(Content(v));
    }
  }

  /** The stream determines the hashed fields of vertices within all widths. */
  lemma EncodeIsInjective(v: Vertex, w: Vertex)
    requires Encodable(v) && Encodable(w) && Encode(v) == Encode(w)
    ensures Content(v) == Content(w)
  {
    VertexRoundTrip(v, []);
    VertexRoundTrip(w, []);
  }

  // Collisions of the stream

  /** The author is written in 32 bits but kept in 64: shifted by 2^32 it leaves
      stream and hash as they are, whatever the hash function. */
  lemma AuthorsCollide(v: Vertex, k: int, sha: Sha)
    ensures var w := v.(author := v.author + k * 0x1_0000_0000);
            Encode(w) == Encode(v) && HashOf(sha)(w) == HashOf(sha)(v)
  {
    assert Pow256(4) == 0x1_0000_0000;
    BytesArePeriodic(4, v.author, k);
  }

  lemma EncodeOne(entry: Option<QC>)
    ensures EncodeAll([entry], EncodeQCEntry) == EncodeQCEntry(entry)
  {
  }

  lemma {:induction false} EncodeAllConcat<T>(s: seq<T>, t: seq<T>, enc: T -> Bytes)
    ensures EncodeAll(s + t, enc) == EncodeAll(s, enc) + EncodeAll(t, enc)
  {
    if s == [] {
      assert s + t == t;
    } else {
      assert (s + t)[1..] == s[1..] + t;
      EncodeAllConcat(s[1..], t, enc);
      ConcatAssociates(enc(s[0]), EncodeAll(s[1..], enc), EncodeAll(t, enc));
    }
  }

  /** Somewhere in a mixed list a nil and a present entry are neighbours. */
  lemma {:induction false} MixedNeighbours(qcs: seq<Option<QC>>, i: nat, j: nat) returns (k: nat)
    requires i < j < |qcs| && qcs[i].Some? != qcs[j].Some?
    ensures k + 1 < |qcs| && qcs[k].Some? != qcs[k + 1].Some?
    decreases j - i
  {
    if qcs[i].Some? != qcs[i + 1].Some? {
      k := i;
    } else {
      k := MixedNeighbours(qcs, i + 1, j);
    }
  }

  lemma EncodeAllCons<T>(x: T, s: seq<T>, enc: T -> Bytes)
    ensures EncodeAll([x] + s, enc) == enc(x) + EncodeAll(s, enc)
  {
    assert ([x] + s)[1..] == s;
  }

  lemma ExchangedPair(x: Option<QC>, y: Option<QC>, tail: seq<Option<QC>>)
    requires x == None || y == None
    ensures EncodeAll([x] + ([y] + tail), EncodeQCEntry) == EncodeAll([y] + ([x] + tail), EncodeQCEntry)
  {
    EncodeAllCons(x, [y] + tail, EncodeQCEntry);
    EncodeAllCons(y, tail, EncodeQCEntry);
    EncodeAllCons(y, [x] + tail, EncodeQCEntry);
    EncodeAllCons(x, tail, EncodeQCEntry);
  }

  lemma ExchangeKeepsElements<T>(head: seq<T>, x: T, y: T, tail: seq<T>)
    ensures multiset(head + ([y] + ([x] + tail))) == multiset(head + ([x] + ([y] + tail)))
    ensures x != y ==> head + ([y] + ([x] + tail)) != head + ([x] + ([y] + tail))
  {
    assert (head + ([y] + ([x] + tail)))[|head|] == y;
    assert (head + ([x] + ([y] + tail)))[|head|] == x;
  }

  lemma SplitAt<T>(s: seq<T>, k: nat)
    requires k + 1 < |s|
    ensures s == s[..k] + ([s[k]] + ([s[k + 1]] + s[k + 2..]))
  {
  }

  lemma SameCertificatesSameStream(v: Vertex, qcs: seq<Option<QC>>)
    requires |qcs| == |v.parentQCs| && EncodeAll(qcs, EncodeQCEntry) == EncodeAll(v.parentQCs, EncodeQCEntry)
    ensures Encode(v.(parentQCs := qcs)) == Encode(v)
  {
  }

  /** Every list that mixes nil and present certificates collides: the same
      certificates with a nil elsewhere give the same stream. */
  lemma {:induction false} MixedListsCollide(v: Vertex, i: nat, j: nat) returns (qcs: seq<Option<QC>>)
    requires i < j < |v.parentQCs| && v.parentQCs[i].Some? != v.parentQCs[j].Some?
    ensures qcs != v.parentQCs && multiset(qcs) == multiset(v.parentQCs)
    ensures Encode(v.(parentQCs := qcs)) == Encode(v)
  {
    var k := MixedNeighbours(v.parentQCs, i, j);
    var head, x, y, tail := v.parentQCs[..k], v.parentQCs[k], v.parentQCs[k + 1], v.parentQCs[k + 2..];
    SplitAt(v.parentQCs, k);
    qcs := head + ([y] + ([x] + tail));
    ExchangeKeepsElements(head, x, y, tail);
    EncodeAllConcat(head, [x] + ([y] + tail), EncodeQCEntry);
    EncodeAllConcat(head, [y] + ([x] + tail), EncodeQCEntry);
    ExchangedPair(x, y, tail);
    SameCertificatesSameStream(v, qcs);
  }

  /** Written as one transaction: the rest of a certificate without signatures,
      and behind it a timestamp and another transaction. */
  function Smuggled(h: Hash, timestamp: int, tx: Bytes): Bytes {
    [32] + h + BigEndian(4, 0) + BigEndian(8, timestamp) + BigEndian(4, 1) + Prefixed(tx)
  }

  const SMUGGLED_SIZE := 0x100_0000

  lemma FourBytes(x: int, a: byte, b: byte, c: byte, d: byte)
    requires x == ((a as int * 256 + b as int) * 256 + c as int) * 256 + d as int
    ensures BigEndian(4, x) == [a, b, c, d]
  {
    assert x / 256 / 256 / 256 == a as int && x / 256 / 256 == a as int * 256 + b as int;
    assert BigEndian(1, a as int) == BigEndian(0, 0) + [a];
    assert BigEndian(2, x / 256 / 256) == BigEndian(1, a as int) + [b];
    assert BigEndian(3, x / 256) == BigEndian(2, x / 256 / 256) + [c];
    assert BigEndian(4, x) == BigEndian(3, x / 256) + [d];
  }

  lemma EightBytes(x: int, a: byte, b: byte)
    requires x == a as int * 256 + b as int
    ensures BigEndian(8, x) == [0, 0, 0, 0] + [0, 0, a, b]
  {
    FourBytes(0, 0, 0, 0, 0);
    assert BigEndian(5, 0) == BigEndian(4, 0) + [0];
    assert BigEndian(6, 0) == BigEndian(5, 0) + [0];
    assert BigEndian(7, a as int) == BigEndian(6, 0) + [a];
    assert BigEndian(8, x) == BigEndian(7, a as int) + [b];
  }

  lemma OneByte(a: byte)
    ensures BigEndian(1, a as int) == [a]
  {
    var x := a as int;
    assert x % 256 == x && (x % 256) as byte == a;
    assert BigEndian(1, x) == BigEndian(0, x / 256) + [a];
  }

  lemma SameBytes(a: Bytes, b: Bytes, c: Bytes, d: Bytes, e: Bytes, f: Bytes, g: Bytes)
    requires a == [0, 0, 0, 0] + [0, 0, 0, 1] && b == [0, 0, 0, 1] && c == [1, 0, 0, 0]
    requires d == [0] && e == [0, 0, 0, 0] + [0, 0, 1, 0] && f == [0, 0, 1, 1] && g == [0, 0, 0, 32]
    ensures a + b + c + [32] == d + e + f + g
  {
  }

  // Constants of the two readings: named so that they are not computed with in place.
  const ONE: nat := 1
  const ROUND: nat := 256
  const PROPOSER: nat := 257
  const HASH_SIZE: nat := 32

  /** A timestamp, two counts and a byte that read as the head of a certificate. */
  lemma TwoReadings()
    ensures BigEndian(8, ONE) + BigEndian(4, ONE) + BigEndian(4, SMUGGLED_SIZE) + [32] ==
              BigEndian(1, 0) + BigEndian(8, ROUND) + BigEndian(4, PROPOSER) + BigEndian(4, HASH_SIZE)
  {
    EightBytes(ONE, 0, 1);
    FourBytes(ONE, 0, 0, 0, 1);
    FourBytes(SMUGGLED_SIZE, 1, 0, 0, 0);
    OneByte(0);
    EightBytes(ROUND, 1, 0);
    FourBytes(PROPOSER, 0, 0, 1, 1);
    FourBytes(HASH_SIZE, 0, 0, 0, 32);
    SameBytes(BigEndian(8, ONE), BigEndian(4, ONE), BigEndian(4, SMUGGLED_SIZE),
              BigEndian(1, 0), BigEndian(8, ROUND), BigEndian(4, PROPOSER), BigEndian(4, HASH_SIZE));
  }

  /** Worse, a nil certificate makes the fields behind it ambiguous: for every
      certified hash, timestamp and transaction of the right size there is a
      vertex with a nil entry, another timestamp and another payload that has
      the very same stream, and hence the same hash whatever the hash function. */
  lemma NilCertificateHidesPayload(v: Vertex, h: Hash, timestamp: int, tx: Bytes, sha: Sha)
    requires |tx| == SMUGGLED_SIZE - 53 && timestamp != 1
    ensures var a := v.(parentQCs := [None], timestamp := 1, payload := [Smuggled(h, timestamp, tx)]);
            var b := v.(parentQCs := [Some(QC(0, h, 256, 257, map[]))], timestamp := timestamp, payload := [tx]);
            && a.timestamp != b.timestamp && a.payload != b.payload
            && Encode(a) == Encode(b) && HashOf(sha)(a) == HashOf(sha)(b)
  {
    var none: Option<QC>, qc := None, QC(0, h, 256, 257, map[]);
    EncodeOne(none);
    EncodeOne(Some(qc));
    SinglePayload(Smuggled(h, timestamp, tx));
    SinglePayload(tx);
    UnsignedCertificate(qc);
    TwoReadings();
    var head := BigEndian(4, v.author) + BigEndian(8, v.round) +
                BigEndian(4, |v.parents|) + EncodeAll(v.parents, EncodeHash) + BigEndian(4, 1);
    RegroupSmuggled(head, BigEndian(8, 1), BigEndian(4, 1), BigEndian(4, SMUGGLED_SIZE), [32],
                    h, BigEndian(4, 0), BigEndian(8, timestamp), BigEndian(4, 1), Prefixed(tx));
    RegroupCertificate(head, BigEndian(1, 0), BigEndian(8, 256), BigEndian(4, 257), BigEndian(4, 32),
                       h, BigEndian(4, 0), BigEndian(8, timestamp), BigEndian(4, 1), Prefixed(tx));
  }

  lemma SinglePayload(tx: Bytes)
    ensures EncodeAll([tx], Prefixed) == Prefixed(tx)
  {
    assert [tx][1..] == [];
  }

  lemma UnsignedCertificate(qc: QC)
    requires qc.signatures == map[]
    ensures EncodeQC(qc) == BigEndian(1, qc.qcType) + BigEndian(8, qc.round) + BigEndian(4, qc.proposerID) +
                            EncodeHash(qc.vertexHash) + BigEndian(4, 0)
  {
    SortedEntriesOf(qc.signatures);
    assert EncodeAll(SortedEntries(qc.signatures), EncodeSignature) == [];
  }

  lemma RegroupSmuggled(head: Bytes, a: Bytes, b: Bytes, c: Bytes, d: Bytes,
                        e: Bytes, f: Bytes, g: Bytes, h: Bytes, i: Bytes)
    ensures head + [] + a + b + (c + (d + e + f + g + h + i)) == head + (a + b + c + d) + (e + f + g + h + i)
  {
  }

  lemma RegroupCertificate(head: Bytes, a: Bytes, b: Bytes, c: Bytes, d: Bytes,
                           e: Bytes, f: Bytes, g: Bytes, h: Bytes, i: Bytes)
    ensures head + (a + b + c + (d + e) + f) + g + h + i == head + (a + b + c + d) + (e + f + g + h + i)
  {
  }
}
