/** The byte stream a vertex is hashed over. */
module Encoding {
  import opened Sorting
  import opened Hashes
  import opened Vertices

  /** SHA-256 is a parameter of the model: any function from byte streams to hashes. */
  type Sha = Bytes -> Hash

  /** The hash a vertex should carry. */
  type Digest = Vertex -> Hash

  /** The low `n` bytes of `x` in two's complement, most significant first. */
  function BigEndian(n: nat, x: int): (r: Bytes)
    ensures |r| == n
  {
    if n == 0 then [] else BigEndian(n - 1, x / 256) + [(x % 256) as byte]
  }

  function EncodeAll<T>(s: seq<T>, enc: T -> Bytes): Bytes {
    if s == [] then [] else enc(s[0]) + EncodeAll(s[1..], enc)
  }

  lemma ConcatAssociates(a: Bytes, b: Bytes, c: Bytes)
    ensures (a + b) + c == a + (b + c)
  {
  }

  lemma {:induction false} EncodeAllAppend<T>(s: seq<T>, i: nat, enc: T -> Bytes)
    requires i < |s|
    ensures EncodeAll(s[..i + 1], enc) == EncodeAll(s[..i], enc) + enc(s[i])
  {
    if i == 0 {
      assert s[..1] == [s[0]];
    } else {
      EncodeAllAppend(s[1..], i - 1, enc);
      assert s[..i + 1][1..] == s[1..][..i] && s[..i][1..] == s[1..][..i - 1];
    }
  }

  function Prefixed(b: Bytes): Bytes {
    BigEndian(4, |b|) + b
  }

  function EncodeHash(h: Hash): Bytes {
    Prefixed(h)
  }

  function EncodeSignature(entry: (int, Signature)): Bytes {
    BigEndian(4, entry.0) + Prefixed(entry.1)
  }

  function Id(i: int): int { i }

  function Entries(ids: seq<int>, sigs: map<int, Signature>): (r: seq<(int, Signature)>)
    requires forall k | 0 <= k < |ids| :: ids[k] in sigs
    ensures |r| == |ids|
    ensures forall k | 0 <= k < |ids| :: r[k] == (ids[k], sigs[ids[k]])
  {
    if ids == [] then [] else [(ids[0], sigs[ids[0]])] + Entries(ids[1..], sigs)
  }

  /** The signers in increasing order, each with its signature. */
  ghost function SortedEntries(sigs: map<int, Signature>): seq<(int, Signature)> {
    AscendingElements(sigs.Keys, Id);
    Entries(Ascending(sigs.Keys, Id), sigs)
  }

  ghost function EncodeQC(qc: QC): Bytes {
    BigEndian(1, qc.qcType) + BigEndian(8, qc.round) + BigEndian(4, qc.proposerID) +
    EncodeHash(qc.vertexHash) +
    BigEndian(4, |qc.signatures|) + EncodeAll(SortedEntries(qc.signatures), EncodeSignature)
  }

  /** A nil certificate is counted but contributes no bytes. */
  ghost function EncodeQCEntry(entry: Option<QC>): Bytes {
    match entry
    case None => []
    case Some(qc) => EncodeQC(qc)
  }

  ghost function Encode(v: Vertex): Bytes {
    BigEndian(4, v.author) + BigEndian(8, v.round) +
    BigEndian(4, |v.parents|) + EncodeAll(v.parents, EncodeHash) +
    BigEndian(4, |v.parentQCs|) + EncodeAll(v.parentQCs, EncodeQCEntry) +
    BigEndian(8, v.timestamp) +
    BigEndian(4, |v.payload|) + EncodeAll(v.payload, Prefixed)
  }

  ghost function HashOf(sha: Sha): Digest {
    v => sha(Encode(v))
  }

  /** Neither the hash nor the signature is hashed. */
  lemma EncodeIgnoresSeal(v: Vertex, h: Hash, sig: Signature)
    ensures Encode(v.(hash := h, signature := sig)) == Encode(v)
  {
  }

  /** The vertex carries the hash of its own content. */
  ghost predicate HashValid(v: Vertex, digest: Digest) {
    v.hash == digest(v)
  }

  /** Ascending in the plain order of the integers. */
  ghost predicate IncreasingInts(ids: seq<int>) {
    forall i, j | 0 <= i < j < |ids| :: ids[i] < ids[j]
  }

  lemma AscendingInts(keys: set<int>, ids: seq<int>)
    requires IncreasingInts(ids) && Elements(ids) == keys
    ensures ids == Ascending(keys, Id)
  {
    assert IncreasingBy(ids, Id);
    assert forall x :: x in ids <==> x in Elements(ids);
    AscendingIsUnique(keys, ids, Id);
  }

  /** The signatures are written in ascending order of the signers: whatever
      ascending list of them is taken, the certificate ends with its length and
      its entries, each signer with its signature. */
  lemma {:induction false} SignersAscend(qc: QC, ids: seq<int>)
    requires IncreasingInts(ids) && Elements(ids) == qc.signatures.Keys
    ensures forall k | 0 <= k < |ids| :: ids[k] in qc.signatures
    ensures EncodeQC(qc) ==
              BigEndian(1, qc.qcType) + BigEndian(8, qc.round) + BigEndian(4, qc.proposerID) + EncodeHash(qc.vertexHash) +
              BigEndian(4, |ids|) + EncodeAll(Entries(ids, qc.signatures), EncodeSignature)
  {
    AscendingInts(qc.signatures.Keys, ids);
    forall k | 0 <= k < |ids| ensures ids[k] in qc.signatures {
      assert ids[k] in Elements(ids);
    }
    AscendingLength(qc.signatures.Keys, Id);
    assert |qc.signatures| == |qc.signatures.Keys|;
  }

  lemma LastByte(n: nat, x: int, b: byte)
    ensures BigEndian(n + 1, x * 256 + b as int) == BigEndian(n, x) + [b]
  {
  }

  lemma FourBytes(x: int, a: byte, b: byte, c: byte, d: byte)
    ensures BigEndian(4, (((x * 256 + a as int) * 256 + b as int) * 256 + c as int) * 256 + d as int) == [a, b, c, d]
  {
    assert BigEndian(0, x) == [];
    LastByte(0, x, a);
    LastByte(1, x * 256 + a as int, b);
    LastByte(2, (x * 256 + a as int) * 256 + b as int, c);
    LastByte(3, ((x * 256 + a as int) * 256 + b as int) * 256 + c as int, d);
  }

  lemma SmallNumbers()
    ensures BigEndian(1, 1) == [1]
    ensures BigEndian(4, 1) == [0, 0, 0, 1] && BigEndian(4, 2) == [0, 0, 0, 2] && BigEndian(4, 4) == [0, 0, 0, 4]
    ensures BigEndian(4, 6) == [0, 0, 0, 6] && BigEndian(4, 32) == [0, 0, 0, 32] && BigEndian(4, 258) == [0, 0, 1, 2]
  {
    assert BigEndian(0, 0) == [];
    FourBytes(0, 0, 0, 0, 1);
    FourBytes(0, 0, 0, 0, 2);
    FourBytes(0, 0, 0, 0, 4);
    FourBytes(0, 0, 0, 0, 6);
    FourBytes(0, 0, 0, 0, 32);
    FourBytes(0, 0, 0, 1, 2);
  }

  lemma EightBytes(x: int, sign: byte, d: byte)
    requires x == x * 256 + sign as int
    ensures BigEndian(8, x * 256 + d as int) == [sign, sign, sign, sign, sign, sign, sign, d]
  {
    FourBytes(x, sign, sign, sign, sign);
    assert BigEndian(4, x) == [sign, sign, sign, sign];
    LastByte(4, x, sign);
    LastByte(5, x, sign);
    LastByte(6, x, sign);
    LastByte(7, x, d);
  }

  lemma WideNumbers()
    ensures BigEndian(8, 2) == [0, 0, 0, 0, 0, 0, 0, 2] && BigEndian(8, 3) == [0, 0, 0, 0, 0, 0, 0, 3]
    ensures BigEndian(8, -2) == [255, 255, 255, 255, 255, 255, 255, 254]
  {
    EightBytes(0, 0, 2);
    EightBytes(0, 0, 3);
    EightBytes(-1, 255, 254);
  }

  lemma EncodeOne<T>(x: T, enc: T -> Bytes)
    ensures EncodeAll([x], enc) == enc(x)
  {
    assert EncodeAll([], enc) == [];
  }

  lemma EncodeTwo<T>(x: T, y: T, enc: T -> Bytes)
    ensures EncodeAll([x, y], enc) == enc(x) + enc(y)
  {
    assert [x, y][1..] == [y];
    EncodeOne(y, enc);
  }

  const SAMPLE_SIGNATURES: map<int, Signature> := map[6 := [8], 4 := [9, 7]]

  lemma SampleSigners()
    ensures Elements([4, 6]) == SAMPLE_SIGNATURES.Keys
    ensures Entries([4, 6], SAMPLE_SIGNATURES) == [(4, [9, 7]), (6, [8])]
  {
  }

  lemma SampleSignatures()
    ensures EncodeSignature((4, [9, 7])) == [0, 0, 0, 4] + ([0, 0, 0, 2] + [9, 7])
    ensures EncodeSignature((6, [8])) == [0, 0, 0, 6] + ([0, 0, 0, 1] + [8])
  {
    SmallNumbers();
  }

  lemma SampleEntries()
    ensures EncodeAll(Entries([4, 6], SAMPLE_SIGNATURES), EncodeSignature) ==
              ([0, 0, 0, 4] + ([0, 0, 0, 2] + [9, 7])) + ([0, 0, 0, 6] + ([0, 0, 0, 1] + [8]))
  {
    SampleSigners();
    SampleSignatures();
    EncodeTwo((4, [9, 7]), (6, [8]), EncodeSignature);
  }

  /** A certificate of type 1 for `h`, signed by 6 and 4. */
  ghost function SampleCertificate(h: Hash): QC {
    QC(1, h, 2, 1, SAMPLE_SIGNATURES)
  }

  lemma SampleCertificateBytes(h: Hash)
    ensures EncodeQC(SampleCertificate(h)) ==
              [1] + [0, 0, 0, 0, 0, 0, 0, 2] + [0, 0, 0, 1] + ([0, 0, 0, 32] + h) +
              [0, 0, 0, 2] + (([0, 0, 0, 4] + ([0, 0, 0, 2] + [9, 7])) + ([0, 0, 0, 6] + ([0, 0, 0, 1] + [8])))
  {
    SampleSigners();
    SignersAscend(SampleCertificate(h), [4, 6]);
    SampleEntries();
    SmallNumbers();
    WideNumbers();
  }

  /** The bytes of one vertex, written out. */
  lemma SampleStream(h: Hash, own: Hash)
    ensures Encode(Vertex(258, 3, [h], [Some(SampleCertificate(h))], -2, [[1, 2]], [], own)) ==
              [0, 0, 1, 2] + [0, 0, 0, 0, 0, 0, 0, 3] +
              [0, 0, 0, 1] + ([0, 0, 0, 32] + h) +
              [0, 0, 0, 1] +
              ([1] + [0, 0, 0, 0, 0, 0, 0, 2] + [0, 0, 0, 1] + ([0, 0, 0, 32] + h) +
                [0, 0, 0, 2] + (([0, 0, 0, 4] + ([0, 0, 0, 2] + [9, 7])) + ([0, 0, 0, 6] + ([0, 0, 0, 1] + [8])))) +
              [255, 255, 255, 255, 255, 255, 255, 254] +
              [0, 0, 0, 1] + ([0, 0, 0, 2] + [1, 2])
  {
    SmallNumbers();
    WideNumbers();
    EncodeOne(h, EncodeHash);
    EncodeOne(Some(SampleCertificate(h)), EncodeQCEntry);
    EncodeOne([1, 2], Prefixed);
    SampleCertificateBytes(h);
  }

  lemma SortedKeys(found: seq<int>, keys: set<int>)
    requires Distinct(found) && forall x :: x in found <==> x in keys
    ensures var ids := Sort(found, Id);
            IncreasingInts(ids) && Elements(ids) == keys && ids == Ascending(keys, Id)
  {
    var ids := Sort(found, Id);
    SortSorts(found, Id);
    SortedDistinctIsIncreasing(found, ids, Id);
    AscendingIsUnique(keys, ids, Id);
    AscendingElements(keys, Id);
    forall i, j | 0 <= i < j < |ids| ensures ids[i] < ids[j] {
      assert Id(ids[i]) < Id(ids[j]);
    }
  }

  /** Ranges over a map in any order, then sorts: the result is the one
      increasing enumeration whatever order the runtime picked. */
  method CollectSorted(keys: set<int>) returns (ids: seq<int>)
    ensures IncreasingInts(ids) && Elements(ids) == keys
    ensures ids == Ascending(keys, Id)
  {
    var todo := keys;
    var found: seq<int> := [];
    while todo != {}
      invariant todo <= keys
      invariant forall x :: x in found <==> x in keys && x !in todo
      invariant Distinct(found)
      decreases |todo|
    {
      var k := Pick(todo);
      found := found + [k];
      todo := todo - {k};
    }
    ids := Sort(found, Id);
    SortedKeys(found, keys);
  }

  method WriteHashes(buf: Bytes, hs: seq<Hash>) returns (out: Bytes)
    ensures out == buf + EncodeAll(hs, EncodeHash)
  {
    out := buf;
    assert hs[0..] == hs;
    for i := 0 to |hs|
      invariant out + EncodeAll(hs[i..], EncodeHash) == buf + EncodeAll(hs, EncodeHash)
    {
      assert hs[i..][1..] == hs[i + 1..];
      out := out + (BigEndian(4, |hs[i]|) + hs[i]);
    }
  }

  method WriteSignatures(buf: Bytes, ids: seq<int>, sigs: map<int, Signature>) returns (out: Bytes)
    requires forall k | 0 <= k < |ids| :: ids[k] in sigs
    ensures out == buf + EncodeAll(Entries(ids, sigs), EncodeSignature)
  {
    out := buf;
    ghost var all := Entries(ids, sigs);
    assert all[0..] == all;
    for i := 0 to |ids|
      invariant out + EncodeAll(all[i..], EncodeSignature) == buf + EncodeAll(all, EncodeSignature)
    {
      assert all[i..][1..] == all[i + 1..];
      var sig := sigs[ids[i]];
      out := out + (BigEndian(4, ids[i]) + (BigEndian(4, |sig|) + sig));
    }
  }

  method EncodeCertificate(qc: QC) returns (out: Bytes)
    ensures out == EncodeQC(qc)
  {
    out := BigEndian(1, qc.qcType) + BigEndian(8, qc.round) + BigEndian(4, qc.proposerID);
    out := out + (BigEndian(4, |qc.vertexHash|) + qc.vertexHash);
    var ids := CollectSorted(qc.signatures.Keys);
    AscendingElements(qc.signatures.Keys, Id);
    out := out + BigEndian(4, |qc.signatures|);
    out := WriteSignatures(out, ids, qc.signatures);
  }

  method EncodeEntry(entry: Option<QC>) returns (out: Bytes)
    ensures out == EncodeQCEntry(entry)
  {
    if entry == None {
      return [];
    }
    out := EncodeCertificate(entry.value);
  }

  method WriteCertificates(buf: Bytes, qcs: seq<Option<QC>>) returns (out: Bytes)
    ensures out == buf + EncodeAll(qcs, EncodeQCEntry)
  {
    out := buf;
    ghost var written: Bytes := [];
    assert qcs[..0] == [];
    for i := 0 to |qcs|
      invariant out == buf + written && written == EncodeAll(qcs[..i], EncodeQCEntry)
    {
      var one := EncodeEntry(qcs[i]);
      EncodeAllAppend(qcs, i, EncodeQCEntry);
      ConcatAssociates(buf, written, one);
      out := out + one;
      written := written + one;
    }
    assert qcs[..|qcs|] == qcs;
  }

  method WritePayload(buf: Bytes, payload: seq<Bytes>) returns (out: Bytes)
    ensures out == buf + EncodeAll(payload, Prefixed)
  {
    out := buf;
    assert payload[0..] == payload;
    for i := 0 to |payload|
      invariant out + EncodeAll(payload[i..], Prefixed) == buf + EncodeAll(payload, Prefixed)
    {
      assert payload[i..][1..] == payload[i + 1..];
      out := out + (BigEndian(4, |payload[i]|) + payload[i]);
    }
  }

  method CalculateHash(v: Vertex, sha: Sha) returns (h: Hash)
    ensures h == HashOf(sha)(v)
  {
    var buf := BigEndian(4, v.author) + BigEndian(8, v.round);
    buf := buf + BigEndian(4, |v.parents|);
    buf := WriteHashes(buf, v.parents);
    buf := buf + BigEndian(4, |v.parentQCs|);
    buf := WriteCertificates(buf, v.parentQCs);
    buf := buf + BigEndian(8, v.timestamp);
    buf := buf + BigEndian(4, |v.payload|);
    buf := WritePayload(buf, v.payload);
    assert buf == Encode(v);
    h := sha(buf);
  }
}
