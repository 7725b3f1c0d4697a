/**
 * BIP-32 hierarchical deterministic keys as bip32.go computes them: the
 * master key from a seed ("Master key generation"), the private and public
 * child key derivations ("Child key derivation (CKD) functions") and the
 * extended key serialization ("Serialization format").  HMAC-SHA512 is the
 * `hmacSha512` member of the Hashes parameter.
 */
module Bip32 {
  import opened Results
  import opened ModArith
  import opened BigEndian
  import opened Crypto
  import opened Secp256k1
  import opened Base58

  /** The reasons bip32.go returns a non-nil error. */
  datatype KeyError =
    | MasterKeyZero            // the master key's IL reads as 0
    | MasterKeyNotBelowOrder   // the master key's IL reads as n or more
    | ChildKeyNotBelowOrder    // a child's IL reads as n or more
    | ChildKeyZero             // (IL + k) mod n is 0
    | HardenedIndex            // public derivation asked for i >= 2^31

  /** A private key (big-endian bytes) with its chain code. */
  datatype PrivateChild = PrivateChild(key: seq<byte>, chain: seq<byte>)

  /** A public key point with its chain code. */
  datatype PublicChild = PublicChild(point: Point, chain: seq<byte>)

  /** The HMAC key of master key generation: the ASCII bytes of "Bitcoin seed". */
  const SeedKey: seq<byte> := [0x42, 0x69, 0x74, 0x63, 0x6F, 0x69, 0x6E, 0x20, 0x73, 0x65, 0x65, 0x64]

  /** `uint32(1) << 31`: indices from here on are hardened. */
  const Hardened: nat := 0x8000_0000

  /** The private key and chain code halves of a 64-byte HMAC output. */
  function Split(I: Digest64): (r: PrivateChild)
    ensures |r.key| == 32 && |r.chain| == 32 && r.key + r.chain == I
  {
    PrivateChild(I[..32], I[32..])
  }

  // ---------------------------------------------------------------------
  // MasterPrivateKey

  /**
   * `MasterPrivateKey(seed)`: I = HMAC-SHA512("Bitcoin seed", seed), whose
   * left half is the key unless it reads as 0 or as n or more.
   */
  function MasterPrivateKey(h: Hashes, seed: seq<byte>): (r: Result<PrivateChild, KeyError>)
    ensures var I := h.hmacSha512(SeedKey, seed);
            r.Ok? <==> 0 < BEValue(I[..32]) < N
    ensures r.Ok? ==> r.value == Split(h.hmacSha512(SeedKey, seed))
  {
    var I := h.hmacSha512(SeedKey, seed);
    var parts := Split(I);
    var il := BEValue(parts.key);
    if il == 0 then Err(MasterKeyZero)
    else if il >= N then Err(MasterKeyNotBelowOrder)
    else Ok(parts)
  }

  /**
   * A master key is a valid secp256k1 private key, the two halves rebuild
   * the HMAC output, and its public key has canonical coordinates.
   */
  lemma MasterKeyValid(h: Hashes, seed: seq<byte>)
    requires MasterPrivateKey(h, seed).Ok?
    ensures var m := MasterPrivateKey(h, seed).value;
            && 0 < BEValue(m.key) < N
            && m.key + m.chain == h.hmacSha512(SeedKey, seed)
            && Canonical(Pub(BEValue(m.key)))
  {
    var m := MasterPrivateKey(h, seed).value;
    assert m.key == h.hmacSha512(SeedKey, seed)[..32];
  }

  /** The two errors of MasterPrivateKey: 0 is tested before the order. */
  lemma MasterKeyErrors(h: Hashes, seed: seq<byte>)
    ensures var il := BEValue(h.hmacSha512(SeedKey, seed)[..32]);
            && (MasterPrivateKey(h, seed) == Err(MasterKeyZero) <==> il == 0)
            && (MasterPrivateKey(h, seed) == Err(MasterKeyNotBelowOrder) <==> il >= N)
  {
  }

  // ---------------------------------------------------------------------
  // CKDpriv, CKDpub, CKDpubFromPriv

  /**
   * CKDpriv's HMAC data: 0x00 || k || ser32(i) for a hardened index, and
   * serP(point(k)) || ser32(i) otherwise.
   */
  function PrivData(k: seq<byte>, i: uint32): (r: seq<byte>)
    ensures i >= Hardened ==> |r| == |k| + 5 && r[0] == 0 && r[1..|k| + 1] == k
    ensures i < Hardened ==> |r| == 37 && r[..33] == CompressedPadded(Pub(BEValue(k)))
    ensures BEValue(r[|r| - 4..]) == i
  {
    var r := if i >= Hardened then [0] + k + Ser32(i) else CompressedPadded(Pub(BEValue(k))) + Ser32(i);
    assert r[|r| - 4..] == Ser32(i);
    r
  }

  /** CKDpub's HMAC data: serP(K) || ser32(i). */
  function PubData(pub: Point, i: uint32): (r: seq<byte>)
    ensures |r| == 37 && r[..33] == CompressedPadded(pub) && BEValue(r[33..]) == i
  {
    var r := CompressedPadded(pub) + Ser32(i);
    assert r[33..] == Ser32(i);
    r
  }

  /**
   * Hardened and normal derivation data never coincide:
   * the first byte is 0x00 for one and the parity byte 0x02/0x03 for the other.
   */
  lemma DataSeparated(k: seq<byte>, i: uint32, j: uint32)
    requires i >= Hardened && j < Hardened
    ensures PrivData(k, i) != PrivData(k, j)
  {
    var pad := CompressedPadded(Pub(BEValue(k)));
    assert PrivData(k, j)[0] == pad[0];
  }

  /**
   * The child scalar from IL and the parent key: IL must be below n, and
   * (IL + k) mod n must not be 0.
   */
  function ChildScalar(il: nat, kpar: nat): (r: Result<nat, KeyError>)
    ensures r.Ok? <==> il < N && (il + kpar) % N != 0
    ensures r == Err(ChildKeyNotBelowOrder) <==> il >= N
    ensures r.Ok? ==> r.value == (il + kpar) % N && 0 < r.value < N
  {
    if il >= N then Err(ChildKeyNotBelowOrder)
    else
      var child := (il + kpar) % N;
      if child == 0 then Err(ChildKeyZero) else Ok(child)
  }

  /**
   * `CKDpriv(k, c, i)`: I = HMAC-SHA512(c, data); fails when IL reads as n
   * or more, otherwise the child is (IL + k) mod n, which must not be 0,
   * returned as its minimal big-endian bytes with IR as chain code.
   */
  function CKDpriv(h: Hashes, k: seq<byte>, c: seq<byte>, i: uint32): (r: Result<PrivateChild, KeyError>)
    ensures var I := h.hmacSha512(c, PrivData(k, i));
            var cs := ChildScalar(BEValue(I[..32]), BEValue(k));
            && (r.Err? <==> cs.Err?)
            && (r.Err? ==> r.error == cs.error)
            && (r.Ok? ==> BEValue(r.value.key) == cs.value && r.value.chain == I[32..])
  {
    var I := h.hmacSha512(c, PrivData(k, i));
    match ChildScalar(BEValue(I[..32]), BEValue(k))
    case Err(e) => Err(e)
    case Ok(child) => Ok(PrivateChild(MinimalBytes(child), I[32..]))
  }

  /**
   * A derived private key is a valid scalar written in at most 32 bytes with
   * no leading zero byte: shorter than 32 bytes whenever the child is below
   * 256^31, since `Bytes()` is not padded.
   */
  lemma ChildKeyFits(h: Hashes, k: seq<byte>, c: seq<byte>, i: uint32)
    requires CKDpriv(h, k, c, i).Ok?
    ensures var key := CKDpriv(h, k, c, i).value.key;
            && 0 < BEValue(key) < N
            && 0 < |key| <= 32 && key[0] != 0
            && (|key| == 32 <==> BEValue(key) >= Pow256(31))
  {
    var I := h.hmacSha512(c, PrivData(k, i));
    var child := ChildScalar(BEValue(I[..32]), BEValue(k)).value;
    assert CKDpriv(h, k, c, i).value.key == MinimalBytes(child);
    OrderBelowPrime();
    MinimalBytesFit(child, 32);
    MinimalBytesFit(child, 31);
  }

  /**
   * `CKDpub(K, c, i)`: hardened indices are refused before any hashing;
   * otherwise I = HMAC-SHA512(c, serP(K) || ser32(i)), failing when IL reads
   * as n or more and else giving K + IL*G with IR as chain code.
   */
  function CKDpub(h: Hashes, pub: Point, c: seq<byte>, i: uint32): (r: Result<PublicChild, KeyError>)
    ensures r == Err(HardenedIndex) <==> i >= Hardened
    ensures i < Hardened ==>
              var I := h.hmacSha512(c, PubData(pub, i));
              && (r.Ok? <==> BEValue(I[..32]) < N)
              && (r.Ok? ==> r.value == PublicChild(AddCorrected(pub, Pub(BEValue(I[..32]))), I[32..]))
  {
    if i >= Hardened then Err(HardenedIndex)
    else
      var I := h.hmacSha512(c, PubData(pub, i));
      var parts := Split(I);
      var il := BEValue(parts.key);
      if il >= N then Err(ChildKeyNotBelowOrder)
      else Ok(PublicChild(AddCorrected(pub, Pub(il)), parts.chain))
  }

  /**
   * `CKDpubFromPriv(k, c, i)`: CKDpriv's error unchanged, or the public key
   * of its child with the same chain code.
   */
  function CKDpubFromPriv(h: Hashes, k: seq<byte>, c: seq<byte>, i: uint32): (r: Result<PublicChild, KeyError>)
    ensures CKDpriv(h, k, c, i).Err? ==> r == Err(CKDpriv(h, k, c, i).error)
    ensures CKDpriv(h, k, c, i).Ok? ==>
              var child := CKDpriv(h, k, c, i).value;
              r == Ok(PublicChild(Pub(BEValue(child.key)), child.chain))
  {
    match CKDpriv(h, k, c, i)
    case Err(e) => Err(e)
    case Ok(child) => Ok(PublicChild(Pub(BEValue(child.key)), child.chain))
  }

  /**
   * For a normal index, public derivation from K = point(k) hashes exactly
   * what private derivation from k hashes: both refuse the same IL, and
   * when both succeed they hand out the same chain code.
   */
  lemma PubPrivSameData(h: Hashes, k: seq<byte>, c: seq<byte>, i: uint32)
    requires i < Hardened
    ensures PubData(Pub(BEValue(k)), i) == PrivData(k, i)
    ensures CKDpriv(h, k, c, i) == Err(ChildKeyNotBelowOrder) <==> CKDpub(h, Pub(BEValue(k)), c, i).Err?
    ensures CKDpriv(h, k, c, i).Ok? ==> CKDpub(h, Pub(BEValue(k)), c, i).Ok?
    ensures CKDpriv(h, k, c, i).Ok? ==>
              CKDpub(h, Pub(BEValue(k)), c, i).value.chain == CKDpubFromPriv(h, k, c, i).value.chain
  {
    var d := PrivData(k, i);
    assert d == CompressedPadded(Pub(BEValue(k))) + Ser32(i);
  }

  /** A derived public key, from either route, is a canonical point. */
  lemma DerivedPubCanonical(h: Hashes, pub: Point, k: seq<byte>, c: seq<byte>, i: uint32)
    requires Canonical(pub)
    ensures CKDpub(h, pub, c, i).Ok? ==> Canonical(CKDpub(h, pub, c, i).value.point)
    ensures CKDpubFromPriv(h, k, c, i).Ok? ==> Canonical(CKDpubFromPriv(h, k, c, i).value.point)
  {
    if CKDpub(h, pub, c, i).Ok? {
      var il := BEValue(h.hmacSha512(c, PubData(pub, i))[..32]);
      AddCorrectedCanonical(pub, Pub(il));
    }
  }

  // ---------------------------------------------------------------------
  // SerializeKey

  /** The four version bytes for (private, mainnet). */
  function Version(isPrivate: bool, mainnet: bool): (r: seq<byte>)
    ensures |r| == 4
  {
    if !isPrivate && mainnet then [0x04, 0x88, 0xB2, 0x1E]
    else if isPrivate && mainnet then [0x04, 0x88, 0xAD, 0xE4]
    else if !isPrivate && !mainnet then [0x04, 0x35, 0x87, 0xCF]
    else [0x04, 0x35, 0x83, 0x94]
  }

  /** Reading the version bytes back: (private, mainnet), or None for an unknown version. */
  function VersionKind(v: seq<byte>): Option<(bool, bool)> {
    if v == [0x04, 0x88, 0xB2, 0x1E] then Some((false, true))
    else if v == [0x04, 0x88, 0xAD, 0xE4] then Some((true, true))
    else if v == [0x04, 0x35, 0x87, 0xCF] then Some((false, false))
    else if v == [0x04, 0x35, 0x83, 0x94] then Some((true, false))
    else None
  }

  /** The version table is one-to-one: each version names one (private, mainnet) pair. */
  lemma VersionKindOfVersion(isPrivate: bool, mainnet: bool)
    ensures VersionKind(Version(isPrivate, mainnet)) == Some((isPrivate, mainnet))
  {
  }

  /** The parent field: four zeros for a master key (nil parent), else the parent's fingerprint. */
  function ParentField(h: Hashes, parent: Option<seq<byte>>): (r: seq<byte>)
    ensures |r| == 4
    ensures parent.None? ==> r == Zeros(4)
    ensures parent.Some? ==> r == Fingerprint(h, BEValue(parent.value))
  {
    match parent
    case None => Zeros(4)
    case Some(pk) => Fingerprint(h, BEValue(pk))
  }

  /**
   * The payload SerializeKey encodes: version, depth, parent field, index,
   * chain code, a 0x00 byte for a private key, then the key.  Its length is
   * 13 bytes of header, the chain code, the tag byte and the key, so only a
   * 32-byte chain code with a 32-byte private or 33-byte public key gives
   * the 78 bytes the format calls for (ParsePayload).
   */
  function Payload(h: Hashes, key: seq<byte>, chain: seq<byte>, isPrivate: bool, mainnet: bool,
                   depth: byte, parent: Option<seq<byte>>, i: uint32): (r: seq<byte>)
    ensures |r| == 13 + |chain| + (if isPrivate then 1 else 0) + |key|
    ensures |chain| == 32 ==> (|r| == 78 <==> WellSized(key, chain, isPrivate))
  {
    Version(isPrivate, mainnet) + [depth] + ParentField(h, parent) + Ser32(i) + chain
      + (if isPrivate then [0] else []) + key
  }

  /** The fields of a serialized extended key. */
  datatype Fields = Fields(
    isPrivate: bool, mainnet: bool, depth: byte, parentFingerprint: seq<byte>,
    index: nat, chain: seq<byte>, key: seq<byte>)

  /**
   * Reading a 78-byte payload back: the version decides private or public;
   * a private key must be preceded by 0x00.
   */
  function Parse(payload: seq<byte>): Option<Fields> {
    if |payload| != 78 then None
    else match VersionKind(payload[..4])
      case None => None
      case Some((isPrivate, mainnet)) =>
        if isPrivate && payload[45] != 0 then None
        else
          var key := if isPrivate then payload[46..] else payload[45..];
          Some(Fields(isPrivate, mainnet, payload[4], payload[5..9], BEValue(payload[9..13]),
                      payload[13..45], key))
  }

  /** Well-formed keys for serialization: a 32-byte chain code, 32-byte private or 33-byte public key. */
  predicate WellSized(key: seq<byte>, chain: seq<byte>, isPrivate: bool) {
    |chain| == 32 && |key| == (if isPrivate then 32 else 33)
  }

  /**
   * For well-sized keys the payload is 78 bytes and every field is read back
   * unchanged, so the layout loses nothing.
   */
  lemma ParsePayload(h: Hashes, key: seq<byte>, chain: seq<byte>, isPrivate: bool, mainnet: bool,
                     depth: byte, parent: Option<seq<byte>>, i: uint32)
    requires WellSized(key, chain, isPrivate)
    ensures |Payload(h, key, chain, isPrivate, mainnet, depth, parent, i)| == 78
    ensures Parse(Payload(h, key, chain, isPrivate, mainnet, depth, parent, i))
            == Some(Fields(isPrivate, mainnet, depth, ParentField(h, parent), i, chain, key))
  {
    var v, pf, ix := Version(isPrivate, mainnet), ParentField(h, parent), Ser32(i);
    var tag: seq<byte> := if isPrivate then [0] else [];
    var pl := Payload(h, key, chain, isPrivate, mainnet, depth, parent, i);
    PayloadSlices(pl, v, depth, pf, ix, chain, tag, key);
    VersionKindOfVersion(isPrivate, mainnet);
  }

  /** Where each field of a payload sits. */
  lemma PayloadSlices(pl: seq<byte>, v: seq<byte>, depth: byte, pf: seq<byte>, ix: seq<byte>,
                      chain: seq<byte>, tag: seq<byte>, key: seq<byte>)
    requires pl == v + [depth] + pf + ix + chain + tag + key
    requires |v| == 4 && |pf| == 4 && |ix| == 4 && |chain| == 32
    ensures pl[..4] == v && pl[4] == depth && pl[5..9] == pf && pl[9..13] == ix
    ensures pl[13..45] == chain && pl[45..45 + |tag|] == tag && pl[45 + |tag|..] == key
  {
  }

  /**
   * `SerializeKey`: the payload is built by successive appends to a byte
   * slice, then Base58Check-encoded.  A nil `parkbytes` is `None`.
   */
  method SerializeKey(h: Hashes, key: seq<byte>, chain: seq<byte>, isPrivate: bool, mainnet: bool,
                      depth: byte, parent: Option<seq<byte>>, i: uint32) returns (s: string)
    ensures s == Base58CheckOf(h, Payload(h, key, chain, isPrivate, mainnet, depth, parent, i))
  {
    var bytes: seq<byte> := [];
    if !isPrivate && mainnet {
      bytes := bytes + [0x04, 0x88, 0xB2, 0x1E];
    } else if isPrivate && mainnet {
      bytes := bytes + [0x04, 0x88, 0xAD, 0xE4];
    } else if !isPrivate && !mainnet {
      bytes := bytes + [0x04, 0x35, 0x87, 0xCF];
    } else {
      bytes := bytes + [0x04, 0x35, 0x83, 0x94];
    }
    assert bytes == Version(isPrivate, mainnet);
    bytes := bytes + [depth];
    match parent {
      case None =>
        bytes := bytes + [0, 0, 0, 0];
        assert [0, 0, 0, 0] == ParentField(h, parent);
      case Some(pk) =>
        bytes := bytes + Fingerprint(h, BEValue(pk));
    }
    bytes := bytes + Ser32(i);
    bytes := bytes + chain;
    if isPrivate {
      bytes := bytes + [0];
    }
    bytes := bytes + key;
    assert bytes == Payload(h, key, chain, isPrivate, mainnet, depth, parent, i);
    s := Base58Check(h, bytes);
  }

  /**
   * The serialized string of a well-sized key decodes to an 82-byte value
   * whose first 78 bytes parse back to the key's fields and whose last four
   * are the payload's checksum.
   */
  lemma SerializeRoundTrip(h: Hashes, key: seq<byte>, chain: seq<byte>, isPrivate: bool, mainnet: bool,
                           depth: byte, parent: Option<seq<byte>>, i: uint32)
    requires WellSized(key, chain, isPrivate)
    ensures var pl := Payload(h, key, chain, isPrivate, mainnet, depth, parent, i);
            exists v :: && Decode(Base58CheckOf(h, pl)) == Some(v)
                        && FixedBytes(v, 82) == Checksummed(h, pl)
                        && Parse(FixedBytes(v, 82)[..78])
                           == Some(Fields(isPrivate, mainnet, depth, ParentField(h, parent), i, chain, key))
  {
    var pl := Payload(h, key, chain, isPrivate, mainnet, depth, parent, i);
    ParsePayload(h, key, chain, isPrivate, mainnet, depth, parent, i);
    var full := Checksummed(h, pl);
    var v := BEValue(full);
    Base58CheckDecodes(h, pl);
    FixedBytesOfValue(full);
    assert FixedBytes(v, 82)[..78] == pl;
  }
}
