/** Wrapping a private key in the PKCS#8 PrivateKeyInfo structure of
    section 5 of RFC 5208:

      PrivateKeyInfo ::= SEQUENCE {
        version             INTEGER,
        privateKeyAlgorithm AlgorithmIdentifier,
        privateKey          OCTET STRING }

    without the optional attributes, and its DER encoding as `asn1.Marshal`
    produces it. `Decode` is the strict reader that the round-trip lemmas
    use as the encoder's partner. */
module Pkcs8 {
  import opened Wrappers
  import opened Der
  import opened Crypto

  /** The `Parameters` of an AlgorithmIdentifier: left out (a zero
      `asn1.RawValue`, which is optional and so omitted) or an ASN.1 NULL. */
  datatype Parameters = Absent | Null

  datatype AlgorithmIdentifier = AlgorithmIdentifier(algorithm: seq<nat>, parameters: Parameters)

  /** The source's `pkcs8` record. */
  datatype PrivateKeyInfo = PrivateKeyInfo(version: int, algo: AlgorithmIdentifier, privateKey: seq<byte>)

  /** rsaEncryption, section 2.3.1 of RFC 3279. */
  const OidPublicKeyRSA: seq<nat> := [1, 2, 840, 113549, 1, 1, 1]
  /** id-ecPublicKey, section 2.3.5 of RFC 3279. */
  const OidPublicKeyECDSA: seq<nat> := [1, 2, 840, 10045, 2, 1]

  const RsaAlgorithm := AlgorithmIdentifier(OidPublicKeyRSA, Null)
  const EcdsaAlgorithm := AlgorithmIdentifier(OidPublicKeyECDSA, Null)

  const ErrFailedToMarshal := "x509: failed to marshal to PKCS#8: "
  const ErrUnsupportedKey := "x509: PKCS#8 only RSA and ECDSA private keys supported"
  /** The message of the `asn1.StructuralError` for an OID it cannot encode. */
  const ErrInvalidOid := "asn1: structure error: invalid object identifier"

  // ---------------------------------------------------------------------
  // DER of the record
  // ---------------------------------------------------------------------

  function EncodeParameters(p: Parameters): seq<byte>
  {
    match p
    case Absent => []
    case Null => Tlv(TagNull, [])
  }

  /** Every part of the record fits in a Go slice once encoded. */
  predicate WithinGoLimits(p: PrivateKeyInfo)
  {
    ValidOid(p.algo.algorithm) ==>
      |SignedBytes(p.version)| + |OidBody(p.algo.algorithm)| + |p.privateKey| <= MaxGoInt - 64
  }

  /** The AlgorithmIdentifier element: SEQUENCE { OID, parameters }. */
  function EncodeAlgorithm(a: AlgorithmIdentifier): seq<byte>
    requires ValidOid(a.algorithm) && |OidBody(a.algorithm)| <= MaxGoInt - 64
  {
    Tlv(TagSequence, Tlv(TagOid, OidBody(a.algorithm)) + EncodeParameters(a.parameters))
  }

  /** SEQUENCE { INTEGER version, AlgorithmIdentifier, OCTET STRING privateKey }. */
  function Encode(p: PrivateKeyInfo): (r: seq<byte>)
    requires ValidOid(p.algo.algorithm) && WithinGoLimits(p)
  {
    var version := Tlv(TagInteger, SignedBytes(p.version));
    var algo := EncodeAlgorithm(p.algo);
    var key := Tlv(TagOctetString, p.privateKey);
    Tlv(TagSequence, version + algo + key)
  }

  function DecodeAlgorithm(bs: seq<byte>): Option<AlgorithmIdentifier>
  {
    var oid :- ReadTlv(TagOid, bs);
    var arcs :- DecodeOidBody(oid.0);
    if oid.1 == [] then Some(AlgorithmIdentifier(arcs, Absent))
    else
      var params :- ReadTlv(TagNull, oid.1);
      if params.0 == [] && params.1 == [] then Some(AlgorithmIdentifier(arcs, Null)) else None
  }

  /** Reads a DER PrivateKeyInfo without attributes; None for anything else,
      including trailing octets and a record too large for `Encode`. */
  function Decode(bs: seq<byte>): Option<PrivateKeyInfo>
  {
    var outer :- ReadTlv(TagSequence, bs);
    if outer.1 != [] then None
    else
      var version :- ReadTlv(TagInteger, outer.0);
      var v :- DecodeInteger(version.0);
      var algo :- ReadTlv(TagSequence, version.1);
      var a :- DecodeAlgorithm(algo.0);
      var key :- ReadTlv(TagOctetString, algo.1);
      if key.1 != [] then None
      else
        var p := PrivateKeyInfo(v, a, key.0);
        if WithinGoLimits(p) then Some(p) else None
  }

  lemma AlgorithmRoundTrip(a: AlgorithmIdentifier, rest: seq<byte>)
    requires ValidOid(a.algorithm) && |OidBody(a.algorithm)| <= MaxGoInt
    ensures DecodeAlgorithm(Tlv(TagOid, OidBody(a.algorithm)) + EncodeParameters(a.parameters)) == Some(a)
  {
    var params := EncodeParameters(a.parameters);
    TlvRoundTrip(TagOid, OidBody(a.algorithm), params);
    OidRoundTrip(a.algorithm);
    if a.parameters == Null {
      TlvRoundTrip(TagNull, [], []);
      assert params + [] == params;
    }
  }

  /** Decoding the encoding of a record gives the record back. */
  lemma RoundTrip(p: PrivateKeyInfo)
    requires ValidOid(p.algo.algorithm) && WithinGoLimits(p)
    ensures Decode(Encode(p)) == Some(p)
  {
    var version := Tlv(TagInteger, SignedBytes(p.version));
    var algoBody := Tlv(TagOid, OidBody(p.algo.algorithm)) + EncodeParameters(p.algo.parameters);
    var algo := EncodeAlgorithm(p.algo);
    var key := Tlv(TagOctetString, p.privateKey);
    var body := version + algo + key;
    assert Encode(p) == Tlv(TagSequence, body);
    TlvRoundTrip(TagSequence, body, []);
    assert Encode(p) + [] == Encode(p);
    assert ReadTlv(TagSequence, Encode(p)) == Some((body, []));
    BodyRoundTrip(p, version, algoBody, algo, key);
  }

  lemma BodyRoundTrip(p: PrivateKeyInfo, version: seq<byte>, algoBody: seq<byte>, algo: seq<byte>, key: seq<byte>)
    requires ValidOid(p.algo.algorithm) && WithinGoLimits(p)
    requires version == Tlv(TagInteger, SignedBytes(p.version))
    requires algoBody == Tlv(TagOid, OidBody(p.algo.algorithm)) + EncodeParameters(p.algo.parameters)
    requires |algoBody| <= MaxGoInt && algo == Tlv(TagSequence, algoBody)
    requires key == Tlv(TagOctetString, p.privateKey)
    ensures ReadTlv(TagInteger, version + algo + key) == Some((SignedBytes(p.version), algo + key))
    ensures DecodeInteger(SignedBytes(p.version)) == Some(p.version)
    ensures ReadTlv(TagSequence, algo + key) == Some((algoBody, key))
    ensures DecodeAlgorithm(algoBody) == Some(p.algo)
    ensures ReadTlv(TagOctetString, key) == Some((p.privateKey, []))
  {
    assert version + algo + key == version + (algo + key);
    TlvRoundTrip(TagInteger, SignedBytes(p.version), algo + key);
    SignedRoundTrip(p.version);
    TlvRoundTrip(TagSequence, algoBody, key);
    AlgorithmRoundTrip(p.algo, []);
    TlvRoundTrip(TagOctetString, p.privateKey, []);
    assert key + [] == key;
  }

  /** The AlgorithmIdentifier reader accepts only what the encoder writes. */
  lemma AlgorithmCanonical(bs: seq<byte>, a: AlgorithmIdentifier)
    requires DecodeAlgorithm(bs) == Some(a)
    ensures ValidOid(a.algorithm) && |OidBody(a.algorithm)| <= MaxGoInt
    ensures bs == Tlv(TagOid, OidBody(a.algorithm)) + EncodeParameters(a.parameters)
  {
    var (body, rest) := ReadTlv(TagOid, bs).value;
    TlvCanonical(TagOid, bs, body, rest);
    OidCanonical(body, a.algorithm);
    if rest != [] {
      TlvCanonical(TagNull, rest, [], []);
      assert rest == Tlv(TagNull, []);
    } else {
      assert bs == Tlv(TagOid, body) + [];
    }
  }

  /** The parts `Decode` read, element by element. */
  lemma DecodeParts(bs: seq<byte>, p: PrivateKeyInfo) returns (body: seq<byte>, vc: seq<byte>, r1: seq<byte>, ac: seq<byte>, r2: seq<byte>)
    requires Decode(bs) == Some(p)
    ensures ReadTlv(TagSequence, bs) == Some((body, []))
    ensures ReadTlv(TagInteger, body) == Some((vc, r1)) && DecodeInteger(vc) == Some(p.version)
    ensures ReadTlv(TagSequence, r1) == Some((ac, r2)) && DecodeAlgorithm(ac) == Some(p.algo)
    ensures ReadTlv(TagOctetString, r2) == Some((p.privateKey, []))
    ensures WithinGoLimits(p)
  {
    body := ReadTlv(TagSequence, bs).value.0;
    vc, r1 := ReadTlv(TagInteger, body).value.0, ReadTlv(TagInteger, body).value.1;
    ac, r2 := ReadTlv(TagSequence, r1).value.0, ReadTlv(TagSequence, r1).value.1;
  }

  /** `Decode` accepts nothing but encodings: whatever it reads is a record
      `Encode` can write, and the input is exactly that record's encoding.
      With `RoundTrip`, the two are inverse bijections. */
  lemma DecodeCanonical(bs: seq<byte>, p: PrivateKeyInfo)
    requires Decode(bs) == Some(p)
    ensures ValidOid(p.algo.algorithm) && WithinGoLimits(p)
    ensures bs == Encode(p)
  {
    var body, vc, r1, ac, r2 := DecodeParts(bs, p);
    TlvCanonical(TagSequence, bs, body, []);
    TlvCanonical(TagInteger, body, vc, r1);
    IntegerCanonical(vc, p.version);
    TlvCanonical(TagSequence, r1, ac, r2);
    AlgorithmCanonical(ac, p.algo);
    TlvCanonical(TagOctetString, r2, p.privateKey, []);
    AssembleDocument(p, bs, body, r1, ac, r2);
  }

  /** The elements `Decode` found, put back together, are `Encode`'s output. */
  lemma AssembleDocument(p: PrivateKeyInfo, bs: seq<byte>, body: seq<byte>, r1: seq<byte>, ac: seq<byte>, r2: seq<byte>)
    requires ValidOid(p.algo.algorithm) && WithinGoLimits(p)
    requires |body| <= MaxGoInt && bs == Tlv(TagSequence, body) + []
    requires body == Tlv(TagInteger, SignedBytes(p.version)) + r1
    requires |ac| <= MaxGoInt && r1 == Tlv(TagSequence, ac) + r2
    requires ac == Tlv(TagOid, OidBody(p.algo.algorithm)) + EncodeParameters(p.algo.parameters)
    requires r2 == Tlv(TagOctetString, p.privateKey) + []
    ensures bs == Encode(p)
  {
    var version := Tlv(TagInteger, SignedBytes(p.version));
    var algo := EncodeAlgorithm(p.algo);
    var key := Tlv(TagOctetString, p.privateKey);
    assert r2 == key && r1 == algo + key;
    assert body == version + algo + key;
  }

  /** `asn1.Marshal` of the record: it fails only on an OID it cannot encode,
      and what it returns reads back as the record. */
  function Marshal(p: PrivateKeyInfo): (r: Result<seq<byte>, string>)
    requires WithinGoLimits(p)
    ensures r.Ok? ==> Decode(r.value) == Some(p)
    ensures r.Err? ==> !ValidOid(p.algo.algorithm) && r.error == ErrInvalidOid
  {
    if ValidOid(p.algo.algorithm) then
      RoundTrip(p);
      Ok(Encode(p))
    else
      Err(ErrInvalidOid)
  }

  /** The contents octets of the two fixed OIDs, as RFC 3279 gives them. */
  lemma KnownOidEncodings()
    ensures ValidOid(OidPublicKeyRSA) && ValidOid(OidPublicKeyECDSA)
    ensures OidBody(OidPublicKeyRSA) == RsaOidContents
    ensures OidBody(OidPublicKeyECDSA) == EcdsaOidContents
  {
    RsaOidBody();
    EcdsaOidBody();
  }

  lemma RsaOidBody()
    ensures ValidOid(OidPublicKeyRSA)
    ensures OidBody(OidPublicKeyRSA) == RsaOidContents
  {
    var oid := OidPublicKeyRSA;
    assert 40 * oid[0] + oid[1] == 42;
    Base128Small(42);
    Base128Small(1);
    Base128Of840();
    Base128Of113549();
    EncodeArcsCons(1, []);
    EncodeArcsCons(1, [1]);
    EncodeArcsCons(1, [1, 1]);
    EncodeArcsCons(113549, [1, 1, 1]);
    EncodeArcsCons(840, [113549, 1, 1, 1]);
    assert oid[2..] == [840] + [113549, 1, 1, 1];
  }

  lemma EcdsaOidBody()
    ensures ValidOid(OidPublicKeyECDSA)
    ensures OidBody(OidPublicKeyECDSA) == EcdsaOidContents
  {
    var oid := OidPublicKeyECDSA;
    assert 40 * oid[0] + oid[1] == 42;
    Base128Small(42);
    Base128Small(1);
    Base128Small(2);
    Base128Of840();
    Base128Of10045();
    EncodeArcsCons(1, []);
    EncodeArcsCons(2, [1]);
    EncodeArcsCons(10045, [2, 1]);
    EncodeArcsCons(840, [10045, 2, 1]);
    assert oid[2..] == [840] + [10045, 2, 1];
  }

  lemma Base128Small(n: nat)
    requires n < 128
    ensures Base128(n) == [n]
  {
  }

  lemma Base128Of840()
    ensures Base128(840) == [0x86, 0x48]
  {
    assert Base128Prefix(6) == [0x86];
  }

  lemma Base128Of113549()
    ensures Base128(113549) == [0x86, 0xF7, 0x0D]
  {
    assert Base128Prefix(6) == [0x86];
    assert Base128Prefix(887) == [0x86, 0xF7];
  }

  lemma Base128Of10045()
    ensures Base128(10045) == [0xCE, 0x3D]
  {
    assert Base128Prefix(78) == [0xCE];
  }

  lemma EncodeArcsCons(a: nat, t: seq<nat>)
    ensures EncodeArcs([a] + t) == Base128(a) + EncodeArcs(t)
  {
    assert ([a] + t)[1..] == t;
  }

  /** The contents octets of rsaEncryption. */
  const RsaOidContents: seq<byte> := [0x2A, 0x86, 0x48, 0x86, 0xF7, 0x0D, 0x01, 0x01, 0x01]
  /** The contents octets of id-ecPublicKey. */
  const EcdsaOidContents: seq<byte> := [0x2A, 0x86, 0x48, 0xCE, 0x3D, 0x02, 0x01]

  /** The AlgorithmIdentifier element for an RSA key:
      `30 0D 06 09 2A 86 48 86 F7 0D 01 01 01 05 00`. */
  const RsaAlgorithmBytes: seq<byte> := [0x30, 0x0D, 0x06, 0x09] + RsaOidContents + [0x05, 0x00]

  /** The AlgorithmIdentifier element for an ECDSA key:
      `30 0B 06 07 2A 86 48 CE 3D 02 01 05 00`. */
  const EcdsaAlgorithmBytes: seq<byte> := [0x30, 0x0B, 0x06, 0x07] + EcdsaOidContents + [0x05, 0x00]

  /** The AlgorithmIdentifier element for an RSA key, byte for byte. */
  lemma KnownRsaAlgorithmIdentifier()
    ensures ValidOid(RsaAlgorithm.algorithm) && |OidBody(RsaAlgorithm.algorithm)| < 0x70
    ensures EncodeAlgorithm(RsaAlgorithm) == RsaAlgorithmBytes
  {
    RsaOidBody();
    NullAlgorithmBytes(RsaAlgorithm, RsaOidContents);
  }

  /** The AlgorithmIdentifier element for an ECDSA key, byte for byte. */
  lemma KnownEcdsaAlgorithmIdentifier()
    ensures ValidOid(EcdsaAlgorithm.algorithm) && |OidBody(EcdsaAlgorithm.algorithm)| < 0x70
    ensures EncodeAlgorithm(EcdsaAlgorithm) == EcdsaAlgorithmBytes
  {
    EcdsaOidBody();
    NullAlgorithmBytes(EcdsaAlgorithm, EcdsaOidContents);
  }

  /** An AlgorithmIdentifier with a short OID and NULL parameters. */
  lemma NullAlgorithmBytes(a: AlgorithmIdentifier, body: seq<byte>)
    requires ValidOid(a.algorithm) && OidBody(a.algorithm) == body && |body| < 0x70
    requires a.parameters == Null
    ensures EncodeAlgorithm(a) == [TagSequence, |body| + 4, TagOid, |body|] + body + [TagNull, 0x00]
  {
    ShortTlv(TagNull, []);
    ShortTlv(TagOid, body);
    var inner := [TagOid, |body|] + body + [TagNull, 0x00];
    assert Tlv(TagOid, body) + EncodeParameters(Null) == inner;
    ShortTlv(TagSequence, inner);
  }

  /** Short contents take a single length octet. */
  lemma ShortTlv(tag: byte, content: seq<byte>)
    requires |content| < 0x80
    ensures Tlv(tag, content) == [tag, |content|] + content
  {
  }

  // ---------------------------------------------------------------------
  // MarshalPKCS8PrivateKey
  // ---------------------------------------------------------------------

  /** A version-0 record for a key encoding is always within the limits. */
  lemma DocumentFits(algo: AlgorithmIdentifier, payload: KeyBytes)
    requires algo == RsaAlgorithm || algo == EcdsaAlgorithm
    ensures ValidOid(algo.algorithm) && WithinGoLimits(PrivateKeyInfo(0, algo, payload))
  {
    KnownOidEncodings();
    assert SignedBytes(0) == [0];
  }

  /** Marshals a version-0 record, prefixing any error as the source does. */
  function MarshalDocument(algo: AlgorithmIdentifier, payload: KeyBytes): (r: Result<seq<byte>, string>)
    requires algo == RsaAlgorithm || algo == EcdsaAlgorithm
    ensures r.Ok? && Decode(r.value) == Some(PrivateKeyInfo(0, algo, payload))
  {
    DocumentFits(algo, payload);
    match Marshal(PrivateKeyInfo(0, algo, payload))
    case Err(e) => Err(ErrFailedToMarshal + e)
    case Ok(bs) => Ok(bs)
  }

  /** Converts a private key to its PKCS#8 DER form: an RSA key under
      rsaEncryption, an ECDSA key under id-ecPublicKey, both with NULL
      parameters, and an error for any other key and for an EC key the
      library cannot encode. */
  function MarshalPKCS8PrivateKey(lib: Library, key: PrivateKey): (r: Result<seq<byte>, string>)
    ensures r.Ok? <==> key.RSA? || (key.ECDSA? && lib.marshalECPrivateKey(key.ecdsa).Ok?)
  {
    match key
    case RSA(k) => MarshalDocument(RsaAlgorithm, lib.marshalPKCS1PrivateKey(k))
    case ECDSA(k) =>
      (match lib.marshalECPrivateKey(k)
       case Err(e) => Err(ErrFailedToMarshal + e)
       case Ok(bytes) => MarshalDocument(EcdsaAlgorithm, bytes))
    case Other(_) => Err(ErrUnsupportedKey)
  }

  /** An RSA key becomes version 0, rsaEncryption with NULL parameters, and
      exactly its PKCS#1 encoding as the payload. */
  lemma MarshalRsa(lib: Library, k: RsaPrivateKey)
    ensures var r := MarshalPKCS8PrivateKey(lib, RSA(k));
      r.Ok? && Decode(r.value) == Some(PrivateKeyInfo(0, AlgorithmIdentifier(OidPublicKeyRSA, Null), lib.marshalPKCS1PrivateKey(k)))
  {
  }

  /** The RSA document byte for byte: `30 len 02 01 00`, the rsaEncryption
      AlgorithmIdentifier with NULL, then the PKCS#1 key in an OCTET STRING. */
  lemma MarshalRsaBytes(lib: Library, k: RsaPrivateKey)
    ensures MarshalPKCS8PrivateKey(lib, RSA(k)) == Ok(Tlv(TagSequence,
      [0x02, 0x01, 0x00] + RsaAlgorithmBytes + Tlv(TagOctetString, lib.marshalPKCS1PrivateKey(k))))
  {
    MarshalRsa(lib, k);
    RsaOidBody();
    KnownRsaAlgorithmIdentifier();
    DocumentBytes(MarshalPKCS8PrivateKey(lib, RSA(k)).value, RsaAlgorithm, RsaAlgorithmBytes,
      lib.marshalPKCS1PrivateKey(k));
  }

  /** The ECDSA document byte for byte: `30 len 02 01 00`, the
      id-ecPublicKey AlgorithmIdentifier with NULL, then the EC key in an
      OCTET STRING. */
  lemma MarshalEcdsaBytes(lib: Library, k: EcdsaPrivateKey)
    requires lib.marshalECPrivateKey(k).Ok?
    ensures MarshalPKCS8PrivateKey(lib, ECDSA(k)) == Ok(Tlv(TagSequence,
      [0x02, 0x01, 0x00] + EcdsaAlgorithmBytes + Tlv(TagOctetString, lib.marshalECPrivateKey(k).value)))
  {
    MarshalEcdsa(lib, k);
    EcdsaOidBody();
    KnownEcdsaAlgorithmIdentifier();
    DocumentBytes(MarshalPKCS8PrivateKey(lib, ECDSA(k)).value, EcdsaAlgorithm, EcdsaAlgorithmBytes,
      lib.marshalECPrivateKey(k).value);
  }

  /** A document that reads as a version-0 record is the version octets,
      the AlgorithmIdentifier element and the key's OCTET STRING. */
  lemma DocumentBytes(doc: seq<byte>, algo: AlgorithmIdentifier, algoBytes: seq<byte>, payload: KeyBytes)
    requires ValidOid(algo.algorithm) && |OidBody(algo.algorithm)| < 0x70
    requires EncodeAlgorithm(algo) == algoBytes
    requires Decode(doc) == Some(PrivateKeyInfo(0, algo, payload))
    ensures doc == Tlv(TagSequence, [0x02, 0x01, 0x00] + algoBytes + Tlv(TagOctetString, payload))
  {
    var p := PrivateKeyInfo(0, algo, payload);
    DecodeCanonical(doc, p);
    assert SignedBytes(0) == [0];
    ShortTlv(TagInteger, [0]);
    var version := Tlv(TagInteger, SignedBytes(0));
    assert version == [0x02, 0x01, 0x00];
    assert doc == Tlv(TagSequence, version + EncodeAlgorithm(algo) + Tlv(TagOctetString, payload));
  }

  /** An ECDSA key becomes version 0, id-ecPublicKey with NULL parameters and
      its EC private key encoding; if that encoding fails, so does the call,
      with the library's message behind the PKCS#8 prefix. */
  lemma MarshalEcdsa(lib: Library, k: EcdsaPrivateKey)
    ensures var r := MarshalPKCS8PrivateKey(lib, ECDSA(k));
      match lib.marshalECPrivateKey(k)
      case Err(e) => r == Err(ErrFailedToMarshal + e)
      case Ok(bytes) => r.Ok? && Decode(r.value) == Some(PrivateKeyInfo(0, AlgorithmIdentifier(OidPublicKeyECDSA, Null), bytes))
  {
  }

  /** Any other kind of key is refused, with no bytes. */
  lemma MarshalOther(lib: Library, typeName: string)
    ensures MarshalPKCS8PrivateKey(lib, Other(typeName)) == Err(ErrUnsupportedKey)
  {
  }

  /** Whatever the key, a successful result is a version-0 record with NULL
      parameters. */
  lemma MarshalVersionZero(lib: Library, key: PrivateKey)
    ensures var r := MarshalPKCS8PrivateKey(lib, key);
      r.Ok? ==> Decode(r.value).Some? && Decode(r.value).value.version == 0
                && Decode(r.value).value.algo.parameters == Null
  {
    match key
    case RSA(k) =>
    case ECDSA(k) =>
    case Other(_) =>
  }

  /** Two RSA keys with different PKCS#1 encodings give different PKCS#8
      documents, so the digest input tells them apart. */
  lemma DistinctRsaKeysDistinctDocuments(lib: Library, k1: RsaPrivateKey, k2: RsaPrivateKey)
    requires lib.marshalPKCS1PrivateKey(k1) != lib.marshalPKCS1PrivateKey(k2)
    ensures MarshalPKCS8PrivateKey(lib, RSA(k1)).value != MarshalPKCS8PrivateKey(lib, RSA(k2)).value
  {
    MarshalRsa(lib, k1);
    MarshalRsa(lib, k2);
  }
}
