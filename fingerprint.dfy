/** The fingerprint of a PEM-encoded RSA private key: the SHA-1 digest of
    its PKCS#8 DER form, written as lowercase hex octets joined by colons. */
module Fingerprint {
  import opened Wrappers
  import opened Der
  import opened Crypto
  import opened Pkcs8

  /** One lowercase hex digit, as `%x` writes it. */
  function HexDigit(v: nat): char
    requires v < 16
  {
    if v < 10 then ('0' as int + v) as char else ('a' as int + v - 10) as char
  }

  predicate IsLowerHex(c: char)
  {
    '0' <= c <= '9' || 'a' <= c <= 'f'
  }

  lemma HexDigitIsLowerHex(v: nat)
    requires v < 16
    ensures IsLowerHex(HexDigit(v))
  {
  }

  /** `%x` of one byte: two lowercase hex digits, high nibble first. */
  function HexByte(b: byte): string
  {
    [HexDigit(b / 16), HexDigit(b % 16)]
  }

  /** `fmt.Sprintf("% x", bs)`: each byte in hex, a space between bytes. */
  function SprintfSpacedHex(bs: seq<byte>): string
  {
    if bs == [] then ""
    else if |bs| == 1 then HexByte(bs[0])
    else HexByte(bs[0]) + " " + SprintfSpacedHex(bs[1..])
  }

  /** `strings.Replace(s, from, to, -1)` for one-character `from` and `to`. */
  function ReplaceAll(s: string, from: char, to: char): string
  {
    seq(|s|, i requires 0 <= i < |s| => if s[i] == from then to else s[i])
  }

  /** The digest as the source renders it: spaced hex, then every space a colon. */
  function FormatDigest(d: seq<byte>): string
  {
    ReplaceAll(SprintfSpacedHex(d), ' ', ':')
  }

  // ---------------------------------------------------------------------
  // The shape of a rendered digest
  // ---------------------------------------------------------------------

  lemma ReplaceAllConcat(a: string, b: string, from: char, to: char)
    ensures ReplaceAll(a + b, from, to) == ReplaceAll(a, from, to) + ReplaceAll(b, from, to)
  {
  }

  /** One group, a colon, the rest: the colon-joined form. */
  lemma {:induction false} FormatCons(d: seq<byte>)
    requires |d| >= 1
    ensures |d| == 1 ==> FormatDigest(d) == HexByte(d[0])
    ensures |d| >= 2 ==> FormatDigest(d) == HexByte(d[0]) + ":" + FormatDigest(d[1..])
  {
    var h := HexByte(d[0]);
    assert ReplaceAll(h, ' ', ':') == h;
    if |d| >= 2 {
      ReplaceAllConcat(h + " ", SprintfSpacedHex(d[1..]), ' ', ':');
      ReplaceAllConcat(h, " ", ' ', ':');
    }
  }

  /** Character `i` of the rendering: a colon at every third place, else a
      hex digit of byte `i / 3`, high nibble first. */
  lemma {:induction false} FormatAt(d: seq<byte>, i: nat)
    requires |d| >= 1 && i < 3 * |d| - 1
    ensures |FormatDigest(d)| == 3 * |d| - 1
    ensures FormatDigest(d)[i] == if i % 3 == 2 then ':' else HexByte(d[i / 3])[i % 3]
  {
    FormatCons(d);
    if |d| >= 2 {
      if i >= 3 {
        FormatAt(d[1..], i - 3);
        assert (i - 3) / 3 == i / 3 - 1 && (i - 3) % 3 == i % 3;
      } else {
        FormatAt(d[1..], 0);
      }
    }
  }

  function CountChar(s: string, c: char): nat
  {
    if s == [] then 0 else (if s[0] == c then 1 else 0) + CountChar(s[1..], c)
  }

  lemma CountCharConcat(a: string, b: string, c: char)
    ensures CountChar(a + b, c) == CountChar(a, c) + CountChar(b, c)
  {
    if a != [] {
      assert a + b != [];
      assert (a + b)[0] == a[0];
      assert (a + b)[1..] == a[1..] + b;
      CountCharConcat(a[1..], b, c);
    } else {
      assert a + b == b;
    }
  }

  /** A rendering of n bytes holds n - 1 colons. */
  lemma {:induction false} ColonCount(d: seq<byte>)
    requires |d| >= 1
    ensures CountChar(FormatDigest(d), ':') == |d| - 1
  {
    FormatCons(d);
    var h := HexByte(d[0]);
    assert CountChar(h, ':') == 0 by {
      HexDigitIsLowerHex(d[0] / 16);
      HexDigitIsLowerHex(d[0] % 16);
      assert h[0] != ':' && h[1] != ':';
      assert h[1..][1..] == [];
      assert CountChar(h[1..], ':') == 0;
    }
    if |d| >= 2 {
      ColonCount(d[1..]);
      CountCharConcat(h + ":", FormatDigest(d[1..]), ':');
      CountCharConcat(h, ":", ':');
    }
  }

  // ---------------------------------------------------------------------
  // Reading a fingerprint back
  // ---------------------------------------------------------------------

  /** The value of one lowercase hex digit: exactly the digits `HexDigit`
      writes are read, each back to the value it was written for. */
  function HexValue(c: char): (r: Option<nat>)
    ensures r.Some? <==> IsLowerHex(c)
    ensures r.Some? ==> r.value < 16 && HexDigit(r.value) == c
  {
    if '0' <= c <= '9' then Some(c as int - '0' as int)
    else if 'a' <= c <= 'f' then Some(c as int - 'a' as int + 10)
    else None
  }

  /** Two lowercase hex digits, colon-separated groups; None for anything else. */
  function ParseFingerprint(s: string): Option<seq<byte>>
  {
    if |s| < 2 then None
    else
      var hi :- HexValue(s[0]);
      var lo :- HexValue(s[1]);
      var b: byte := hi * 16 + lo;
      if |s| == 2 then Some([b])
      else if |s| == 3 || s[2] != ':' then None
      else
        var rest :- ParseFingerprint(s[3..]);
        Some([b] + rest)
  }

  lemma HexByteValue(b: byte)
    ensures HexValue(HexByte(b)[0]) == Some(b / 16)
    ensures HexValue(HexByte(b)[1]) == Some(b % 16)
  {
  }

  /** Reading the rendering gives the digest back. */
  lemma {:induction false} FormatRoundTrip(d: seq<byte>)
    requires |d| >= 1
    ensures ParseFingerprint(FormatDigest(d)) == Some(d)
  {
    FormatCons(d);
    HexByteValue(d[0]);
    var s := FormatDigest(d);
    var h := HexByte(d[0]);
    assert s[0] == h[0] && s[1] == h[1];
    assert (d[0] / 16) * 16 + d[0] % 16 == d[0];
    if |d| >= 2 {
      var rest := FormatDigest(d[1..]);
      FormatRoundTrip(d[1..]);
      FormatAt(d[1..], 0);
      assert s == h + ":" + rest;
      assert s[2] == ':' && |s| == 3 + |rest| && |rest| >= 2;
      assert s[3..] == rest;
      assert ParseFingerprint(s) == Some([d[0]] + d[1..]);
      assert [d[0]] + d[1..] == d;
    } else {
      assert s == h;
      assert d == [d[0]];
    }
  }

  /** The reader accepts only renderings: whatever it reads is non-empty and
      renders back to the very string it read. */
  lemma {:induction false} ParseCanonical(s: string, d: seq<byte>)
    requires ParseFingerprint(s) == Some(d)
    ensures |d| >= 1 && s == FormatDigest(d)
    decreases |s|
  {
    var hi, lo := HexValue(s[0]).value, HexValue(s[1]).value;
    var b: byte := hi * 16 + lo;
    assert b / 16 == hi && b % 16 == lo;
    assert HexByte(b) == s[..2];
    assert d[0] == b;
    FormatCons(d);
    if |s| == 2 {
      assert d == [b];
    } else {
      var rest := ParseFingerprint(s[3..]).value;
      ParseCanonical(s[3..], rest);
      assert d == [b] + rest && d[1..] == rest;
      assert s == s[..2] + ":" + s[3..];
    }
  }

  /** Different digests never render alike. */
  lemma FormatInjective(d1: seq<byte>, d2: seq<byte>)
    requires |d1| >= 1 && |d2| >= 1 && FormatDigest(d1) == FormatDigest(d2)
    ensures d1 == d2
  {
    FormatRoundTrip(d1);
    FormatRoundTrip(d2);
  }

  /** A SHA-1 digest renders as 20 groups of two lowercase hex digits:
      59 characters, colons exactly at every third place, 19 of them. */
  lemma DigestShape(d: Digest)
    ensures |FormatDigest(d)| == 59
    ensures CountChar(FormatDigest(d), ':') == 19
    ensures forall i :: 0 <= i < 59 ==> (FormatDigest(d)[i] == ':') == (i % 3 == 2)
    ensures forall i :: 0 <= i < 59 && i % 3 != 2 ==> IsLowerHex(FormatDigest(d)[i])
  {
    ColonCount(d);
    FormatAt(d, 0);
    forall i | 0 <= i < 59
      ensures (FormatDigest(d)[i] == ':') == (i % 3 == 2)
      ensures i % 3 != 2 ==> IsLowerHex(FormatDigest(d)[i])
    {
      FormatAt(d, i);
    }
  }

  // ---------------------------------------------------------------------
  // GetFingerprint
  // ---------------------------------------------------------------------

  const ErrNoPemBlock := "no PEM block found"
  /** The Go runtime's message for reading a field through a nil pointer. */
  const NilDereference := "runtime error: invalid memory address or nil pointer dereference"

  /** Everything after `pem.Decode`: parse the block as PKCS#1, wrap it as
      PKCS#8, hash it, render the digest. Errors are returned unchanged. */
  function FingerprintOfBlock(lib: Library, block: PemBlock): Result<string, string>
  {
    var priv :- lib.parsePKCS1PrivateKey(block.bytes);
    var keyPKCS8 :- MarshalPKCS8PrivateKey(lib, RSA(priv));
    Ok(FormatDigest(lib.sha1Sum(keyPKCS8)))
  }

  /** What a Go call can do: return its results, or panic. */
  datatype Outcome = Returned(result: Result<string, string>) | Panicked(reason: string)

  /** `GetFingerprint` as written: `block.Bytes` is read even when
      `pem.Decode` found no block and returned nil. */
  function GetFingerprintAsWritten(lib: Library, pemFile: seq<byte>): Outcome
  {
    match lib.pemDecode(pemFile)
    case None => Panicked(NilDereference)
    case Some(block) => Returned(FingerprintOfBlock(lib, block))
  }

  /** `GetFingerprint` with the missing nil check: no block is an error. */
  function GetFingerprint(lib: Library, pemFile: seq<byte>): Result<string, string>
  {
    match lib.pemDecode(pemFile)
    case None => Err(ErrNoPemBlock)
    case Some(block) => FingerprintOfBlock(lib, block)
  }

  /** Any input without a PEM block (the empty file, say) makes the code as
      written panic instead of returning an error. */
  lemma AsWrittenPanicsWithoutBlock(lib: Library, pemFile: seq<byte>)
    requires lib.pemDecode(pemFile).None?
    ensures GetFingerprintAsWritten(lib, pemFile).Panicked?
    ensures GetFingerprint(lib, pemFile) == Err(ErrNoPemBlock)
  {
  }

  /** Wherever a block is found, the corrected function returns what the
      code as written returns. */
  lemma AsWrittenAgreesWithBlock(lib: Library, pemFile: seq<byte>)
    requires lib.pemDecode(pemFile).Some?
    ensures GetFingerprintAsWritten(lib, pemFile) == Returned(GetFingerprint(lib, pemFile))
  {
  }

  /** The fingerprint fails exactly when there is no block or the block is
      not a PKCS#1 RSA key, and then with that error and no string; the
      PKCS#8 step never fails for an RSA key. */
  lemma GetFingerprintErrors(lib: Library, pemFile: seq<byte>)
    ensures var r := GetFingerprint(lib, pemFile);
      match lib.pemDecode(pemFile)
      case None => r == Err(ErrNoPemBlock)
      case Some(block) =>
        match lib.parsePKCS1PrivateKey(block.bytes)
        case Err(e) => r == Err(e)
        case Ok(_) => r.Ok?
  {
    match lib.pemDecode(pemFile)
    case None =>
    case Some(block) =>
      match lib.parsePKCS1PrivateKey(block.bytes)
      case Err(_) =>
      case Ok(priv) => MarshalRsa(lib, priv);
  }

  /** A fingerprint is 20 colon-separated groups of two lowercase hex digits. */
  lemma GetFingerprintShape(lib: Library, pemFile: seq<byte>)
    ensures var r := GetFingerprint(lib, pemFile);
      r.Ok? ==>
        && |r.value| == 59
        && CountChar(r.value, ':') == 19
        && (forall i :: 0 <= i < 59 ==> (r.value[i] == ':') == (i % 3 == 2))
        && (forall i :: 0 <= i < 59 && i % 3 != 2 ==> IsLowerHex(r.value[i]))
  {
    match lib.pemDecode(pemFile)
    case None =>
    case Some(block) =>
      match lib.parsePKCS1PrivateKey(block.bytes)
      case Err(_) =>
      case Ok(priv) =>
        DigestShape(lib.sha1Sum(MarshalPKCS8PrivateKey(lib, RSA(priv)).value));
  }

  /** A fingerprint reads back as the SHA-1 digest, bytes in order, of a DER
      document that decodes to version 0, rsaEncryption with NULL parameters
      and exactly the key's PKCS#1 encoding. */
  lemma GetFingerprintDigest(lib: Library, pemFile: seq<byte>, block: PemBlock, priv: RsaPrivateKey)
    requires lib.pemDecode(pemFile) == Some(block)
    requires lib.parsePKCS1PrivateKey(block.bytes) == Ok(priv)
    ensures var r := GetFingerprint(lib, pemFile);
      var der := MarshalPKCS8PrivateKey(lib, RSA(priv));
      && r.Ok? && der.Ok?
      && Pkcs8.Decode(der.value) == Some(PrivateKeyInfo(0, AlgorithmIdentifier(OidPublicKeyRSA, Null), lib.marshalPKCS1PrivateKey(priv)))
      && ParseFingerprint(r.value) == Some(lib.sha1Sum(der.value))
  {
    MarshalRsa(lib, priv);
    FormatRoundTrip(lib.sha1Sum(MarshalPKCS8PrivateKey(lib, RSA(priv)).value));
  }

  /** The result depends on the input only through the key parsed from its
      block: two files holding the same key, however framed, agree. */
  lemma SameKeySameFingerprint(lib: Library, pem1: seq<byte>, pem2: seq<byte>)
    requires lib.pemDecode(pem1).Some? && lib.pemDecode(pem2).Some?
    requires lib.parsePKCS1PrivateKey(lib.pemDecode(pem1).value.bytes)
          == lib.parsePKCS1PrivateKey(lib.pemDecode(pem2).value.bytes)
    ensures GetFingerprint(lib, pem1) == GetFingerprint(lib, pem2)
  {
  }

  /** Two keys with different PKCS#1 encodings share a fingerprint only if
      SHA-1 maps two different documents to one digest. */
  lemma EqualFingerprintsNeedCollision(lib: Library, pem1: seq<byte>, pem2: seq<byte>,
                                       k1: RsaPrivateKey, k2: RsaPrivateKey)
    requires lib.pemDecode(pem1).Some? && lib.parsePKCS1PrivateKey(lib.pemDecode(pem1).value.bytes) == Ok(k1)
    requires lib.pemDecode(pem2).Some? && lib.parsePKCS1PrivateKey(lib.pemDecode(pem2).value.bytes) == Ok(k2)
    requires lib.marshalPKCS1PrivateKey(k1) != lib.marshalPKCS1PrivateKey(k2)
    requires GetFingerprint(lib, pem1) == GetFingerprint(lib, pem2)
    ensures var der1 := MarshalPKCS8PrivateKey(lib, RSA(k1)).value;
      var der2 := MarshalPKCS8PrivateKey(lib, RSA(k2)).value;
      der1 != der2 && lib.sha1Sum(der1) == lib.sha1Sum(der2)
  {
    var der1 := MarshalPKCS8PrivateKey(lib, RSA(k1)).value;
    var der2 := MarshalPKCS8PrivateKey(lib, RSA(k2)).value;
    DistinctRsaKeysDistinctDocuments(lib, k1, k2);
    FormatInjective(lib.sha1Sum(der1), lib.sha1Sum(der2));
  }
}
