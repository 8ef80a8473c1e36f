# onosendai key fingerprinting, modelled in Dafny

`onosendai scan` sends a blackice server an identity token: a fingerprint of
the user's private key file. `GetFingerprint` does four things in order:

1. It decodes the first PEM block.
2. It parses the block as a PKCS#1 RSA private key.
3. It re-encodes the key as a PKCS#8 `PrivateKeyInfo` with
   `MarshalPKCS8PrivateKey`.
4. It takes the SHA-1 digest of those DER bytes and prints it as lowercase
   hex octets joined by `:`.

This project models that pipeline as pure functions and proves what it
promises.

- `wrappers.dfy`: `Option` and `Result`. These stand for Go's nil and its
  `(value, error)` returns.
- `der.dfy` (module `Der`): the DER rules of ITU-T X.690 that the PKCS#8
  record needs:
  - definite-length octets (sections 8.1.3 and 10.1);
  - minimal two's-complement INTEGER contents (section 8.3);
  - base-128 OBJECT IDENTIFIER contents (section 8.19);
  - tag-length-value elements for OCTET STRING, NULL and SEQUENCE
    (sections 8.7, 8.8 and 8.9).

  Each encoder has a decoder and two lemmas:
  - decoding undoes encoding;
  - the decoder accepts nothing but what the encoder writes.
- `crypto.dfy` (module `Crypto`): the key values and the library
  collaborators.
  - The key is a closed variant: `RSA | ECDSA | Other`. It replaces the
    source's `interface{}` type switch.
  - The five library calls are function values held in a `Library`:
    `pem.Decode`, `x509.ParsePKCS1PrivateKey`,
    `x509.MarshalPKCS1PrivateKey`, `x509.MarshalECPrivateKey` and
    `sha1.Sum`. Their result types carry what the code relies on. A digest
    is exactly 20 bytes. A key encoding is a Go slice.
- `pkcs8.dfy` (module `Pkcs8`): the `pkcs8` record of RFC 5208 section 5
  and the two OIDs of RFC 3279. It holds the `asn1.Marshal` encoding of the
  record, its decoder, and `MarshalPKCS8PrivateKey`.
- `fingerprint.dfy` (module `Fingerprint`):
  - `fmt.Sprintf("% x", …)` followed by `strings.Replace(…, " ", ":", -1)`;
  - a parser that reads a fingerprint back into its digest;
  - `GetFingerprint` as written and as corrected.

## Model

| member | source | states |
|---|---|---|
| `Der.UnsignedRoundTrip` | onosendai/cmd/scan.go:218 | The long-form length octets read back, most significant first, give the length that was written. |
| `Der.LengthOctetsFit` | onosendai/cmd/scan.go:218 | Any length a Go slice can have needs at most eight long-form octets. The reserved initial octet 0xFF is therefore never produced. |
| `Der.EncodeLength` | onosendai/cmd/scan.go:218 | Length octets are 1 to 9 bytes long. A single octet (the short form) is used exactly when the length is below 128. |
| `Der.LengthRoundTrip` | onosendai/cmd/scan.go:218 | The DER length reader recovers the written length and the octets that follow. |
| `Der.LengthCanonical` | onosendai/cmd/scan.go:218 | Whatever the length reader accepts is a Go-sized length followed by exactly its DER length octets. Any other form is refused: the indefinite form, leading zero octets, or the long form for a short length. |
| `Der.TlvRoundTrip` | onosendai/cmd/scan.go:218 | An element's identifier, length and contents read back as exactly its contents, with what follows left untouched. |
| `Der.TlvCanonical` | onosendai/cmd/scan.go:218 | Whatever the element reader accepts is one element with Go-sized contents, written as `Tlv` writes it, followed by the rest. |
| `Der.SignedRoundTrip` | onosendai/cmd/scan.go:218 | INTEGER contents are minimal: the first nine bits are neither all 0 nor all 1. They decode back, as two's complement, to the integer. |
| `Der.SignedCanonical` | onosendai/cmd/scan.go:218 | Minimal two's-complement contents are exactly the octets the encoder writes for their value. |
| `Der.IntegerCanonical` | onosendai/cmd/scan.go:218 | Whatever the INTEGER reader accepts is the encoding of the integer it returns. |
| `Der.ArcRoundTrip` | onosendai/cmd/scan.go:218 | One base-128 subidentifier has no leading 0x80. It sets bit 8 on every octet but the last, and reads back as its value. |
| `Der.ArcCanonical` | onosendai/cmd/scan.go:218 | Whatever the subidentifier reader accepts is the base-128 encoding of the value it returns, followed by the rest. |
| `Der.ArcsRoundTrip` | onosendai/cmd/scan.go:218 | A run of subidentifiers decodes back to the same list of arcs. |
| `Der.ArcsCanonical` | onosendai/cmd/scan.go:218 | Whatever a run of subidentifiers decodes to, the run is exactly the encoding of those arcs. |
| `Der.OidRoundTrip` | onosendai/cmd/scan.go:218 | An OID `asn1.Marshal` accepts is encoded with its first two arcs packed as 40·a+b. Its contents decode back to the same arcs. |
| `Der.OidCanonical` | onosendai/cmd/scan.go:218 | Whatever the OID reader accepts is an OID `asn1.Marshal` accepts, and the input is exactly that OID's contents. |
| `Pkcs8.RoundTrip` | onosendai/cmd/scan.go:175-180 | The DER of SEQUENCE{INTEGER version, SEQUENCE{OID, parameters}, OCTET STRING privateKey} decodes back to the same record. |
| `Pkcs8.AlgorithmCanonical` | onosendai/cmd/scan.go:175-180 | Whatever the AlgorithmIdentifier reader accepts is a valid OID element followed by absent or NULL parameters, exactly as the encoder writes them. |
| `Pkcs8.DecodeCanonical` | onosendai/cmd/scan.go:175-180 | Whatever `Decode` accepts is a record `Encode` can write, and the input is exactly its encoding. With `Pkcs8.RoundTrip`, the decoder and encoder are inverse bijections, so a statement about `Decode` of an output fixes the output byte for byte. |
| `Pkcs8.Marshal` | onosendai/cmd/scan.go:218-223 | `asn1.Marshal` of the record fails only on an OID it cannot encode, with the asn1 structural-error text. Every byte string it returns decodes back to the record. |
| `Pkcs8.KnownOidEncodings` | onosendai/cmd/scan.go:183-184 | rsaEncryption 1.2.840.113549.1.1.1 has contents `2A 86 48 86 F7 0D 01 01 01`. id-ecPublicKey 1.2.840.10045.2.1 has contents `2A 86 48 CE 3D 02 01`. |
| `Pkcs8.KnownRsaAlgorithmIdentifier` | onosendai/cmd/scan.go:198-201 | The AlgorithmIdentifier element `Encode` writes for rsaEncryption with `nullAsn` parameters is `30 0D 06 09 2A 86 48 86 F7 0D 01 01 01 05 00`. |
| `Pkcs8.KnownEcdsaAlgorithmIdentifier` | onosendai/cmd/scan.go:209-212 | The AlgorithmIdentifier element `Encode` writes for id-ecPublicKey with `nullAsn` parameters is `30 0B 06 07 2A 86 48 CE 3D 02 01 05 00`. |
| `Pkcs8.MarshalDocument` | onosendai/cmd/scan.go:218-223 | For either fixed algorithm and any key encoding, marshalling the version-0 record succeeds. The bytes decode to that record. |
| `Pkcs8.MarshalPKCS8PrivateKey` | onosendai/cmd/scan.go:191-224 | The call succeeds exactly for an RSA key, or for an ECDSA key whose EC encoding succeeds. |
| `Pkcs8.MarshalVersionZero` | onosendai/cmd/scan.go:192-194 | Every successful output decodes to a record with version 0 and NULL algorithm parameters. |
| `Pkcs8.MarshalRsa` | onosendai/cmd/scan.go:197-202 | An RSA key always succeeds. The output decodes to version 0, OID 1.2.840.113549.1.1.1 with NULL parameters, and exactly the key's PKCS#1 bytes. |
| `Pkcs8.MarshalRsaBytes` | onosendai/cmd/scan.go:191-224 | For an RSA key the whole output is SEQUENCE{`02 01 00`, the rsaEncryption AlgorithmIdentifier bytes, OCTET STRING of the PKCS#1 key}. |
| `Pkcs8.MarshalEcdsaBytes` | onosendai/cmd/scan.go:191-224 | For an ECDSA key whose EC encoding succeeds, the whole output is SEQUENCE{`02 01 00`, the id-ecPublicKey AlgorithmIdentifier bytes, OCTET STRING of the EC key}. |
| `Pkcs8.MarshalEcdsa` | onosendai/cmd/scan.go:203-213 | If the EC encoding fails, the result is the prefixed error and no bytes. Otherwise the output decodes to version 0, OID 1.2.840.10045.2.1 with NULL parameters, and exactly the EC encoding. |
| `Pkcs8.MarshalOther` | onosendai/cmd/scan.go:214-215 | Any other kind of key gives the "only RSA and ECDSA private keys supported" error and no bytes. |
| `Pkcs8.DistinctRsaKeysDistinctDocuments` | onosendai/cmd/scan.go:197-202 | RSA keys with different PKCS#1 encodings get different PKCS#8 documents. |
| `Fingerprint.FormatCons` | onosendai/cmd/scan.go:240-241 | Spaced hex with every space replaced is the first byte's two digits, then `:`, then the rendering of the remaining bytes. |
| `Fingerprint.FormatAt` | onosendai/cmd/scan.go:240-241 | An n-byte rendering has 3n−1 characters. Character i is `:` when i mod 3 = 2. Otherwise it is the high or low hex digit of byte i/3, in byte order. |
| `Fingerprint.ColonCount` | onosendai/cmd/scan.go:240-241 | An n-byte rendering holds exactly n−1 colons. |
| `Fingerprint.FormatRoundTrip` | onosendai/cmd/scan.go:240-241 | Parsing the rendering as colon-separated lowercase hex pairs gives the digest bytes back. |
| `Fingerprint.HexValue` | onosendai/cmd/scan.go:240 | The hex-digit reader accepts exactly the lowercase digits `%x` writes, and reads each back to the value it was written for. |
| `Fingerprint.ParseCanonical` | onosendai/cmd/scan.go:240-241 | Whatever the fingerprint reader accepts is non-empty and is exactly the rendering of the bytes it returns. |
| `Fingerprint.FormatInjective` | onosendai/cmd/scan.go:240-241 | Two different digests never render to the same string. |
| `Fingerprint.DigestShape` | onosendai/cmd/scan.go:240-242 | A 20-byte SHA-1 digest renders to 59 characters. Colons sit exactly at positions 2, 5, …, 56, 19 in all, and every other character is a lowercase hex digit. |
| `Fingerprint.AsWrittenPanicsWithoutBlock` | onosendai/cmd/scan.go:228-230 | When `pem.Decode` finds no block, the code as written panics on `block.Bytes`. The corrected function returns the no-block error. |
| `Fingerprint.AsWrittenAgreesWithBlock` | onosendai/cmd/scan.go:228-242 | Whenever a block is found, the corrected function returns exactly what the code as written returns. |
| `Fingerprint.GetFingerprintErrors` | onosendai/cmd/scan.go:227-238 | The result is an error exactly when there is no block or the key parse fails. That error is passed through unchanged, with no fingerprint. The PKCS#8 step never fails for the parsed RSA key. |
| `Fingerprint.GetFingerprintShape` | onosendai/cmd/scan.go:240-242 | Every successful fingerprint has 59 characters and 19 colons at every third place, with lowercase hex digits in between. |
| `Fingerprint.GetFingerprintDigest` | onosendai/cmd/scan.go:230-242 | A successful fingerprint parses back to the SHA-1 digest, in byte order, of a DER document. That document decodes to version 0, rsaEncryption with NULL parameters and the parsed key's PKCS#1 bytes. |
| `Fingerprint.SameKeySameFingerprint` | onosendai/cmd/scan.go:227-243 | The result depends on the input only through the key parsed from its PEM block. Files that frame the same key differently get the same result. |
| `Fingerprint.EqualFingerprintsNeedCollision` | onosendai/cmd/scan.go:235-241 | Two keys with different PKCS#1 encodings share a fingerprint only if SHA-1 maps two different DER documents to the same digest. |

## Left out

- The internals of `pem.Decode`, `x509.ParsePKCS1PrivateKey`, `x509.MarshalPKCS1PrivateKey`, `x509.MarshalECPrivateKey` and `sha1.Sum` are library code. They are function values supplied in a `Library`. Only their result shapes are assumed: an optional block, a key or an error, bytes, bytes or an error, and 20 bytes.
- Collision resistance of SHA-1 is not modelled. `Fingerprint.EqualFingerprintsNeedCollision` reduces equal fingerprints for different keys to a SHA-1 collision, and stops there.
- `ec2utils.MarshalPKCS8PrivateKey` at scan.go:235 lives in another repository and is not part of this model. It is taken to behave like the local `MarshalPKCS8PrivateKey` of scan.go:191-224, and `GetFingerprint` calls the local model.
- The command wiring (`scanCmd`, `init`, `Instance`), `scanRequest` (file reading, HTTP POST, printing the response) and the unused `formatRequest` are I/O glue around the core.
- The inner structure of RSA and EC keys, and their PKCS#1 and SEC 1 encodings, belong to the library. The key records carry the fields only for readability.
- `GetFingerprint` ignores the PEM block type and always parses PKCS#1 RSA (scan.go:230). An EC or PKCS#8 key file therefore fails in the PKCS#1 parser. The ECDSA and other-key branches of `MarshalPKCS8PrivateKey` are never reached from `GetFingerprint`.
- Go's `int` is 32 or 64 bits wide, depending on the platform. The length bound `MaxGoInt` is the largest `int` on a 64-bit platform. A 32-bit build only makes the largest possible length smaller, so the bound still covers it.
- The record's version and the OID arcs are modelled as unbounded integers. The arcs are naturals; the source's two OIDs fit either way. Go's handling of negative arcs is not modelled.
- `Pkcs8.MarshalPKCS8PrivateKey`: assumes each key encoding is at most `MaxKeyBytes` (2^63 − 129) bytes. This leaves room for the wrapper inside a Go slice. Longer encodings cannot exist in Go memory, and how the code would behave on them is not modelled.
- `strings.Replace` is modelled only for the one-character search and replacement the code uses.
- `Pkcs8.Decode` is this model's own strict reader, the partner of the encoder. The source has no decoder.
  - It does not accept the optional attributes of RFC 5208.
  - It refuses a record too large for the encoder's Go length bound.
- The message `no PEM block found` in the corrected `GetFingerprint` is this model's own. The source has no error for that case (see Findings).

## Findings

| source | as written | input that shows it | evidently intended | confidence | as-written member | corrected member |
|---|---|---|---|---|---|---|
| onosendai/cmd/scan.go:228-230 | The nil block returned by `pem.Decode` is not checked, and `block.Bytes` is read anyway, so the call panics | A file with no PEM block, such as an empty identity file | Return an error with no fingerprint, as every other failure in `GetFingerprint` does | high; not executed | `Fingerprint.GetFingerprintAsWritten`, exhibited by `Fingerprint.AsWrittenPanicsWithoutBlock` | `Fingerprint.GetFingerprint`, proved in `Fingerprint.GetFingerprintErrors` and `Fingerprint.AsWrittenAgreesWithBlock` |
