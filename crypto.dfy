/** The key values and the Go library calls the fingerprinting code uses.
    The library's internals (PEM parsing, the PKCS#1 and SEC 1 key
    encoders, SHA-1) are not part of this model: they arrive as function
    values in a `Library`, and their result types carry what the code
    relies on of them. */
module Crypto {
  import opened Wrappers
  import opened Der

  /** An RSA private key as `crypto/rsa` holds it. */
  datatype RsaPrivateKey = RsaPrivateKey(
    modulus: nat, publicExponent: nat, privateExponent: nat, primes: seq<nat>)

  /** An ECDSA private key as `crypto/ecdsa` holds it. */
  datatype EcdsaPrivateKey = EcdsaPrivateKey(curve: string, d: nat, x: nat, y: nat)

  /** The dynamic type behind the `interface{}` that `MarshalPKCS8PrivateKey`
      switches on: an RSA key, an ECDSA key, or a value of any other type. */
  datatype PrivateKey =
    | RSA(rsa: RsaPrivateKey)
    | ECDSA(ecdsa: EcdsaPrivateKey)
    | Other(typeName: string)

  /** Room left in a Go slice once the PKCS#8 wrapper is added around a key. */
  const MaxKeyBytes: nat := MaxGoInt - 128

  /** The DER bytes a key encoder returns: a Go slice, short enough that the
      wrapped PKCS#8 document still is one. */
  type KeyBytes = s: seq<byte> | |s| <= MaxKeyBytes

  /** What `sha1.Sum` returns: a `[20]byte`. */
  type Digest = s: seq<byte> | |s| == 20 witness seq(20, _ => 0)

  /** What `pem.Decode` returns for a block it finds. */
  datatype PemBlock = PemBlock(blockType: string, headers: map<string, string>, bytes: seq<byte>)

  /** The library functions the code calls, each a pure function of its input:
      `pem.Decode` (None for a nil block), `x509.ParsePKCS1PrivateKey`,
      `x509.MarshalPKCS1PrivateKey`, `x509.MarshalECPrivateKey`, `sha1.Sum`. */
  datatype Library = Library(
    pemDecode: seq<byte> -> Option<PemBlock>,
    parsePKCS1PrivateKey: seq<byte> -> Result<RsaPrivateKey, string>,
    marshalPKCS1PrivateKey: RsaPrivateKey -> KeyBytes,
    marshalECPrivateKey: EcdsaPrivateKey -> Result<KeyBytes, string>,
    sha1Sum: seq<byte> -> Digest)
}
