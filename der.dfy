/** The Distinguished Encoding Rules of ITU-T X.690 for the ASN.1 types a
    PKCS#8 PrivateKeyInfo is built from: definite lengths (sections 8.1.3
    and 10.1), INTEGER (8.3), OCTET STRING (8.7), NULL (8.8), SEQUENCE (8.9)
    and OBJECT IDENTIFIER (8.19). Every encoder has a decoder, a lemma that
    decoding undoes encoding, and a lemma that the decoder accepts nothing
    but what the encoder writes. */
module Der {
  import opened Wrappers

  type byte = x: int | 0 <= x < 256

  /** The largest Go `int` on a 64-bit platform: no Go slice, and so no
      length the encoder writes, is longer than this. A 32-bit build only
      lowers the largest possible length, so this bound covers it too. */
  const MaxGoInt: nat := 0x7FFF_FFFF_FFFF_FFFF

  // Identifier octets: universal class, primitive, except SEQUENCE which is constructed.
  const TagInteger: byte := 0x02
  const TagOctetString: byte := 0x04
  const TagNull: byte := 0x05
  const TagOid: byte := 0x06
  const TagSequence: byte := 0x30

  // ---------------------------------------------------------------------
  // Unsigned big-endian numbers (the long-form length octets, 8.1.3.5)
  // ---------------------------------------------------------------------

  /** The fewest octets that hold `n`, most significant first. */
  function UnsignedBytes(n: nat): (r: seq<byte>)
    ensures 1 <= |r|
    ensures n > 0 ==> r[0] != 0
    decreases n
  {
    if n < 256 then [n] else UnsignedBytes(n / 256) + [n % 256]
  }

  function UnsignedValue(s: seq<byte>): nat
  {
    if s == [] then 0 else UnsignedValue(s[..|s| - 1]) * 256 + s[|s| - 1]
  }

  lemma {:induction false} UnsignedRoundTrip(n: nat)
    ensures UnsignedValue(UnsignedBytes(n)) == n
  {
    var s := UnsignedBytes(n);
    if n < 256 {
      assert s[..|s| - 1] == [];
    } else {
      assert s[..|s| - 1] == UnsignedBytes(n / 256);
      UnsignedRoundTrip(n / 256);
    }
  }

  /** Octets without a leading zero are the fewest that hold their value. */
  lemma {:induction false} UnsignedCanonical(s: seq<byte>)
    requires |s| >= 1 && s[0] != 0
    ensures UnsignedBytes(UnsignedValue(s)) == s
    decreases |s|
  {
    var init, last := s[..|s| - 1], s[|s| - 1];
    if |s| >= 2 {
      UnsignedCanonical(init);
      var q := UnsignedValue(init);
      assert q != 0 by {
        assert UnsignedBytes(q) == init && init[0] != 0;
      }
      var n := UnsignedValue(s);
      assert n == q * 256 + last;
      assert n / 256 == q && n % 256 == last;
      assert s == init + [last];
    }
  }

  function Pow256(k: nat): nat
  {
    if k == 0 then 1 else 256 * Pow256(k - 1)
  }

  lemma {:induction false} UnsignedBytesLength(n: nat, k: nat)
    requires 1 <= k && n < Pow256(k)
    ensures |UnsignedBytes(n)| <= k
  {
    if n >= 256 {
      assert Pow256(1) == 256;
      assert k >= 2;
      var q, p := n / 256, Pow256(k - 1);
      assert q * 256 <= n < 256 * p;
      UnsignedBytesLength(n / 256, k - 1);
    }
  }

  /** A Go length needs at most eight length octets. */
  lemma LengthOctetsFit(n: nat)
    requires n <= MaxGoInt
    ensures |UnsignedBytes(n)| <= 8
  {
    assert Pow256(8) == 0x1_0000_0000_0000_0000;
    UnsignedBytesLength(n, 8);
  }

  // ---------------------------------------------------------------------
  // Length octets (8.1.3; definite form only, as 10.1 demands)
  // ---------------------------------------------------------------------

  /** Short form below 128, otherwise the long form with the fewest octets. */
  function EncodeLength(n: nat): (r: seq<byte>)
    requires n <= MaxGoInt
    ensures 1 <= |r| <= 9
    ensures (|r| == 1) == (n < 0x80)
  {
    if n < 0x80 then [n]
    else
      LengthOctetsFit(n);
      [0x80 + |UnsignedBytes(n)|] + UnsignedBytes(n)
  }

  /** Reads DER length octets; refuses the indefinite form (0x80), the
      reserved initial octet 0xFF, leading zero octets, a long form for a
      length the short form could have written, and a length no Go slice
      can have. */
  function ReadLength(bs: seq<byte>): (r: Option<(nat, seq<byte>)>)
    ensures r.Some? ==> |r.value.1| < |bs|
  {
    if bs == [] then None
    else if bs[0] < 0x80 then Some((bs[0], bs[1..]))
    else if bs[0] == 0x80 || bs[0] == 0xFF then None
    else
      var k := bs[0] - 0x80;
      if |bs| <= k || bs[1] == 0 then None
      else
        var n := UnsignedValue(bs[1..k + 1]);
        if n < 0x80 || n > MaxGoInt then None else Some((n, bs[k + 1..]))
  }

  lemma LengthRoundTrip(n: nat, rest: seq<byte>)
    requires n <= MaxGoInt
    ensures ReadLength(EncodeLength(n) + rest) == Some((n, rest))
  {
    var bs := EncodeLength(n) + rest;
    if n < 0x80 {
      assert bs[1..] == rest;
    } else {
      LengthOctetsFit(n);
      UnsignedRoundTrip(n);
      var u := UnsignedBytes(n);
      assert bs == [0x80 + |u|] + u + rest;
      assert bs[1..|u| + 1] == u;
      assert bs[|u| + 1..] == rest;
      assert bs[1] == u[0];
    }
  }

  /** The length reader accepts only what `EncodeLength` writes. */
  lemma LengthCanonical(bs: seq<byte>, n: nat, rest: seq<byte>)
    requires ReadLength(bs) == Some((n, rest))
    ensures n <= MaxGoInt && bs == EncodeLength(n) + rest
  {
    if bs[0] < 0x80 {
      assert bs == [bs[0]] + bs[1..];
    } else {
      var k := bs[0] - 0x80;
      var u := bs[1..k + 1];
      UnsignedCanonical(u);
      assert UnsignedBytes(n) == u;
      assert bs == [bs[0]] + u + bs[k + 1..];
    }
  }

  // ---------------------------------------------------------------------
  // Tag-length-value triples
  // ---------------------------------------------------------------------

  /** One element: its single identifier octet, its length, its contents. */
  function Tlv(tag: byte, content: seq<byte>): (r: seq<byte>)
    requires |content| <= MaxGoInt
    ensures |content| + 2 <= |r| <= |content| + 10
    ensures r[0] == tag
  {
    [tag] + EncodeLength(|content|) + content
  }

  /** Reads one element with identifier octet `tag`: its contents and what follows it. */
  function ReadTlv(tag: byte, bs: seq<byte>): (r: Option<(seq<byte>, seq<byte>)>)
    ensures r.Some? ==> |r.value.0| + |r.value.1| < |bs|
  {
    if bs == [] || bs[0] != tag then None
    else
      match ReadLength(bs[1..])
      case None => None
      case Some((n, rest)) =>
        if |rest| < n then None else Some((rest[..n], rest[n..]))
  }

  lemma TlvRoundTrip(tag: byte, content: seq<byte>, rest: seq<byte>)
    requires |content| <= MaxGoInt
    ensures ReadTlv(tag, Tlv(tag, content) + rest) == Some((content, rest))
  {
    var bs := Tlv(tag, content) + rest;
    assert bs[1..] == EncodeLength(|content|) + (content + rest);
    LengthRoundTrip(|content|, content + rest);
    assert (content + rest)[..|content|] == content;
    assert (content + rest)[|content|..] == rest;
  }

  /** The element reader accepts only what `Tlv` writes. */
  lemma TlvCanonical(tag: byte, bs: seq<byte>, content: seq<byte>, rest: seq<byte>)
    requires ReadTlv(tag, bs) == Some((content, rest))
    ensures |content| <= MaxGoInt && bs == Tlv(tag, content) + rest
  {
    var n, r0 := ReadTlvParts(tag, bs);
    LengthCanonical(bs[1..], n, r0);
    TlvAssemble(tag, bs, n, r0, content, rest);
  }

  lemma TlvAssemble(tag: byte, bs: seq<byte>, n: nat, r0: seq<byte>, content: seq<byte>, rest: seq<byte>)
    requires n <= MaxGoInt && n <= |r0| && content == r0[..n] && rest == r0[n..]
    requires |bs| >= 1 && bs == [tag] + bs[1..] && bs[1..] == EncodeLength(n) + r0
    ensures |content| <= MaxGoInt && bs == Tlv(tag, content) + rest
  {
    assert r0 == content + rest;
  }

  /** What `ReadTlv` read: the identifier, the length, and the octets after it. */
  lemma ReadTlvParts(tag: byte, bs: seq<byte>) returns (n: nat, r0: seq<byte>)
    requires ReadTlv(tag, bs).Some?
    ensures |bs| >= 1 && bs == [tag] + bs[1..] && ReadLength(bs[1..]) == Some((n, r0))
    ensures n <= |r0| && ReadTlv(tag, bs).value == (r0[..n], r0[n..])
  {
    n, r0 := ReadLength(bs[1..]).value.0, ReadLength(bs[1..]).value.1;
  }

  /** An element with identifier octet `tag` never starts with a different one. */
  lemma ReadTlvWrongTag(tag: byte, other: byte, content: seq<byte>, rest: seq<byte>)
    requires |content| <= MaxGoInt && tag != other
    ensures ReadTlv(other, Tlv(tag, content) + rest) == None
  {
  }

  // ---------------------------------------------------------------------
  // INTEGER contents: minimal two's complement (8.3.2)
  // ---------------------------------------------------------------------

  function Magnitude(x: int): nat
  {
    if x < 0 then -x else x
  }

  /** The fewest two's-complement octets that hold `x`, most significant first. */
  function SignedBytes(x: int): (r: seq<byte>)
    ensures 1 <= |r|
    ensures (|r| == 1) == (-128 <= x < 128)
    decreases Magnitude(x)
  {
    if -128 <= x < 128 then [x % 256]
    else
      assert Magnitude(x / 256) < Magnitude(x);
      SignedBytes(x / 256) + [x % 256]
  }

  /** Section 8.3.2: the first nine bits are neither all zero nor all one. */
  predicate MinimalSigned(s: seq<byte>)
  {
    && |s| >= 1
    && (|s| >= 2 ==> !(s[0] == 0 && s[1] < 0x80) && !(s[0] == 0xFF && s[1] >= 0x80))
  }

  function SignedValue(s: seq<byte>): int
    requires |s| >= 1
  {
    if |s| == 1 then (if s[0] < 0x80 then s[0] else s[0] - 256)
    else SignedValue(s[..|s| - 1]) * 256 + s[|s| - 1]
  }

  /** INTEGER contents to their value; None unless the encoding is minimal. */
  function DecodeInteger(s: seq<byte>): Option<int>
  {
    if MinimalSigned(s) then Some(SignedValue(s)) else None
  }

  lemma {:induction false} SignedRoundTrip(x: int)
    ensures MinimalSigned(SignedBytes(x))
    ensures SignedValue(SignedBytes(x)) == x
  {
    SignedValueOf(x);
    SignedMinimal(x);
  }

  lemma {:induction false} SignedValueOf(x: int)
    ensures SignedValue(SignedBytes(x)) == x
    decreases Magnitude(x)
  {
    var s := SignedBytes(x);
    if -128 <= x < 128 {
      if x < 0 {
        assert s[0] == x + 256;
      }
    } else {
      var q, r := x / 256, x % 256;
      assert Magnitude(q) < Magnitude(x);
      SignedValueOf(q);
      assert s[..|s| - 1] == SignedBytes(q);
      assert SignedValue(s) == q * 256 + r;
    }
  }

  lemma {:induction false} SignedMinimal(x: int)
    ensures MinimalSigned(SignedBytes(x))
    decreases Magnitude(x)
  {
    var s := SignedBytes(x);
    if !(-128 <= x < 128) {
      var q, r := x / 256, x % 256;
      assert x == q * 256 + r;
      assert s == SignedBytes(q) + [r];
      if -128 <= q < 128 {
        assert s == [q % 256, r];
        if q == 0 {
          assert x == r;
        } else if q == -1 {
          assert x == r - 256;
        } else {
          assert s[0] != 0 && s[0] != 0xFF;
        }
      } else {
        assert Magnitude(q) < Magnitude(x);
        SignedMinimal(q);
        var t := SignedBytes(q);
        assert s[0] == t[0] && s[1] == t[1];
      }
    }
  }

  /** Minimal contents are exactly the octets `SignedBytes` writes for their value. */
  lemma {:induction false} SignedCanonical(s: seq<byte>)
    requires MinimalSigned(s)
    ensures SignedBytes(SignedValue(s)) == s
    decreases |s|
  {
    if |s| >= 2 {
      var init, last := s[..|s| - 1], s[|s| - 1];
      assert MinimalSigned(init) by {
        if |init| >= 2 {
          assert init[0] == s[0] && init[1] == s[1];
        }
      }
      SignedCanonical(init);
      var q := SignedValue(init);
      var x := SignedValue(s);
      assert x == q * 256 + last;
      assert !(-128 <= x < 128) by {
        if |init| >= 2 {
          assert !(-128 <= q < 128);
        } else if q == 0 {
          assert s[0] == 0 && s[1] >= 0x80;
        } else if q == -1 {
          assert s[0] == 0xFF && s[1] < 0x80;
        }
      }
      assert x / 256 == q && x % 256 == last;
      assert s == init + [last];
    } else if s[0] >= 0x80 {
      assert SignedValue(s) % 256 == s[0];
    }
  }

  /** The INTEGER reader accepts only what `SignedBytes` writes. */
  lemma IntegerCanonical(s: seq<byte>, x: int)
    requires DecodeInteger(s) == Some(x)
    ensures s == SignedBytes(x)
  {
    SignedCanonical(s);
  }

  // ---------------------------------------------------------------------
  // OBJECT IDENTIFIER contents (8.19): subidentifiers in base 128
  // ---------------------------------------------------------------------

  /** What `asn1.Marshal` accepts: at least two arcs, the first at most 2,
      the second below 40 unless the first is 2. */
  predicate ValidOid(oid: seq<nat>)
  {
    |oid| >= 2 && oid[0] <= 2 && (oid[0] < 2 ==> oid[1] < 40)
  }

  /** The leading base-128 digits of a subidentifier, each with bit 8 set. */
  function Base128Prefix(m: nat): seq<byte>
    decreases m
  {
    if m == 0 then [] else Base128Prefix(m / 128) + [m % 128 + 0x80]
  }

  /** Every leading digit has bit 8 set, and the first is never 0x80. */
  lemma {:induction false} PrefixDigits(m: nat)
    ensures var r := Base128Prefix(m);
      && (forall i :: 0 <= i < |r| ==> r[i] >= 0x80)
      && (m > 0 ==> |r| >= 1 && r[0] > 0x80)
    decreases m
  {
    if m > 0 {
      PrefixDigits(m / 128);
      var t := Base128Prefix(m / 128);
      assert Base128Prefix(m) == t + [m % 128 + 0x80];
      if t == [] {
        assert m / 128 == 0 && m % 128 > 0;
      }
    }
  }

  /** One subidentifier: base-128 digits, most significant first, no leading
      0x80 octet, bit 8 set on every octet but the last (8.19.2). */
  function Base128(n: nat): (r: seq<byte>)
  {
    Base128Prefix(n / 128) + [n % 128]
  }

  function Base128Value(s: seq<byte>): nat
  {
    if s == [] then 0 else Base128Value(s[..|s| - 1]) * 128 + s[|s| - 1] % 128
  }

  /** The number of octets up to and including the first with bit 8 clear; 0 if none. */
  function ArcLength(bs: seq<byte>): (n: nat)
    ensures n <= |bs|
  {
    if bs == [] then 0
    else if bs[0] < 0x80 then 1
    else
      var k := ArcLength(bs[1..]);
      if k == 0 then 0 else k + 1
  }

  /** Reads one subidentifier; refuses an unterminated one and a leading 0x80. */
  function ReadArc(bs: seq<byte>): (r: Option<(nat, seq<byte>)>)
    ensures r.Some? ==> |r.value.1| < |bs|
  {
    var k := ArcLength(bs);
    if k == 0 || bs[0] == 0x80 then None else Some((Base128Value(bs[..k]), bs[k..]))
  }

  lemma {:induction false} PrefixValue(m: nat)
    ensures Base128Value(Base128Prefix(m)) == m
    decreases m
  {
    if m > 0 {
      var t := Base128Prefix(m / 128);
      PrefixValue(m / 128);
      PrefixLast(t, m % 128 + 0x80);
    }
  }

  /** The value of digits with one more digit appended. */
  lemma PrefixLast(t: seq<byte>, b: byte)
    ensures Base128Value(t + [b]) == Base128Value(t) * 128 + b % 128
  {
    assert (t + [b])[..|t|] == t;
  }

  lemma {:induction false} ArcLengthOf(p: seq<byte>, d: byte, rest: seq<byte>)
    requires forall i :: 0 <= i < |p| ==> p[i] >= 0x80
    requires d < 0x80
    ensures ArcLength(p + [d] + rest) == |p| + 1
  {
    if p != [] {
      assert (p + [d] + rest)[1..] == p[1..] + [d] + rest;
      ArcLengthOf(p[1..], d, rest);
    }
  }

  /** A subidentifier's digits, read back, give its value. */
  lemma Base128ValueOf(n: nat)
    ensures Base128Value(Base128(n)) == n
  {
    var p := Base128Prefix(n / 128);
    var b := Base128(n);
    assert b[..|b| - 1] == p;
    assert b[|b| - 1] == n % 128;
    PrefixValue(n / 128);
    assert Base128Value(b) == (n / 128) * 128 + n % 128;
  }

  lemma ArcRoundTrip(n: nat, rest: seq<byte>)
    ensures ReadArc(Base128(n) + rest) == Some((n, rest))
  {
    var p := Base128Prefix(n / 128);
    var b := Base128(n);
    var bs := b + rest;
    assert bs == p + [n % 128] + rest;
    PrefixDigits(n / 128);
    ArcLengthOf(p, n % 128, rest);
    assert ArcLength(bs) == |b|;
    assert bs[0] != 0x80 by {
      if p == [] {
        assert bs[0] == n % 128;
      } else {
        assert bs[0] == p[0];
      }
    }
    assert bs[..|b|] == b;
    assert bs[|b|..] == rest;
    Base128ValueOf(n);
  }

  function EncodeArcs(arcs: seq<nat>): seq<byte>
  {
    if arcs == [] then [] else Base128(arcs[0]) + EncodeArcs(arcs[1..])
  }

  function DecodeArcs(bs: seq<byte>): Option<seq<nat>>
    decreases |bs|
  {
    if bs == [] then Some([])
    else
      var arc :- ReadArc(bs);
      var tail :- DecodeArcs(arc.1);
      Some([arc.0] + tail)
  }

  lemma {:induction false} ArcsRoundTrip(arcs: seq<nat>)
    ensures DecodeArcs(EncodeArcs(arcs)) == Some(arcs)
  {
    if arcs != [] {
      ArcRoundTrip(arcs[0], EncodeArcs(arcs[1..]));
      ArcsRoundTrip(arcs[1..]);
      assert [arcs[0]] + arcs[1..] == arcs;
    }
  }

  /** The contents octets of an OBJECT IDENTIFIER: the first two arcs share
      one subidentifier, 40 * first + second (8.19.4). */
  function OidBody(oid: seq<nat>): seq<byte>
    requires ValidOid(oid)
  {
    Base128(40 * oid[0] + oid[1]) + EncodeArcs(oid[2..])
  }

  /** Splits the first subidentifier back into two arcs as X.690 8.19.4 does. */
  function DecodeOidBody(bs: seq<byte>): Option<seq<nat>>
  {
    if bs == [] then None
    else
      var first :- ReadArc(bs);
      var tail :- DecodeArcs(first.1);
      Some(SplitFirst(first.0) + tail)
  }

  lemma OidRoundTrip(oid: seq<nat>)
    requires ValidOid(oid)
    ensures DecodeOidBody(OidBody(oid)) == Some(oid)
  {
    var a, b, arcs := oid[0], oid[1], oid[2..];
    var v := 40 * a + b;
    calc {
      DecodeOidBody(OidBody(oid));
      DecodeOidBody(Base128(v) + EncodeArcs(arcs));
      { DecodeOidBodyOf(v, arcs); }
      Some(SplitFirst(v) + arcs);
      { SplitFirstOf(a, b); }
      Some([a, b] + arcs);
      { assert [a, b] + arcs == oid; }
      Some(oid);
    }
  }

  /** The first subidentifier and the rest, read back. */
  lemma DecodeOidBodyOf(v: nat, arcs: seq<nat>)
    ensures DecodeOidBody(Base128(v) + EncodeArcs(arcs)) == Some(SplitFirst(v) + arcs)
  {
    var tail := EncodeArcs(arcs);
    ArcRoundTrip(v, tail);
    ArcsRoundTrip(arcs);
  }

  /** The first two arcs recovered from their shared subidentifier. */
  function SplitFirst(v: nat): seq<nat>
  {
    if v < 80 then [v / 40, v % 40] else [2, v - 80]
  }

  lemma SplitFirstOf(a: nat, b: nat)
    requires a <= 2 && (a < 2 ==> b < 40)
    ensures SplitFirst(40 * a + b) == [a, b]
  {
    if a == 0 {
      assert 40 * a + b == b;
    } else if a == 1 {
      assert 40 * a + b == 40 + b;
    }
  }

  // ---------------------------------------------------------------------
  // The OID readers accept only what the encoders write
  // ---------------------------------------------------------------------

  /** Up to the length `ArcLength` finds, every octet but the last has bit 8 set. */
  lemma {:induction false} ArcLengthShape(bs: seq<byte>)
    requires ArcLength(bs) > 0
    ensures bs[ArcLength(bs) - 1] < 0x80
    ensures forall i :: 0 <= i < ArcLength(bs) - 1 ==> bs[i] >= 0x80
  {
    if bs[0] >= 0x80 {
      ArcLengthShape(bs[1..]);
      var k := ArcLength(bs[1..]);
      assert ArcLength(bs) == k + 1;
      forall i | 0 <= i < k
        ensures bs[i] >= 0x80
      {
        if i > 0 {
          assert bs[i] == bs[1..][i - 1];
        }
      }
    }
  }

  /** Leading digits with bit 8 set and no leading 0x80 are the ones
      `Base128Prefix` writes for their value. */
  lemma {:induction false} PrefixCanonical(p: seq<byte>)
    requires forall i :: 0 <= i < |p| ==> p[i] >= 0x80
    requires p != [] ==> p[0] != 0x80
    ensures Base128Prefix(Base128Value(p)) == p
    decreases |p|
  {
    if p != [] {
      var init := p[..|p| - 1];
      if init != [] {
        assert init[0] == p[0];
        PrefixCanonical(init);
      }
      PrefixAppend(init, p[|p| - 1]);
      assert init + [p[|p| - 1]] == p;
    }
  }

  /** Appending a digit with bit 8 set to digits `Base128Prefix` writes. */
  lemma PrefixAppend(init: seq<byte>, last: byte)
    requires init != [] ==> Base128Prefix(Base128Value(init)) == init
    requires last >= 0x80 && (init == [] ==> last > 0x80)
    ensures Base128Prefix(Base128Value(init + [last])) == init + [last]
  {
    PrefixLast(init, last);
    var q := Base128Value(init);
    assert Base128Prefix(q) == init && (q > 0 || init == []);
    var d := last - 0x80;
    assert last % 128 == d;
    PrefixStep(q, d);
  }

  /** One more digit on a non-zero value. */
  lemma PrefixStep(q: nat, d: nat)
    requires d < 128 && (q > 0 || d > 0)
    ensures Base128Prefix(q * 128 + d) == Base128Prefix(q) + [d + 0x80]
  {
    var m := q * 128 + d;
    assert m / 128 == q && m % 128 == d;
  }

  /** The subidentifier reader accepts only what `Base128` writes. */
  lemma ArcCanonical(bs: seq<byte>, n: nat, rest: seq<byte>)
    requires ReadArc(bs) == Some((n, rest))
    ensures bs == Base128(n) + rest
  {
    var k := ArcLength(bs);
    ArcLengthShape(bs);
    var s := bs[..k];
    var p, d := s[..k - 1], s[k - 1];
    assert s == p + [d];
    PrefixCanonical(p);
    PrefixLast(p, d);
    assert n == Base128Value(p) * 128 + d;
    assert n / 128 == Base128Value(p) && n % 128 == d;
    assert bs == s + rest;
  }

  /** The reader of a run of subidentifiers accepts only what `EncodeArcs` writes. */
  lemma {:induction false} ArcsCanonical(bs: seq<byte>, arcs: seq<nat>)
    requires DecodeArcs(bs) == Some(arcs)
    ensures bs == EncodeArcs(arcs)
    decreases |bs|
  {
    if bs != [] {
      var (n, rest) := ReadArc(bs).value;
      var tail := DecodeArcs(rest).value;
      ArcCanonical(bs, n, rest);
      ArcsCanonical(rest, tail);
      assert arcs == [n] + tail;
      assert arcs[1..] == tail;
    }
  }

  /** Every shared subidentifier splits into two arcs `ValidOid` accepts,
      and packing them again gives it back. */
  lemma SplitFirstValid(v: nat)
    ensures var f := SplitFirst(v);
      |f| == 2 && f[0] <= 2 && (f[0] < 2 ==> f[1] < 40) && 40 * f[0] + f[1] == v
  {
  }

  /** The OID reader accepts only what `OidBody` writes, and only for OIDs
      `ValidOid` accepts. */
  lemma OidCanonical(bs: seq<byte>, oid: seq<nat>)
    requires DecodeOidBody(bs) == Some(oid)
    ensures ValidOid(oid) && bs == OidBody(oid)
  {
    var (v, rest) := ReadArc(bs).value;
    var tail := DecodeArcs(rest).value;
    ArcCanonical(bs, v, rest);
    ArcsCanonical(rest, tail);
    SplitFirstValid(v);
    assert oid == SplitFirst(v) + tail;
    assert oid[2..] == tail;
  }
}
