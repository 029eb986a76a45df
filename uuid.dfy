/**
  The part of the `uuid` crate that the core relies on: the 16-byte
  identifier with its version and variant fields, the four well-known
  namespace IDs of RFC 4122 Appendix C, the three text renderings of
  section 4 of RFC 9562 (simple, hyphenated, braced) and name-based SHA-1
  construction (section 5.5 of RFC 9562), with the SHA-1 digest itself
  given as a parameter.
*/
module UuidLib {
  import opened Wrappers
  import opened Ascii
  import opened Hex

  /** A UUID: 16 octets in network byte order. */
  type Uuid = s: seq<Byte> | |s| == 16 witness [0, 0, 0, 0, 0, 0, 0, 0, 0, 0, 0, 0, 0, 0, 0, 0]

  /** A SHA-1 digest: 20 octets. */
  type Digest = s: seq<Byte> | |s| == 20
    witness [0, 0, 0, 0, 0, 0, 0, 0, 0, 0, 0, 0, 0, 0, 0, 0, 0, 0, 0, 0]

  /** The version field: the high nibble of octet 6, the 13th hex digit of the simple form. */
  function Version(u: Uuid): (v: int)
    ensures 0 <= v < 16
    ensures v == Nibble(u, 12)
  {
    u[6] / 16
  }

  /** The variant field holds the RFC pattern: the two high bits of octet 8 are 10. */
  predicate IsRfcVariant(u: Uuid)
    ensures IsRfcVariant(u) <==> 0x80 <= u[8] < 0xc0
  {
    u[8] / 64 == 2
  }

  const NamespaceDns: Uuid :=
    [0x6b, 0xa7, 0xb8, 0x10, 0x9d, 0xad, 0x11, 0xd1, 0x80, 0xb4, 0x00, 0xc0, 0x4f, 0xd4, 0x30, 0xc8]
  const NamespaceUrl: Uuid :=
    [0x6b, 0xa7, 0xb8, 0x11, 0x9d, 0xad, 0x11, 0xd1, 0x80, 0xb4, 0x00, 0xc0, 0x4f, 0xd4, 0x30, 0xc8]
  const NamespaceOid: Uuid :=
    [0x6b, 0xa7, 0xb8, 0x12, 0x9d, 0xad, 0x11, 0xd1, 0x80, 0xb4, 0x00, 0xc0, 0x4f, 0xd4, 0x30, 0xc8]
  const NamespaceX500: Uuid :=
    [0x6b, 0xa7, 0xb8, 0x14, 0x9d, 0xad, 0x11, 0xd1, 0x80, 0xb4, 0x00, 0xc0, 0x4f, 0xd4, 0x30, 0xc8]

  // ---------------------------------------------------------------------
  // Text renderings

  /** `as_simple()`: the 32 lowercase hex digits of the octets. */
  function Simple(u: Uuid): (s: string)
    ensures IsSimpleShape(s, false)
  {
    Encode(u)
  }

  /** `to_string()`: the five field groups 8-4-4-4-12 in lowercase hex, joined by '-'. */
  function Hyphenated(u: Uuid): (s: string)
    ensures |s| == 36 && s[8] == '-' && s[13] == '-' && s[18] == '-' && s[23] == '-'
  {
    Encode(u[..4]) + "-" + Encode(u[4..6]) + "-" + Encode(u[6..8]) + "-"
      + Encode(u[8..10]) + "-" + Encode(u[10..])
  }

  /** `braced()`: the hyphenated form between '{' and '}'. */
  function Braced(u: Uuid): (s: string)
    ensures |s| == 38 && s[0] == '{' && s[37] == '}' && s[1..37] == Hyphenated(u)
  {
    "{" + Hyphenated(u) + "}"
  }

  predicate IsHexDigitOfCase(c: char, upper: bool) {
    if upper then IsUpperHexDigit(c) else IsLowerHexDigit(c)
  }

  predicate IsHyphenPosition(k: int) { k == 8 || k == 13 || k == 18 || k == 23 }

  /** `[0-9a-f]{8}-[0-9a-f]{4}-[0-9a-f]{4}-[0-9a-f]{4}-[0-9a-f]{12}`, or its uppercase alphabet. */
  predicate IsHyphenatedShape(s: string, upper: bool) {
    |s| == 36 &&
    forall k :: 0 <= k < |s| ==> if IsHyphenPosition(k) then s[k] == '-' else IsHexDigitOfCase(s[k], upper)
  }

  /** `[0-9a-f]{32}`, or its uppercase alphabet. */
  predicate IsSimpleShape(s: string, upper: bool) {
    |s| == 32 && forall k :: 0 <= k < |s| ==> IsHexDigitOfCase(s[k], upper)
  }

  /** The simple form is 32 lowercase hex digits, two per octet, high nibble first. */
  lemma SimpleShape(u: Uuid)
    ensures IsSimpleShape(Simple(u), false)
    ensures forall i :: 0 <= i < 16 ==>
      Simple(u)[2 * i] == HexDigit(u[i] / 16) && Simple(u)[2 * i + 1] == HexDigit(u[i] % 16)
  {
    forall i | 0 <= i < 16
      ensures Simple(u)[2 * i] == HexDigit(u[i] / 16) && Simple(u)[2 * i + 1] == HexDigit(u[i] % 16)
    {
      assert Nibble(u, 2 * i) == u[i] / 16;
      assert Nibble(u, 2 * i + 1) == u[i] % 16;
    }
  }

  /** The hyphenated form has '-' at 8, 13, 18 and 23, lowercase hex digits elsewhere,
      and the version nibble's digit at index 14. */
  lemma {:induction false} HyphenatedShape(u: Uuid)
    ensures IsHyphenatedShape(Hyphenated(u), false)
    ensures Hyphenated(u)[14] == HexDigit(Version(u))
  {
    var g1, g2, g3, g4, g5 := Encode(u[..4]), Encode(u[4..6]), Encode(u[6..8]), Encode(u[8..10]), Encode(u[10..]);
    var s := Hyphenated(u);
    assert s == g1 + "-" + g2 + "-" + g3 + "-" + g4 + "-" + g5;
    forall k | 0 <= k < 36
      ensures if IsHyphenPosition(k) then s[k] == '-' else IsLowerHexDigit(s[k])
    {
      if k < 8 { assert s[k] == g1[k]; }
      else if k == 8 { }
      else if k < 13 { assert s[k] == g2[k - 9]; }
      else if k == 13 { }
      else if k < 18 { assert s[k] == g3[k - 14]; }
      else if k == 18 { }
      else if k < 23 { assert s[k] == g4[k - 19]; }
      else if k == 23 { }
      else { assert s[k] == g5[k - 24]; }
    }
    assert s[14] == g3[0];
    assert Nibble(u[6..8], 0) == u[6] / 16;
  }

  /** Uppercasing a lowercase shape gives the same shape in the uppercase alphabet. */
  lemma UpperOfShapes(s: string)
    ensures IsSimpleShape(s, false) ==> IsSimpleShape(AsciiUpper(s), true) && HasNoUpper(s)
    ensures IsHyphenatedShape(s, false) ==> IsHyphenatedShape(AsciiUpper(s), true) && HasNoUpper(s)
  {
    if IsHyphenatedShape(s, false) {
      assert forall k :: 0 <= k < 36 && !IsHyphenPosition(k) ==> IsLowerHexDigit(s[k]);
    }
  }

  // ---------------------------------------------------------------------
  // A reference reader of the renderings, to state that none loses information

  /** The text inside a pair of enclosing braces, or the text itself when it is not braced. */
  function Unbrace(s: string): string {
    if 2 <= |s| && s[0] == '{' && s[|s| - 1] == '}' then s[1..|s| - 1] else s
  }

  /** The text with every '-' removed. */
  function RemoveHyphens(s: string): (r: string)
    ensures forall i :: 0 <= i < |r| ==> r[i] != '-'
  {
    if s == [] then []
    else (if s[0] == '-' then [] else [s[0]]) + RemoveHyphens(s[1..])
  }

  /** Read an identifier from any of the three renderings, in either case. */
  function Parse(s: string): Option<Uuid> {
    match Decode(RemoveHyphens(Unbrace(s)))
    case Some(bytes) => if |bytes| == 16 then Some(bytes) else None
    case None => None
  }

  lemma {:induction false} RemoveHyphensAppend(a: string, b: string)
    ensures RemoveHyphens(a + b) == RemoveHyphens(a) + RemoveHyphens(b)
  {
    if a == [] {
      assert a + b == b;
    } else {
      assert (a + b)[1..] == a[1..] + b;
      RemoveHyphensAppend(a[1..], b);
    }
  }

  /** Removing hyphens changes nothing in text that has none. */
  lemma {:induction false} RemoveHyphensOfHex(s: string)
    requires forall i :: 0 <= i < |s| ==> IsLowerHexDigit(s[i])
    ensures RemoveHyphens(s) == s
  {
    if s != [] {
      RemoveHyphensOfHex(s[1..]);
    }
  }

  lemma {:induction false} RemoveHyphensOfUpper(s: string)
    ensures RemoveHyphens(AsciiUpper(s)) == AsciiUpper(RemoveHyphens(s))
  {
    if s != [] {
      var u := AsciiUpper(s);
      UpperOfSlice(s, 1, |s|);
      assert u[1..] == AsciiUpper(s[1..]);
      RemoveHyphensOfUpper(s[1..]);
      var head := if s[0] == '-' then [] else [s[0]];
      UpperOfConcat(head, RemoveHyphens(s[1..]));
      assert AsciiUpper(head) == if s[0] == '-' then [] else [u[0]];
    }
  }

  /** Removing hyphens from `p + "-" + Encode(bytes)` leaves the hex digits of `bytes` intact. */
  lemma RemoveHyphensJoin(p: string, bytes: seq<Byte>)
    ensures RemoveHyphens(p + "-" + Encode(bytes)) == RemoveHyphens(p) + Encode(bytes)
  {
    var e := Encode(bytes);
    EncodeIsLowerHex(bytes);
    RemoveHyphensOfHex(e);
    var dash := "-";
    assert RemoveHyphens(dash) == [] by {
      assert dash[1..] == [];
    }
    RemoveHyphensAppend(p, dash);
    RemoveHyphensAppend(p + dash, e);
  }

  /** Without its hyphens, the hyphenated form is the simple form. */
  lemma HyphenatedWithoutHyphens(u: Uuid)
    ensures RemoveHyphens(Hyphenated(u)) == Simple(u)
  {
    EncodeIsLowerHex(u[..4]);
    RemoveHyphensOfHex(Encode(u[..4]));
    var p2 := Encode(u[..4]) + "-" + Encode(u[4..6]);
    RemoveHyphensJoin(Encode(u[..4]), u[4..6]);
    EncodeAppend(u[..4], u[4..6]);
    assert u[..4] + u[4..6] == u[..6];
    assert RemoveHyphens(p2) == Encode(u[..6]);
    var p3 := p2 + "-" + Encode(u[6..8]);
    RemoveHyphensJoin(p2, u[6..8]);
    EncodeAppend(u[..6], u[6..8]);
    assert u[..6] + u[6..8] == u[..8];
    assert RemoveHyphens(p3) == Encode(u[..8]);
    var p4 := p3 + "-" + Encode(u[8..10]);
    RemoveHyphensJoin(p3, u[8..10]);
    EncodeAppend(u[..8], u[8..10]);
    assert u[..8] + u[8..10] == u[..10];
    assert RemoveHyphens(p4) == Encode(u[..10]);
    RemoveHyphensJoin(p4, u[10..]);
    EncodeAppend(u[..10], u[10..]);
    assert u[..10] + u[10..] == u;
    assert Hyphenated(u) == p4 + "-" + Encode(u[10..]);
  }

  /** Each rendering reads back as the identifier it was made from. */
  lemma ParseRenderings(u: Uuid)
    ensures Parse(Simple(u)) == Some(u)
    ensures Parse(Hyphenated(u)) == Some(u)
    ensures Parse(Braced(u)) == Some(u)
  {
    DecodeEncode(u);
    assert Parse(Simple(u)) == Some(u) by {
      EncodeIsLowerHex(u);
      RemoveHyphensOfHex(Simple(u));
      assert Unbrace(Simple(u)) == Simple(u);
    }
    HyphenatedWithoutHyphens(u);
    assert Parse(Hyphenated(u)) == Some(u) by {
      assert Hyphenated(u)[0] == Encode(u[..4])[0];
      assert Unbrace(Hyphenated(u)) == Hyphenated(u);
    }
    assert Parse(Braced(u)) == Some(u) by {
      assert Unbrace(Braced(u)) == Hyphenated(u);
    }
  }

  /** Reading ignores the case of the hex digits. */
  lemma ParseIgnoresCase(s: string)
    ensures Parse(AsciiUpper(s)) == Parse(s)
  {
    var t := AsciiUpper(s);
    if 2 <= |s| && s[0] == '{' && s[|s| - 1] == '}' {
      UpperOfSlice(s, 1, |s| - 1);
      assert Unbrace(t) == AsciiUpper(Unbrace(s));
    } else {
      assert Unbrace(t) == t;
    }
    RemoveHyphensOfUpper(Unbrace(s));
    DecodeIgnoresCase(RemoveHyphens(Unbrace(s)));
  }

  // ---------------------------------------------------------------------
  // Name-based construction

  /** `Builder::from_sha1_bytes`: the first 16 digest octets, with the version field set
      to 5 and the variant field to the RFC pattern, every other bit kept. */
  function StampV5(d: Digest): (u: Uuid)
    ensures Version(u) == 5 && IsRfcVariant(u)
    ensures forall i :: 0 <= i < 16 && i != 6 && i != 8 ==> u[i] == d[i]
    ensures u[6] % 16 == d[6] % 16 && u[8] % 64 == d[8] % 64
  {
    d[..16][6 := 0x50 + d[6] % 16][8 := 0x80 + d[8] % 64]
  }

  /** Two digests agree on the 122 bits the stamp keeps. */
  predicate AgreeOnKeptBits(d1: Digest, d2: Digest) {
    && (forall i :: 0 <= i < 16 && i != 6 && i != 8 ==> d1[i] == d2[i])
    && d1[6] % 16 == d2[6] % 16
    && d1[8] % 64 == d2[8] % 64
  }

  /** Two stamped digests are equal exactly when the digests agree on the kept bits. */
  lemma StampV5Equal(d1: Digest, d2: Digest)
    ensures StampV5(d1) == StampV5(d2) <==> AgreeOnKeptBits(d1, d2)
  {
    var u1, u2 := StampV5(d1), StampV5(d2);
    if AgreeOnKeptBits(d1, d2) {
      assert u1[6] == u2[6] && u1[8] == u2[8];
      assert forall i :: 0 <= i < 16 ==> u1[i] == u2[i];
    }
    if u1 == u2 {
      assert forall i :: 0 <= i < 16 && i != 6 && i != 8 ==> d1[i] == u1[i] == d2[i];
    }
  }

  /** `Uuid::new_v5`: the stamped SHA-1 digest of the namespace octets followed by the name. */
  function NewV5(sha1: seq<Byte> -> Digest, namespace: Uuid, name: seq<Byte>): (u: Uuid)
    ensures Version(u) == 5 && IsRfcVariant(u)
  {
    StampV5(sha1(namespace + name))
  }
}
