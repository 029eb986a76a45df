/**
  The core of the identifier generator (core/src/lib.rs): name-based (v5)
  generation with its namespace lookup, and the formatter with its three
  output shapes and optional uppercasing.
*/
module CoreLib {
  import opened Wrappers
  import opened Ascii
  import opened Hex
  import opened UuidLib

  /** The four well-known namespaces a v5 identifier can be scoped by. */
  datatype Namespace = Dns | Url | Oid | X500

  /** The namespace ID of RFC 4122 Appendix C. */
  function NamespaceId(ns: Namespace): (id: Uuid)
    ensures Version(id) == 1 && IsRfcVariant(id)
  {
    match ns
    case Dns => NamespaceDns
    case Url => NamespaceUrl
    case Oid => NamespaceOid
    case X500 => NamespaceX500
  }

  /** The namespace named by `namespace`: "url", "oid" and "x500" are recognised in any
      ASCII case, and every other name, "dns" in any case, the empty name and typos
      included, falls back to DNS. */
  function ResolveNamespace(namespace: string): (ns: Namespace)
    ensures ns == Url <==> EqualsIgnoreAsciiCase(namespace, "url")
    ensures ns == Oid <==> EqualsIgnoreAsciiCase(namespace, "oid")
    ensures ns == X500 <==> EqualsIgnoreAsciiCase(namespace, "x500")
    ensures ns == Dns <==>
      !EqualsIgnoreAsciiCase(namespace, "url") && !EqualsIgnoreAsciiCase(namespace, "oid")
      && !EqualsIgnoreAsciiCase(namespace, "x500")
  {
    LowerOfNoUpper("url");
    LowerOfNoUpper("oid");
    LowerOfNoUpper("x500");
    LowerEqualIffEqualsIgnoreCase(namespace, "url");
    LowerEqualIffEqualsIgnoreCase(namespace, "oid");
    LowerEqualIffEqualsIgnoreCase(namespace, "x500");
    var key := AsciiLower(namespace);
    if key == "url" then Url
    else if key == "oid" then Oid
    else if key == "x500" then X500
    else Dns
  }

  /** `generate_v5`: the name-based SHA-1 identifier of `name` (its octets) in the resolved namespace. */
  function GenerateV5(sha1: seq<Byte> -> Digest, name: seq<Byte>, namespace: string): (u: Uuid)
    ensures Version(u) == 5 && IsRfcVariant(u)
  {
    NewV5(sha1, NamespaceId(ResolveNamespace(namespace)), name)
  }

  /** `format_uuid`: simple if `noHyphen` (whatever `braced` says), else braced if `braced`,
      else hyphenated; then uppercased if `upper`. */
  function FormatUuid(u: Uuid, noHyphen: bool, braced: bool, upper: bool): (r: string)
    ensures |r| == if noHyphen then 32 else if braced then 38 else 36
    ensures upper ==> HasNoLower(r)
  {
    var s := if noHyphen then Simple(u) else if braced then Braced(u) else Hyphenated(u);
    if upper then AsciiUpper(s) else s
  }

  // ---------------------------------------------------------------------
  // Namespace resolution

  /** The four namespace IDs are pairwise distinct. */
  lemma NamespaceIdInjective(a: Namespace, b: Namespace)
    ensures NamespaceId(a) == NamespaceId(b) <==> a == b
  {
    if NamespaceId(a) == NamespaceId(b) {
      assert NamespaceId(a)[3] == NamespaceId(b)[3];
    }
  }

  /** Namespace names equal up to ASCII case resolve to the same namespace. */
  lemma ResolveNamespaceIgnoresCase(a: string, b: string)
    requires EqualsIgnoreAsciiCase(a, b)
    ensures ResolveNamespace(a) == ResolveNamespace(b)
  {
    LowerEqualIffEqualsIgnoreCase(a, b);
  }

  // ---------------------------------------------------------------------
  // Name-based generation

  /** Namespace names equal up to ASCII case give the same identifier for every name. */
  lemma GenerateV5IgnoresNamespaceCase(sha1: seq<Byte> -> Digest, name: seq<Byte>, a: string, b: string)
    requires EqualsIgnoreAsciiCase(a, b)
    ensures GenerateV5(sha1, name, a) == GenerateV5(sha1, name, b)
  {
    ResolveNamespaceIgnoresCase(a, b);
  }

  /** "dns" and "DNS" give the same identifier. */
  lemma DnsIgnoresCase(sha1: seq<Byte> -> Digest, name: seq<Byte>)
    ensures GenerateV5(sha1, name, "dns") == GenerateV5(sha1, name, "DNS")
  {
    assert EqualsIgnoreAsciiCase("dns", "DNS");
    GenerateV5IgnoresNamespaceCase(sha1, name, "dns", "DNS");
  }

  /** The digest input (namespace octets, then name octets) determines namespace and
      name, and two v5 identifiers are equal exactly when the digests of their inputs
      agree on the 122 bits the stamp keeps. So identifiers of distinct (namespace, name)
      pairs coincide only through a collision of the digest on distinct inputs. */
  lemma GenerateV5EqualIffDigestsAgree(
    sha1: seq<Byte> -> Digest, name1: seq<Byte>, ns1: string, name2: seq<Byte>, ns2: string)
    ensures var in1, in2 := NamespaceId(ResolveNamespace(ns1)) + name1, NamespaceId(ResolveNamespace(ns2)) + name2;
      && (in1 == in2 <==> ResolveNamespace(ns1) == ResolveNamespace(ns2) && name1 == name2)
      && (GenerateV5(sha1, name1, ns1) == GenerateV5(sha1, name2, ns2) <==> AgreeOnKeptBits(sha1(in1), sha1(in2)))
  {
    var id1, id2 := NamespaceId(ResolveNamespace(ns1)), NamespaceId(ResolveNamespace(ns2));
    var in1, in2 := id1 + name1, id2 + name2;
    if in1 == in2 {
      assert in1[..16] == id1 && in2[..16] == id2;
      assert in1[16..] == name1 && in2[16..] == name2;
      NamespaceIdInjective(ResolveNamespace(ns1), ResolveNamespace(ns2));
    }
    StampV5Equal(sha1(in1), sha1(in2));
  }

  /** "url" and "dns" name different namespaces, so for the same name the two
      identifiers are equal only if the digest collides on two distinct inputs. */
  lemma UrlDiffersFromDns(sha1: seq<Byte> -> Digest, name: seq<Byte>)
    ensures ResolveNamespace("url") == Url && ResolveNamespace("dns") == Dns
    ensures NamespaceUrl + name != NamespaceDns + name
    ensures GenerateV5(sha1, name, "url") == GenerateV5(sha1, name, "dns") ==>
      AgreeOnKeptBits(sha1(NamespaceUrl + name), sha1(NamespaceDns + name))
  {
    assert !EqualsIgnoreAsciiCase("dns", "url") by { assert LowerChar("dns"[0]) != LowerChar("url"[0]); }
    assert !EqualsIgnoreAsciiCase("dns", "oid") by { assert LowerChar("dns"[0]) != LowerChar("oid"[0]); }
    assert |"dns"| != |"x500"|;
    GenerateV5EqualIffDigestsAgree(sha1, name, "url", name, "dns");
  }

  // ---------------------------------------------------------------------
  // Formatting

  /** The three shapes, by precedence: `noHyphen` gives 32 hex digits whatever `braced`
      says; otherwise `braced` gives 38 characters, the hyphenated form inside '{' and '}';
      otherwise the 36-character hyphenated form. Hex digits are in the case `upper` asks for. */
  lemma FormatShape(u: Uuid, noHyphen: bool, braced: bool, upper: bool)
    ensures var s := FormatUuid(u, noHyphen, braced, upper);
      && (noHyphen ==> IsSimpleShape(s, upper))
      && (!noHyphen && braced ==> |s| == 38 && s[0] == '{' && s[37] == '}' && IsHyphenatedShape(s[1..37], upper))
      && (!noHyphen && !braced ==> IsHyphenatedShape(s, upper))
  {
    if noHyphen {
      SimpleShape(u);
      UpperOfShapes(Simple(u));
    } else if braced {
      HyphenatedShape(u);
      UpperOfShapes(Hyphenated(u));
      var b := Braced(u);
      assert b[1..37] == Hyphenated(u);
      if upper {
        UpperOfSlice(b, 1, 37);
      }
    } else {
      HyphenatedShape(u);
      UpperOfShapes(Hyphenated(u));
    }
  }

  /** `noHyphen` takes precedence over `braced`: the simple form, 32 characters, not braced. */
  lemma NoHyphenWins(u: Uuid, braced: bool, upper: bool)
    ensures FormatUuid(u, true, braced, upper) == FormatUuid(u, true, false, upper)
    ensures |FormatUuid(u, true, braced, upper)| == 32
    ensures FormatUuid(u, true, braced, upper)[0] != '{'
  {
    FormatShape(u, true, braced, upper);
  }

  /** In the hyphenated and braced forms, the digit after the second hyphen is the
      version nibble (index 14, or 15 inside the brace). */
  lemma FormatVersionDigit(u: Uuid, braced: bool, upper: bool)
    ensures var digit := if upper then UpperChar(HexDigit(Version(u))) else HexDigit(Version(u));
      FormatUuid(u, false, braced, upper)[if braced then 15 else 14] == digit
  {
    HyphenatedShape(u);
    assert Braced(u)[15] == Hyphenated(u)[14];
  }

  /** An identifier of version 7 shows '7' at index 14 of its default rendering. */
  lemma Version7Digit(u: Uuid)
    requires Version(u) == 7
    ensures FormatUuid(u, false, false, false)[14] == '7'
  {
    FormatVersionDigit(u, false, false);
  }

  /** A v5 identifier in the default rendering is hyphenated lowercase hex with '5' at index 14. */
  lemma GenerateV5Rendering(sha1: seq<Byte> -> Digest, name: seq<Byte>, namespace: string)
    ensures var s := FormatUuid(GenerateV5(sha1, name, namespace), false, false, false);
      IsHyphenatedShape(s, false) && s[14] == '5'
  {
    var u := GenerateV5(sha1, name, namespace);
    FormatShape(u, false, false, false);
    FormatVersionDigit(u, false, false);
  }

  /** `upper` only changes case: the result is the uppercase of the lowercase rendering,
      of the same length, with '-', '{' and '}' where they were, and lowercasing it gives
      the lowercase rendering back. */
  lemma FormatUpperIsUppercaseOfLower(u: Uuid, noHyphen: bool, braced: bool)
    ensures var lower, upper := FormatUuid(u, noHyphen, braced, false), FormatUuid(u, noHyphen, braced, true);
      && upper == AsciiUpper(lower)
      && |upper| == |lower|
      && (forall i :: 0 <= i < |lower| && lower[i] in "-{}" ==> upper[i] == lower[i])
      && AsciiLower(upper) == lower
  {
    var lower := FormatUuid(u, noHyphen, braced, false);
    assert HasNoUpper(lower) by {
      if noHyphen {
        EncodeIsLowerHex(u);
      } else {
        HyphenatedShape(u);
        UpperOfShapes(Hyphenated(u));
        if braced {
          assert forall i :: 1 <= i < 37 ==> lower[i] == Hyphenated(u)[i - 1];
        }
      }
    }
    LowerOfUpper(lower);
  }

  /** Every rendering, in every combination of flags, reads back as its identifier. */
  lemma FormatRoundTrip(u: Uuid, noHyphen: bool, braced: bool, upper: bool)
    ensures Parse(FormatUuid(u, noHyphen, braced, upper)) == Some(u)
  {
    ParseRenderings(u);
    if upper {
      ParseIgnoresCase(FormatUuid(u, noHyphen, braced, false));
    }
  }

  /** Formatting with fixed flags is injective: distinct identifiers render differently. */
  lemma FormatInjective(u1: Uuid, u2: Uuid, noHyphen: bool, braced: bool, upper: bool)
    ensures FormatUuid(u1, noHyphen, braced, upper) == FormatUuid(u2, noHyphen, braced, upper) <==> u1 == u2
  {
    FormatRoundTrip(u1, noHyphen, braced, upper);
    FormatRoundTrip(u2, noHyphen, braced, upper);
  }
}
