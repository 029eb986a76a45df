# uuid-cli core, modelled in Dafny

This project models the core library of a command-line UUID generator (`core/src/lib.rs`):

- **Name-based (v5) generation.** `generate_v5` resolves a namespace name to one of the four
  well-known namespace IDs of RFC 4122 Appendix C: DNS, URL, OID or X500. The lookup ignores
  ASCII case, and any unrecognised name falls back to DNS. It then derives the identifier from
  the namespace octets followed by the name octets, as section 5.5 of RFC 9562 describes.
- **Formatting.** `format_uuid` renders a 16-octet identifier in one of three shapes:
  - the simple form, 32 hex digits;
  - the braced form, `{…}`;
  - the hyphenated 8-4-4-4-12 form of section 4 of RFC 9562.

  `no_hyphen` takes precedence over `braced`. If `upper` is set, the result is then uppercased.

Files and modules:

- `ascii.dfy` (`Ascii`): ASCII case mapping. It models `to_ascii_lowercase` and `to_uppercase`
  restricted to ASCII text. It also defines `EqualsIgnoreAsciiCase`, a reference predicate
  (character-wise equality up to ASCII case). The source never calls it; it is used to state
  that the namespace lookup ignores case.
- `hex.dfy` (`Hex`): octets, the lowercase hex encoder, and a decoder that reads either case.
- `uuid.dfy` (`UuidLib`): the parts of the `uuid` crate that the core calls:
  - the `Uuid` type, its version and variant fields, and the namespace constants;
  - `as_simple`, `to_string` and `braced`;
  - `new_v5`: truncation of the SHA-1 digest to 16 octets, then the version and variant
    stamping of `Builder::from_sha1_bytes`.

  It also holds a reference reader, `Parse`, for the three renderings. `Parse` does not model
  any code in the source. It exists to state that no rendering loses information.
- `core.dfy` (`CoreLib`): `GenerateV5` with `ResolveNamespace` and `NamespaceId`,
  `FormatUuid`, and the properties the source's tests state.
- `wrappers.dfy` (`Wrappers`): `Option`.

SHA-1 is not implemented. It is the parameter `sha1: seq<Byte> -> Digest` (20 octets) of
`GenerateV5` and `NewV5`, so every property about generation holds for any digest function.
Determinism needs no lemma: `GenerateV5` is a function of (digest, name, namespace), with no
clock or random source among its inputs.

## Model

| member | source | states |
|---|---|---|
| `Ascii.AsciiLower` | core/src/lib.rs:20 | lowercasing keeps the length, leaves no uppercase letter, and changes no character that is not an uppercase letter |
| `Ascii.AsciiUpper` | core/src/lib.rs:52 | uppercasing keeps the length, leaves no lowercase letter, and changes no character that is not a lowercase letter |
| `Ascii.LowerEqualIffEqualsIgnoreCase` | core/src/lib.rs:20 | two names lowercase to the same string exactly when they are equal ignoring ASCII case |
| `CoreLib.ResolveNamespace` | core/src/lib.rs:20-25 | the lookup gives URL, OID or X500 exactly when the name equals "url", "oid" or "x500" ignoring case; every other name, empty or a typo included, gives DNS (both directions) |
| `CoreLib.ResolveNamespaceIgnoresCase` | core/src/lib.rs:20 | names equal up to ASCII case resolve to the same namespace |
| `CoreLib.NamespaceIdInjective` | core/src/lib.rs:21-24 | the four namespace constants are pairwise distinct |
| `CoreLib.NamespaceId` | core/src/lib.rs:21-24 | each of the four namespace IDs (the constants `NamespaceDns`, `NamespaceUrl`, `NamespaceOid`, `NamespaceX500`, octet for octet those of RFC 4122 Appendix C) is itself a version-1 identifier with the RFC variant; `NamespaceIdInjective` proves them pairwise distinct |
| `CoreLib.GenerateV5` | core/src/lib.rs:19-26 | every v5 identifier has version field 5 and the RFC variant bits 10 |
| `CoreLib.GenerateV5IgnoresNamespaceCase` | core/src/lib.rs:19-26 | for every name and digest, namespace names equal up to ASCII case give the same identifier |
| `CoreLib.DnsIgnoresCase` | core/src/lib.rs:117-120 | `generate_v5(name, "dns") == generate_v5(name, "DNS")` for every name |
| `CoreLib.GenerateV5EqualIffDigestsAgree` | core/src/lib.rs:26 | the digest input determines (namespace, name); two v5 identifiers are equal exactly when their digests agree on the 122 bits the stamp keeps |
| `CoreLib.UrlDiffersFromDns` | core/src/lib.rs:122-123 | "url" and "dns" resolve to different namespaces, so the digest inputs differ; equal identifiers would mean a digest collision on those distinct inputs |
| `CoreLib.GenerateV5Rendering` | cli/tests/cli_integration.rs:38-42 | the default rendering of any v5 identifier is 8-4-4-4-12 lowercase hex with '5' at index 14 |
| `UuidLib.StampV5` | core/src/lib.rs:26 | the stamp sets version 5 and variant 10 and keeps all other bits of the first 16 digest octets |
| `UuidLib.StampV5Equal` | core/src/lib.rs:26 | two stamped digests are equal exactly when the digests agree on the kept bits (both directions) |
| `UuidLib.Version` | core/src/lib.rs:74-77 | the version field that `get_version_num` reads is a nibble, 0..15, and is nibble 12 of the hex text (high nibble of octet 6); `FormatVersionDigit` places its digit at index 14 of the rendering |
| `UuidLib.IsRfcVariant` | core/src/lib.rs:26 | the RFC variant holds exactly when octet 8 lies in 0x80..0xbf, i.e. its two high bits are 10 |
| `UuidLib.NewV5` | core/src/lib.rs:26 | a name-based identifier has version 5 and the RFC variant |
| `Hex.Encode` | core/src/lib.rs:44 | the hex text has two characters per octet; character k is the lowercase digit of nibble k, high nibble first |
| `Hex.DecodeEncode` | core/src/lib.rs:44 | decoding the hex text gives back the octets |
| `UuidLib.Simple` | core/src/lib.rs:44 | `as_simple` gives 32 lowercase hex digits (the octet-by-octet layout is in `SimpleShape`) |
| `UuidLib.Braced` | core/src/lib.rs:46 | `braced` gives 38 characters: '{', the hyphenated form, '}' |
| `UuidLib.Hyphenated` | core/src/lib.rs:48 | `to_string` gives 36 characters with '-' at 8, 13, 18 and 23 (the full shape is in `HyphenatedShape`, the relation to the simple form in `HyphenatedWithoutHyphens`) |
| `UuidLib.SimpleShape` | core/src/lib.rs:44 | the simple form is 32 lowercase hex digits; characters 2i and 2i+1 are the digits of octet i |
| `UuidLib.HyphenatedShape` | core/src/lib.rs:48 | the hyphenated form is 36 characters, '-' at exactly 8, 13, 18 and 23, lowercase hex elsewhere, and the version nibble's digit at index 14 |
| `UuidLib.HyphenatedWithoutHyphens` | core/src/lib.rs:48 | removing the hyphens from the hyphenated form gives the simple form |
| `UuidLib.UpperOfShapes` | cli/tests/cli_integration.rs:21-27 | uppercasing the simple or hyphenated shape gives the same shape over `[0-9A-F]` |
| `UuidLib.ParseRenderings` | core/src/lib.rs:43-49 | the simple, hyphenated and braced forms each read back as the identifier |
| `UuidLib.ParseIgnoresCase` | core/src/lib.rs:51-52 | reading does not depend on the case of the hex digits |
| `CoreLib.FormatUuid` | core/src/lib.rs:42-56 | the output is 32 characters with `no_hyphen` (whatever `braced` is), else 38 with `braced`, else 36, and has no lowercase letter when `upper` is set; shapes in `FormatShape`, case in `FormatUpperIsUppercaseOfLower`, round trip in `FormatRoundTrip` |
| `CoreLib.FormatShape` | core/src/lib.rs:43-49 | `no_hyphen` gives 32 hex digits whatever `braced` is; otherwise `braced` gives 38 characters, '{' + hyphenated + '}'; otherwise the 36-character hyphenated form; digits are in the case `upper` asks for |
| `CoreLib.NoHyphenWins` | core/src/lib.rs:43-44 | with `no_hyphen` set, the output is the same whatever `braced` is: 32 characters, not starting with '{' |
| `CoreLib.FormatVersionDigit` | core/src/lib.rs:45-48 | the hyphenated and braced forms show the version nibble's digit at index 14 (15 inside the brace), in the requested case |
| `CoreLib.Version7Digit` | core/src/lib.rs:63-69 | an identifier of version 7 shows '7' at index 14 of its default rendering |
| `CoreLib.FormatUpperIsUppercaseOfLower` | core/src/lib.rs:51-55 | for every flag combination, lowercasing the `upper` output gives the lowercase output back; the two have the same length and '-', '{' and '}' in the same places; and (by definition) the `upper` output is the ASCII uppercase of the lowercase output |
| `CoreLib.FormatRoundTrip` | core/src/lib.rs:42-56 | every output, for every flag combination, reads back as its identifier |
| `CoreLib.FormatInjective` | core/src/lib.rs:42-56 | with fixed flags, two identifiers render the same exactly when they are equal |

## Left out

- `generate_v1`, `generate_v4`, `generate_v6`, `generate_v7` (core/src/lib.rs:5-15 and core/src/lib.rs:29-39): these only call
  the `rand` and `uuid` crates for clock reads, random node octets and entropy. That code is not
  part of this model. Their results reach the formatter as arbitrary `Uuid` values, and every
  formatting lemma holds for all of them.
- The SHA-1 digest inside `Uuid::new_v5`: foreign code. It is the parameter `sha1`. Only the
  truncation to 16 octets and the version/variant stamping of section 5.5 of RFC 9562 are
  modelled.
- UrlDiffersFromDns: states less than the test's `assert_ne!`. With the digest left abstract,
  "the two identifiers differ" cannot be proved. The lemma proves that the two digest inputs
  differ, so equal identifiers would need a digest collision.
- `name.as_bytes()`: the UTF-8 encoding of the name is not modelled. `GenerateV5` takes the
  name's octets.
- Unicode semantics of `to_uppercase`: the formatter only produces ASCII, so ASCII uppercasing
  is used.
- The namespace constants are written byte for byte. No lemma relates them to their printed
  text in RFC 4122.
- cli/src/main.rs: clap parsing, version and name validation, `eprintln!`,
  `std::process::exit(2)` and the `println!` loop are I/O and process glue.
- The uuid crate's own string parser is not modelled. `UuidLib.Parse` is a lenient reference
  reader used only to state that formatting loses no information.
