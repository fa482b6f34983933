/** The `Scheme` trait as a closed sum of the implementations the library ships
    (`src/scheme/mod.rs`, `src/scheme/hex.rs`, `src/scheme/encoding.rs`). A name
    is a byte string; `IsName` says which byte strings a scheme's `Name` type
    holds (any `OsString`, a `String`, or an `N`-byte array). */
module Schemes {
  import opened Common
  import Utf8
  import S = Scheme
  import Hex
  import Base32

  datatype Scheme =
    | Identity
    | Utf8
    | Hex(n: nat, hexCase: S.Case)
    | AnyLengthHex(hexCase: S.Case)
    | Base32(n: nat, base32Case: S.Case)

  /** `Base32<N>` only compiles when `N` is a multiple of 5 (its `VALID` constant). */
  predicate Valid(s: Scheme)
  {
    s.Base32? ==> s.n % 5 == 0
  }

  /** The values of the scheme's `Name` type. */
  predicate IsName(s: Scheme, name: seq<byte>)
  {
    match s
    case Identity => true
    case Utf8 => Utf8.ValidUtf8(name)
    case Hex(n, _) => |name| == n
    case AnyLengthHex(_) => true
    case Base32(n, _) => |name| == n
  }

  /** `Scheme::fixed_length`: only the fixed-size array schemes have one. */
  function FixedLength(s: Scheme): (r: Option<nat>)
    ensures r.Some? <==> s.Hex? || s.Base32?
    ensures s.Hex? ==> r == Some(2 * s.n)
    ensures s.Base32? ==> r == Some(s.n / 5 * 8)
  {
    match s
    case Hex(n, _) => Hex.FixedLength(n)
    case Base32(n, _) => Base32.FixedLength(n)
    case _ => S.DefaultFixedLength()
  }

  /** `Scheme::name_to_string`: always text. */
  function NameToString(s: Scheme, name: seq<byte>): (r: seq<byte>)
    requires Valid(s) && IsName(s, name)
    ensures Utf8.ValidUtf8(r)
  {
    match s
    case Identity => S.IdentityNameToString(name)
    case Utf8 => S.Utf8NameToString(name)
    case Hex(_, c) => Hex.NameToString(c, name)
    case AnyLengthHex(c) => Hex.AnyNameToString(c, name)
    case Base32(_, _) => Base32AsciiIsValid(name); Base32.NameToString(name)
  }

  lemma Base32AsciiIsValid(name: seq<byte>)
    requires |name| % 5 == 0
    ensures Utf8.ValidUtf8(Base32.NameToString(name))
  {
    var e := Base32.NameToString(name);
    assert forall i :: 0 <= i < |e| ==> e[i] < 0x80 by {
      forall i | 0 <= i < |e| ensures e[i] < 0x80 {
        assert Base32.IsAlphabetByte(e[i]);
      }
    }
    Utf8.AsciiIsValid(e);
  }

  /** `Scheme::name_from_file_stem`. */
  function NameFromFileStem(s: Scheme, stem: seq<byte>): Result<seq<byte>, S.Error>
    requires Valid(s)
  {
    match s
    case Identity => S.IdentityNameFromFileStem(stem)
    case Utf8 => S.Utf8NameFromFileStem(stem)
    case Hex(n, c) => Hex.NameFromFileStem(n, c, stem)
    case AnyLengthHex(c) => Hex.AnyNameFromFileStem(c, stem)
    case Base32(n, _) => Base32.NameFromFileStem(n, stem)
  }

  /** What a stem decodes to is a value of the scheme's `Name` type. */
  lemma NameFromFileStemIsName(s: Scheme, stem: seq<byte>)
    requires Valid(s)
    ensures NameFromFileStem(s, stem).Ok? ==> IsName(s, NameFromFileStem(s, stem).value)
  {
    match s
    case Hex(n, c) => Hex.NameFromFileStemSpec(n, c, stem);
    case Base32(n, _) => Base32.NameFromFileStemSpec(n, stem);
    case _ =>
  }

  /** `Scheme::cmp_prefix_part`: byte order, except for `Base32`. */
  function CmpPrefixPart(s: Scheme, a: seq<byte>, b: seq<byte>): Result<Ordering, S.Error>
  {
    match s
    case Base32(_, _) => Base32.CmpPrefixPart(a, b)
    case _ => S.DefaultCmpPrefixPart(a, b)
  }

  /** Every scheme reads back what it writes, for every name it can write; the
      lossy `Identity` only for names that are valid UTF-8. */
  lemma RoundTrip(s: Scheme, name: seq<byte>)
    requires Valid(s) && IsName(s, name)
    requires s.Identity? ==> Utf8.ValidUtf8(name)
    ensures NameFromFileStem(s, NameToString(s, name)) == Ok(name)
  {
    match s
    case Identity => S.IdentityRoundTrip(name);
    case Utf8 => S.Utf8RoundTrip(name);
    case Hex(n, c) => Hex.NameRoundTrip(n, c, c, name);
    case AnyLengthHex(c) => Hex.AnyNameRoundTrip(c, c, name);
    case Base32(n, _) => Base32.NameRoundTrip(n, name);
  }

  /** A fixed length is the length of every written name and of every stem that
      decodes; this is what lets the builder derive a length constraint from it. */
  lemma FixedLengthIsStemLength(s: Scheme, name: seq<byte>, stem: seq<byte>)
    requires Valid(s) && FixedLength(s).Some?
    ensures IsName(s, name) ==> |NameToString(s, name)| == FixedLength(s).value
    ensures NameFromFileStem(s, stem).Ok? ==> |stem| == FixedLength(s).value
  {
    match s
    case Hex(n, c) => Hex.NameFromFileStemSpec(n, c, stem);
    case Base32(n, _) => Base32.NameFromFileStemSpec(n, stem);
  }

  /** Where `cmp_prefix_part` succeeds it is a total order: it succeeds on `b, a`
      too and gives the reverse answer, only equal names tie, and `Less` chains. */
  lemma CmpPrefixPartIsTotalOrder(s: Scheme, a: seq<byte>, b: seq<byte>, c: seq<byte>)
    requires CmpPrefixPart(s, a, b).Ok? && CmpPrefixPart(s, b, c).Ok?
    ensures CmpPrefixPart(s, b, a).Ok? && CmpPrefixPart(s, a, c).Ok?
    ensures CmpPrefixPart(s, b, a).value == CmpPrefixPart(s, a, b).value.Reverse()
    ensures CmpPrefixPart(s, a, b).value == Equal <==> a == b
    ensures CmpPrefixPart(s, a, b).value == Less && CmpPrefixPart(s, b, c).value == Less ==>
              CmpPrefixPart(s, a, c).value == Less
  {
    match s
    case Base32(_, _) =>
      Base32.CmpPrefixPartSpec(a, b);
      Base32.CmpPrefixPartSpec(b, c);
      Base32.CmpPrefixPartSpec(a, c);
      Base32.CmpPrefixPartTotalOrder(a, b, c);
    case _ =>
      LexAntisymmetric(a, b);
      if Lex(a, b) == Less && Lex(b, c) == Less {
        LexTransitive(a, b, c);
      }
  }
}
