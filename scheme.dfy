/** The scheme abstraction's shared parts (`src/scheme/mod.rs`): the decode error,
    the letter case of hex schemes, the defaults every scheme inherits, and the
    two text schemes `Identity` and `Utf8`. Names and file stems are byte strings. */
module Scheme {
  import opened Common
  import Utf8

  /** Why a file stem does not decode to a name. */
  datatype Error = NonUtf8 | InvalidByte(b: byte) | InvalidLength(len: nat)

  /** The letter case a hex scheme writes, and accepts when reporting errors. */
  datatype Case = Lower | Upper | Any

  /** `Case::default()`. */
  function DefaultCase(): (c: Case)
    ensures c == Lower
  {
    Lower
  }

  /** `Scheme::fixed_length`'s default: no fixed encoded length. */
  function DefaultFixedLength(): (r: Option<nat>)
    ensures r.None?
  {
    None
  }

  /** `Scheme::cmp_prefix_part`'s default: `OsStr`'s byte-lexicographic order.
      It never fails, and it calls two names equal only when they are. */
  function DefaultCmpPrefixPart(a: seq<byte>, b: seq<byte>): (r: Result<Ordering, Error>)
    ensures r.Ok?
    ensures r.value == Equal <==> a == b
    ensures r.value == Lex(b, a).Reverse()
  {
    LexEqualIff(a, b);
    LexAntisymmetric(b, a);
    Ok(Lex(a, b))
  }

  /** `Identity::name_to_string`: the lossy conversion of the `OsString` to text. */
  function IdentityNameToString(name: seq<byte>): (s: seq<byte>)
    ensures Utf8.ValidUtf8(s)
    ensures Utf8.ValidUtf8(name) <==> s == name
  {
    Utf8.LossyIsValid(name);
    if Utf8.ValidUtf8(name) then Utf8.LossyOfValid(name); Utf8.Lossy(name)
    else Utf8.LossyChangesInvalid(name); Utf8.Lossy(name)
  }

  /** `Identity::name_from_file_stem`: the stem itself, which never fails. */
  function IdentityNameFromFileStem(stem: seq<byte>): Result<seq<byte>, Error>
  {
    Ok(stem)
  }

  /** Decoding with `Identity` never fails and gives back the stem. */
  lemma IdentityDecodeTotal(stem: seq<byte>)
    ensures IdentityNameFromFileStem(stem).Ok?
    ensures IdentityNameFromFileStem(stem).value == stem
  {
  }

  /** `Identity` round-trips exactly the names that are valid UTF-8. */
  lemma IdentityRoundTrip(name: seq<byte>)
    ensures IdentityNameFromFileStem(IdentityNameToString(name)) == Ok(name)
            <==> Utf8.ValidUtf8(name)
  {
  }

  /** `Utf8::name_to_string`: a `String` already is its text. */
  function Utf8NameToString(name: seq<byte>): seq<byte>
    requires Utf8.ValidUtf8(name)
  {
    name
  }

  /** `Utf8::name_from_file_stem`: the stem if it is valid UTF-8. */
  function Utf8NameFromFileStem(stem: seq<byte>): (r: Result<seq<byte>, Error>)
    ensures r.Ok? <==> Utf8.ValidUtf8(stem)
    ensures r.Ok? ==> r.value == stem
    ensures r.Err? ==> r.error == NonUtf8
  {
    if Utf8.ValidUtf8(stem) then Ok(stem) else Err(NonUtf8)
  }

  /** `Utf8` round-trips every `String`. */
  lemma Utf8RoundTrip(name: seq<byte>)
    requires Utf8.ValidUtf8(name)
    ensures Utf8NameFromFileStem(Utf8NameToString(name)) == Ok(name)
  {
  }
}
