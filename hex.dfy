/** The hex schemes (`src/scheme/hex.rs`): `Hex<N>` names are exactly `N` bytes,
    `AnyLengthHex` names any number of bytes; both write two hex digits per byte
    in the configured case and read digits of either case. */
module Hex {
  import opened Common
  import Utf8
  import S = Scheme

  // ASCII codes used below.
  const Zero: byte := 0x30
  const Nine: byte := 0x39
  const UpperA: byte := 0x41
  const UpperF: byte := 0x46
  const UpperZ: byte := 0x5A
  const LowerA: byte := 0x61
  const LowerF: byte := 0x66
  const LowerZ: byte := 0x7A
  const Plus: byte := 0x2B

  predicate IsAsciiDigit(c: byte) { Zero <= c <= Nine }
  predicate IsAsciiUppercase(c: byte) { UpperA <= c <= UpperZ }
  predicate IsAsciiLowercase(c: byte) { LowerA <= c <= LowerZ }

  /** `u8::is_ascii_hexdigit`. */
  predicate IsAsciiHexDigit(c: byte)
  {
    IsAsciiDigit(c) || UpperA <= c <= UpperF || LowerA <= c <= LowerF
  }

  /** `is_valid_character_byte`: a hex digit of the case in force (`Any` takes both). */
  predicate IsValidCharacterByte(c: S.Case, b: byte)
  {
    IsAsciiHexDigit(b) &&
    match c
    case Lower => IsAsciiDigit(b) || IsAsciiLowercase(b)
    case Upper => IsAsciiDigit(b) || IsAsciiUppercase(b)
    case Any => true
  }

  /** The character classes each case accepts, written out. */
  lemma ValidCharacterByCase(b: byte)
    ensures IsValidCharacterByte(S.Any, b) <==> (Zero <= b <= Nine || LowerA <= b <= LowerF || UpperA <= b <= UpperF)
    ensures IsValidCharacterByte(S.Lower, b) <==> (Zero <= b <= Nine || LowerA <= b <= LowerF)
    ensures IsValidCharacterByte(S.Upper, b) <==> (Zero <= b <= Nine || UpperA <= b <= UpperF)
  {
  }

  /** `first_invalid_byte`: the first byte of `s` that is not valid in case `c`. */
  function FirstInvalidByte(c: S.Case, s: seq<byte>): (r: Option<byte>)
    ensures r.None? <==> forall i :: 0 <= i < |s| ==> IsValidCharacterByte(c, s[i])
    ensures r.Some? ==> exists i :: 0 <= i < |s| && s[i] == r.value && !IsValidCharacterByte(c, s[i])
                          && forall j :: 0 <= j < i ==> IsValidCharacterByte(c, s[j])
  {
    if s == [] then None
    else if !IsValidCharacterByte(c, s[0]) then Some(s[0])
    else
      var r := FirstInvalidByte(c, s[1..]);
      assert r.Some? ==> exists i :: 1 <= i < |s| && s[i] == r.value && !IsValidCharacterByte(c, s[i])
                          && forall j :: 0 <= j < i ==> IsValidCharacterByte(c, s[j]) by {
        if r.Some? {
          var i :| 0 <= i < |s| - 1 && s[1..][i] == r.value && !IsValidCharacterByte(c, s[1..][i])
                   && forall j :: 0 <= j < i ==> IsValidCharacterByte(c, s[1..][j]);
          assert forall j :: 0 <= j < i + 1 ==> IsValidCharacterByte(c, s[j]) by {
            forall j | 0 <= j < i + 1 ensures IsValidCharacterByte(c, s[j]) {
              if j > 0 { assert s[j] == s[1..][j - 1]; }
            }
          }
        }
      }
      r
  }

  /** The digit for a value below 16; `Any` writes lower case like `Lower`. */
  function DigitChar(c: S.Case, v: nat): (d: byte)
    requires v < 16
  {
    if v < 10 then Zero + v
    else if c == S.Upper then UpperA + (v - 10)
    else LowerA + (v - 10)
  }

  /** The value of a hex digit of either case (`char::to_digit(16)`). */
  function HexValue(d: byte): (v: nat)
    requires IsAsciiHexDigit(d)
    ensures v < 16
  {
    if IsAsciiDigit(d) then d - Zero
    else if d <= UpperF then d - UpperA + 10
    else d - LowerA + 10
  }

  /** `u8::from_str_radix(pair, 16)` on a two-byte string: digits of either case,
      optionally the single digit after a leading `+`. */
  function ParsePair(c0: byte, c1: byte): Option<byte>
  {
    if c0 == Plus then (if IsAsciiHexDigit(c1) then Some(HexValue(c1)) else None)
    else if IsAsciiHexDigit(c0) && IsAsciiHexDigit(c1) then Some(16 * HexValue(c0) + HexValue(c1))
    else None
  }

  /** The text of a byte string: two digits per byte, most significant first (the
      specification of `bytes_to_string`). */
  function Render(c: S.Case, bytes: seq<byte>): seq<byte>
  {
    if bytes == [] then []
    else [DigitChar(c, bytes[0] / 16), DigitChar(c, bytes[0] % 16)] + Render(c, bytes[1..])
  }

  /** Exactly two digits per byte, in order. */
  lemma {:induction false} RenderAt(c: S.Case, bytes: seq<byte>, i: nat)
    requires i < |bytes|
    ensures |Render(c, bytes)| == 2 * |bytes|
    ensures Render(c, bytes)[2 * i] == DigitChar(c, bytes[i] / 16)
    ensures Render(c, bytes)[2 * i + 1] == DigitChar(c, bytes[i] % 16)
  {
    if i > 0 {
      RenderAt(c, bytes[1..], i - 1);
    } else if |bytes| > 1 {
      RenderAt(c, bytes[1..], 0);
    }
  }

  lemma {:induction false} RenderLength(c: S.Case, bytes: seq<byte>)
    ensures |Render(c, bytes)| == 2 * |bytes|
  {
    if bytes != [] {
      RenderLength(c, bytes[1..]);
    }
  }

  /** Every rendered character is a digit or a letter of the written case: upper
      case exactly under `Upper`, lower case under `Lower` and `Any`. */
  lemma RenderCase(c: S.Case, bytes: seq<byte>, k: nat)
    requires k < |Render(c, bytes)|
    ensures IsAsciiHexDigit(Render(c, bytes)[k])
    ensures c == S.Upper ==> !IsAsciiLowercase(Render(c, bytes)[k])
    ensures c != S.Upper ==> !IsAsciiUppercase(Render(c, bytes)[k])
    ensures IsValidCharacterByte(c, Render(c, bytes)[k])
  {
    RenderLength(c, bytes);
    RenderAt(c, bytes, k / 2);
    assert k == 2 * (k / 2) || k == 2 * (k / 2) + 1;
  }

  /** Rendered text is ASCII, hence valid UTF-8. */
  lemma RenderIsUtf8(c: S.Case, bytes: seq<byte>)
    ensures Utf8.ValidUtf8(Render(c, bytes))
  {
    forall k | 0 <= k < |Render(c, bytes)| ensures Render(c, bytes)[k] < 0x80 {
      RenderCase(c, bytes, k);
    }
    Utf8.AsciiIsValid(Render(c, bytes));
  }

  /** `bytes_to_string`: append two digits per byte to a growing string. */
  method BytesToString(c: S.Case, bytes: seq<byte>) returns (result: seq<byte>)
    ensures result == Render(c, bytes)
  {
    result := [];
    for i := 0 to |bytes|
      invariant result + Render(c, bytes[i..]) == Render(c, bytes)
    {
      var digits := [DigitChar(c, bytes[i] / 16), DigitChar(c, bytes[i] % 16)];
      RenderStep(c, bytes, i);
      AppendAssoc(result, digits, Render(c, bytes[i + 1..]));
      result := result + digits;
    }
    assert bytes[|bytes|..] == [];
  }

  /** What is left to render loses its first byte's two digits. */
  lemma RenderStep(c: S.Case, bytes: seq<byte>, i: nat)
    requires i < |bytes|
    ensures Render(c, bytes[i..]) == [DigitChar(c, bytes[i] / 16), DigitChar(c, bytes[i] % 16)] + Render(c, bytes[i + 1..])
  {
    assert bytes[i..][1..] == bytes[i + 1..];
  }

  lemma AppendAssoc(a: seq<byte>, b: seq<byte>, c: seq<byte>)
    ensures (a + b) + c == a + (b + c)
  {
  }

  /** A pair that does not parse always holds a byte that is invalid in every
      case, so the error report below always finds one. */
  lemma FailingPairHasInvalidByte(c: S.Case, c0: byte, c1: byte)
    requires ParsePair(c0, c1).None?
    ensures FirstInvalidByte(c, [c0, c1]).Some?
  {
    var s := [c0, c1];
    if !IsValidCharacterByte(c, c0) {
      assert !IsValidCharacterByte(c, s[0]);
    } else {
      assert !IsValidCharacterByte(c, s[1]);
    }
  }

  /** The `k`-th pair of a digit string. */
  function PairAt(s: seq<byte>, k: nat): Option<byte>
    requires 2 * k + 1 < |s|
  {
    ParsePair(s[2 * k], s[2 * k + 1])
  }

  /** Decode consecutive pairs; the first pair that fails reports the first byte
      of that pair that is invalid in case `c`. */
  function DecodePairs(c: S.Case, s: seq<byte>): Result<seq<byte>, S.Error>
    requires |s| % 2 == 0
  {
    if s == [] then Ok([])
    else match ParsePair(s[0], s[1])
      case None =>
        FailingPairHasInvalidByte(c, s[0], s[1]);
        assert s[..2] == [s[0], s[1]];
        Err(S.InvalidByte(FirstInvalidByte(c, s[..2]).value))
      case Some(b) =>
        match DecodePairs(c, s[2..])
        case Ok(rest) => Ok([b] + rest)
        case Err(e) => Err(e)
  }

  /** Decoding succeeds exactly when every pair parses, and then gives one byte per pair. */
  lemma {:induction false} DecodePairsOk(c: S.Case, s: seq<byte>)
    requires |s| % 2 == 0
    ensures DecodePairs(c, s).Ok? <==> forall k :: 0 <= k < |s| / 2 ==> PairAt(s, k).Some?
    ensures DecodePairs(c, s).Ok? ==> |DecodePairs(c, s).value| == |s| / 2
    ensures DecodePairs(c, s).Ok? ==> forall k :: 0 <= k < |s| / 2 ==> DecodePairs(c, s).value[k] == PairAt(s, k).value
  {
    if s != [] {
      DecodePairsOk(c, s[2..]);
      forall k | 0 <= k < |s| / 2 - 1 ensures PairAt(s[2..], k) == PairAt(s, k + 1) {
      }
      if ParsePair(s[0], s[1]).Some? && DecodePairs(c, s[2..]).Ok? {
        assert PairAt(s, 0).Some?;
        forall k | 0 <= k < |s| / 2 ensures PairAt(s, k).Some? {
          if k > 0 { assert PairAt(s[2..], k - 1) == PairAt(s, k); }
        }
      }
      if DecodePairs(c, s[2..]).Err? {
        var k :| 0 <= k < |s[2..]| / 2 && PairAt(s[2..], k).None?;
        assert PairAt(s, k + 1).None?;
      }
      if ParsePair(s[0], s[1]).None? {
        assert PairAt(s, 0).None?;
      }
    }
  }

  /** The first failing pair decides the error. */
  lemma {:induction false} DecodePairsErr(c: S.Case, s: seq<byte>, k: nat)
    requires |s| % 2 == 0 && k < |s| / 2
    requires forall j :: 0 <= j < k ==> PairAt(s, j).Some?
    requires PairAt(s, k).None?
    ensures FirstInvalidByte(c, s[2 * k..2 * k + 2]).Some?
    ensures DecodePairs(c, s) == Err(S.InvalidByte(FirstInvalidByte(c, s[2 * k..2 * k + 2]).value))
  {
    if k == 0 {
      assert s[..2] == [s[0], s[1]];
      FailingPairHasInvalidByte(c, s[0], s[1]);
    } else {
      assert PairAt(s, 0).Some?;
      forall j | 0 <= j < k - 1 ensures PairAt(s[2..], j).Some? {
        assert PairAt(s[2..], j) == PairAt(s, j + 1);
      }
      assert PairAt(s[2..], k - 1) == PairAt(s, k);
      DecodePairsErr(c, s[2..], k - 1);
      assert s[2..][2 * (k - 1)..2 * (k - 1) + 2] == s[2 * k..2 * k + 2];
    }
  }

  /** Rendered digits decode back, in any case. */
  lemma {:induction false} DecodePairsRender(c: S.Case, c': S.Case, bytes: seq<byte>)
    ensures |Render(c, bytes)| % 2 == 0
    ensures DecodePairs(c', Render(c, bytes)) == Ok(bytes)
  {
    RenderLength(c, bytes);
    if bytes != [] {
      var b := bytes[0];
      var s := Render(c, bytes);
      assert s[2..] == Render(c, bytes[1..]);
      assert ParsePair(s[0], s[1]) == Some(b) by {
        assert 16 * (b / 16) + b % 16 == b;
      }
      DecodePairsRender(c, c', bytes[1..]);
      assert [b] + bytes[1..] == bytes;
    }
  }

  // ----- Hex<N> -----

  /** `Hex::<N>::fixed_length()`. */
  function FixedLength(n: nat): (r: Option<nat>)
    ensures r == Some(2 * n)
  {
    Some(n * 2)
  }

  /** `Hex::<N>::name_to_string`. */
  function NameToString(c: S.Case, name: seq<byte>): (s: seq<byte>)
    ensures |s| == 2 * |name|
    ensures Utf8.ValidUtf8(s)
  {
    RenderLength(c, name);
    RenderIsUtf8(c, name);
    Render(c, name)
  }

  /** What `Hex::<N>::name_from_file_stem` computes, with the error report taken
      from the pair that failed (see `ReportedByteAsWritten` for the source's slice). */
  function NameFromFileStem(n: nat, c: S.Case, stem: seq<byte>): Result<seq<byte>, S.Error>
  {
    if !Utf8.ValidUtf8(stem) then Err(S.NonUtf8)
    else if |stem| != n * 2 then Err(S.InvalidLength(|stem|))
    else DecodePairs(c, stem)
  }

  /** `Hex<N>`'s decode, error by error: non-UTF-8 first, then the length, then
      the first bad pair; success yields exactly `N` bytes. */
  lemma NameFromFileStemSpec(n: nat, c: S.Case, stem: seq<byte>)
    ensures !Utf8.ValidUtf8(stem) ==> NameFromFileStem(n, c, stem) == Err(S.NonUtf8)
    ensures Utf8.ValidUtf8(stem) && |stem| != 2 * n ==> NameFromFileStem(n, c, stem) == Err(S.InvalidLength(|stem|))
    ensures NameFromFileStem(n, c, stem).Ok? ==> |NameFromFileStem(n, c, stem).value| == n
    ensures NameFromFileStem(n, c, stem).Ok? <==>
              Utf8.ValidUtf8(stem) && |stem| == 2 * n && forall k :: 0 <= k < n ==> PairAt(stem, k).Some?
  {
    if Utf8.ValidUtf8(stem) && |stem| == 2 * n {
      DecodePairsOk(c, stem);
    }
  }

  /** A UTF-8 stem of `2 N` bytes whose pair `k` is the first that fails is
      reported by the first byte of that pair that is invalid in the case. */
  lemma NameFirstFailingPair(n: nat, c: S.Case, stem: seq<byte>, k: nat)
    requires Utf8.ValidUtf8(stem) && |stem| == 2 * n && k < n
    requires forall j :: 0 <= j < k ==> PairAt(stem, j).Some?
    requires PairAt(stem, k).None?
    ensures FirstInvalidByte(c, stem[2 * k..2 * k + 2]).Some?
    ensures NameFromFileStem(n, c, stem) == Err(S.InvalidByte(FirstInvalidByte(c, stem[2 * k..2 * k + 2]).value))
  {
    DecodePairsErr(c, stem, k);
  }

  /** Round trip for `Hex<N>`: every `[u8; N]` in every case, read back in any case. */
  lemma NameRoundTrip(n: nat, c: S.Case, c': S.Case, name: seq<byte>)
    requires |name| == n
    ensures NameFromFileStem(n, c', NameToString(c, name)) == Ok(name)
  {
    DecodePairsRender(c, c', name);
  }

  /** `Hex::<N>::name_from_file_stem`, with the error byte of the failing pair
      (corrected; see Findings): check, then fill an `N`-byte array pair by
      pair, stopping at the first pair that fails. */
  method NameFromFileStemLoop(n: nat, c: S.Case, stem: seq<byte>) returns (r: Result<seq<byte>, S.Error>)
    ensures r == NameFromFileStem(n, c, stem)
  {
    if !Utf8.ValidUtf8(stem) {
      return Err(S.NonUtf8);
    }
    if |stem| != n * 2 {
      return Err(S.InvalidLength(|stem|));
    }
    assert |stem| / 2 == n && |stem| % 2 == 0;
    assert NameFromFileStem(n, c, stem) == DecodePairs(c, stem);
    var name := new byte[n];
    for i := 0 to n
      invariant forall k :: 0 <= k < i ==> PairAt(stem, k).Some? && name[k] == PairAt(stem, k).value
    {
      var parsed := ParsePair(stem[i * 2], stem[i * 2 + 1]);
      assert parsed == PairAt(stem, i);
      if parsed.None? {
        DecodePairsErr(c, stem, i);
        var invalidByte := FirstInvalidByte(c, stem[i * 2..i * 2 + 2]);
        return Err(S.InvalidByte(invalidByte.value));
      }
      name[i] := parsed.value;
    }
    FilledName(c, stem, name[..]);
    r := Ok(name[..]);
  }

  /** A name holding every pair's byte is what decoding the pairs gives. */
  lemma FilledName(c: S.Case, stem: seq<byte>, name: seq<byte>)
    requires |stem| == 2 * |name|
    requires forall k :: 0 <= k < |name| ==> PairAt(stem, k).Some? && name[k] == PairAt(stem, k).value
    ensures DecodePairs(c, stem) == Ok(name)
  {
    DecodePairsOk(c, stem);
    var decoded := DecodePairs(c, stem).value;
    assert |decoded| == |name|;
    assert forall k :: 0 <= k < |name| ==> name[k] == decoded[k];
    assert name == decoded;
  }

  /** The byte the source reports for a failing pair `i`: it slices
      `as_str[i..i + 2]`, not the pair `as_str[2 * i..2 * i + 2]` that failed. */
  function ReportedByteAsWritten(c: S.Case, stem: seq<byte>, i: nat): Option<byte>
    requires i + 2 <= |stem|
  {
    FirstInvalidByte(c, stem[i..i + 2])
  }

  /** With `N = 2`, the stem `000g` fails at pair 1 (`0g`), but the source's slice
      `00` has no invalid byte, so its `expect` panics instead of reporting `g`. */
  lemma AsWrittenReportPanics()
    ensures var stem := [Zero, Zero, Zero, 0x67];
            && NameFromFileStem(2, S.Lower, stem) == Err(S.InvalidByte(0x67))
            && PairAt(stem, 0).Some? && PairAt(stem, 1).None?
            && ReportedByteAsWritten(S.Lower, stem, 1).None?
  {
    var stem: seq<byte> := [Zero, Zero, Zero, 0x67];
    Utf8.AsciiIsValid(stem);
    assert stem[2..4] == [Zero, 0x67];
    DecodePairsErr(S.Lower, stem, 1);
    assert stem[1..3] == [Zero, Zero];
  }

  // ----- AnyLengthHex -----

  /** `AnyLengthHex::name_to_string`. */
  function AnyNameToString(c: S.Case, name: seq<byte>): (s: seq<byte>)
    ensures |s| == 2 * |name|
    ensures Utf8.ValidUtf8(s)
  {
    NameToString(c, name)
  }

  /** `AnyLengthHex::name_from_file_stem`. */
  function AnyNameFromFileStem(c: S.Case, stem: seq<byte>): Result<seq<byte>, S.Error>
  {
    if !Utf8.ValidUtf8(stem) then Err(S.NonUtf8)
    else if |stem| % 2 != 0 then Err(S.InvalidLength(|stem|))
    else DecodePairs(c, stem)
  }

  /** `AnyLengthHex`'s decode: non-UTF-8 first, odd lengths next, then one byte
      per pair, or the first case-invalid byte of the first failing pair. */
  lemma AnyNameFromFileStemSpec(c: S.Case, stem: seq<byte>)
    ensures !Utf8.ValidUtf8(stem) ==> AnyNameFromFileStem(c, stem) == Err(S.NonUtf8)
    ensures Utf8.ValidUtf8(stem) && |stem| % 2 != 0 ==> AnyNameFromFileStem(c, stem) == Err(S.InvalidLength(|stem|))
    ensures AnyNameFromFileStem(c, stem).Ok? ==> |AnyNameFromFileStem(c, stem).value| == |stem| / 2
    ensures AnyNameFromFileStem(c, stem).Ok? ==>
              forall k :: 0 <= k < |stem| / 2 ==>
                PairAt(stem, k).Some? && AnyNameFromFileStem(c, stem).value[k] == PairAt(stem, k).value
  {
    if Utf8.ValidUtf8(stem) && |stem| % 2 == 0 {
      DecodePairsOk(c, stem);
    }
  }

  /** An even-length UTF-8 stem whose pair `k` is the first that fails is
      reported by the first byte of that pair that is invalid in the case. */
  lemma AnyNameFirstFailingPair(c: S.Case, stem: seq<byte>, k: nat)
    requires Utf8.ValidUtf8(stem) && |stem| % 2 == 0 && k < |stem| / 2
    requires forall j :: 0 <= j < k ==> PairAt(stem, j).Some?
    requires PairAt(stem, k).None?
    ensures FirstInvalidByte(c, stem[2 * k..2 * k + 2]).Some?
    ensures AnyNameFromFileStem(c, stem) == Err(S.InvalidByte(FirstInvalidByte(c, stem[2 * k..2 * k + 2]).value))
  {
    DecodePairsErr(c, stem, k);
  }

  /** Round trip for `AnyLengthHex`: every byte string in every case. */
  lemma AnyNameRoundTrip(c: S.Case, c': S.Case, name: seq<byte>)
    ensures AnyNameFromFileStem(c', AnyNameToString(c, name)) == Ok(name)
  {
    DecodePairsRender(c, c', name);
  }

  /** Decoding ignores the case: upper-case digits decode under `Lower` too. */
  lemma DecodeIgnoresCase(c: S.Case, bytes: seq<byte>)
    ensures AnyNameFromFileStem(S.Lower, Render(S.Upper, bytes)) == Ok(bytes)
    ensures AnyNameFromFileStem(S.Upper, Render(S.Lower, bytes)) == Ok(bytes)
  {
    AnyNameRoundTrip(S.Upper, S.Lower, bytes);
    AnyNameRoundTrip(S.Lower, S.Upper, bytes);
  }
}
