/** UTF-8 well-formedness of byte strings (what `OsStr::to_str` checks) and the
    replacement of ill-formed parts by U+FFFD (what `to_string_lossy` does), both
    following the Unicode definition of well-formed UTF-8 (RFC 3629, section 4). */
module Utf8 {
  import opened Common

  predicate IsContinuation(b: byte)
  {
    0x80 <= b <= 0xBF
  }

  /** The number of bytes a character led by `lead` occupies, or 0 for a byte that
      cannot lead a character. */
  function SequenceLength(lead: byte): nat
  {
    if lead < 0x80 then 1
    else if 0xC2 <= lead <= 0xDF then 2
    else if 0xE0 <= lead <= 0xEF then 3
    else if 0xF0 <= lead <= 0xF4 then 4
    else 0
  }

  /** The allowed range of the byte after `lead` (it excludes overlong forms,
      surrogates and code points above U+10FFFF). */
  function SecondLow(lead: byte): byte
  {
    if lead == 0xE0 then 0xA0 else if lead == 0xF0 then 0x90 else 0x80
  }

  function SecondHigh(lead: byte): byte
  {
    if lead == 0xED then 0x9F else if lead == 0xF4 then 0x8F else 0xBF
  }

  /** The length of the well-formed character at the start of `s`, or 0 if `s`
      does not start with one. */
  function CharLength(s: seq<byte>): (n: nat)
    ensures n <= |s|
    ensures n <= 4
  {
    if s == [] then 0
    else
      var n := SequenceLength(s[0]);
      if n == 0 || |s| < n then 0
      else if n == 1 then 1
      else if !(SecondLow(s[0]) <= s[1] <= SecondHigh(s[0])) then 0
      else if n >= 3 && !IsContinuation(s[2]) then 0
      else if n == 4 && !IsContinuation(s[3]) then 0
      else n
  }

  /** `s` is a concatenation of well-formed characters. */
  predicate ValidUtf8(s: seq<byte>)
    decreases |s|
  {
    s == [] || (CharLength(s) > 0 && ValidUtf8(s[CharLength(s)..]))
  }

  /** The length of the maximal ill-formed subpart at the start of `s`: the
      longest prefix that could begin a well-formed character, and at least one
      byte. Only meaningful where `CharLength(s) == 0`. */
  function MaximalSubpart(s: seq<byte>): (n: nat)
    requires s != []
    ensures 1 <= n <= |s|
  {
    var n := SequenceLength(s[0]);
    if n < 2 || |s| < 2 || !(SecondLow(s[0]) <= s[1] <= SecondHigh(s[0])) then 1
    else if n < 3 || |s| < 3 || !IsContinuation(s[2]) then 2
    else 3
  }

  /** U+FFFD REPLACEMENT CHARACTER. */
  const Replacement: seq<byte> := [0xEF, 0xBF, 0xBD]

  /** `String::from_utf8_lossy`: well-formed characters are kept and every maximal
      ill-formed subpart becomes one U+FFFD. */
  function Lossy(s: seq<byte>): seq<byte>
    decreases |s|
  {
    if s == [] then []
    else if CharLength(s) > 0 then s[..CharLength(s)] + Lossy(s[CharLength(s)..])
    else Replacement + Lossy(s[MaximalSubpart(s)..])
  }

  /** The character found at the start of `s` does not depend on what follows it. */
  lemma CharLengthPrefix(s: seq<byte>, t: seq<byte>)
    requires CharLength(s) > 0
    ensures CharLength(s[..CharLength(s)] + t) == CharLength(s)
  {
    var c := s[..CharLength(s)] + t;
    assert c[..CharLength(s)] == s[..CharLength(s)];
  }

  /** Well-formed text followed by well-formed text is well formed. */
  lemma {:induction false} ValidAppend(a: seq<byte>, b: seq<byte>)
    requires ValidUtf8(a) && ValidUtf8(b)
    ensures ValidUtf8(a + b)
    decreases |a|
  {
    if a == [] {
      assert a + b == b;
    } else {
      var n := CharLength(a);
      assert a == a[..n] + a[n..];
      var rest := a[n..] + b;
      assert a + b == a[..n] + rest;
      CharLengthPrefix(a, rest);
      assert (a + b)[n..] == rest;
      ValidAppend(a[n..], b);
    }
  }

  /** The lossy conversion always produces well-formed text. */
  lemma {:induction false} LossyIsValid(s: seq<byte>)
    ensures ValidUtf8(Lossy(s))
    decreases |s|
  {
    if s != [] {
      if CharLength(s) > 0 {
        var n := CharLength(s);
        LossyIsValid(s[n..]);
        assert ValidUtf8(s[..n]) by {
          CharLengthPrefix(s, []);
          assert s[..n] + [] == s[..n];
          assert s[..n][n..] == [];
        }
        ValidAppend(s[..n], Lossy(s[n..]));
      } else {
        LossyIsValid(s[MaximalSubpart(s)..]);
        assert CharLength(Replacement) == 3;
        assert Replacement[3..] == [];
        ValidAppend(Replacement, Lossy(s[MaximalSubpart(s)..]));
      }
    }
  }

  /** The lossy conversion leaves well-formed text unchanged. */
  lemma {:induction false} LossyOfValid(s: seq<byte>)
    requires ValidUtf8(s)
    ensures Lossy(s) == s
    decreases |s|
  {
    if s != [] {
      var n := CharLength(s);
      LossyOfValid(s[n..]);
      assert s == s[..n] + s[n..];
    }
  }

  /** The lossy conversion changes every ill-formed input. */
  lemma {:induction false} LossyChangesInvalid(s: seq<byte>)
    requires !ValidUtf8(s)
    ensures Lossy(s) != s
  {
    LossyIsValid(s);
  }

  /** ASCII text is well formed. */
  lemma {:induction false} AsciiIsValid(s: seq<byte>)
    requires forall i :: 0 <= i < |s| ==> s[i] < 0x80
    ensures ValidUtf8(s)
    decreases |s|
  {
    if s != [] {
      assert CharLength(s) == 1;
      AsciiIsValid(s[1..]);
    }
  }
}
