/** The `Base32<N>` scheme (`src/scheme/encoding.rs`): `N`-byte names written in
    the alphabet of section 6 of RFC 4648 (`A`-`Z` for 0-25, `2`-`7` for 26-31),
    `N` a multiple of 5 so that no padding occurs, and an ordering of prefix
    directory names by digit value rather than by byte. The scheme's `Case` is
    stored but never consulted: the alphabet is upper case. */
module Base32 {
  import opened Common
  import S = Scheme

  const UpperA: byte := 0x41
  const UpperZ: byte := 0x5A
  const Two: byte := 0x32
  const Seven: byte := 0x37

  /** `Base32Char`: a letter or a digit of the alphabet, keeping its byte. The
      derived `Ord` orders by variant first, then by byte. */
  datatype Base32Char = Alphabetic(b: byte) | Numeric(b: byte)

  /** `impl TryFrom<u8> for Base32Char`. */
  function TryFromByte(b: byte): (r: Result<Base32Char, S.Error>)
    ensures r.Ok? <==> (UpperA <= b <= UpperZ || Two <= b <= Seven)
    ensures r.Ok? ==> r.value.b == b && (r.value.Alphabetic? <==> UpperA <= b <= UpperZ)
    ensures r.Err? ==> r.error == S.InvalidByte(b)
  {
    if UpperA <= b <= UpperZ then Ok(Alphabetic(b))
    else if Two <= b <= Seven then Ok(Numeric(b))
    else Err(S.InvalidByte(b))
  }

  /** The derived `Ord` of `Base32Char`. */
  function CompareChar(x: Base32Char, y: Base32Char): Ordering
  {
    if x.Alphabetic? && y.Numeric? then Less
    else if x.Numeric? && y.Alphabetic? then Greater
    else CompareInt(x.b, y.b)
  }

  predicate IsAlphabetByte(b: byte)
  {
    UpperA <= b <= UpperZ || Two <= b <= Seven
  }

  /** The digit value section 6 of RFC 4648 gives an alphabet byte. */
  function DigitValue(b: byte): (v: nat)
    requires IsAlphabetByte(b)
    ensures v < 32
  {
    if b >= UpperA then b - UpperA else b - Two + 26
  }

  /** The alphabet byte for a digit value. */
  function Symbol(v: nat): (b: byte)
    requires v < 32
    ensures IsAlphabetByte(b) && DigitValue(b) == v
  {
    if v < 26 then UpperA + v else Two + (v - 26)
  }

  /** The derived order of two characters is the order of their digit values:
      every letter before every digit, each class by byte. */
  lemma CompareCharIsDigitOrder(x: byte, y: byte)
    requires IsAlphabetByte(x) && IsAlphabetByte(y)
    ensures CompareChar(TryFromByte(x).value, TryFromByte(y).value) == CompareInt(DigitValue(x), DigitValue(y))
  {
  }

  /** Lexicographic order of character sequences (`Vec<Base32Char>::cmp`). */
  function CompareChars(xs: seq<Base32Char>, ys: seq<Base32Char>): Ordering
  {
    if xs == [] && ys == [] then Equal
    else if xs == [] then Less
    else if ys == [] then Greater
    else if CompareChar(xs[0], ys[0]) != Equal then CompareChar(xs[0], ys[0])
    else CompareChars(xs[1..], ys[1..])
  }

  /** Convert every byte, stopping at the first that is not in the alphabet
      (`map(try_from).collect::<Result<Vec<_>, _>>()`). */
  function ToChars(s: seq<byte>): (r: Result<seq<Base32Char>, S.Error>)
    ensures r.Ok? ==> |r.value| == |s|
  {
    if s == [] then Ok([])
    else match TryFromByte(s[0])
      case Err(e) => Err(e)
      case Ok(ch) =>
        match ToChars(s[1..])
        case Err(e) => Err(e)
        case Ok(rest) => Ok([ch] + rest)
  }

  predicate AllAlphabet(s: seq<byte>)
  {
    forall i :: 0 <= i < |s| ==> IsAlphabetByte(s[i])
  }

  /** The first byte of `s` outside the alphabet, if any. */
  function FirstNonAlphabet(s: seq<byte>): (r: Option<byte>)
    ensures r.None? <==> AllAlphabet(s)
    ensures r.Some? ==> !IsAlphabetByte(r.value) && r.value in s
  {
    if s == [] then None
    else if !IsAlphabetByte(s[0]) then Some(s[0])
    else
      var r := FirstNonAlphabet(s[1..]);
      assert r.Some? ==> r.value in s by {
        if r.Some? { assert r.value in s[1..]; }
      }
      r
  }

  /** The digit values of an all-alphabet string. */
  function Values(s: seq<byte>): (v: seq<nat>)
    requires AllAlphabet(s)
    ensures |v| == |s|
    ensures forall i :: 0 <= i < |v| ==> v[i] < 32
  {
    if s == [] then [] else [DigitValue(s[0])] + Values(s[1..])
  }

  /** Conversion fails at exactly the first byte outside the alphabet. */
  lemma {:induction false} ToCharsSpec(s: seq<byte>)
    ensures ToChars(s).Ok? <==> AllAlphabet(s)
    ensures ToChars(s).Err? ==> ToChars(s).error == S.InvalidByte(FirstNonAlphabet(s).value)
  {
    if s != [] {
      ToCharsSpec(s[1..]);
      if IsAlphabetByte(s[0]) && !AllAlphabet(s[1..]) {
        var i :| 0 <= i < |s[1..]| && !IsAlphabetByte(s[1..][i]);
        assert !IsAlphabetByte(s[i + 1]);
      }
    }
  }

  /** On alphabet strings the character order is the order of digit values. */
  lemma {:induction false} CompareCharsIsValueOrder(a: seq<byte>, b: seq<byte>)
    requires AllAlphabet(a) && AllAlphabet(b)
    ensures ToChars(a).Ok? && ToChars(b).Ok?
    ensures CompareChars(ToChars(a).value, ToChars(b).value) == Lex(Values(a), Values(b))
  {
    ToCharsSpec(a);
    ToCharsSpec(b);
    if a != [] && b != [] {
      CompareCharIsDigitOrder(a[0], b[0]);
      CompareCharsIsValueOrder(a[1..], b[1..]);
      assert ToChars(a).value[1..] == ToChars(a[1..]).value;
      assert ToChars(b).value[1..] == ToChars(b[1..]).value;
      assert Values(a)[1..] == Values(a[1..]);
      assert Values(b)[1..] == Values(b[1..]);
    }
  }

  /** `Base32::<N>::cmp_prefix_part`. */
  function CmpPrefixPart(a: seq<byte>, b: seq<byte>): Result<Ordering, S.Error>
  {
    match ToChars(a)
    case Err(e) => Err(e)
    case Ok(ca) =>
      match ToChars(b)
      case Err(e) => Err(e)
      case Ok(cb) => Ok(CompareChars(ca, cb))
  }

  /** The prefix-part order: it fails with the first invalid byte of `a`, or else
      of `b`; on alphabet strings it is the lexicographic order of digit values. */
  lemma CmpPrefixPartSpec(a: seq<byte>, b: seq<byte>)
    ensures CmpPrefixPart(a, b).Ok? <==> AllAlphabet(a) && AllAlphabet(b)
    ensures !AllAlphabet(a) ==> CmpPrefixPart(a, b) == Err(S.InvalidByte(FirstNonAlphabet(a).value))
    ensures AllAlphabet(a) && !AllAlphabet(b) ==> CmpPrefixPart(a, b) == Err(S.InvalidByte(FirstNonAlphabet(b).value))
    ensures AllAlphabet(a) && AllAlphabet(b) ==> CmpPrefixPart(a, b) == Ok(Lex(Values(a), Values(b)))
  {
    ToCharsSpec(a);
    ToCharsSpec(b);
    if AllAlphabet(a) && AllAlphabet(b) {
      CompareCharsIsValueOrder(a, b);
    }
  }

  /** Digit values determine an alphabet string. */
  lemma {:induction false} ValuesInjective(a: seq<byte>, b: seq<byte>)
    requires AllAlphabet(a) && AllAlphabet(b) && Values(a) == Values(b)
    ensures a == b
  {
    if a != [] {
      assert Values(a)[0] == Values(b)[0];
      assert Values(a)[1..] == Values(a[1..]) && Values(b)[1..] == Values(b[1..]);
      ValuesInjective(a[1..], b[1..]);
      assert a == [a[0]] + a[1..] && b == [b[0]] + b[1..];
    }
  }

  /** On alphabet strings the prefix-part order is a total order: it reverses
      when the arguments swap, it is transitive, and only equal strings tie. */
  lemma CmpPrefixPartTotalOrder(a: seq<byte>, b: seq<byte>, c: seq<byte>)
    requires AllAlphabet(a) && AllAlphabet(b) && AllAlphabet(c)
    ensures CmpPrefixPart(a, b).Ok? && CmpPrefixPart(b, a).Ok?
    ensures CmpPrefixPart(b, a).value == CmpPrefixPart(a, b).value.Reverse()
    ensures CmpPrefixPart(a, b).value == Equal <==> a == b
    ensures CmpPrefixPart(a, b) == Ok(Less) && CmpPrefixPart(b, c) == Ok(Less) ==> CmpPrefixPart(a, c) == Ok(Less)
  {
    CmpPrefixPartSpec(a, b);
    CmpPrefixPartSpec(b, a);
    CmpPrefixPartSpec(b, c);
    CmpPrefixPartSpec(a, c);
    LexAntisymmetric(Values(a), Values(b));
    LexEqualIff(Values(a), Values(b));
    if Values(a) == Values(b) {
      ValuesInjective(a, b);
    }
    if Lex(Values(a), Values(b)) == Less && Lex(Values(b), Values(c)) == Less {
      LexTransitive(Values(a), Values(b), Values(c));
    }
  }

  /** Why the scheme overrides the default: `7` (value 31) comes after `A`
      (value 0) in digit order but before it in byte order. */
  lemma ByteOrderDisagrees()
    ensures CmpPrefixPart([Seven], [UpperA]) == Ok(Greater)
    ensures S.DefaultCmpPrefixPart([Seven], [UpperA]) == Ok(Less)
  {
    CmpPrefixPartSpec([Seven], [UpperA]);
    assert Values([Seven]) == [31];
    assert Values([UpperA]) == [0];
  }

  /** A string of `7`s, the largest digit, sorts last among alphabet strings of
      its length. */
  lemma {:induction false} AllSevensSortLast(a: seq<byte>, sevens: seq<byte>)
    requires AllAlphabet(a) && |sevens| == |a|
    requires forall i :: 0 <= i < |sevens| ==> sevens[i] == Seven
    ensures CmpPrefixPart(sevens, a) != Ok(Less)
  {
    ValuesOfSevens(sevens);
    CmpPrefixPartSpec(sevens, a);
    LexMaxLast(Values(a), Values(sevens));
    LexAntisymmetric(Values(a), Values(sevens));
  }

  lemma {:induction false} LexMaxLast(v: seq<int>, w: seq<int>)
    requires |v| == |w|
    requires forall i :: 0 <= i < |v| ==> v[i] <= 31
    requires forall i :: 0 <= i < |w| ==> w[i] == 31
    ensures Lex(v, w) != Greater
  {
    if v != [] {
      LexMaxLast(v[1..], w[1..]);
    }
  }

  lemma {:induction false} ValuesOfSevens(s: seq<byte>)
    requires forall i :: 0 <= i < |s| ==> s[i] == Seven
    ensures AllAlphabet(s)
    ensures forall i :: 0 <= i < |s| ==> Values(s)[i] == 31
  {
    if s != [] {
      ValuesOfSevens(s[1..]);
      assert forall i :: 1 <= i < |s| ==> Values(s)[i] == Values(s[1..])[i - 1];
    }
  }

  // ----- The codec of section 6 of RFC 4648, on whole 5-byte groups -----

  /** Eight 5-bit digit values, most significant first, of one 40-bit group. */
  function EncodeGroup(b0: byte, b1: byte, b2: byte, b3: byte, b4: byte): (d: seq<nat>)
    ensures |d| == 8 && forall i :: 0 <= i < 8 ==> d[i] < 32
  {
    [ b0 / 8,
      (b0 % 8) * 4 + b1 / 64,
      (b1 / 2) % 32,
      (b1 % 2) * 16 + b2 / 16,
      (b2 % 16) * 2 + b3 / 128,
      (b3 / 4) % 32,
      (b3 % 4) * 8 + b4 / 32,
      b4 % 32 ]
  }

  /** The five bytes of one group of eight digit values. */
  function DecodeGroup(d: seq<nat>): (b: seq<byte>)
    requires |d| == 8 && forall i :: 0 <= i < 8 ==> d[i] < 32
    ensures |b| == 5
  {
    [ d[0] * 8 + d[1] / 4,
      (d[1] % 4) * 64 + d[2] * 2 + d[3] / 16,
      (d[3] % 16) * 16 + d[4] / 2,
      (d[4] % 2) * 128 + d[5] * 4 + d[6] / 8,
      (d[6] % 8) * 32 + d[7] ]
  }

  // One lemma per byte and per digit keeps each arithmetic fact small; each
  // step divides by a constant only.
  lemma Byte0(b0: nat, b1: nat)
    requires b0 < 256 && b1 < 256
    ensures (b0 / 8) * 8 + ((b0 % 8) * 4 + b1 / 64) / 4 == b0
  {
    assert ((b0 % 8) * 4 + b1 / 64) / 4 == b0 % 8;
  }
  lemma Byte1(b0: nat, b1: nat, b2: nat)
    requires b0 < 256 && b1 < 256 && b2 < 256
    ensures (((b0 % 8) * 4 + b1 / 64) % 4) * 64 + ((b1 / 2) % 32) * 2 + ((b1 % 2) * 16 + b2 / 16) / 16 == b1
  {
    assert ((b0 % 8) * 4 + b1 / 64) % 4 == b1 / 64;
    assert ((b1 % 2) * 16 + b2 / 16) / 16 == b1 % 2;
  }
  lemma Byte2(b1: nat, b2: nat, b3: nat)
    requires b1 < 256 && b2 < 256 && b3 < 256
    ensures (((b1 % 2) * 16 + b2 / 16) % 16) * 16 + ((b2 % 16) * 2 + b3 / 128) / 2 == b2
  {
    assert ((b1 % 2) * 16 + b2 / 16) % 16 == b2 / 16;
    assert ((b2 % 16) * 2 + b3 / 128) / 2 == b2 % 16;
  }
  lemma Byte3(b2: nat, b3: nat, b4: nat)
    requires b2 < 256 && b3 < 256 && b4 < 256
    ensures (((b2 % 16) * 2 + b3 / 128) % 2) * 128 + ((b3 / 4) % 32) * 4 + ((b3 % 4) * 8 + b4 / 32) / 8 == b3
  {
    assert ((b2 % 16) * 2 + b3 / 128) % 2 == b3 / 128;
    assert ((b3 % 4) * 8 + b4 / 32) / 8 == b3 % 4;
  }
  lemma Byte4(b3: nat, b4: nat)
    requires b3 < 256 && b4 < 256
    ensures (((b3 % 4) * 8 + b4 / 32) % 8) * 32 + b4 % 32 == b4
  {
    assert ((b3 % 4) * 8 + b4 / 32) % 8 == b4 / 32;
  }

  /** Decoding a group undoes encoding it. */
  lemma DecodeEncodeGroup(b0: byte, b1: byte, b2: byte, b3: byte, b4: byte)
    ensures DecodeGroup(EncodeGroup(b0, b1, b2, b3, b4)) == [b0, b1, b2, b3, b4]
  {
    var d := EncodeGroup(b0, b1, b2, b3, b4);
    var r := DecodeGroup(d);
    assert r[0] == b0 by { Byte0(b0, b1); }
    assert r[1] == b1 by { Byte1(b0, b1, b2); }
    assert r[2] == b2 by { Byte2(b1, b2, b3); }
    assert r[3] == b3 by { Byte3(b2, b3, b4); }
    assert r[4] == b4 by { Byte4(b3, b4); }
  }

  lemma Digits01(d0: nat, d1: nat, d2: nat, d3: nat)
    requires d0 < 32 && d1 < 32 && d2 < 32 && d3 < 32
    ensures (d0 * 8 + d1 / 4) / 8 == d0
    ensures ((d0 * 8 + d1 / 4) % 8) * 4 + ((d1 % 4) * 64 + d2 * 2 + d3 / 16) / 64 == d1
  {
    assert (d0 * 8 + d1 / 4) % 8 == d1 / 4;
    assert ((d1 % 4) * 64 + d2 * 2 + d3 / 16) / 64 == d1 % 4;
  }
  lemma Digits23(d1: nat, d2: nat, d3: nat, d4: nat)
    requires d1 < 32 && d2 < 32 && d3 < 32 && d4 < 32
    ensures (((d1 % 4) * 64 + d2 * 2 + d3 / 16) / 2) % 32 == d2
    ensures (((d1 % 4) * 64 + d2 * 2 + d3 / 16) % 2) * 16 + ((d3 % 16) * 16 + d4 / 2) / 16 == d3
  {
    assert ((d1 % 4) * 64 + d2 * 2 + d3 / 16) / 2 == (d1 % 4) * 32 + d2;
    assert ((d1 % 4) * 64 + d2 * 2 + d3 / 16) % 2 == d3 / 16;
    assert ((d3 % 16) * 16 + d4 / 2) / 16 == d3 % 16;
  }
  lemma Digits45(d3: nat, d4: nat, d5: nat, d6: nat)
    requires d3 < 32 && d4 < 32 && d5 < 32 && d6 < 32
    ensures (((d3 % 16) * 16 + d4 / 2) % 16) * 2 + ((d4 % 2) * 128 + d5 * 4 + d6 / 8) / 128 == d4
    ensures (((d4 % 2) * 128 + d5 * 4 + d6 / 8) / 4) % 32 == d5
  {
    assert ((d3 % 16) * 16 + d4 / 2) % 16 == d4 / 2;
    assert ((d4 % 2) * 128 + d5 * 4 + d6 / 8) / 128 == d4 % 2;
    assert ((d4 % 2) * 128 + d5 * 4 + d6 / 8) / 4 == (d4 % 2) * 32 + d5;
  }
  lemma Digits67(d4: nat, d5: nat, d6: nat, d7: nat)
    requires d4 < 32 && d5 < 32 && d6 < 32 && d7 < 32
    ensures (((d4 % 2) * 128 + d5 * 4 + d6 / 8) % 4) * 8 + ((d6 % 8) * 32 + d7) / 32 == d6
    ensures ((d6 % 8) * 32 + d7) % 32 == d7
  {
    assert ((d4 % 2) * 128 + d5 * 4 + d6 / 8) % 4 == d6 / 8;
    assert ((d6 % 8) * 32 + d7) / 32 == d6 % 8;
  }

  /** Encoding a group undoes decoding it. */
  lemma EncodeDecodeGroup(d: seq<nat>)
    requires |d| == 8 && forall i :: 0 <= i < 8 ==> d[i] < 32
    ensures var b := DecodeGroup(d); EncodeGroup(b[0], b[1], b[2], b[3], b[4]) == d
  {
    var b := DecodeGroup(d);
    var e := EncodeGroup(b[0], b[1], b[2], b[3], b[4]);
    assert e[0] == d[0] && e[1] == d[1] by { Digits01(d[0], d[1], d[2], d[3]); }
    assert e[2] == d[2] && e[3] == d[3] by { Digits23(d[1], d[2], d[3], d[4]); }
    assert e[4] == d[4] && e[5] == d[5] by { Digits45(d[3], d[4], d[5], d[6]); }
    assert e[6] == d[6] && e[7] == d[7] by { Digits67(d[4], d[5], d[6], d[7]); }
  }

  /** A non-empty whole number of groups holds a first group and whole groups after it. */
  lemma GroupOf5(n: nat)
    requires n % 5 == 0 && n != 0
    ensures n >= 5 && (n - 5) % 5 == 0
  {}

  lemma GroupOf8(n: nat)
    requires n % 8 == 0 && n != 0
    ensures n >= 8 && (n - 8) % 8 == 0
  {}

  /** Eight symbols for every five bytes: an encoding of whole groups is whole groups. */
  lemma EncodedLength(n: nat, m: nat)
    requires n % 5 == 0 && 5 * m == 8 * n
    ensures m == n / 5 * 8 && m % 8 == 0
  {
    var k := n / 5;
    assert n == 5 * k;
    assert m == 8 * k;
  }

  lemma DecodedLength(m: nat, n: nat)
    requires m % 8 == 0 && 8 * n == 5 * m
    ensures n == m / 8 * 5 && n % 5 == 0
  {
    var k := m / 8;
    assert m == 8 * k;
    assert n == 5 * k;
  }

  function Symbols(d: seq<nat>): (s: seq<byte>)
    requires forall i :: 0 <= i < |d| ==> d[i] < 32
    ensures |s| == |d| && AllAlphabet(s)
  {
    if d == [] then [] else [Symbol(d[0])] + Symbols(d[1..])
  }

  /** `BASE32.encode` on a whole number of groups. */
  function Encode(name: seq<byte>): (s: seq<byte>)
    requires |name| % 5 == 0
    ensures 5 * |s| == 8 * |name|
    ensures AllAlphabet(s)
  {
    if name == [] then []
    else
      GroupOf5(|name|);
      Symbols(EncodeGroup(name[0], name[1], name[2], name[3], name[4])) + Encode(name[5..])
  }

  /** `BASE32.decode` on an alphabet string of whole groups. */
  function DecodeValues(v: seq<nat>): (b: seq<byte>)
    requires |v| % 8 == 0 && forall i :: 0 <= i < |v| ==> v[i] < 32
    ensures 8 * |b| == 5 * |v|
  {
    if v == [] then []
    else
      GroupOf8(|v|);
      DecodeGroup(v[..8]) + DecodeValues(v[8..])
  }

  lemma {:induction false} ValuesOfSymbols(d: seq<nat>)
    requires forall i :: 0 <= i < |d| ==> d[i] < 32
    ensures Values(Symbols(d)) == d
  {
    if d != [] {
      ValuesOfSymbols(d[1..]);
    }
  }

  lemma {:induction false} ValuesAppend(a: seq<byte>, b: seq<byte>)
    requires AllAlphabet(a) && AllAlphabet(b)
    ensures AllAlphabet(a + b) && Values(a + b) == Values(a) + Values(b)
  {
    assert AllAlphabet(a + b) by {
      forall i | 0 <= i < |a + b| ensures IsAlphabetByte((a + b)[i]) {
        if i < |a| { assert (a + b)[i] == a[i]; } else { assert (a + b)[i] == b[i - |a|]; }
      }
    }
    if a == [] {
      assert a + b == b;
    } else {
      assert (a + b)[0] == a[0] && (a + b)[1..] == a[1..] + b;
      ValuesAppend(a[1..], b);
      assert Values(a + b) == [DigitValue(a[0])] + Values(a[1..] + b);
      assert Values(a) == [DigitValue(a[0])] + Values(a[1..]);
    }
  }

  lemma EncodeStep(name: seq<byte>)
    requires |name| % 5 == 0 && name != []
    ensures Encode(name) == Symbols(EncodeGroup(name[0], name[1], name[2], name[3], name[4])) + Encode(name[5..])
  {
  }

  lemma ValuesOfSymbolsAppend(g: seq<nat>, tail: seq<byte>)
    requires forall i :: 0 <= i < |g| ==> g[i] < 32
    requires AllAlphabet(tail)
    ensures AllAlphabet(Symbols(g) + tail)
    ensures Values(Symbols(g) + tail) == g + Values(tail)
  {
    ValuesOfSymbols(g);
    ValuesAppend(Symbols(g), tail);
  }

  /** The digit values of an encoding, one group at a time. */
  lemma ValuesOfEncode(name: seq<byte>)
    requires |name| % 5 == 0 && name != []
    ensures Values(Encode(name)) == EncodeGroup(name[0], name[1], name[2], name[3], name[4]) + Values(Encode(name[5..]))
  {
    GroupOf5(|name|);
    var g := EncodeGroup(name[0], name[1], name[2], name[3], name[4]);
    var tail := Encode(name[5..]);
    assert Encode(name) == Symbols(g) + tail by { EncodeStep(name); }
    ValuesOfSymbolsAppend(g, tail);
  }

  lemma DecodeValuesStep(g: seq<nat>, rest: seq<nat>)
    requires |g| == 8 && forall i :: 0 <= i < 8 ==> g[i] < 32
    requires |rest| % 8 == 0 && forall i :: 0 <= i < |rest| ==> rest[i] < 32
    ensures |g + rest| % 8 == 0 && DecodeValues(g + rest) == DecodeGroup(g) + DecodeValues(rest)
  {
    var v := g + rest;
    assert v[..8] == g && v[8..] == rest;
  }

  /** Decoding undoes encoding. */
  lemma {:induction false} DecodeEncode(name: seq<byte>)
    requires |name| % 5 == 0
    ensures |Values(Encode(name))| % 8 == 0
    ensures DecodeValues(Values(Encode(name))) == name
  {
    EncodedLength(|name|, |Encode(name)|);
    if name != [] {
      GroupOf5(|name|);
      var g := EncodeGroup(name[0], name[1], name[2], name[3], name[4]);
      DecodeEncode(name[5..]);
      var rest := Values(Encode(name[5..]));
      ValuesOfEncode(name);
      DecodeValuesStep(g, rest);
      DecodeEncodeGroup(name[0], name[1], name[2], name[3], name[4]);
      assert DecodeGroup(g) == name[..5];
      assert name == name[..5] + name[5..];
    }
  }

  /** One group of an alphabet string decodes to the first five bytes. */
  lemma DecodeValuesOfSplit(s: seq<byte>)
    requires AllAlphabet(s) && |s| % 8 == 0 && s != []
    ensures Values(s) == Values(s[..8]) + Values(s[8..])
  {
    GroupOf8(|s|);
    assert s == s[..8] + s[8..];
    ValuesAppend(s[..8], s[8..]);
  }

  /** Encoding undoes decoding: every alphabet string of whole groups is the
      encoding of exactly one name, so decoding accepts nothing else. */
  lemma {:induction false} EncodeDecode(s: seq<byte>)
    requires AllAlphabet(s) && |s| % 8 == 0
    ensures |DecodeValues(Values(s))| % 5 == 0
    ensures Encode(DecodeValues(Values(s))) == s
  {
    DecodedLength(|s|, |DecodeValues(Values(s))|);
    if s != [] {
      GroupOf8(|s|);
      var head, tail := s[..8], s[8..];
      DecodeValuesOfSplit(s);
      var d := Values(head);
      var b := DecodeGroup(d);
      var rest := DecodeValues(Values(tail));
      var v := d + Values(tail);
      assert v[..8] == d && v[8..] == Values(tail);
      var name := b + rest;
      assert DecodeValues(Values(s)) == name;
      EncodeDecode(tail);
      EncodeDecodeGroup(d);
      SymbolsOfValues(head);
      assert name[..5] == b && name[5..] == rest;
      assert Encode(name) == Symbols(EncodeGroup(b[0], b[1], b[2], b[3], b[4])) + Encode(rest);
      assert s == head + tail;
    }
  }

  lemma {:induction false} SymbolsOfValues(s: seq<byte>)
    requires AllAlphabet(s)
    ensures Symbols(Values(s)) == s
  {
    if s != [] {
      SymbolsOfValues(s[1..]);
    }
  }

  // ----- The scheme -----

  /** `Base32::<N>::fixed_length()`. */
  function FixedLength(n: nat): (r: Option<nat>)
    ensures r == Some(n / 5 * 8)
  {
    Some(n / 5 * 8)
  }

  /** `Base32::<N>::name_to_string`. */
  function NameToString(name: seq<byte>): (s: seq<byte>)
    requires |name| % 5 == 0
    ensures |s| == |name| / 5 * 8
  {
    EncodedLength(|name|, |Encode(name)|);
    Encode(name)
  }

  /** `Base32::<N>::name_from_file_stem`; `N` must be a multiple of 5 (`VALID`). */
  function NameFromFileStem(n: nat, stem: seq<byte>): Result<seq<byte>, S.Error>
    requires n % 5 == 0
  {
    if |stem| != n / 5 * 8 then Err(S.InvalidLength(|stem|))
    else match FirstNonAlphabet(stem)
      case Some(b) => Err(S.InvalidByte(b))
      case None =>
        Ok(DecodeValues(Values(stem)))
  }

  /** Decode, error by error: a wrong length first, then a byte outside the
      alphabet; success gives `N` bytes whose encoding is the stem. */
  lemma NameFromFileStemSpec(n: nat, stem: seq<byte>)
    requires n % 5 == 0
    ensures |stem| != n / 5 * 8 ==> NameFromFileStem(n, stem) == Err(S.InvalidLength(|stem|))
    ensures |stem| == n / 5 * 8 && !AllAlphabet(stem) ==>
              NameFromFileStem(n, stem) == Err(S.InvalidByte(FirstNonAlphabet(stem).value))
    ensures NameFromFileStem(n, stem).Ok? <==> |stem| == n / 5 * 8 && AllAlphabet(stem)
    ensures NameFromFileStem(n, stem).Ok? ==>
              |NameFromFileStem(n, stem).value| == n && NameToString(NameFromFileStem(n, stem).value) == stem
  {
    if |stem| == n / 5 * 8 && AllAlphabet(stem) {
      EncodeDecode(stem);
      var k := n / 5;
      assert n == 5 * k && |stem| == 8 * k;
      DecodedLength(|stem|, |DecodeValues(Values(stem))|);
    }
  }

  /** Round trip: every `[u8; N]` decodes back from its encoding. */
  lemma NameRoundTrip(n: nat, name: seq<byte>)
    requires n % 5 == 0 && |name| == n
    ensures NameFromFileStem(n, NameToString(name)) == Ok(name)
  {
    DecodeEncode(name);
  }

  /** The encodings the scheme's own test expects: `abcd_` is `MFRGGZC7`, and
      five `0xFF` bytes are all `7`s, so `[255; 20]` sorts after `abcd_...`. */
  lemma KnownEncodings()
    ensures NameToString([0x61, 0x62, 0x63, 0x64, 0x5F]) == [0x4D, 0x46, 0x52, 0x47, 0x47, 0x5A, 0x43, 0x37]
  {
    var name: seq<byte> := [0x61, 0x62, 0x63, 0x64, 0x5F];
    var g := EncodeGroup(0x61, 0x62, 0x63, 0x64, 0x5F);
    assert g == [12, 5, 17, 6, 6, 25, 2, 31];
    assert name[5..] == [];
    assert Encode(name) == Symbols(g) + Encode([]);
    SymbolsOfDigits(g);
  }

  /** Five `0xFF` bytes encode to eight `7`s. */
  lemma AllOnesEncoding()
    ensures NameToString([255, 255, 255, 255, 255]) == [Seven, Seven, Seven, Seven, Seven, Seven, Seven, Seven]
  {
    var name: seq<byte> := [255, 255, 255, 255, 255];
    var g := EncodeGroup(255, 255, 255, 255, 255);
    assert g == [31, 31, 31, 31, 31, 31, 31, 31];
    assert name[5..] == [];
    assert Encode(name) == Symbols(g) + Encode([]);
    SymbolsOfDigits(g);
  }

  lemma SymbolsOfDigits(d: seq<nat>)
    requires |d| == 8 && forall i :: 0 <= i < 8 ==> d[i] < 32
    ensures Symbols(d) == [Symbol(d[0]), Symbol(d[1]), Symbol(d[2]), Symbol(d[3]),
                           Symbol(d[4]), Symbol(d[5]), Symbol(d[6]), Symbol(d[7])]
  {
    var r := Symbols(d);
    SymbolAt(d, 0); SymbolAt(d, 1); SymbolAt(d, 2); SymbolAt(d, 3);
    SymbolAt(d, 4); SymbolAt(d, 5); SymbolAt(d, 6); SymbolAt(d, 7);
  }

  lemma {:induction false} SymbolAt(d: seq<nat>, i: nat)
    requires forall j :: 0 <= j < |d| ==> d[j] < 32
    requires i < |d|
    ensures Symbols(d)[i] == Symbol(d[i])
  {
    if i > 0 {
      SymbolAt(d[1..], i - 1);
    }
  }
}
