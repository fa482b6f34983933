/** Small value types shared by every part of the model: bytes, optional values,
    results, three-way comparison outcomes and the lexicographic order that Rust's
    `Ord` gives to slices. */
module Common {

  /** A `u8`. */
  type byte = x: int | 0 <= x < 256

  datatype Option<+T> = None | Some(value: T)

  datatype Result<+T, +E> = Ok(value: T) | Err(error: E)

  /** `std::cmp::Ordering`. */
  datatype Ordering = Less | Equal | Greater {
    /** `Ordering::reverse`. */
    function Reverse(): (r: Ordering)
      ensures (r == Less) <==> (this == Greater)
      ensures (r == Equal) <==> (this == Equal)
    {
      match this
      case Less => Greater
      case Equal => Equal
      case Greater => Less
    }
  }

  /** Three-way comparison of two integers. */
  function CompareInt(a: int, b: int): (r: Ordering)
    ensures r == Less <==> a < b
    ensures r == Equal <==> a == b
    ensures r == Greater <==> a > b
  {
    if a < b then Less else if a == b then Equal else Greater
  }

  /** Lexicographic comparison of two integer sequences, as Rust's `Ord` for slices:
      the first differing position decides, and a proper prefix sorts first. */
  function Lex(a: seq<int>, b: seq<int>): Ordering
  {
    if a == [] && b == [] then Equal
    else if a == [] then Less
    else if b == [] then Greater
    else if a[0] != b[0] then CompareInt(a[0], b[0])
    else Lex(a[1..], b[1..])
  }

  /** Lex decides equality exactly. */
  lemma {:induction false} LexEqualIff(a: seq<int>, b: seq<int>)
    ensures Lex(a, b) == Equal <==> a == b
  {
    if a != [] && b != [] && a[0] == b[0] {
      LexEqualIff(a[1..], b[1..]);
      assert a == [a[0]] + a[1..] && b == [b[0]] + b[1..];
    }
  }

  /** Swapping the arguments reverses the outcome. */
  lemma {:induction false} LexAntisymmetric(a: seq<int>, b: seq<int>)
    ensures Lex(b, a) == Lex(a, b).Reverse()
  {
    if a != [] && b != [] && a[0] == b[0] {
      LexAntisymmetric(a[1..], b[1..]);
    }
  }

  /** "Sorts strictly before" is transitive. */
  lemma {:induction false} LexTransitive(a: seq<int>, b: seq<int>, c: seq<int>)
    requires Lex(a, b) == Less && Lex(b, c) == Less
    ensures Lex(a, c) == Less
  {
    if a != [] && b != [] && c != [] && a[0] == b[0] && b[0] == c[0] {
      LexTransitive(a[1..], b[1..], c[1..]);
    }
  }

  /** A proper prefix sorts before its extensions. */
  lemma {:induction false} LexPrefixFirst(a: seq<int>, b: seq<int>)
    requires b != []
    ensures Lex(a, a + b) == Less
  {
    if a != [] {
      assert (a + b)[0] == a[0];
      assert (a + b)[1..] == a[1..] + b;
      LexPrefixFirst(a[1..], b);
    }
  }

  /** The sum of a sequence of naturals (`iter().sum()`). */
  function Sum(s: seq<nat>): nat
  {
    if s == [] then 0 else s[0] + Sum(s[1..])
  }

  /** Summing a concatenation sums the parts. */
  lemma {:induction false} SumAppend(a: seq<nat>, b: seq<nat>)
    ensures Sum(a + b) == Sum(a) + Sum(b)
  {
    if a == [] {
      assert a + b == b;
    } else {
      assert (a + b)[1..] == a[1..] + b;
      SumAppend(a[1..], b);
    }
  }

  /** The sum of a prefix grows by the next element. */
  lemma SumPrefixStep(s: seq<nat>, i: nat)
    requires i < |s|
    ensures Sum(s[..i + 1]) == Sum(s[..i]) + s[i]
  {
    assert s[..i + 1] == s[..i] + [s[i]];
    SumAppend(s[..i], [s[i]]);
    assert Sum([s[i]]) == s[i] + Sum([]);
  }

  /** No prefix sums to more than the whole. */
  lemma SumPrefixBound(s: seq<nat>, i: nat)
    requires i <= |s|
    ensures Sum(s[..i]) <= Sum(s)
  {
    assert s == s[..i] + s[i..];
    SumAppend(s[..i], s[i..]);
  }

  function Max(a: int, b: int): int
  {
    if a < b then b else a
  }
}
