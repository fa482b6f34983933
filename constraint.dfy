/** The constraints a tree can place on its leaf files (`src/constraint.rs`). */
module Constraint {
  import opened Common

  /** What extension a leaf file may carry. `None` forbids one, `Any` demands
      one, `Fixed(ext)` demands exactly `ext`. Leaving the constraint unset (an
      absent `Option<Extension>` in a tree) is a different thing: no check. */
  datatype Extension = None | Any | Fixed(ext: seq<byte>)

  /** How long a leaf file's stem may be: exactly `n` bytes, or in `[min, max)`. */
  datatype Length = Fixed(length: nat) | Range(minimum: nat, maximum: nat)

  /** `Extension::default()`. */
  function DefaultExtension(): (e: Extension)
    ensures e.None? && e != Extension.Any
  {
    Extension.None
  }

  /** `impl From<usize> for Length`. */
  function LengthFromSize(n: nat): (l: Length)
    ensures l.Fixed? && l.length == n
  {
    Length.Fixed(n)
  }

  /** `impl From<Range<usize>> for Length`: the end of the range stays exclusive. */
  function LengthFromRange(start: nat, end: nat): (l: Length)
    ensures l.Range? && l.minimum == start && l.maximum == end
  {
    Length.Range(start, end)
  }

  /** The largest stem length a constraint admits an upper bound by: the fixed
      length, or the (exclusive) end of the range. The builder checks prefix
      lengths against it. */
  function UpperBound(l: Length): nat
  {
    match l
    case Fixed(n) => n
    case Range(_, n) => n
  }

  /** Whether a stem of `len` bytes satisfies a length constraint. */
  predicate Admits(l: Length, len: nat)
  {
    match l
    case Fixed(n) => len == n
    case Range(lo, hi) => lo <= len < hi
  }

  /** Every admitted length is bounded by the constraint's upper bound. */
  lemma AdmittedWithinUpperBound(l: Length, len: nat)
    requires Admits(l, len)
    ensures len <= UpperBound(l)
  {
  }
}
