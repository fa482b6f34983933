/** `TreeBuilder` (`src/builder.rs`): a record of the tree's settings, updated by
    value one field at a time, and checked once when the tree is built. */
module Builder {
  import opened Common
  import C = Constraint
  import Schemes
  import Fs
  import T = PrefixTree

  /** `builder::Error`. */
  datatype Error = InconsistentPrefixPartLengths(prefixPartLengthsTotal: nat, lengthConstraint: C.Length)

  datatype TreeBuilder = TreeBuilder(
    base: Fs.Path,
    lengthConstraint: Option<C.Length>,
    extensionConstraint: Option<C.Extension>,
    prefixPartLengths: Option<seq<nat>>,
    scheme: Schemes.Scheme)

  /** `TreeBuilder::new` (what `Tree::builder` calls): nothing set, `Identity` names. */
  function New(base: Fs.Path): (b: TreeBuilder)
    ensures b.base == base
    ensures b.lengthConstraint.None? && b.extensionConstraint.None? && b.prefixPartLengths.None?
    ensures b.scheme == Schemes.Identity
  {
    TreeBuilder(base, None, None, None, Schemes.Identity)
  }

  /** `into_tree`: the settings as they are, unset prefix lengths read as none. */
  function IntoTree(b: TreeBuilder): (t: T.Tree)
    ensures t.base == b.base && t.scheme == b.scheme
    ensures t.lengthConstraint == b.lengthConstraint && t.extensionConstraint == b.extensionConstraint
    ensures b.prefixPartLengths.None? ==> t.prefixPartLengths == []
    ensures b.prefixPartLengths.Some? ==> t.prefixPartLengths == b.prefixPartLengths.value
  {
    T.Tree(b.base, b.lengthConstraint, b.extensionConstraint,
           if b.prefixPartLengths.Some? then b.prefixPartLengths.value else [],
           b.scheme)
  }

  /** `build`: with a length constraint, the prefix parts together must not be
      longer than its upper bound (the fixed length, or the end of the range). */
  function Build(b: TreeBuilder): (r: Result<T.Tree, Error>)
    ensures r.Ok? <==> b.lengthConstraint.None? ||
                       T.PrefixPartLengthsTotal(IntoTree(b)) <= C.UpperBound(b.lengthConstraint.value)
    ensures r.Ok? ==> r.value == IntoTree(b)
    ensures r.Err? ==> r.error == InconsistentPrefixPartLengths(T.PrefixPartLengthsTotal(IntoTree(b)), b.lengthConstraint.value)
  {
    var tree := IntoTree(b);
    match tree.lengthConstraint
    case Some(lengthConstraint) =>
      var total := Sum(tree.prefixPartLengths);
      (match lengthConstraint
       case Fixed(length) =>
         if total <= length then Ok(tree) else Err(InconsistentPrefixPartLengths(total, lengthConstraint))
       case Range(_, length) =>
         if total <= length then Ok(tree) else Err(InconsistentPrefixPartLengths(total, lengthConstraint)))
    case None => Ok(tree)
  }

  /** `with_no_extension`. */
  function WithNoExtension(b: TreeBuilder): (r: TreeBuilder)
    ensures r.extensionConstraint == Some(C.Extension.None)
    ensures r == b.(extensionConstraint := r.extensionConstraint)
  {
    b.(extensionConstraint := Some(C.Extension.None))
  }

  /** `with_extension`. */
  function WithExtension(b: TreeBuilder, extension: seq<byte>): (r: TreeBuilder)
    ensures r.extensionConstraint == Some(C.Extension.Fixed(extension))
    ensures r == b.(extensionConstraint := r.extensionConstraint)
  {
    b.(extensionConstraint := Some(C.Extension.Fixed(extension)))
  }

  /** `with_any_extension`. */
  function WithAnyExtension(b: TreeBuilder): (r: TreeBuilder)
    ensures r.extensionConstraint == Some(C.Extension.Any)
    ensures r == b.(extensionConstraint := r.extensionConstraint)
  {
    b.(extensionConstraint := Some(C.Extension.Any))
  }

  /** `with_length`. */
  function WithLength(b: TreeBuilder, length: nat): (r: TreeBuilder)
    ensures r.lengthConstraint == Some(C.Length.Fixed(length))
    ensures r == b.(lengthConstraint := r.lengthConstraint)
  {
    b.(lengthConstraint := Some(C.LengthFromSize(length)))
  }

  /** `with_length_range`. */
  function WithLengthRange(b: TreeBuilder, start: nat, end: nat): (r: TreeBuilder)
    ensures r.lengthConstraint == Some(C.Length.Range(start, end))
    ensures r == b.(lengthConstraint := r.lengthConstraint)
  {
    b.(lengthConstraint := Some(C.LengthFromRange(start, end)))
  }

  /** `with_prefix_part_lengths`. */
  function WithPrefixPartLengths(b: TreeBuilder, lengths: seq<nat>): (r: TreeBuilder)
    ensures r.prefixPartLengths == Some(lengths)
    ensures r == b.(prefixPartLengths := r.prefixPartLengths)
  {
    b.(prefixPartLengths := Some(lengths))
  }

  /** `with_scheme`: a scheme with a fixed encoded length also fixes the length
      constraint to it; otherwise the constraint already set stays. */
  function WithScheme(b: TreeBuilder, scheme: Schemes.Scheme): (r: TreeBuilder)
    ensures r.scheme == scheme
    ensures Schemes.FixedLength(scheme).Some? ==>
              r.lengthConstraint == Some(C.Length.Fixed(Schemes.FixedLength(scheme).value))
    ensures Schemes.FixedLength(scheme).None? ==> r.lengthConstraint == b.lengthConstraint
    ensures r.base == b.base && r.extensionConstraint == b.extensionConstraint
    ensures r.prefixPartLengths == b.prefixPartLengths
  {
    var lengthConstraint :=
      match Schemes.FixedLength(scheme)
      case None => b.lengthConstraint
      case Some(fixedLength) => Some(C.LengthFromSize(fixedLength));
    TreeBuilder(b.base, lengthConstraint, b.extensionConstraint, b.prefixPartLengths, scheme)
  }

  /** Without a length constraint every prefix configuration builds. */
  lemma BuildWithoutLengthConstraint(b: TreeBuilder)
    requires b.lengthConstraint.None?
    ensures Build(b) == Ok(IntoTree(b))
  {
  }

  /** The last setting of a field wins, and settings of different fields commute. */
  lemma LastSettingWins(b: TreeBuilder, n: nat, lo: nat, hi: nat, ext: seq<byte>, lengths: seq<nat>, lengths': seq<nat>)
    ensures WithLength(WithLengthRange(b, lo, hi), n) == WithLength(b, n)
    ensures WithLengthRange(WithLength(b, n), lo, hi) == WithLengthRange(b, lo, hi)
    ensures WithAnyExtension(WithExtension(b, ext)) == WithAnyExtension(b)
    ensures WithExtension(WithNoExtension(b), ext) == WithExtension(b, ext)
    ensures WithNoExtension(WithAnyExtension(b)) == WithNoExtension(b)
    ensures WithPrefixPartLengths(WithPrefixPartLengths(b, lengths), lengths') == WithPrefixPartLengths(b, lengths')
    ensures WithExtension(WithLength(b, n), ext) == WithLength(WithExtension(b, ext), n)
    ensures WithPrefixPartLengths(WithLength(b, n), lengths) == WithLength(WithPrefixPartLengths(b, lengths), n)
  {
  }

  /** A fixed-length scheme set after a length overrides it; `with_length` after
      the scheme overrides the scheme's length in turn. */
  lemma SchemeLengthOrder(b: TreeBuilder, scheme: Schemes.Scheme, n: nat)
    requires Schemes.FixedLength(scheme).Some?
    ensures WithScheme(WithLength(b, n), scheme) == WithScheme(b, scheme)
    ensures WithLength(WithScheme(b, scheme), n).lengthConstraint == Some(C.Length.Fixed(n))
  {
  }

  /** A tree built after `with_scheme` of a fixed-length scheme, whose length
      constraint is still that length, has a path for every name: the encoded
      names are exactly that long, and `build` checked that the prefix parts fit. */
  lemma FixedSchemeTreeHasEveryPath(b: TreeBuilder, name: seq<byte>)
    requires Schemes.Valid(b.scheme) && Schemes.FixedLength(b.scheme).Some?
    requires Schemes.FixedLength(b.scheme).value >= 1
    requires b.lengthConstraint == Some(C.Length.Fixed(Schemes.FixedLength(b.scheme).value))
    requires Build(b).Ok?
    requires Schemes.IsName(b.scheme, name)
    ensures T.NamePathOf(Build(b).value, name).Ok?
  {
    Schemes.FixedLengthIsStemLength(b.scheme, name, []);
    T.NamePathSpec(Build(b).value, name);
  }

  /** The source's own test store: `Hex<16>` names with prefix parts `[19, 13]`
      build, since the parts fill the 32 hex digits exactly; one more digit fails. */
  lemma HexStoreBuilds(base: Fs.Path, c: Schemes.S.Case)
    ensures var b := WithPrefixPartLengths(WithScheme(New(base), Schemes.Hex(16, c)), [19, 13]);
            Build(b).Ok? && Build(b).value.prefixPartLengths == [19, 13]
    ensures var b := WithPrefixPartLengths(WithScheme(New(base), Schemes.Hex(16, c)), [19, 14]);
            Build(b) == Err(InconsistentPrefixPartLengths(33, C.Length.Fixed(32)))
  {
    assert Sum([19, 13]) == 32;
    assert Sum([19, 14]) == 33;
  }
}
