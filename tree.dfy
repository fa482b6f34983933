/** The tree itself (`src/lib.rs`): where a name lives (`name_path`, `path`) and
    how the prefix part lengths of an existing store are read back from the first
    entries of its directories (`infer_prefix_part_lengths`). */
module PrefixTree {
  import opened Common
  import C = Constraint
  import Schemes
  import Fs
  import Utf8

  /** `crate::Error`; `Io` stands for every `std::io::Error`. */
  datatype Error =
    | Io
    | ExpectedFile(path: Fs.Path)
    | ExpectedDirectory(path: Fs.Path)
    | InvalidDirectory(path: Fs.Path)
    | InvalidName(name: seq<byte>)

  /** A name found in the tree and the path of its file. */
  datatype Entry = Entry(name: seq<byte>, path: Fs.Path)

  /** `Tree<S>`: the base directory, the optional constraints on leaf files, the
      lengths of the prefix directory names, and the naming scheme. */
  datatype Tree = Tree(
    base: Fs.Path,
    lengthConstraint: Option<C.Length>,
    extensionConstraint: Option<C.Extension>,
    prefixPartLengths: seq<nat>,
    scheme: Schemes.Scheme)

  /** `prefix_part_lengths_total`. */
  function PrefixPartLengthsTotal(t: Tree): nat
  {
    Sum(t.prefixPartLengths)
  }

  /** The `i`-th prefix part of an encoded name `e`: the `lengths[i]` bytes that
      follow the earlier parts. */
  function Part(e: seq<byte>, lengths: seq<nat>, i: nat): seq<byte>
    requires i < |lengths| && Sum(lengths) <= |e|
  {
    SumPrefixStep(lengths, i);
    SumPrefixBound(lengths, i + 1);
    e[Sum(lengths[..i])..Sum(lengths[..i + 1])]
  }

  /** All prefix parts, in order. */
  function Parts(e: seq<byte>, lengths: seq<nat>): seq<seq<byte>>
    requires Sum(lengths) <= |e|
  {
    seq(|lengths|, i requires 0 <= i < |lengths| => Part(e, lengths, i))
  }

  /** What `name_path` returns: the base with each prefix part pushed, then
      the whole encoded name; or the encoded name itself when it is shorter than
      the prefix parts together, or empty. */
  function NamePathOf(t: Tree, name: seq<byte>): Result<Fs.Path, seq<byte>>
    requires Schemes.Valid(t.scheme) && Schemes.IsName(t.scheme, name)
  {
    SlicedPath(t.base, t.prefixPartLengths, Schemes.NameToString(t.scheme, name))
  }

  /** The same, given the encoded name `e`. */
  function SlicedPath(base: Fs.Path, lengths: seq<nat>, e: seq<byte>): Result<Fs.Path, seq<byte>>
  {
    if |e| >= Max(Sum(lengths), 1) then Ok(Fs.Push(Fs.PushAll(base, Parts(e, lengths)), e))
    else Err(e)
  }

  /** `Tree::name_path`: slice the encoded name part by part, pushing each. */
  method NamePath(t: Tree, name: seq<byte>) returns (r: Result<Fs.Path, seq<byte>>)
    requires Schemes.Valid(t.scheme) && Schemes.IsName(t.scheme, name)
    ensures r == NamePathOf(t, name)
  {
    var e := Schemes.NameToString(t.scheme, name);
    var lengths := t.prefixPartLengths;
    if |e| >= Max(Sum(lengths), 1) {
      var remaining := e;
      var path := t.base;
      for i := 0 to |lengths|
        invariant Sum(lengths[..i]) <= Sum(lengths)
        invariant remaining == e[Sum(lengths[..i])..]
        invariant path == Fs.PushAll(t.base, Parts(e, lengths)[..i])
      {
        SliceStep(e, lengths, i);
        var next := remaining[0..lengths[i]];
        remaining := remaining[lengths[i]..];
        path := Fs.Push(path, next);
      }
      assert Parts(e, lengths)[..|lengths|] == Parts(e, lengths);
      path := Fs.Push(path, e);
      r := Ok(path);
    } else {
      r := Err(e);
    }
  }

  /** One pass of the `name_path` loop: the next `lengths[i]` bytes of what
      remains are the `i`-th part, and pushing it extends the pushed parts. */
  lemma SliceStep(e: seq<byte>, lengths: seq<nat>, i: nat)
    requires i < |lengths| && Sum(lengths) <= |e|
    ensures Sum(lengths[..i]) + lengths[i] == Sum(lengths[..i + 1]) <= Sum(lengths)
    ensures var rest := e[Sum(lengths[..i])..];
            && lengths[i] <= |rest|
            && rest[0..lengths[i]] == Part(e, lengths, i)
            && rest[lengths[i]..] == e[Sum(lengths[..i + 1])..]
    ensures forall base :: Fs.PushAll(base, Parts(e, lengths)[..i + 1])
                           == Fs.Push(Fs.PushAll(base, Parts(e, lengths)[..i]), Part(e, lengths, i))
  {
    SumPrefixStep(lengths, i);
    SumPrefixBound(lengths, i + 1);
    var ps := Parts(e, lengths);
    assert ps[..i + 1][..i] == ps[..i];
  }

  /** The shape of a name's path: it exists exactly when the encoded name is at
      least as long as the prefix parts together and not empty. It is the base
      followed by the consecutive slices of the encoded name of the configured
      lengths and then the encoded name, leaving out every one of them that is
      empty or `.` (a zero prefix length adds no directory), except that a `.`
      pushed onto an empty base stays as the leading component. When none is left
      out there are `|prefix_part_lengths|` directories, the `i`-th holding the
      `i`-th slice. */
  lemma NamePathSpec(t: Tree, name: seq<byte>)
    requires Schemes.Valid(t.scheme) && Schemes.IsName(t.scheme, name)
    ensures var e := Schemes.NameToString(t.scheme, name);
            var lengths := t.prefixPartLengths;
            && (NamePathOf(t, name).Ok? <==> |e| >= Sum(lengths) && |e| >= 1)
            && (NamePathOf(t, name).Err? ==> NamePathOf(t, name).error == e)
            && (NamePathOf(t, name).Ok? ==>
                  var p := NamePathOf(t, name).value;
                  && p == t.base + Fs.Lead(t.base, Parts(e, lengths) + [e]) + Fs.Kept(Parts(e, lengths) + [e])
                  && (e != [Fs.Dot] ==> p[|p| - 1] == e)
                  && ((e != [Fs.Dot] && forall i :: 0 <= i < |lengths| ==> !Fs.Skipped(Parts(e, lengths)[i])) ==>
                        && |p| == |t.base| + |lengths| + 1
                        && forall i :: 0 <= i < |lengths| ==>
                             Sum(lengths[..i]) + lengths[i] <= |e| &&
                             p[|t.base| + i] == e[Sum(lengths[..i])..Sum(lengths[..i]) + lengths[i]]))
  {
    SlicedPathSpec(t.base, t.prefixPartLengths, Schemes.NameToString(t.scheme, name));
  }

  /** `NamePathSpec` for a given encoded name. */
  lemma SlicedPathSpec(base: Fs.Path, lengths: seq<nat>, e: seq<byte>)
    ensures && (SlicedPath(base, lengths, e).Ok? <==> |e| >= Sum(lengths) && |e| >= 1)
            && (SlicedPath(base, lengths, e).Err? ==> SlicedPath(base, lengths, e).error == e)
            && (SlicedPath(base, lengths, e).Ok? ==>
                  var p := SlicedPath(base, lengths, e).value;
                  && p == base + Fs.Lead(base, Parts(e, lengths) + [e]) + Fs.Kept(Parts(e, lengths) + [e])
                  && (e != [Fs.Dot] ==> p[|p| - 1] == e)
                  && ((e != [Fs.Dot] && forall i :: 0 <= i < |lengths| ==> !Fs.Skipped(Parts(e, lengths)[i])) ==>
                        && |p| == |base| + |lengths| + 1
                        && forall i :: 0 <= i < |lengths| ==>
                             Sum(lengths[..i]) + lengths[i] <= |e| &&
                             p[|base| + i] == e[Sum(lengths[..i])..Sum(lengths[..i]) + lengths[i]]))
  {
    if |e| >= Max(Sum(lengths), 1) {
      PushedParts(base, e, lengths);
    }
  }

  /** The path of an encoded name `e` that is long enough, over any base. */
  lemma PushedParts(base: Fs.Path, e: seq<byte>, lengths: seq<nat>)
    requires Sum(lengths) <= |e| && e != []
    ensures var p := Fs.Push(Fs.PushAll(base, Parts(e, lengths)), e);
            && p == base + Fs.Lead(base, Parts(e, lengths) + [e]) + Fs.Kept(Parts(e, lengths) + [e])
            && (e != [Fs.Dot] ==> p[|p| - 1] == e)
            && ((e != [Fs.Dot] && forall i :: 0 <= i < |lengths| ==> !Fs.Skipped(Parts(e, lengths)[i])) ==>
                  && |p| == |base| + |lengths| + 1
                  && forall i :: 0 <= i < |lengths| ==>
                       Sum(lengths[..i]) + lengths[i] <= |e| &&
                       p[|base| + i] == e[Sum(lengths[..i])..Sum(lengths[..i]) + lengths[i]])
  {
    var ps := Parts(e, lengths);
    PushedShape(base, ps, e);
    var p := Fs.Push(Fs.PushAll(base, ps), e);
    if e != [Fs.Dot] && forall i :: 0 <= i < |lengths| ==> !Fs.Skipped(ps[i]) {
      PartsAsComponents(base, e, lengths, p);
    }
  }

  /** When the path is the base, the parts and the name, its components after
      the base are the slices. */
  lemma PartsAsComponents(base: Fs.Path, e: seq<byte>, lengths: seq<nat>, p: Fs.Path)
    requires Sum(lengths) <= |e|
    requires p == base + Parts(e, lengths) + [e]
    ensures |p| == |base| + |lengths| + 1
    ensures forall i :: 0 <= i < |lengths| ==>
              Sum(lengths[..i]) + lengths[i] <= |e| &&
              p[|base| + i] == e[Sum(lengths[..i])..Sum(lengths[..i]) + lengths[i]]
  {
    forall i | 0 <= i < |lengths|
      ensures Sum(lengths[..i]) + lengths[i] <= |e|
      ensures p[|base| + i] == e[Sum(lengths[..i])..Sum(lengths[..i]) + lengths[i]]
    {
      PartAt(e, lengths, i);
      assert p[|base| + i] == Parts(e, lengths)[i];
    }
  }

  /** The `i`-th part is the slice of `lengths[i]` bytes after the earlier parts. */
  lemma PartAt(e: seq<byte>, lengths: seq<nat>, i: nat)
    requires i < |lengths| && Sum(lengths) <= |e|
    ensures Sum(lengths[..i]) + lengths[i] <= |e|
    ensures Parts(e, lengths)[i] == e[Sum(lengths[..i])..Sum(lengths[..i]) + lengths[i]]
  {
    SumPrefixStep(lengths, i);
    SumPrefixBound(lengths, i + 1);
  }

  /** Pushing the parts and then a non-empty leaf: the base, a leading `.` if
      due, the kept parts, and the leaf unless it is `.`. */
  lemma PushedShape(base: Fs.Path, ps: seq<Fs.Name>, e: Fs.Name)
    requires e != []
    ensures Fs.Push(Fs.PushAll(base, ps), e) == base + Fs.Lead(base, ps + [e]) + Fs.Kept(ps + [e])
    ensures var p := Fs.Push(Fs.PushAll(base, ps), e); e != [Fs.Dot] ==> p != [] && p[|p| - 1] == e
    ensures (e != [Fs.Dot] && forall i :: 0 <= i < |ps| ==> !Fs.Skipped(ps[i])) ==>
              Fs.Push(Fs.PushAll(base, ps), e) == base + ps + [e]
  {
    var q := Fs.PushAll(base, ps);
    assert Fs.PushAll(base, ps + [e]) == Fs.Push(q, e) by {
      assert (ps + [e])[..|ps|] == ps;
    }
    Fs.PushAllKept(base, ps + [e]);
    if e != [Fs.Dot] && forall i :: 0 <= i < |ps| ==> !Fs.Skipped(ps[i]) {
      PushedUnskipped(base, ps);
    }
  }

  /** With no part empty or `.`, each part is one more component. */
  lemma PushedUnskipped(base: Fs.Path, ps: seq<Fs.Name>)
    requires forall i :: 0 <= i < |ps| ==> !Fs.Skipped(ps[i])
    ensures Fs.PushAll(base, ps) == base + ps
  {
    Fs.PushAllKept(base, ps);
    Fs.KeptAll(ps);
    assert !Fs.LeadingDot(ps) by {
      if ps != [] {
        assert !Fs.Skipped(ps[0]);
      }
    }
  }

  /** The source's case of a zero prefix length: with lengths `[0]` under base
      `r`, the UTF-8 name `ab` is stored as `r/ab`, with no directory for the
      empty part. */
  lemma ZeroPrefixLengthAddsNoDirectory(t: Tree)
    requires t.base == [[0x72]] && t.prefixPartLengths == [0] && t.scheme == Schemes.Utf8
    ensures Utf8.ValidUtf8([0x61, 0x62]) && NamePathOf(t, [0x61, 0x62]) == Ok([[0x72], [0x61, 0x62]])
  {
    var e: seq<byte> := [0x61, 0x62];
    Utf8.AsciiIsValid(e);
    var empty: seq<Fs.Name> := [[]];
    assert Fs.PushAll(t.base, empty) == t.base by {
      assert empty[..0] == [];
    }
    assert Schemes.NameToString(t.scheme, e) == e;
    var zero: seq<nat> := [0];
    assert Sum(zero) == 0 by {
      assert zero[1..] == [];
    }
    assert Parts(e, zero) == empty by {
      assert zero[..0] == [] && zero[..1] == zero;
      assert Part(e, zero, 0) == [];
    }
    assert NamePathOf(t, e) == Ok(Fs.Push(t.base, e));
    assert !Fs.Skipped(e) by {
      assert |e| == 2;
    }
    assert Fs.Push(t.base, e) == t.base + [e];
    assert t.base + [e] == [[0x72], [0x61, 0x62]];
    assert e == [0x61, 0x62];
  }

  /** The source's cases of a `.` component: under base `.` with no prefix
      parts and the fixed extension `t`, the UTF-8 name `.` is stored at `.`
      itself, since that path has no file name to extend; under the empty base
      with lengths `[1]`, the name `.a` is stored at `./.a`. */
  lemma CurrentDirectoryKept(t: Tree, u: Tree)
    requires t.base == [[Fs.Dot]] && t.prefixPartLengths == [] && t.scheme == Schemes.Utf8
    requires t.extensionConstraint == Some(C.Extension.Fixed([0x74]))
    requires u.base == [] && u.prefixPartLengths == [1] && u.scheme == Schemes.Utf8
    ensures Utf8.ValidUtf8([Fs.Dot]) && PathOf(t, [Fs.Dot]) == Ok([[Fs.Dot]])
    ensures Utf8.ValidUtf8([Fs.Dot, 0x61]) && NamePathOf(u, [Fs.Dot, 0x61]) == Ok([[Fs.Dot], [Fs.Dot, 0x61]])
  {
    var dot: seq<byte> := [Fs.Dot];
    Utf8.AsciiIsValid(dot);
    assert Schemes.NameToString(t.scheme, dot) == dot;
    assert Parts(dot, []) == [];
    assert NamePathOf(t, dot) == Ok(Fs.Push(t.base, dot));
    assert Fs.FileName([[Fs.Dot]]).None?;

    var e: seq<byte> := [Fs.Dot, 0x61];
    Utf8.AsciiIsValid(e);
    assert Schemes.NameToString(u.scheme, e) == e;
    var one: seq<nat> := [1];
    assert Sum(one) == 1 by {
      assert one[1..] == [];
    }
    assert Parts(e, one) == [dot] by {
      assert one[..0] == [] && one[..1] == one;
      assert Part(e, one, 0) == dot;
    }
    assert Fs.PushAll([], [dot]) == [dot] by {
      assert [dot][..0] == [];
    }
    assert !Fs.Skipped(e) by {
      assert |e| == 2;
    }
    assert NamePathOf(u, e) == Ok(Fs.Push(Fs.PushAll([], [dot]), e));
    assert Fs.Push([dot], e) == [dot, e];
  }

  /** Dropping the last length drops the last part. */
  lemma PartsInit(e: seq<byte>, lengths: seq<nat>)
    requires lengths != [] && Sum(lengths) <= |e|
    ensures Sum(lengths[..|lengths| - 1]) <= |e|
    ensures Parts(e, lengths)[..|lengths| - 1] == Parts(e, lengths[..|lengths| - 1])
  {
    var n := |lengths| - 1;
    var init := lengths[..n];
    SumPrefixBound(lengths, n);
    forall i | 0 <= i < n ensures Parts(e, lengths)[..n][i] == Parts(e, init)[i] {
      PartOfInit(e, lengths, i);
    }
  }

  lemma PartOfInit(e: seq<byte>, lengths: seq<nat>, i: nat)
    requires i + 1 < |lengths| && Sum(lengths) <= |e| && Sum(lengths[..|lengths| - 1]) <= |e|
    ensures Part(e, lengths, i) == Part(e, lengths[..|lengths| - 1], i)
  {
    var init := lengths[..|lengths| - 1];
    assert lengths[..i] == init[..i];
    assert lengths[..i + 1] == init[..i + 1];
  }

  /** The prefix parts laid end to end are the start of the encoded name. */
  lemma {:induction false} PartsJoin(e: seq<byte>, lengths: seq<nat>)
    requires Sum(lengths) <= |e|
    ensures Join(Parts(e, lengths)) == e[..Sum(lengths)]
  {
    if lengths != [] {
      var n := |lengths| - 1;
      var init := lengths[..n];
      SumPrefixStep(lengths, n);
      assert lengths[..n + 1] == lengths;
      assert Sum(init) <= |e|;
      PartsJoin(e, init);
      var ps := Parts(e, lengths);
      PartsInit(e, lengths);
      assert ps == ps[..n] + [ps[n]];
      JoinAppend(ps[..n], [ps[n]]);
      assert Join([ps[n]]) == ps[n];
      assert e[..Sum(lengths)] == e[..Sum(init)] + e[Sum(init)..Sum(lengths)];
    }
  }

  /** Concatenation of a sequence of byte strings. */
  function Join(parts: seq<seq<byte>>): seq<byte>
  {
    if parts == [] then [] else parts[0] + Join(parts[1..])
  }

  lemma {:induction false} JoinAppend(a: seq<seq<byte>>, b: seq<seq<byte>>)
    ensures Join(a + b) == Join(a) + Join(b)
  {
    if a == [] {
      assert a + b == b;
    } else {
      assert (a + b)[1..] == a[1..] + b;
      JoinAppend(a[1..], b);
    }
  }

  /** What `path` returns: `name_path`, with a `Fixed` extension added to the
      leaf and every other extension constraint ignored. */
  function PathOf(t: Tree, name: seq<byte>): Result<Fs.Path, seq<byte>>
    requires Schemes.Valid(t.scheme) && Schemes.IsName(t.scheme, name)
  {
    match NamePathOf(t, name)
    case Err(e) => Err(e)
    case Ok(p) =>
      if t.extensionConstraint.Some? && t.extensionConstraint.value.Fixed? then
        Ok(Fs.AddExtension(p, t.extensionConstraint.value.ext))
      else Ok(p)
  }

  /** `Tree::path`: `name_path`, then add the fixed extension in place. */
  method PathFor(t: Tree, name: seq<byte>) returns (r: Result<Fs.Path, seq<byte>>)
    requires Schemes.Valid(t.scheme) && Schemes.IsName(t.scheme, name)
    ensures r == PathOf(t, name)
  {
    var namePath := NamePath(t, name);
    if namePath.Err? {
      return Err(namePath.error);
    }
    var p := namePath.value;
    if t.extensionConstraint.Some? && t.extensionConstraint.value.Fixed? {
      p := Fs.AddExtension(p, t.extensionConstraint.value.ext);
    }
    r := Ok(p);
  }

  /** The extension shows only on the leaf and only when it is fixed: `path`
      fails with the same value as `name_path`, keeps every directory, and
      changes the leaf exactly when the constraint is `Fixed`. */
  lemma PathSpec(t: Tree, name: seq<byte>)
    requires Schemes.Valid(t.scheme) && Schemes.IsName(t.scheme, name)
    ensures PathOf(t, name).Err? <==> NamePathOf(t, name).Err?
    ensures PathOf(t, name).Err? ==> PathOf(t, name).error == NamePathOf(t, name).error
    ensures NamePathOf(t, name).Ok? ==>
              var p := NamePathOf(t, name).value;
              var q := PathOf(t, name).value;
              && |q| == |p| && (p != [] ==> q[..|p| - 1] == p[..|p| - 1])
              && (t.extensionConstraint.Some? && t.extensionConstraint.value.Fixed? ==>
                    q == Fs.AddExtension(p, t.extensionConstraint.value.ext))
              && (!(t.extensionConstraint.Some? && t.extensionConstraint.value.Fixed?) ==> q == p)
  {
  }

  /** On the leaf, a fixed non-empty dot-free extension reads back as the
      extension and the encoded name as the stem (unless the encoded name is
      `.`, which adds no leaf component). */
  lemma PathLeafSplits(t: Tree, name: seq<byte>)
    requires Schemes.Valid(t.scheme) && Schemes.IsName(t.scheme, name)
    requires PathOf(t, name).Ok?
    requires t.extensionConstraint.Some? && t.extensionConstraint.value.Fixed?
    requires var ext := t.extensionConstraint.value.ext; ext != [] && Fs.Dot !in ext
    requires Schemes.NameToString(t.scheme, name) != Fs.DotDot && !Fs.Skipped(Schemes.NameToString(t.scheme, name))
    ensures Fs.FileStem(PathOf(t, name).value) == Some(Schemes.NameToString(t.scheme, name))
    ensures Fs.Extension(PathOf(t, name).value) == Some(t.extensionConstraint.value.ext)
  {
    var p := NamePathOf(t, name).value;
    NamePathSpec(t, name);
    Fs.AddExtensionSplits(p, t.extensionConstraint.value.ext);
  }

  // ----- Inference of the prefix part lengths -----

  /** `infer_prefix_part_lengths_rec` on the first entry `current` (found at
      `path`) of a directory: a file means the store has files, and the name
      lengths pushed on `acc` so far are the answer; a directory pushes its name's
      length and continues with its own first entry, or, when empty, reports that
      the store has no files. The result is the flag and the final accumulator. */
  function InferRec(path: Fs.Path, current: Fs.Node, acc: seq<nat>): Result<(bool, seq<nat>), Error>
    decreases current
  {
    if Fs.IsFile(current) then Ok((false, acc))
    else match Fs.FileName(path)
      case None => Err(InvalidDirectory(path))
      case Some(directoryName) =>
        var acc' := acc + [|directoryName|];
        match current
        case Dir(cs) =>
          if cs == [] then Ok((true, acc'))
          else InferRec(path + [cs[0].name], cs[0].node, acc')
        case _ => Err(Io)
  }

  /** `Tree::infer_prefix_part_lengths` on the node found at `base`. */
  function InferPrefixPartLengths(base: Fs.Path, node: Fs.Node): Result<Option<seq<nat>>, Error>
  {
    if !Fs.IsDir(node) then Err(ExpectedDirectory(base))
    else match node
      case Dir(cs) =>
        if cs == [] then Ok(None)
        else
          (match InferRec(base + [cs[0].name], cs[0].node, [])
           case Err(e) => Err(e)
           case Ok((isEmpty, acc)) => Ok(if isEmpty then None else Some(acc)))
      case _ => Err(Io)
  }

  /** The error and edge cases of inference: anything but a directory is
      `ExpectedDirectory(base)`, an empty base has no lengths, and a file as the
      first entry of the base gives the empty list. */
  lemma InferBaseCases(base: Fs.Path, node: Fs.Node)
    ensures !Fs.IsDir(node) ==> InferPrefixPartLengths(base, node) == Err(ExpectedDirectory(base))
    ensures node == Fs.Dir([]) ==> InferPrefixPartLengths(base, node) == Ok(None)
    ensures node.Dir? && node.children != [] && node.children[0].node.File? ==>
              InferPrefixPartLengths(base, node) == Ok(Some([]))
  {
  }

  /** The chain of first entries from a directory entry downwards. */
  function FirstChain(c: Fs.Child): (r: seq<Fs.Child>)
    ensures r != [] && r[0] == c
  {
    if c.node.Dir? && c.node.children != [] then [c] + FirstChain(c.node.children[0]) else [c]
  }

  function NameLengths(cs: seq<Fs.Child>): (r: seq<nat>)
    ensures |r| == |cs|
  {
    if cs == [] then [] else [|cs[0].name|] + NameLengths(cs[1..])
  }

  /** A name that is a file name: not empty, `.` or `..`. */
  predicate ProperName(name: Fs.Name)
  {
    name != [] && name != [Fs.Dot] && name != Fs.DotDot
  }

  /** Every name along the chain of first entries is a proper file name. */
  predicate ProperChain(c: Fs.Child)
    decreases c.node
  {
    ProperName(c.name) && (c.node.Dir? && c.node.children != [] ==> ProperChain(c.node.children[0]))
  }

  /** Inference follows first entries only: it stops at the first file, giving
      the name lengths of the directories above it, at the first empty directory,
      reporting no files even though lengths were collected, and fails with an
      I/O error at anything that is neither. */
  lemma {:induction false} InferRecFollowsFirstEntries(path: Fs.Path, c: Fs.Child, acc: seq<nat>)
    requires path != [] && path[|path| - 1] == c.name
    requires ProperChain(c)
    ensures FollowsChain(InferRec(path, c.node, acc), FirstChain(c), acc)
    decreases c.node
  {
    if c.node.Dir? && c.node.children != [] {
      var next := c.node.children[0];
      InferRecFollowsFirstEntries(path + [next.name], next, acc + [|c.name|]);
      FollowsStep(path, c, acc);
    } else {
      InferRecStops(path, c, acc);
    }
  }

  /** What inference gives from the first entry's chain, as a predicate. */
  predicate FollowsChain(r: Result<(bool, seq<nat>), Error>, chain: seq<Fs.Child>, acc: seq<nat>)
    requires chain != []
  {
    var last := chain[|chain| - 1];
    && (last.node.File? ==> r == Ok((false, acc + NameLengths(chain[..|chain| - 1]))))
    && (last.node == Fs.Dir([]) ==> r == Ok((true, acc + NameLengths(chain))))
    && (last.node.Unreadable? || last.node.Other? ==> r == Err(Io))
  }

  /** The inductive step of `InferRecFollowsFirstEntries`: what holds below the
      first entry holds one level up. */
  lemma FollowsStep(path: Fs.Path, c: Fs.Child, acc: seq<nat>)
    requires path != [] && path[|path| - 1] == c.name && ProperName(c.name)
    requires c.node.Dir? && c.node.children != []
    requires var next := c.node.children[0];
             FollowsChain(InferRec(path + [next.name], next.node, acc + [|c.name|]), FirstChain(next), acc + [|c.name|])
    ensures FollowsChain(InferRec(path, c.node, acc), FirstChain(c), acc)
  {
    var next := c.node.children[0];
    var rest := FirstChain(next);
    InferRecStep(path, c, acc);
    ChainLengths(c, acc);
    ConcatAssoc(acc, [|c.name|], NameLengths(rest[..|rest| - 1]));
    ConcatAssoc(acc, [|c.name|], NameLengths(rest));
  }

  /** One step down the chain of first entries. */
  lemma InferRecStep(path: Fs.Path, c: Fs.Child, acc: seq<nat>)
    requires path != [] && path[|path| - 1] == c.name && ProperName(c.name)
    requires c.node.Dir? && c.node.children != []
    ensures var next := c.node.children[0];
            InferRec(path, c.node, acc) == InferRec(path + [next.name], next.node, acc + [|c.name|])
  {
  }

  lemma InferRecStops(path: Fs.Path, c: Fs.Child, acc: seq<nat>)
    requires path != [] && path[|path| - 1] == c.name && ProperName(c.name)
    requires !(c.node.Dir? && c.node.children != [])
    ensures c.node.File? ==> InferRec(path, c.node, acc) == Ok((false, acc + NameLengths([])))
    ensures c.node == Fs.Dir([]) ==> InferRec(path, c.node, acc) == Ok((true, acc + NameLengths([c])))
    ensures c.node.Unreadable? || c.node.Other? ==> InferRec(path, c.node, acc) == Err(Io)
  {
    assert acc + NameLengths([]) == acc;
    assert NameLengths([c]) == [|c.name|];
  }

  /** The lengths collected before and after one step agree. */
  lemma ChainLengths(c: Fs.Child, acc: seq<nat>)
    requires c.node.Dir? && c.node.children != []
    ensures var chain := FirstChain(c);
            var rest := FirstChain(c.node.children[0]);
            && chain[|chain| - 1] == rest[|rest| - 1]
            && NameLengths(chain) == [|c.name|] + NameLengths(rest)
            && NameLengths(chain[..|chain| - 1]) == [|c.name|] + NameLengths(rest[..|rest| - 1])
  {
    var rest := FirstChain(c.node.children[0]);
    assert FirstChain(c) == [c] + rest;
    ConsLengths(c, rest);
  }

  /** The same, for any chain `[c] + rest`. */
  lemma ConsLengths(c: Fs.Child, rest: seq<Fs.Child>)
    requires rest != []
    ensures var chain := [c] + rest;
            && chain[|chain| - 1] == rest[|rest| - 1]
            && NameLengths(chain) == [|c.name|] + NameLengths(rest)
            && NameLengths(chain[..|chain| - 1]) == [|c.name|] + NameLengths(rest[..|rest| - 1])
  {
    var chain := [c] + rest;
    NameLengthsCons(c, rest);
    NameLengthsCons(c, rest[..|rest| - 1]);
    assert chain[..|chain| - 1] == [c] + rest[..|rest| - 1];
  }

  lemma ConcatAssoc(a: seq<nat>, b: seq<nat>, c: seq<nat>)
    ensures a + b + c == a + (b + c)
  {
  }

  lemma NameLengthsCons(c: Fs.Child, cs: seq<Fs.Child>)
    ensures NameLengths([c] + cs) == [|c.name|] + NameLengths(cs)
  {
    assert ([c] + cs)[1..] == cs;
  }

  /** The directory layout `create_file` produces for prefix part lengths
      `lengths`: below the base, every prefix directory is non-empty and named by
      exactly `lengths[k]` bytes at depth `k`, and directories at depth
      `|lengths|` hold only files. */
  predicate Layout(node: Fs.Node, lengths: seq<nat>)
  {
    node.Dir? &&
    forall i :: 0 <= i < |node.children| ==>
      var c := node.children[i];
      ProperName(c.name) &&
      if lengths == [] then c.node.File?
      else |c.name| == lengths[0] && c.node.Dir? && c.node.children != [] && Layout(c.node, lengths[1..])
  }

  lemma {:induction false} InferRecOnLayout(path: Fs.Path, c: Fs.Child, acc: seq<nat>, lengths: seq<nat>)
    requires path != [] && path[|path| - 1] == c.name && ProperName(c.name)
    requires lengths != [] && |c.name| == lengths[0]
    requires c.node.Dir? && c.node.children != [] && Layout(c.node, lengths[1..])
    ensures InferRec(path, c.node, acc) == Ok((false, acc + lengths))
    decreases c.node
  {
    var next := c.node.children[0];
    var acc' := acc + [|c.name|];
    if lengths[1..] == [] {
      assert lengths == [lengths[0]];
      assert next.node.File?;
    } else {
      InferRecOnLayout(path + [next.name], next, acc', lengths[1..]);
      assert acc' + lengths[1..] == acc + lengths;
    }
  }

  /** Inference reads back the lengths a store was laid out with, whenever it
      holds at least one entry; an empty store gives no lengths. */
  lemma InferOnLayout(base: Fs.Path, node: Fs.Node, lengths: seq<nat>)
    requires Layout(node, lengths)
    ensures node.children == [] ==> InferPrefixPartLengths(base, node) == Ok(None)
    ensures node.children != [] ==> InferPrefixPartLengths(base, node) == Ok(Some(lengths))
  {
    if node.children != [] {
      var c := node.children[0];
      assert ProperName(c.name);
      if lengths != [] {
        assert |c.name| == lengths[0] && c.node.Dir? && c.node.children != [] && Layout(c.node, lengths[1..]);
        InferRecOnLayout(base + [c.name], c, [], lengths);
        assert [] + lengths == lengths;
      } else {
        assert c.node.File?;
      }
    }
  }
}
