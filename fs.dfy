/** The filesystem as the library sees it: a finite tree whose directories list
    their entries in the order `read_dir` returns them, and the parts of
    `std::path` the library uses (`push`, `file_name`, `file_stem`, `extension`,
    `add_extension`), on paths that are sequences of byte-string components. */
module Fs {
  import opened Common

  type Name = seq<byte>
  type Path = seq<Name>

  /** What is at a path: a regular file, a directory with its listing, a directory
      whose listing fails with an I/O error, or something that is neither a file
      nor a directory (a broken link, a socket). */
  datatype Node = File | Dir(children: seq<Child>) | Unreadable | Other

  datatype Child = Child(name: Name, node: Node)

  /** A path together with what the filesystem holds there. */
  datatype Item = Item(path: Path, node: Node)

  /** `Path::is_file`. */
  predicate IsFile(n: Node)
  {
    n.File?
  }

  /** `Path::is_dir`. */
  predicate IsDir(n: Node)
  {
    n.Dir? || n.Unreadable?
  }

  /** `read_dir(path)` collected: the entries' paths in listing order, or an I/O
      error for anything that is not a readable directory. */
  function ReadDir(item: Item): (r: Option<seq<Item>>)
    ensures r.Some? <==> item.node.Dir?
    ensures r.Some? ==> |r.value| == |item.node.children|
    ensures r.Some? ==> forall i :: 0 <= i < |r.value| ==>
              r.value[i] == Item(item.path + [item.node.children[i].name], item.node.children[i].node)
  {
    match item.node
    case Dir(cs) => Some(seq(|cs|, i requires 0 <= i < |cs| => Item(item.path + [cs[i].name], cs[i].node)))
    case _ => None
  }

  /** A measure for descending the tree: every node counts, a directory counts
      two more than its entries together. */
  function Size(n: Node): nat
  {
    match n
    case Dir(cs) => 2 + SizeOfChildren(cs)
    case _ => 1
  }

  function SizeOfChildren(cs: seq<Child>): nat
  {
    if cs == [] then 0 else Size(cs[0].node) + SizeOfChildren(cs[1..])
  }

  /** The combined size of a sequence of items. */
  function Weight(items: seq<Item>): nat
  {
    if items == [] then 0 else Size(items[0].node) + Weight(items[1..])
  }

  /** A listing weighs what the directory's entries weigh: two less than the
      directory. */
  lemma {:induction false} ListingWeight(item: Item)
    requires item.node.Dir?
    ensures Weight(ReadDir(item).value) + 2 == Size(item.node)
  {
    ListingWeightFrom(item.path, item.node.children);
  }

  lemma {:induction false} ListingWeightFrom(path: Path, cs: seq<Child>)
    ensures Weight(seq(|cs|, i requires 0 <= i < |cs| => Item(path + [cs[i].name], cs[i].node))) == SizeOfChildren(cs)
  {
    var items := seq(|cs|, i requires 0 <= i < |cs| => Item(path + [cs[i].name], cs[i].node));
    if cs != [] {
      ListingWeightFrom(path, cs[1..]);
      assert items[1..] == seq(|cs[1..]|, i requires 0 <= i < |cs[1..]| => Item(path + [cs[1..][i].name], cs[1..][i].node));
    }
  }

  lemma {:induction false} WeightAppend(a: seq<Item>, b: seq<Item>)
    ensures Weight(a + b) == Weight(a) + Weight(b)
  {
    if a == [] {
      assert a + b == b;
    } else {
      assert (a + b)[1..] == a[1..] + b;
      WeightAppend(a[1..], b);
    }
  }

  /** Removing the last item takes its size off the weight. */
  lemma WeightLast(items: seq<Item>)
    requires items != []
    ensures Weight(items) == Weight(items[..|items| - 1]) + Size(items[|items| - 1].node)
  {
    var n := |items| - 1;
    assert items == items[..n] + [items[n]];
    WeightAppend(items[..n], [items[n]]);
  }

  // ----- Path components -----

  const Dot: byte := 0x2E
  const DotDot: Name := [Dot, Dot]

  /** A component that `push` adds no component for when the path already has
      one: pushing the empty string only appends a separator, and
      `Path::components` (by which paths compare) drops a `.` that is not at the
      start. */
  predicate Skipped(component: Name)
  {
    component == [] || component == [Dot]
  }

  /** `PathBuf::push` of a single relative component, as seen through
      `Path::components`: a `.` pushed onto the empty path is kept, as the
      leading current-directory component. */
  function Push(p: Path, component: Name): (r: Path)
    ensures component == [] ==> r == p
    ensures component == [Dot] ==> r == if p == [] then [[Dot]] else p
    ensures !Skipped(component) ==> |r| == |p| + 1 && r[..|p|] == p && r[|p|] == component
  {
    if component == [] then p
    else if component == [Dot] then (if p == [] then [[Dot]] else p)
    else p + [component]
  }

  /** The components that pushing `cs` in order adds to a non-empty path, in
      order. */
  function Kept(cs: seq<Name>): (r: seq<Name>)
    ensures |r| <= |cs|
    ensures forall i :: 0 <= i < |r| ==> !Skipped(r[i])
  {
    if cs == [] then []
    else if Skipped(cs[|cs| - 1]) then Kept(cs[..|cs| - 1])
    else Kept(cs[..|cs| - 1]) + [cs[|cs| - 1]]
  }

  /** The first of `cs` that is not empty is `.`. */
  predicate LeadingDot(cs: seq<Name>)
  {
    cs != [] && (cs[0] == [Dot] || (cs[0] == [] && LeadingDot(cs[1..])))
  }

  /** The leading `.` that pushing `cs` onto `p` adds: only onto the empty path,
      and only when the first component pushed that is not empty is `.`. */
  function Lead(p: Path, cs: seq<Name>): Path
  {
    if p == [] && LeadingDot(cs) then [[Dot]] else []
  }

  /** Pushing each of `cs` in order. */
  function PushAll(p: Path, cs: seq<Name>): Path
  {
    if cs == [] then p else Push(PushAll(p, cs[..|cs| - 1]), cs[|cs| - 1])
  }

  /** Pushing a sequence of components appends exactly the ones not skipped,
      after a leading `.` when the path was empty and the first of them that is
      not empty is `.`. */
  lemma {:induction false} PushAllKept(p: Path, cs: seq<Name>)
    ensures PushAll(p, cs) == p + Lead(p, cs) + Kept(cs)
  {
    if cs != [] {
      var init := cs[..|cs| - 1];
      var c := cs[|cs| - 1];
      assert cs == init + [c];
      PushAllKept(p, init);
      PushKeptStep(p, init, c);
    }
  }

  /** One more push keeps the shape of `PushAllKept`. */
  lemma PushKeptStep(p: Path, init: seq<Name>, c: Name)
    ensures Push(p + Lead(p, init) + Kept(init), c) == p + Lead(p, init + [c]) + Kept(init + [c])
  {
    assert (init + [c])[..|init|] == init;
    LeadingDotSnoc(init, c);
    if AllEmpty(init) {
      AllEmptyAddsNothing(init);
    } else if !LeadingDot(init) {
      SomethingKept(init);
    }
  }

  predicate AllEmpty(cs: seq<Name>)
  {
    forall i :: 0 <= i < |cs| ==> cs[i] == []
  }

  /** Appending a component leads with `.` when `cs` did, or when `cs` is all
      empty and the component is `.`. */
  lemma {:induction false} LeadingDotSnoc(cs: seq<Name>, c: Name)
    ensures LeadingDot(cs + [c]) <==> LeadingDot(cs) || (AllEmpty(cs) && c == [Dot])
  {
    if cs != [] {
      assert (cs + [c])[1..] == cs[1..] + [c];
      LeadingDotSnoc(cs[1..], c);
      assert AllEmpty(cs) <==> cs[0] == [] && AllEmpty(cs[1..]) by {
        assert forall i :: 0 < i < |cs| ==> cs[i] == cs[1..][i - 1];
      }
    }
  }

  /** Empty components add nothing. */
  lemma {:induction false} AllEmptyAddsNothing(cs: seq<Name>)
    requires AllEmpty(cs)
    ensures !LeadingDot(cs) && Kept(cs) == []
  {
    if cs != [] {
      AllEmptyAddsNothing(cs[..|cs| - 1]);
      AllEmptyFront(cs);
    }
  }

  lemma {:induction false} AllEmptyFront(cs: seq<Name>)
    requires AllEmpty(cs)
    ensures !LeadingDot(cs)
  {
    if cs != [] {
      AllEmptyFront(cs[1..]);
    }
  }

  /** Components that are not all empty and do not lead with `.` keep one. */
  lemma SomethingKept(cs: seq<Name>)
    requires !AllEmpty(cs) && !LeadingDot(cs)
    ensures Kept(cs) != []
  {
    if Kept(cs) == [] {
      KeptNothing(cs);
      AllSkippedNoLead(cs);
    }
  }

  lemma {:induction false} KeptNothing(cs: seq<Name>)
    requires Kept(cs) == []
    ensures forall i :: 0 <= i < |cs| ==> Skipped(cs[i])
  {
    if cs != [] {
      KeptNothing(cs[..|cs| - 1]);
    }
  }

  lemma {:induction false} AllSkippedNoLead(cs: seq<Name>)
    requires forall i :: 0 <= i < |cs| ==> Skipped(cs[i])
    requires !LeadingDot(cs)
    ensures AllEmpty(cs)
  {
    if cs != [] {
      AllSkippedNoLead(cs[1..]);
    }
  }

  /** With nothing to skip, every component is kept. */
  lemma {:induction false} KeptAll(cs: seq<Name>)
    requires forall i :: 0 <= i < |cs| ==> !Skipped(cs[i])
    ensures Kept(cs) == cs
  {
    if cs != [] {
      KeptAll(cs[..|cs| - 1]);
      assert cs == cs[..|cs| - 1] + [cs[|cs| - 1]];
    }
  }

  /** A kept last component ends the kept sequence. */
  lemma KeptLast(cs: seq<Name>, c: Name)
    requires !Skipped(c)
    ensures Kept(cs + [c]) == Kept(cs) + [c]
  {
    assert (cs + [c])[..|cs|] == cs;
  }

  /** `Path::file_name`: the last component, unless there is none or it is `.`
      or `..` (components are never empty in a Rust path). */
  function FileName(p: Path): (r: Option<Name>)
    ensures r.Some? <==> p != [] && p[|p| - 1] != [] && p[|p| - 1] != [Dot] && p[|p| - 1] != DotDot
    ensures r.Some? ==> r.value == p[|p| - 1]
  {
    if p == [] || Skipped(p[|p| - 1]) || p[|p| - 1] == DotDot then None else Some(p[|p| - 1])
  }

  /** The index of the last `.` in a name. */
  function LastDot(name: Name): (r: Option<nat>)
    ensures r.None? <==> Dot !in name
    ensures r.Some? ==> r.value < |name| && name[r.value] == Dot
                        && forall j :: r.value < j < |name| ==> name[j] != Dot
  {
    if name == [] then None
    else if name[|name| - 1] == Dot then Some(|name| - 1)
    else
      var r := LastDot(name[..|name| - 1]);
      assert Dot in name[..|name| - 1] <==> Dot in name by {
        assert name == name[..|name| - 1] + [name[|name| - 1]];
      }
      r
  }

  /** Rust's `rsplit_file_at_dot`: the part before and after the last `.`;
      a name whose only dot is its first byte has no extension. */
  function SplitAtDot(name: Name): (Option<Name>, Option<Name>)
  {
    if name == DotDot then (Some(name), None)
    else match LastDot(name)
      case None => (None, Some(name))
      case Some(i) =>
        if i == 0 then (Some(name), None)
        else (Some(name[..i]), Some(name[i + 1..]))
  }

  /** `Path::file_stem`. */
  function FileStem(p: Path): Option<Name>
  {
    match FileName(p)
    case None => None
    case Some(name) =>
      var (before, after) := SplitAtDot(name);
      if before.Some? then before else after
  }

  /** `Path::extension`. */
  function Extension(p: Path): Option<Name>
  {
    match FileName(p)
    case None => None
    case Some(name) =>
      var (before, after) := SplitAtDot(name);
      if before.Some? then after else None
  }

  /** A file name is its stem, or its stem, a dot and its extension; a path
      has a stem exactly when it has a file name. */
  lemma StemAndExtension(p: Path)
    ensures FileStem(p).Some? <==> FileName(p).Some?
    ensures Extension(p).Some? ==>
              (FileStem(p).Some? && FileName(p).Some? &&
               FileName(p).value == FileStem(p).value + [Dot] + Extension(p).value)
    ensures FileName(p).Some? && Extension(p).None? ==> FileStem(p) == FileName(p)
  {
    if FileName(p).Some? {
      var name := FileName(p).value;
      if name != DotDot && LastDot(name).Some? {
        var i := LastDot(name).value;
        assert name == name[..i] + [Dot] + name[i + 1..];
      }
    }
  }

  /** `PathBuf::add_extension`: nothing happens without a file name or with an
      empty extension; otherwise `.ext` is appended to the file name. */
  function AddExtension(p: Path, ext: Name): (r: Path)
    ensures |r| == |p|
  {
    if FileName(p).None? || ext == [] then p
    else p[..|p| - 1] + [p[|p| - 1] + [Dot] + ext]
  }

  /** Adding a dot-free extension to a file name makes it the extension, with
      the old file name as the stem. */
  lemma AddExtensionSplits(p: Path, ext: Name)
    requires FileName(p).Some? && ext != [] && Dot !in ext
    ensures FileStem(AddExtension(p, ext)) == FileName(p)
    ensures Extension(AddExtension(p, ext)) == Some(ext)
  {
    var name := p[|p| - 1];
    var q := AddExtension(p, ext);
    var full := name + [Dot] + ext;
    assert q[|q| - 1] == full;
    assert |full| > |DotDot|;
    assert full[|name|] == Dot;
    assert forall j :: |name| < j < |full| ==> full[j] == ext[j - |name| - 1];
    assert LastDot(full) == Some(|name|);
    assert full[..|name|] == name;
    assert full[|name| + 1..] == ext;
  }

  /** A stem without `.` and a dot-free extension come back apart. */
  lemma PlainName(p: Path)
    requires p != [] && p[|p| - 1] != [] && Dot !in p[|p| - 1]
    ensures FileName(p) == Some(p[|p| - 1])
    ensures FileStem(p) == Some(p[|p| - 1]) && Extension(p).None?
  {
    assert DotDot[0] == Dot;
  }
}
