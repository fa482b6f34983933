/** `Entries` (`src/iter.rs`): a depth-first walk over the prefix directories
    of a tree that yields one result per leaf file. The iterator keeps a stack of
    frames (the not yet visited paths of each open directory, sorted so that the
    smallest prefix part is popped first) and the level of the directory whose
    entries the top frame holds. */
module Iter {
  import opened Common
  import C = Constraint
  import S = Scheme
  import Schemes
  import Fs
  import Sorting
  import Utf8
  import T = PrefixTree

  /** `iter::Error`; `Io` stands for every `std::io::Error`. */
  datatype Error =
    | Io
    | InvalidPrefixPart(path: Fs.Path)
    | InvalidFileStem(path: Fs.Path)
    | ExpectedFile(path: Fs.Path)
    | ExpectedDirectory(path: Fs.Path)
    | InvalidExtension(extension: Option<Fs.Name>)
    | InvalidFileStemLength(length: Option<nat>)
    | Scheme(error: S.Error)

  // ----- The level -----

  /** `increment_level`: no level becomes level 0. */
  function Incremented(level: Option<nat>): Option<nat>
  {
    Some(if level.None? then 0 else level.value + 1)
  }

  /** `decrement_level`: level 0 becomes no level, and no level stays so. */
  function Decremented(level: Option<nat>): Option<nat>
  {
    match level
    case Some(l) => if l != 0 then Some(l - 1) else None
    case None => None
  }

  /** Decrementing undoes incrementing; incrementing undoes decrementing
      except on no level, which the decrement leaves alone. */
  lemma LevelRoundTrip(level: Option<nat>)
    ensures Decremented(Incremented(level)) == level
    ensures Incremented(Decremented(level)) == level <==> level.Some?
  {
  }

  /** `is_last`: the top frame holds leaf files. */
  predicate IsLast(t: T.Tree, level: Option<nat>)
  {
    level == Some(|t.prefixPartLengths|)
  }

  /** `current_prefix_part_length`: the configured length at this level, if any. */
  function CurrentPrefixPartLength(t: T.Tree, level: Option<nat>): (r: Option<nat>)
    ensures r.Some? <==> level.Some? && level.value < |t.prefixPartLengths|
    ensures r.Some? ==> r.value == t.prefixPartLengths[level.value]
  {
    match level
    case None => None
    case Some(l) => if l < |t.prefixPartLengths| then Some(t.prefixPartLengths[l]) else None
  }

  // ----- Checks on leaf files -----

  /** `validate_extension`: an unset constraint admits everything; `None`
      admits exactly the paths without an extension, `Any` those with one, and
      `Fixed(e)` those whose extension is `e`. A rejection reports the extension
      the path has. */
  function ValidateExtension(t: T.Tree, path: Fs.Path): (r: Result<(), Option<Fs.Name>>)
    ensures r.Ok? <==> match t.extensionConstraint
                       case None => true
                       case Some(c) =>
                         match c
                         case None => Fs.Extension(path).None?
                         case Any => Fs.Extension(path).Some?
                         case Fixed(e) => Fs.Extension(path) == Some(e)
    ensures r.Err? ==> r.error == Fs.Extension(path)
  {
    match t.extensionConstraint
    case None => Ok(())
    case Some(c) =>
      match c
      case None =>
        (match Fs.Extension(path)
         case None => Ok(())
         case Some(extension) => Err(Some(extension)))
      case Any =>
        (match Fs.Extension(path)
         case None => Err(None)
         case Some(_) => Ok(()))
      case Fixed(expected) =>
        (match Fs.Extension(path)
         case None => Err(None)
         case Some(extension) => if expected == extension then Ok(()) else Err(Some(extension)))
  }

  /** `validate_file_stem_length`: with a constraint, the path needs a stem whose
      length the constraint admits. A rejection reports the stem's length, or
      nothing when there is no stem. */
  function ValidateFileStemLength(t: T.Tree, path: Fs.Path): (r: Result<(), Option<nat>>)
    ensures r.Ok? <==> t.lengthConstraint.None? ||
                       (Fs.FileStem(path).Some? && C.Admits(t.lengthConstraint.value, |Fs.FileStem(path).value|))
    ensures r.Err? ==> r.error == if Fs.FileStem(path).Some? then Some(|Fs.FileStem(path).value|) else None
  {
    match t.lengthConstraint
    case None => Ok(())
    case Some(c) =>
      match c
      case Fixed(length) =>
        (match Fs.FileStem(path)
         case None => Err(None)
         case Some(fileStem) => if |fileStem| == length then Ok(()) else Err(Some(|fileStem|)))
      case Range(minimum, maximum) =>
        (match Fs.FileStem(path)
         case None => Err(None)
         case Some(fileStem) =>
           if |fileStem| >= minimum && |fileStem| < maximum then Ok(()) else Err(Some(|fileStem|)))
  }

  /** `path_to_entry`: a leaf must be a file, pass both checks and have a stem
      the scheme decodes; the checks run in that order and the first failure is
      the result. */
  function PathToEntry(t: T.Tree, item: Fs.Item): Result<T.Entry, Error>
    requires Schemes.Valid(t.scheme)
  {
    if Fs.IsFile(item.node) then
      match ValidateExtension(t, item.path)
      case Err(e) => Err(InvalidExtension(e))
      case Ok(_) =>
        match ValidateFileStemLength(t, item.path)
        case Err(e) => Err(InvalidFileStemLength(e))
        case Ok(_) =>
          match Fs.FileStem(item.path)
          case None => Err(InvalidFileStem(item.path))
          case Some(fileStem) =>
            match Schemes.NameFromFileStem(t.scheme, fileStem)
            case Err(e) => Err(Scheme(e))
            case Ok(name) => Ok(T.Entry(name, item.path))
    else Err(ExpectedFile(item.path))
  }

  /** A file at the path `Tree::path` gives a name is read back as that name,
      provided the encoded name has no `.` (so it is the stem), a fixed
      extension is non-empty and dot-free, any other extension constraint asks
      for no extension, and the length constraint admits the encoded length. */
  lemma EntryOfPath(t: T.Tree, name: seq<byte>)
    requires Schemes.Valid(t.scheme) && Schemes.IsName(t.scheme, name)
    requires t.scheme.Identity? ==> Utf8.ValidUtf8(name)
    requires T.PathOf(t, name).Ok?
    requires Fs.Dot !in Schemes.NameToString(t.scheme, name)
    requires t.extensionConstraint != Some(C.Extension.Any)
    requires t.extensionConstraint.Some? && t.extensionConstraint.value.Fixed? ==>
               t.extensionConstraint.value.ext != [] && Fs.Dot !in t.extensionConstraint.value.ext
    requires t.lengthConstraint.Some? ==> C.Admits(t.lengthConstraint.value, |Schemes.NameToString(t.scheme, name)|)
    ensures PathToEntry(t, Fs.Item(T.PathOf(t, name).value, Fs.File)) == Ok(T.Entry(name, T.PathOf(t, name).value))
  {
    PathLeaf(t, name);
    Schemes.RoundTrip(t.scheme, name);
  }

  /** The leaf of such a path splits into the encoded name and the fixed
      extension, or no extension. */
  lemma PathLeaf(t: T.Tree, name: seq<byte>)
    requires Schemes.Valid(t.scheme) && Schemes.IsName(t.scheme, name)
    requires T.PathOf(t, name).Ok?
    requires Fs.Dot !in Schemes.NameToString(t.scheme, name)
    requires t.extensionConstraint.Some? && t.extensionConstraint.value.Fixed? ==>
               t.extensionConstraint.value.ext != [] && Fs.Dot !in t.extensionConstraint.value.ext
    ensures Fs.FileStem(T.PathOf(t, name).value) == Some(Schemes.NameToString(t.scheme, name))
    ensures t.extensionConstraint.Some? && t.extensionConstraint.value.Fixed? ==>
              Fs.Extension(T.PathOf(t, name).value) == Some(t.extensionConstraint.value.ext)
    ensures !(t.extensionConstraint.Some? && t.extensionConstraint.value.Fixed?) ==>
              Fs.Extension(T.PathOf(t, name).value).None?
  {
    var e := Schemes.NameToString(t.scheme, name);
    assert e != Fs.DotDot && e != [Fs.Dot] by {
      assert Fs.DotDot[0] == Fs.Dot;
      assert [Fs.Dot][0] == Fs.Dot;
    }
    if t.extensionConstraint.Some? && t.extensionConstraint.value.Fixed? {
      T.PathLeafSplits(t, name);
    } else {
      T.NamePathSpec(t, name);
      T.PathSpec(t, name);
      Fs.PlainName(T.PathOf(t, name).value);
    }
  }

  // ----- Listing a prefix directory -----

  /** The order `path_to_paths` sorts a listing in: prefix parts by the scheme's
      comparison, reversed, and every pair it cannot compare as equal. */
  function Descending(t: T.Tree, a: Fs.Item, b: Fs.Item): Ordering
  {
    match (Fs.FileName(a.path), Fs.FileName(b.path))
    case (Some(x), Some(y)) =>
      (match Schemes.CmpPrefixPart(t.scheme, x, y)
       case Ok(o) => o.Reverse()
       case Err(_) => Equal)
    case _ => Equal
  }

  function Cmp(t: T.Tree): (Fs.Item, Fs.Item) -> Ordering
  {
    (a, b) => Descending(t, a, b)
  }

  /** A readable directory's listing, sorted for popping. */
  function SortedListing(t: T.Tree, item: Fs.Item): seq<Fs.Item>
    requires item.node.Dir?
  {
    Sorting.Sort(Cmp(t), Fs.ReadDir(item).value)
  }

  /** A path whose file name is missing or not `n` bytes long. */
  predicate Misnamed(p: Fs.Item, n: nat)
  {
    Fs.FileName(p.path).None? || |Fs.FileName(p.path).value| != n
  }

  /** The position of the first misnamed path (`Iterator::find`). */
  function FirstMisnamed(paths: seq<Fs.Item>, n: nat): (r: Option<nat>)
    ensures r.None? <==> forall i :: 0 <= i < |paths| ==> !Misnamed(paths[i], n)
    ensures r.Some? ==> r.value < |paths| && Misnamed(paths[r.value], n)
                        && forall i :: 0 <= i < r.value ==> !Misnamed(paths[i], n)
  {
    if paths == [] then None
    else if Misnamed(paths[0], n) then Some(0)
    else
      match FirstMisnamed(paths[1..], n)
      case None => None
      case Some(i) => Some(i + 1)
  }

  lemma {:induction false} InsertWeight(cmp: (Fs.Item, Fs.Item) -> Ordering, x: Fs.Item, s: seq<Fs.Item>)
    ensures Fs.Weight(Sorting.Insert(cmp, x, s)) == Fs.Weight(s) + Fs.Size(x.node)
  {
    if s == [] {
      assert Fs.Weight([x]) == Fs.Size(x.node);
    } else {
      var n := |s| - 1;
      Fs.WeightLast(s);
      if cmp(s[n], x) == Greater {
        InsertWeight(cmp, x, s[..n]);
        Fs.WeightAppend(Sorting.Insert(cmp, x, s[..n]), [s[n]]);
        assert Fs.Weight([s[n]]) == Fs.Size(s[n].node);
      } else {
        Fs.WeightAppend(s, [x]);
        assert Fs.Weight([x]) == Fs.Size(x.node);
      }
    }
  }

  /** Sorting moves items around and so keeps their weight. */
  lemma {:induction false} SortWeight(cmp: (Fs.Item, Fs.Item) -> Ordering, s: seq<Fs.Item>)
    ensures Fs.Weight(Sorting.Sort(cmp, s)) == Fs.Weight(s)
  {
    if s != [] {
      var n := |s| - 1;
      SortWeight(cmp, s[..n]);
      InsertWeight(cmp, s[n], Sorting.Sort(cmp, s[..n]));
      Fs.WeightLast(s);
    }
  }

  lemma SortedListingWeight(t: T.Tree, item: Fs.Item)
    requires item.node.Dir?
    ensures Fs.Weight(SortedListing(t, item)) + 2 == Fs.Size(item.node)
  {
    SortWeight(Cmp(t), Fs.ReadDir(item).value);
    Fs.ListingWeight(item);
  }

  /** Every sorted path is one of the directory's entries. */
  lemma SortedListingMember(t: T.Tree, item: Fs.Item, i: nat)
    requires item.node.Dir? && i < |SortedListing(t, item)|
    ensures exists j :: 0 <= j < |item.node.children| &&
              SortedListing(t, item)[i] == Fs.Item(item.path + [item.node.children[j].name], item.node.children[j].node)
  {
    var listing := Fs.ReadDir(item).value;
    Sorting.SortPermutes(Cmp(t), listing);
    assert SortedListing(t, item)[i] in multiset(listing);
    var j :| 0 <= j < |listing| && listing[j] == SortedListing(t, item)[i];
  }

  /** Every entry of the directory is among the sorted paths. */
  lemma ListingMemberSorted(t: T.Tree, item: Fs.Item, j: nat)
    requires item.node.Dir? && j < |item.node.children|
    ensures exists i :: 0 <= i < |SortedListing(t, item)| &&
              SortedListing(t, item)[i] == Fs.Item(item.path + [item.node.children[j].name], item.node.children[j].node)
  {
    var listing := Fs.ReadDir(item).value;
    Sorting.SortPermutes(Cmp(t), listing);
    assert listing[j] in multiset(SortedListing(t, item));
  }

  /** What `path_to_entry` accepts: a file whose extension and stem length
      pass the constraints and whose stem decodes; the entry keeps the path and
      the decoded name; the first failing check names the error. */
  lemma PathToEntrySpec(t: T.Tree, item: Fs.Item)
    requires Schemes.Valid(t.scheme)
    ensures PathToEntry(t, item).Ok? <==>
              && Fs.IsFile(item.node)
              && ValidateExtension(t, item.path).Ok?
              && ValidateFileStemLength(t, item.path).Ok?
              && Fs.FileStem(item.path).Some?
              && Schemes.NameFromFileStem(t.scheme, Fs.FileStem(item.path).value).Ok?
    ensures PathToEntry(t, item).Ok? ==>
              && PathToEntry(t, item).value.path == item.path
              && Schemes.IsName(t.scheme, PathToEntry(t, item).value.name)
              && Schemes.NameFromFileStem(t.scheme, Fs.FileStem(item.path).value) == Ok(PathToEntry(t, item).value.name)
    ensures !Fs.IsFile(item.node) ==> PathToEntry(t, item) == Err(ExpectedFile(item.path))
    ensures Fs.IsFile(item.node) && ValidateExtension(t, item.path).Err? ==>
              PathToEntry(t, item) == Err(InvalidExtension(Fs.Extension(item.path)))
    ensures Fs.IsFile(item.node) && ValidateExtension(t, item.path).Ok? && ValidateFileStemLength(t, item.path).Err? ==>
              PathToEntry(t, item) == Err(InvalidFileStemLength(ValidateFileStemLength(t, item.path).error))
    ensures Fs.IsFile(item.node) && ValidateExtension(t, item.path).Ok? && ValidateFileStemLength(t, item.path).Ok? &&
            Fs.FileStem(item.path).None? ==>
              PathToEntry(t, item) == Err(InvalidFileStem(item.path))
    ensures Fs.IsFile(item.node) && ValidateExtension(t, item.path).Ok? && ValidateFileStemLength(t, item.path).Ok? &&
            Fs.FileStem(item.path).Some? && Schemes.NameFromFileStem(t.scheme, Fs.FileStem(item.path).value).Err? ==>
              PathToEntry(t, item) == Err(Scheme(Schemes.NameFromFileStem(t.scheme, Fs.FileStem(item.path).value).error))
  {
    if Fs.FileStem(item.path).Some? {
      Schemes.NameFromFileStemIsName(t.scheme, Fs.FileStem(item.path).value);
    }
  }

  /** `path_to_paths`: the sorted listing of a directory, provided (when a
      prefix length is given) every entry is named by exactly that many bytes;
      otherwise the first misnamed entry in sorted order. Anything but a
      directory is `ExpectedDirectory`; a directory that cannot be listed, `Io`. */
  function PathToPaths(t: T.Tree, item: Fs.Item, prefixPartLength: Option<nat>): Result<seq<Fs.Item>, Error>
  {
    if !Fs.IsDir(item.node) then Err(ExpectedDirectory(item.path))
    else match Fs.ReadDir(item)
      case None => Err(Io)
      case Some(listing) =>
        var paths := Sorting.Sort(Cmp(t), listing);
        SortedListingWeight(t, item);
        match prefixPartLength
        case Some(n) =>
          (match FirstMisnamed(paths, n)
           case Some(i) => Err(InvalidPrefixPart(paths[i].path))
           case None => Ok(paths))
        case None => Ok(paths)
  }

  /** What `path_to_paths` returns: the error for anything that is not a
      directory or cannot be read, the sorted listing on success, and, when
      some entry is misnamed, the path of the first misnamed one in sorted
      order (whose earlier entries are all correctly named, by `FirstMisnamed`). */
  lemma PathToPathsSpec(t: T.Tree, item: Fs.Item, prefixPartLength: Option<nat>)
    ensures !Fs.IsDir(item.node) ==> PathToPaths(t, item, prefixPartLength) == Err(ExpectedDirectory(item.path))
    ensures item.node.Unreadable? ==> PathToPaths(t, item, prefixPartLength) == Err(Io)
    ensures PathToPaths(t, item, prefixPartLength).Ok? ==> item.node.Dir? && PathToPaths(t, item, prefixPartLength).value == SortedListing(t, item)
    ensures PathToPaths(t, item, prefixPartLength).Ok? ==> Fs.Weight(PathToPaths(t, item, prefixPartLength).value) + 2 == Fs.Size(item.node)
    ensures PathToPaths(t, item, prefixPartLength).Err? && PathToPaths(t, item, prefixPartLength).error.InvalidPrefixPart? ==>
              item.node.Dir? && prefixPartLength.Some? &&
              FirstMisnamed(SortedListing(t, item), prefixPartLength.value).Some? &&
              PathToPaths(t, item, prefixPartLength).error.path ==
                SortedListing(t, item)[FirstMisnamed(SortedListing(t, item), prefixPartLength.value).value].path
    ensures item.node.Dir? && prefixPartLength.Some? && FirstMisnamed(SortedListing(t, item), prefixPartLength.value).Some? ==>
              PathToPaths(t, item, prefixPartLength) ==
                Err(InvalidPrefixPart(SortedListing(t, item)[FirstMisnamed(SortedListing(t, item), prefixPartLength.value).value].path))
  {
    if item.node.Dir? {
      SortedListingWeight(t, item);
    }
  }

  /** A successful listing weighs less than the directory listed. */
  lemma PathToPathsWeight(t: T.Tree, item: Fs.Item, prefixPartLength: Option<nat>)
    ensures PathToPaths(t, item, prefixPartLength).Ok? ==> Fs.Weight(PathToPaths(t, item, prefixPartLength).value) + 2 == Fs.Size(item.node)
  {
    if item.node.Dir? {
      SortedListingWeight(t, item);
    }
  }

  /** A readable directory lists successfully exactly when no prefix length is
      asked for or every entry has a name of that length. */
  lemma PathToPathsSucceeds(t: T.Tree, item: Fs.Item, prefixPartLength: Option<nat>)
    requires item.node.Dir?
    ensures PathToPaths(t, item, prefixPartLength).Ok? <==>
              prefixPartLength.None? ||
              forall j :: 0 <= j < |item.node.children| ==>
                T.ProperName(item.node.children[j].name) && |item.node.children[j].name| == prefixPartLength.value
  {
    if prefixPartLength.Some? {
      var n := prefixPartLength.value;
      var cs := item.node.children;
      var s := SortedListing(t, item);
      if PathToPaths(t, item, prefixPartLength).Ok? {
        forall j | 0 <= j < |cs| ensures T.ProperName(cs[j].name) && |cs[j].name| == n {
          ListingMemberSorted(t, item, j);
          var i :| 0 <= i < |s| && s[i] == Fs.Item(item.path + [cs[j].name], cs[j].node);
          assert !Misnamed(s[i], n);
        }
      } else {
        var i := FirstMisnamed(s, n).value;
        SortedListingMember(t, item, i);
        var j :| 0 <= j < |cs| && s[i] == Fs.Item(item.path + [cs[j].name], cs[j].node);
        assert !(T.ProperName(cs[j].name) && |cs[j].name| == n);
      }
    }
  }

  // ----- The walk -----

  type Frame = seq<Fs.Item>

  /** What to do when a prefix directory cannot be listed: what `next` does
      (`AsWritten`: report the error, leave the level raised and drop the
      rest of the frame), or put the frame back and keep the level (`Restore`). */
  datatype OnListingError = AsWritten | Restore

  /** One pass through the body of `next`, up to its tail call. */
  datatype Step =
    | Finished
    | Yield(result: Result<T.Entry, Error>, stack: seq<Frame>, level: Option<nat>)
    | Again(stack: seq<Frame>, level: Option<nat>)

  /** A measure the walk decreases: each frame counts one more than its paths. */
  function StackWeight(stack: seq<Frame>): nat
  {
    if stack == [] then 0 else StackWeight(stack[..|stack| - 1]) + 1 + Fs.Weight(stack[|stack| - 1])
  }

  lemma StackWeightPush(stack: seq<Frame>, frame: Frame)
    ensures StackWeight(stack + [frame]) == StackWeight(stack) + 1 + Fs.Weight(frame)
  {
    assert (stack + [frame])[..|stack|] == stack;
  }

  /** Pop the top frame; pop its last path, if any; at the leaf level turn it
      into an entry, otherwise list it as the next level's frame. */
  function Small(t: T.Tree, policy: OnListingError, stack: seq<Frame>, level: Option<nat>): Step
    requires Schemes.Valid(t.scheme)
  {
    if stack == [] then Finished
    else
      var below := stack[..|stack| - 1];
      var frame := stack[|stack| - 1];
      if frame == [] then Again(below, Decremented(level))
      else
        var item := frame[|frame| - 1];
        var rest := frame[..|frame| - 1];
        if IsLast(t, level) then Yield(PathToEntry(t, item), below + [rest], level)
        else
          var level' := Incremented(level);
          match PathToPaths(t, item, CurrentPrefixPartLength(t, level'))
          case Err(e) =>
            (match policy
             case AsWritten => Yield(Err(e), below, level')
             case Restore => Yield(Err(e), below + [rest], level))
          case Ok(paths) => Again(below + [rest, paths], level')
  }

  /** Every step makes the stack lighter. */
  lemma SmallDecreases(t: T.Tree, policy: OnListingError, stack: seq<Frame>, level: Option<nat>)
    requires Schemes.Valid(t.scheme)
    ensures Small(t, policy, stack, level).Yield? ==> StackWeight(Small(t, policy, stack, level).stack) < StackWeight(stack)
    ensures Small(t, policy, stack, level).Again? ==> StackWeight(Small(t, policy, stack, level).stack) < StackWeight(stack)
  {
    if stack != [] {
      var below := stack[..|stack| - 1];
      var frame := stack[|stack| - 1];
      if frame != [] {
        var item := frame[|frame| - 1];
        var rest := frame[..|frame| - 1];
        Fs.WeightLast(frame);
        StackWeightPush(below, rest);
        var level' := Incremented(level);
        var r := PathToPaths(t, item, CurrentPrefixPartLength(t, level'));
        if !IsLast(t, level) && r.Ok? {
          PathToPathsWeight(t, item, CurrentPrefixPartLength(t, level'));
          assert below + [rest, r.value] == below + [rest] + [r.value];
          StackWeightPush(below + [rest], r.value);
        }
      }
    }
  }

  /** `next`: steps until one yields a result or the stack is empty; returns
      that result (or none) with the state it leaves behind. */
  function Run(t: T.Tree, policy: OnListingError, stack: seq<Frame>, level: Option<nat>)
    : (Option<Result<T.Entry, Error>>, seq<Frame>, Option<nat>)
    requires Schemes.Valid(t.scheme)
    decreases StackWeight(stack)
  {
    match Small(t, policy, stack, level)
    case Finished => (None, stack, level)
    case Yield(r, s, l) => (Some(r), s, l)
    case Again(s, l) =>
      SmallDecreases(t, policy, stack, level);
      Run(t, policy, s, l)
  }

  /** Everything the iterator yields from a state on, in order. */
  function Drain(t: T.Tree, policy: OnListingError, stack: seq<Frame>, level: Option<nat>): seq<Result<T.Entry, Error>>
    requires Schemes.Valid(t.scheme)
    decreases StackWeight(stack)
  {
    match Small(t, policy, stack, level)
    case Finished => []
    case Yield(r, s, l) =>
      SmallDecreases(t, policy, stack, level);
      [r] + Drain(t, policy, s, l)
    case Again(s, l) =>
      SmallDecreases(t, policy, stack, level);
      Drain(t, policy, s, l)
  }

  /** The iterator's results are those of calling `next` until it returns
      none; once it has, the stack is empty and it keeps returning none. */
  lemma {:induction false} DrainIsRepeatedNext(t: T.Tree, policy: OnListingError, stack: seq<Frame>, level: Option<nat>)
    requires Schemes.Valid(t.scheme)
    ensures var (r, s, l) := Run(t, policy, stack, level);
            && (r.None? <==> Drain(t, policy, stack, level) == [])
            && (r.None? ==> s == [] && Run(t, policy, s, l) == (None, s, l))
            && (r.Some? ==> Drain(t, policy, stack, level) == [r.value] + Drain(t, policy, s, l))
    decreases StackWeight(stack)
  {
    match Small(t, policy, stack, level)
    case Finished =>
    case Yield(_, _, _) =>
    case Again(s, l) =>
      SmallDecreases(t, policy, stack, level);
      DrainIsRepeatedNext(t, policy, s, l);
  }

  /** The iterator over a tree whose base holds `baseNode`, handling a failed
      listing as `policy` says (`AsWritten` is the source's `next`). */
  class Entries {
    const tree: T.Tree
    const policy: OnListingError
    var stack: seq<Frame>
    var level: Option<nat>

    /** `Entries::new`: one frame holding the base, and no level yet. */
    constructor (tree: T.Tree, baseNode: Fs.Node, policy: OnListingError)
      ensures this.tree == tree && this.policy == policy
      ensures stack == [[Fs.Item(tree.base, baseNode)]] && level.None?
    {
      this.tree := tree;
      this.policy := policy;
      stack := [[Fs.Item(tree.base, baseNode)]];
      level := None;
    }

    /** `increment_level`. */
    method IncrementLevel()
      modifies this
      ensures level == Incremented(old(level)) && stack == old(stack)
    {
      level := Some(if level.None? then 0 else level.value + 1);
    }

    /** `decrement_level`. */
    method DecrementLevel()
      modifies this
      ensures level == Decremented(old(level)) && stack == old(stack)
    {
      var taken := level;
      level := None;
      if taken.Some? && taken.value != 0 {
        level := Some(taken.value - 1);
      }
    }

    /** `Iterator::next`, with its tail calls as a loop. */
    method Next() returns (r: Option<Result<T.Entry, Error>>)
      requires Schemes.Valid(tree.scheme)
      modifies this
      ensures (r, stack, level) == Run(tree, policy, old(stack), old(level))
    {
      ghost var goal := Run(tree, policy, stack, level);
      while stack != []
        invariant Run(tree, policy, stack, level) == goal
        decreases StackWeight(stack)
      {
        var again;
        r, again := Step();
        if !again {
          return;
        }
      }
      r := None;
    }

    /** One call of `next` up to its tail call: pop the top frame and deal with
        it, and say whether `next` calls itself again. */
    method Step() returns (r: Option<Result<T.Entry, Error>>, again: bool)
      requires Schemes.Valid(tree.scheme) && stack != []
      modifies this
      ensures !again ==> (r, stack, level) == Run(tree, policy, old(stack), old(level))
      ensures again ==> Run(tree, policy, stack, level) == Run(tree, policy, old(stack), old(level))
      ensures again ==> StackWeight(stack) < old(StackWeight(stack))
    {
      var nextPaths := stack[|stack| - 1];
      stack := stack[..|stack| - 1];
      assert old(stack) == stack + [nextPaths];
      if nextPaths == [] {
        RunOfPop(tree, policy, stack, level);
        DecrementLevel();
        return None, true;
      }
      var nextPath := nextPaths[|nextPaths| - 1];
      nextPaths := nextPaths[..|nextPaths| - 1];
      assert old(stack)[|old(stack)| - 1] == nextPaths + [nextPath];
      if IsLast(tree, level) {
        RunOfLeaf(tree, policy, stack, nextPaths, nextPath, level);
        stack := stack + [nextPaths];
        return Some(PathToEntry(tree, nextPath)), false;
      }
      ghost var level0 := level;
      IncrementLevel();
      var nextLevel := PathToPaths(tree, nextPath, CurrentPrefixPartLength(tree, level));
      if nextLevel.Err? {
        RunOfListingError(tree, policy, stack, nextPaths, nextPath, level0);
        if policy.Restore? {
          LevelRoundTrip(level0);
          DecrementLevel();
          stack := stack + [nextPaths];
        }
        return Some(Err(nextLevel.error)), false;
      }
      RunOfListing(tree, policy, stack, nextPaths, nextPath, level0, nextLevel.value);
      stack := stack + [nextPaths, nextLevel.value];
      return None, true;
    }
  }

  // One lemma per branch of `next`, each unfolding a single step of the stack
  // `below` topped by the frame `rest + [item]` (or by an empty frame).

  lemma RunOfPop(t: T.Tree, p: OnListingError, below: seq<Frame>, level: Option<nat>)
    requires Schemes.Valid(t.scheme)
    ensures Run(t, p, below + [[]], level) == Run(t, p, below, Decremented(level))
    ensures StackWeight(below) < StackWeight(below + [[]])
  {
    var e: Frame := [];
    assert (below + [e])[..|below|] == below;
    StackWeightPush(below, e);
  }

  lemma RunOfLeaf(t: T.Tree, p: OnListingError, below: seq<Frame>, rest: Frame, item: Fs.Item, level: Option<nat>)
    requires Schemes.Valid(t.scheme) && IsLast(t, level)
    ensures Run(t, p, below + [rest + [item]], level) == (Some(PathToEntry(t, item)), below + [rest], level)
  {
    var stack := below + [rest + [item]];
    assert stack[..|below|] == below;
    assert (rest + [item])[..|rest|] == rest;
  }

  lemma RunOfListingError(t: T.Tree, p: OnListingError, below: seq<Frame>, rest: Frame, item: Fs.Item, level: Option<nat>)
    requires Schemes.Valid(t.scheme) && !IsLast(t, level)
    requires PathToPaths(t, item, CurrentPrefixPartLength(t, Incremented(level))).Err?
    ensures var e := PathToPaths(t, item, CurrentPrefixPartLength(t, Incremented(level))).error;
            && (p.AsWritten? ==> Run(t, p, below + [rest + [item]], level) == (Some(Err(e)), below, Incremented(level)))
            && (p.Restore? ==> Run(t, p, below + [rest + [item]], level) == (Some(Err(e)), below + [rest], level))
  {
    var stack := below + [rest + [item]];
    assert stack[..|below|] == below;
    assert (rest + [item])[..|rest|] == rest;
  }

  lemma RunOfListing(t: T.Tree, p: OnListingError, below: seq<Frame>, rest: Frame, item: Fs.Item, level: Option<nat>, paths: Frame)
    requires Schemes.Valid(t.scheme) && !IsLast(t, level)
    requires PathToPaths(t, item, CurrentPrefixPartLength(t, Incremented(level))) == Ok(paths)
    ensures Run(t, p, below + [rest + [item]], level) == Run(t, p, below + [rest, paths], Incremented(level))
    ensures StackWeight(below + [rest, paths]) < StackWeight(below + [rest + [item]])
  {
    var stack := below + [rest + [item]];
    assert stack[..|below|] == below;
    assert (rest + [item])[..|rest|] == rest;
    SmallDecreases(t, p, stack, level);
  }

  // ----- The level follows the stack -----

  /** The level the stack's depth calls for: the top frame of a stack of `n`
      frames holds the entries at depth `n - 1` below the base, which is level
      `n - 2` (none while the base's own frame is on top). */
  function LevelFor(n: nat): Option<nat>
  {
    if n >= 2 then Some(n - 2) else None
  }

  predicate Aligned(stack: seq<Frame>, level: Option<nat>)
  {
    level == LevelFor(|stack|)
  }

  /** Popping, listing and yielding an entry keep the level in step with the
      stack, under either policy. */
  lemma SmallKeepsAligned(t: T.Tree, policy: OnListingError, stack: seq<Frame>, level: Option<nat>)
    requires Schemes.Valid(t.scheme) && Aligned(stack, level)
    ensures Small(t, policy, stack, level).Again? ==>
              Aligned(Small(t, policy, stack, level).stack, Small(t, policy, stack, level).level)
    ensures Small(t, policy, stack, level).Yield? && IsLast(t, level) ==>
              Aligned(Small(t, policy, stack, level).stack, Small(t, policy, stack, level).level)
  {
  }

  /** With the listing error put back, every step keeps the level aligned. */
  lemma RestoreKeepsAligned(t: T.Tree, stack: seq<Frame>, level: Option<nat>)
    requires Schemes.Valid(t.scheme) && Aligned(stack, level)
    ensures Small(t, Restore, stack, level).Again? || Small(t, Restore, stack, level).Yield? ==>
              Aligned(Small(t, Restore, stack, level).stack, Small(t, Restore, stack, level).level)
  {
    SmallKeepsAligned(t, Restore, stack, level);
  }

  /** As written, a listing error leaves the level two above what the
      remaining stack calls for: it was raised for the frame that the error
      then dropped. */
  lemma ListingErrorSkewsLevel(t: T.Tree, stack: seq<Frame>, level: Option<nat>)
    requires Schemes.Valid(t.scheme) && Aligned(stack, level)
    requires stack != [] && stack[|stack| - 1] != [] && !IsLast(t, level)
    requires var frame := stack[|stack| - 1];
             var item := frame[|frame| - 1];
             PathToPaths(t, item, CurrentPrefixPartLength(t, Incremented(level))).Err?
    ensures Small(t, AsWritten, stack, level).Yield?
    ensures Small(t, AsWritten, stack, level).stack == stack[..|stack| - 1]
    ensures Small(t, AsWritten, stack, level).level == Some(|stack| - 1)
    ensures !Aligned(Small(t, AsWritten, stack, level).stack, Small(t, AsWritten, stack, level).level)
  {
  }

  // ----- What a well-formed tree yields -----

  /** The results of an item at depth `k` (the base is at depth 0): a leaf
      (depth `|prefix_part_lengths| + 1`) gives its entry; a directory above
      gives its entries' results, smallest prefix part first. */
  function OutItem(t: T.Tree, item: Fs.Item, k: nat): seq<Result<T.Entry, Error>>
    requires Schemes.Valid(t.scheme)
    decreases Fs.Size(item.node), 0
  {
    if k == |t.prefixPartLengths| + 1 then [PathToEntry(t, item)]
    else if item.node.Dir? then
      SortedListingWeight(t, item);
      OutFrame(t, SortedListing(t, item), k + 1)
    else []
  }

  /** The results of a frame of items at depth `k`, last item first. */
  function OutFrame(t: T.Tree, frame: Frame, k: nat): seq<Result<T.Entry, Error>>
    requires Schemes.Valid(t.scheme)
    decreases Fs.Weight(frame), 1
  {
    if frame == [] then []
    else
      Fs.WeightLast(frame);
      OutItem(t, frame[|frame| - 1], k) + OutFrame(t, frame[..|frame| - 1], k)
  }

  /** An item at depth `k` laid out as the tree's prefix lengths require: a
      prefix directory whose layout matches the remaining lengths, or a leaf. */
  predicate Good(t: T.Tree, item: Fs.Item, k: nat)
  {
    if k <= |t.prefixPartLengths| then T.Layout(item.node, t.prefixPartLengths[k..])
    else k == |t.prefixPartLengths| + 1
  }

  /** A correctly laid out prefix directory lists without error, and its
      entries are correctly laid out one level down. */
  lemma ListingOnLayout(t: T.Tree, item: Fs.Item, k: nat)
    requires k <= |t.prefixPartLengths| && Good(t, item, k)
    ensures PathToPaths(t, item, CurrentPrefixPartLength(t, Some(k))) == Ok(SortedListing(t, item))
    ensures forall i :: 0 <= i < |SortedListing(t, item)| ==> Good(t, SortedListing(t, item)[i], k + 1)
  {
    var L := t.prefixPartLengths;
    var cs := item.node.children;
    var s := SortedListing(t, item);
    PathToPathsSucceeds(t, item, CurrentPrefixPartLength(t, Some(k)));
    if k < |L| {
      assert L[k..][0] == L[k] && L[k..][1..] == L[k + 1..];
      forall j | 0 <= j < |cs| ensures T.ProperName(cs[j].name) && |cs[j].name| == L[k] {
      }
    }
    forall i | 0 <= i < |s| ensures Good(t, s[i], k + 1) {
      SortedListingMember(t, item, i);
      var j :| 0 <= j < |cs| && s[i] == Fs.Item(item.path + [cs[j].name], cs[j].node);
      if k < |L| {
        assert L[k..][1..] == L[k + 1..];
      }
    }
  }

  lemma DecrementedLevelFor(n: nat)
    ensures Decremented(LevelFor(n + 1)) == LevelFor(n)
    ensures Incremented(LevelFor(n + 1)) == Some(n)
  {
  }

  lemma DrainOfYield(t: T.Tree, policy: OnListingError, stack: seq<Frame>, level: Option<nat>,
                     r: Result<T.Entry, Error>, stack': seq<Frame>, level': Option<nat>)
    requires Schemes.Valid(t.scheme)
    requires Small(t, policy, stack, level) == Yield(r, stack', level')
    ensures Drain(t, policy, stack, level) == [r] + Drain(t, policy, stack', level')
  {
  }

  lemma DrainOfAgain(t: T.Tree, policy: OnListingError, stack: seq<Frame>, level: Option<nat>,
                     stack': seq<Frame>, level': Option<nat>)
    requires Schemes.Valid(t.scheme)
    requires Small(t, policy, stack, level) == Again(stack', level')
    ensures Drain(t, policy, stack, level) == Drain(t, policy, stack', level')
  {
  }

  /** The three steps a well-formed walk takes, one lemma each. */
  lemma SmallOnEmptyFrame(t: T.Tree, policy: OnListingError, below: seq<Frame>)
    requires Schemes.Valid(t.scheme)
    ensures Small(t, policy, below + [[]], LevelFor(|below| + 1)) == Again(below, LevelFor(|below|))
  {
    var stack := below + [[]];
    assert stack[..|stack| - 1] == below && stack[|stack| - 1] == [];
    DecrementedLevelFor(|below|);
  }

  lemma SmallOnLeaf(t: T.Tree, policy: OnListingError, below: seq<Frame>, frame: Frame)
    requires Schemes.Valid(t.scheme) && frame != [] && |below| == |t.prefixPartLengths| + 1
    ensures Small(t, policy, below + [frame], LevelFor(|below| + 1)) ==
            Yield(PathToEntry(t, frame[|frame| - 1]), below + [frame[..|frame| - 1]], LevelFor(|below| + 1))
  {
    var stack := below + [frame];
    assert stack[..|stack| - 1] == below && stack[|stack| - 1] == frame;
  }

  lemma SmallOnPrefixDirectory(t: T.Tree, policy: OnListingError, below: seq<Frame>, frame: Frame)
    requires Schemes.Valid(t.scheme) && frame != [] && |below| <= |t.prefixPartLengths|
    requires Good(t, frame[|frame| - 1], |below|)
    ensures Small(t, policy, below + [frame], LevelFor(|below| + 1)) ==
            Again(below + [frame[..|frame| - 1]] + [SortedListing(t, frame[|frame| - 1])], LevelFor(|below| + 2))
  {
    var k := |below|;
    var stack := below + [frame];
    var item := frame[|frame| - 1];
    var rest := frame[..|frame| - 1];
    assert stack[..|stack| - 1] == below && stack[|stack| - 1] == frame;
    DecrementedLevelFor(k);
    ListingOnLayout(t, item, k);
    assert below + [rest, SortedListing(t, item)] == below + [rest] + [SortedListing(t, item)];
  }

  lemma DrainOnLeaf(t: T.Tree, policy: OnListingError, below: seq<Frame>, frame: Frame)
    requires Schemes.Valid(t.scheme) && frame != [] && |below| == |t.prefixPartLengths| + 1
    ensures Drain(t, policy, below + [frame], LevelFor(|below| + 1)) ==
            [PathToEntry(t, frame[|frame| - 1])] + Drain(t, policy, below + [frame[..|frame| - 1]], LevelFor(|below| + 1))
  {
    var level := LevelFor(|below| + 1);
    SmallOnLeaf(t, policy, below, frame);
    DrainOfYield(t, policy, below + [frame], level, PathToEntry(t, frame[|frame| - 1]), below + [frame[..|frame| - 1]], level);
  }

  lemma DrainOnPrefixDirectory(t: T.Tree, policy: OnListingError, below: seq<Frame>, frame: Frame)
    requires Schemes.Valid(t.scheme) && frame != [] && |below| <= |t.prefixPartLengths|
    requires Good(t, frame[|frame| - 1], |below|)
    ensures frame[|frame| - 1].node.Dir?
    ensures Drain(t, policy, below + [frame], LevelFor(|below| + 1)) ==
            Drain(t, policy, below + [frame[..|frame| - 1]] + [SortedListing(t, frame[|frame| - 1])], LevelFor(|below| + 2))
  {
    SmallOnPrefixDirectory(t, policy, below, frame);
    DrainOfAgain(t, policy, below + [frame], LevelFor(|below| + 1),
                 below + [frame[..|frame| - 1]] + [SortedListing(t, frame[|frame| - 1])], LevelFor(|below| + 2));
  }

  lemma OutFrameLast(t: T.Tree, frame: Frame, k: nat)
    requires Schemes.Valid(t.scheme) && frame != []
    ensures OutFrame(t, frame, k) == OutItem(t, frame[|frame| - 1], k) + OutFrame(t, frame[..|frame| - 1], k)
  {
  }

  lemma GoodInit(t: T.Tree, frame: Frame, rest: Frame, k: nat)
    requires frame != [] && rest == frame[..|frame| - 1]
    requires forall i :: 0 <= i < |frame| ==> Good(t, frame[i], k)
    ensures forall i :: 0 <= i < |rest| ==> Good(t, rest[i], k)
  {
    forall i | 0 <= i < |rest| ensures Good(t, rest[i], k) {
      assert rest[i] == frame[i];
    }
  }

  /** The walk of a frame of well-formed items at depth `|below|` yields the
      frame's results and then continues below it. */
  lemma {:induction false} DrainFrame(t: T.Tree, policy: OnListingError, below: seq<Frame>, frame: Frame)
    requires Schemes.Valid(t.scheme)
    requires forall i :: 0 <= i < |frame| ==> Good(t, frame[i], |below|)
    ensures Drain(t, policy, below + [frame], LevelFor(|below| + 1)) ==
            OutFrame(t, frame, |below|) + Drain(t, policy, below, LevelFor(|below|))
    decreases Fs.Weight(frame), 3
  {
    if frame == [] {
      SmallOnEmptyFrame(t, policy, below);
      DrainOfAgain(t, policy, below + [frame], LevelFor(|below| + 1), below, LevelFor(|below|));
    } else if |below| == |t.prefixPartLengths| + 1 {
      DrainFrameLeaf(t, policy, below, frame);
    } else {
      assert Good(t, frame[|frame| - 1], |below|);
      DrainFramePrefix(t, policy, below, frame);
    }
  }

  lemma {:induction false} DrainFrameLeaf(t: T.Tree, policy: OnListingError, below: seq<Frame>, frame: Frame)
    requires Schemes.Valid(t.scheme) && frame != [] && |below| == |t.prefixPartLengths| + 1
    requires forall i :: 0 <= i < |frame| ==> Good(t, frame[i], |below|)
    ensures Drain(t, policy, below + [frame], LevelFor(|below| + 1)) ==
            OutFrame(t, frame, |below|) + Drain(t, policy, below, LevelFor(|below|))
    decreases Fs.Weight(frame), 2
  {
    var k := |below|;
    var item := frame[|frame| - 1];
    var rest := frame[..|frame| - 1];
    Fs.WeightLast(frame);
    GoodInit(t, frame, rest, k);
    DrainOnLeaf(t, policy, below, frame);
    DrainFrame(t, policy, below, rest);
    OutFrameLast(t, frame, k);
    assert OutItem(t, item, k) == [PathToEntry(t, item)];
    Regroup(Drain(t, policy, below + [frame], LevelFor(k + 1)), Drain(t, policy, below + [rest], LevelFor(k + 1)),
            OutFrame(t, frame, k), [PathToEntry(t, item)], OutFrame(t, rest, k), Drain(t, policy, below, LevelFor(k)));
  }

  lemma {:induction false} DrainFramePrefix(t: T.Tree, policy: OnListingError, below: seq<Frame>, frame: Frame)
    requires Schemes.Valid(t.scheme) && frame != [] && |below| <= |t.prefixPartLengths|
    requires forall i :: 0 <= i < |frame| ==> Good(t, frame[i], |below|)
    ensures Drain(t, policy, below + [frame], LevelFor(|below| + 1)) ==
            OutFrame(t, frame, |below|) + Drain(t, policy, below, LevelFor(|below|))
    decreases Fs.Weight(frame), 2
  {
    var k := |below|;
    var rest := frame[..|frame| - 1];
    Fs.WeightLast(frame);
    GoodInit(t, frame, rest, k);
    DrainItem(t, policy, below, frame);
    DrainFrame(t, policy, below, rest);
    OutFrameLast(t, frame, k);
    Regroup(Drain(t, policy, below + [frame], LevelFor(k + 1)), Drain(t, policy, below + [rest], LevelFor(k + 1)),
            OutFrame(t, frame, k), OutItem(t, frame[|frame| - 1], k), OutFrame(t, rest, k), Drain(t, policy, below, LevelFor(k)));
  }

  /** Descending into the last item of a frame yields that item's results. */
  lemma {:induction false} DrainItem(t: T.Tree, policy: OnListingError, below: seq<Frame>, frame: Frame)
    requires Schemes.Valid(t.scheme) && frame != [] && |below| <= |t.prefixPartLengths|
    requires Good(t, frame[|frame| - 1], |below|)
    ensures Drain(t, policy, below + [frame], LevelFor(|below| + 1)) ==
            OutItem(t, frame[|frame| - 1], |below|) + Drain(t, policy, below + [frame[..|frame| - 1]], LevelFor(|below| + 1))
    decreases Fs.Weight(frame), 1
  {
    DrainDescend(t, policy, below, frame);
    OutItemOfDirectory(t, frame[|frame| - 1], |below|);
  }

  lemma Regroup<R>(whole: seq<R>, rest: seq<R>, out: seq<R>, inner: seq<R>, after: seq<R>, tail: seq<R>)
    requires whole == inner + rest && rest == after + tail && out == inner + after
    ensures whole == out + tail
  {
  }

  /** Descending into the last item of a frame yields its results and returns
      to the rest of the frame. */
  lemma {:induction false} DrainDescend(t: T.Tree, policy: OnListingError, below: seq<Frame>, frame: Frame)
    requires Schemes.Valid(t.scheme) && frame != [] && |below| <= |t.prefixPartLengths|
    requires Good(t, frame[|frame| - 1], |below|)
    ensures frame[|frame| - 1].node.Dir?
    ensures Drain(t, policy, below + [frame], LevelFor(|below| + 1)) ==
            OutFrame(t, SortedListing(t, frame[|frame| - 1]), |below| + 1) +
            Drain(t, policy, below + [frame[..|frame| - 1]], LevelFor(|below| + 1))
    decreases Fs.Weight(frame), 0
  {
    var k := |below|;
    var item := frame[|frame| - 1];
    var rest := frame[..|frame| - 1];
    var upper := below + [rest];
    DrainOnPrefixDirectory(t, policy, below, frame);
    var paths := SortedListing(t, item);
    ListingOnLayout(t, item, k);
    Fs.WeightLast(frame);
    SortedListingWeight(t, item);
    DrainFrame(t, policy, upper, paths);
  }

  lemma OutItemOfDirectory(t: T.Tree, item: Fs.Item, k: nat)
    requires Schemes.Valid(t.scheme) && item.node.Dir? && k != |t.prefixPartLengths| + 1
    ensures OutItem(t, item, k) == OutFrame(t, SortedListing(t, item), k + 1)
  {
  }

  /** A store laid out for the tree's prefix lengths yields exactly the
      results of its leaves, directory by directory in ascending prefix order,
      and no error from the walk itself; the policy on listing errors plays no
      part. */
  lemma WalkOfLayout(t: T.Tree, policy: OnListingError, baseNode: Fs.Node)
    requires Schemes.Valid(t.scheme) && T.Layout(baseNode, t.prefixPartLengths)
    ensures Drain(t, policy, [[Fs.Item(t.base, baseNode)]], None) == OutItem(t, Fs.Item(t.base, baseNode), 0)
  {
    var root := Fs.Item(t.base, baseNode);
    assert t.prefixPartLengths[0..] == t.prefixPartLengths;
    assert Good(t, root, 0);
    DrainFrame(t, policy, [], [root]);
    assert [] + [[root]] == [[root]];
    Fs.WeightLast([root]);
    assert [root][..0] == [];
  }

  /** A base that is not a directory yields one `ExpectedDirectory` error. */
  lemma WalkOfNonDirectory(t: T.Tree, policy: OnListingError, baseNode: Fs.Node)
    requires Schemes.Valid(t.scheme) && !Fs.IsDir(baseNode)
    ensures Drain(t, policy, [[Fs.Item(t.base, baseNode)]], None) == [Err(ExpectedDirectory(t.base))]
  {
    var root := Fs.Item(t.base, baseNode);
    var stack := if policy.AsWritten? then [] else [[]];
    var level := if policy.AsWritten? then Some(0) else None;
    assert [[root]][..0] == [] && [root][..0] == [];
    assert Small(t, policy, [[root]], None) == Yield(Err(ExpectedDirectory(t.base)), stack, level);
    DrainOfYield(t, policy, [[root]], None, Err(ExpectedDirectory(t.base)), stack, level);
    if policy.Restore? {
      SmallOnEmptyFrame(t, policy, []);
      assert [] + [[]] == stack;
      DrainOfAgain(t, policy, stack, level, [], None);
    }
  }

  // ----- Order of the walk -----

  /** Where the scheme compares names, "not less" chains and is total. */
  lemma NotLessOrder(s: Schemes.Scheme, x: Fs.Name, y: Fs.Name, z: Fs.Name)
    requires Schemes.CmpPrefixPart(s, x, y).Ok? && Schemes.CmpPrefixPart(s, y, z).Ok?
    requires Schemes.CmpPrefixPart(s, y, x).Ok? && Schemes.CmpPrefixPart(s, z, y).Ok?
    ensures Schemes.CmpPrefixPart(s, x, y).value == Less ==> Schemes.CmpPrefixPart(s, y, x).value != Less
    ensures Schemes.CmpPrefixPart(s, x, y).value != Less && Schemes.CmpPrefixPart(s, y, z).value != Less ==>
              Schemes.CmpPrefixPart(s, x, z).value != Less
  {
    Schemes.CmpPrefixPartIsTotalOrder(s, x, y, z);
    Schemes.CmpPrefixPartIsTotalOrder(s, z, y, x);
    Schemes.CmpPrefixPartIsTotalOrder(s, x, z, z);
    Schemes.CmpPrefixPartIsTotalOrder(s, z, x, x);
  }

  /** The name of a listed path is the name of one of the directory's entries. */
  lemma ListedName(item: Fs.Item, x: Fs.Item) returns (j: nat)
    requires item.node.Dir? && x in Fs.ReadDir(item).value
    requires forall i :: 0 <= i < |item.node.children| ==> T.ProperName(item.node.children[i].name)
    ensures j < |item.node.children| && Fs.FileName(x.path) == Some(item.node.children[j].name)
  {
    var listing := Fs.ReadDir(item).value;
    var i :| 0 <= i < |listing| && listing[i] == x;
    j := i;
  }

  /** The sort's comparison on two paths with comparable names. */
  lemma DescendingOfNames(t: T.Tree, a: Fs.Item, b: Fs.Item, x: Fs.Name, y: Fs.Name)
    requires Fs.FileName(a.path) == Some(x) && Fs.FileName(b.path) == Some(y)
    requires Schemes.CmpPrefixPart(t.scheme, x, y).Ok?
    ensures Cmp(t)(a, b) == Schemes.CmpPrefixPart(t.scheme, x, y).value.Reverse()
  {
  }

  predicate Comparable(t: T.Tree, item: Fs.Item)
    requires item.node.Dir?
  {
    forall i, j :: 0 <= i < |item.node.children| && 0 <= j < |item.node.children| ==>
      T.ProperName(item.node.children[i].name) &&
      Schemes.CmpPrefixPart(t.scheme, item.node.children[i].name, item.node.children[j].name).Ok?
  }

  lemma ListingTotal(t: T.Tree, item: Fs.Item)
    requires item.node.Dir? && Comparable(t, item)
    ensures Sorting.TotalOn(Cmp(t), set x | x in Fs.ReadDir(item).value)
  {
    var dom := set x | x in Fs.ReadDir(item).value;
    var cmp := Cmp(t);
    forall a, b | a in dom && b in dom
      ensures cmp(a, b) != Greater || cmp(b, a) != Greater
    {
      ListedPairTotal(t, item, a, b);
    }
    forall a, b, c | a in dom && b in dom && c in dom && cmp(a, b) != Greater && cmp(b, c) != Greater
      ensures cmp(a, c) != Greater
    {
      ListedTripleChains(t, item, a, b, c);
    }
  }

  /** Every entry name of a comparable directory is proper. */
  lemma ComparableNames(t: T.Tree, item: Fs.Item)
    requires item.node.Dir? && Comparable(t, item)
    ensures forall i :: 0 <= i < |item.node.children| ==> T.ProperName(item.node.children[i].name)
  {
    var cs := item.node.children;
    forall i | 0 <= i < |cs| ensures T.ProperName(cs[i].name) {
      assert T.ProperName(cs[i].name) && Schemes.CmpPrefixPart(t.scheme, cs[i].name, cs[i].name).Ok?;
    }
  }

  lemma ListedPairTotal(t: T.Tree, item: Fs.Item, a: Fs.Item, b: Fs.Item)
    requires item.node.Dir? && Comparable(t, item)
    requires a in Fs.ReadDir(item).value && b in Fs.ReadDir(item).value
    ensures Cmp(t)(a, b) != Greater || Cmp(t)(b, a) != Greater
  {
    var cs := item.node.children;
    ComparableNames(t, item);
    var ja := ListedName(item, a);
    var jb := ListedName(item, b);
    DescendingOfNames(t, a, b, cs[ja].name, cs[jb].name);
    DescendingOfNames(t, b, a, cs[jb].name, cs[ja].name);
    NotLessOrder(t.scheme, cs[ja].name, cs[jb].name, cs[jb].name);
  }

  lemma ListedTripleChains(t: T.Tree, item: Fs.Item, a: Fs.Item, b: Fs.Item, c: Fs.Item)
    requires item.node.Dir? && Comparable(t, item)
    requires a in Fs.ReadDir(item).value && b in Fs.ReadDir(item).value && c in Fs.ReadDir(item).value
    requires Cmp(t)(a, b) != Greater && Cmp(t)(b, c) != Greater
    ensures Cmp(t)(a, c) != Greater
  {
    var cs := item.node.children;
    ComparableNames(t, item);
    var ja := ListedName(item, a);
    var jb := ListedName(item, b);
    var jc := ListedName(item, c);
    DescendingOfNames(t, a, b, cs[ja].name, cs[jb].name);
    DescendingOfNames(t, b, c, cs[jb].name, cs[jc].name);
    DescendingOfNames(t, a, c, cs[ja].name, cs[jc].name);
    NotLessOrder(t.scheme, cs[ja].name, cs[jb].name, cs[jc].name);
  }

  /** Whether the paths' names come in descending order, as far as the
      scheme compares them. */
  predicate InDescendingOrder(t: T.Tree, s: seq<Fs.Item>, i: nat, j: nat)
    requires i < j < |s|
  {
    && Fs.FileName(s[i].path).Some? && Fs.FileName(s[j].path).Some?
    && Schemes.CmpPrefixPart(t.scheme, Fs.FileName(s[j].path).value, Fs.FileName(s[i].path).value).Ok?
    && Schemes.CmpPrefixPart(t.scheme, Fs.FileName(s[j].path).value, Fs.FileName(s[i].path).value).value != Greater
  }

  /** Where the scheme can compare every pair of entry names, `path_to_paths`
      sorts the listing so that popping from its end visits the prefix parts in
      ascending order: no path comes after one it is smaller than. */
  lemma ListingDescends(t: T.Tree, item: Fs.Item)
    requires item.node.Dir? && Comparable(t, item)
    ensures forall i, j :: 0 <= i < j < |SortedListing(t, item)| ==> InDescendingOrder(t, SortedListing(t, item), i, j)
  {
    var listing := Fs.ReadDir(item).value;
    ListingTotal(t, item);
    Sorting.SortSorts(Cmp(t), listing, set x | x in listing);
    forall i, j | 0 <= i < j < |SortedListing(t, item)| ensures InDescendingOrder(t, SortedListing(t, item), i, j) {
      PairDescends(t, item, i, j);
    }
  }

  lemma PairDescends(t: T.Tree, item: Fs.Item, i: nat, j: nat)
    requires item.node.Dir? && Comparable(t, item)
    requires Sorting.Sorted(Cmp(t), SortedListing(t, item)) && i < j < |SortedListing(t, item)|
    ensures InDescendingOrder(t, SortedListing(t, item), i, j)
  {
    var cs := item.node.children;
    var s := SortedListing(t, item);
    var ji := SortedName(t, item, i);
    var jj := SortedName(t, item, j);
    var x, y := cs[ji].name, cs[jj].name;
    assert Schemes.CmpPrefixPart(t.scheme, x, y).Ok? && Schemes.CmpPrefixPart(t.scheme, y, x).Ok?;
    assert Cmp(t)(s[i], s[j]) != Greater;
    NamesDescend(t, s[i], s[j], x, y);
  }

  /** The name of a sorted path is the name of one of the directory's entries. */
  lemma SortedName(t: T.Tree, item: Fs.Item, i: nat) returns (j: nat)
    requires item.node.Dir? && Comparable(t, item) && i < |SortedListing(t, item)|
    ensures j < |item.node.children| && Fs.FileName(SortedListing(t, item)[i].path) == Some(item.node.children[j].name)
  {
    var cs := item.node.children;
    SortedListingMember(t, item, i);
    j :| 0 <= j < |cs| && SortedListing(t, item)[i] == Fs.Item(item.path + [cs[j].name], cs[j].node);
    assert T.ProperName(cs[j].name) && Schemes.CmpPrefixPart(t.scheme, cs[j].name, cs[j].name).Ok?;
  }

  /** Paths the sort's comparison keeps in order have names in descending order. */
  lemma NamesDescend(t: T.Tree, a: Fs.Item, b: Fs.Item, x: Fs.Name, y: Fs.Name)
    requires Fs.FileName(a.path) == Some(x) && Fs.FileName(b.path) == Some(y)
    requires Schemes.CmpPrefixPart(t.scheme, x, y).Ok? && Schemes.CmpPrefixPart(t.scheme, y, x).Ok?
    requires Cmp(t)(a, b) != Greater
    ensures Schemes.CmpPrefixPart(t.scheme, y, x).value != Greater
  {
    DescendingOfNames(t, a, b, x, y);
    Schemes.CmpPrefixPartIsTotalOrder(t.scheme, x, y, y);
  }

  // ----- A listing error that hides a well-formed directory -----

  /* A store with prefix lengths [1, 1] under `r`: `r/a/x` is a file where a
     prefix directory belongs, while `r/b/c/f` is laid out correctly. */
  const ExTree := T.Tree([[0x72]], None, None, [1, 1], Schemes.Utf8)
  const ExX := Fs.Item([[0x72], [0x61], [0x78]], Fs.File)
  const ExF := Fs.Item([[0x72], [0x62], [0x63], [0x66]], Fs.File)
  const ExC := Fs.Item([[0x72], [0x62], [0x63]], Fs.Dir([Fs.Child([0x66], Fs.File)]))
  const ExA := Fs.Item([[0x72], [0x61]], Fs.Dir([Fs.Child([0x78], Fs.File)]))
  const ExB := Fs.Item([[0x72], [0x62]], Fs.Dir([Fs.Child([0x63], ExC.node)]))
  const ExRoot := Fs.Item([[0x72]], Fs.Dir([Fs.Child([0x61], ExA.node), Fs.Child([0x62], ExB.node)]))

  lemma ListingOfRoot()
    ensures PathToPaths(ExTree, ExRoot, Some(1)) == Ok([ExB, ExA])
  {
    assert Fs.ReadDir(ExRoot).value == [ExA, ExB] by {
      var l := Fs.ReadDir(ExRoot).value;
      assert ExRoot.path + [ExA.path[|ExA.path| - 1]] == ExA.path;
      assert l[0] == ExA;
      assert ExRoot.path + [ExB.path[|ExB.path| - 1]] == ExB.path;
      assert l[1] == ExB;
    }
    assert Fs.FileName(ExA.path) == Some([0x61]) && Fs.FileName(ExB.path) == Some([0x62]);
    assert Lex([0x61], [0x62]) == Less;
    assert Descending(ExTree, ExA, ExB) == Greater;
    assert Sorting.Sort(Cmp(ExTree), [ExA, ExB]) == [ExB, ExA] by {
      var cmp := Cmp(ExTree);
      assert cmp(ExA, ExB) == Greater;
      assert [ExA, ExB][..1] == [ExA] && [ExA][..0] == [];
      assert Sorting.Sort(cmp, [ExA]) == [ExA];
      assert Sorting.Insert(cmp, ExB, []) == [ExB];
      assert Sorting.Insert(cmp, ExB, [ExA]) == [ExB] + [ExA];
    }
  }

  lemma ListingOfA()
    ensures PathToPaths(ExTree, ExA, Some(1)) == Ok([ExX])
  {
    assert Fs.ReadDir(ExA).value == [ExX] by {
      var l := Fs.ReadDir(ExA).value;
      assert ExA.path + [ExX.path[|ExX.path| - 1]] == ExX.path;
      assert l[0] == ExX;
    }
    assert Sorting.Sort(Cmp(ExTree), [ExX]) == [ExX] by {
      assert [ExX][..0] == [];
    }
  }

  lemma ListingOfB()
    ensures PathToPaths(ExTree, ExB, Some(1)) == Ok([ExC])
  {
    assert Fs.ReadDir(ExB).value == [ExC] by {
      var l := Fs.ReadDir(ExB).value;
      assert ExB.path + [ExC.path[|ExC.path| - 1]] == ExC.path;
      assert l[0] == ExC;
    }
    assert Sorting.Sort(Cmp(ExTree), [ExC]) == [ExC] by {
      assert [ExC][..0] == [];
    }
  }

  lemma ListingOfC()
    ensures PathToPaths(ExTree, ExC, None) == Ok([ExF])
  {
    assert Fs.ReadDir(ExC).value == [ExF] by {
      var l := Fs.ReadDir(ExC).value;
      assert ExC.path + [ExF.path[|ExF.path| - 1]] == ExF.path;
      assert l[0] == ExF;
    }
    assert Sorting.Sort(Cmp(ExTree), [ExF]) == [ExF] by {
      assert [ExF][..0] == [];
    }
  }

  lemma ListingOfX()
    ensures PathToPaths(ExTree, ExX, None) == Err(ExpectedDirectory(ExX.path))
  {
  }

  lemma ExampleEntry()
    ensures PathToEntry(ExTree, ExF) == Ok(T.Entry([0x66], ExF.path))
    ensures PathToEntry(ExTree, ExB) == Err(ExpectedFile(ExB.path))
  {
    Fs.PlainName(ExF.path);
    Utf8.AsciiIsValid([0x66]);
  }

  /** As written: after the error for `r/a/x`, the raised level makes the walk
      take `r/b` for a leaf and report it as `ExpectedFile`; `r/b/c/f` is never
      reached. */
  lemma ListingErrorHidesSibling()
    ensures Drain(ExTree, AsWritten, [[ExRoot]], None) ==
            [Err(ExpectedDirectory(ExX.path)), Err(ExpectedFile(ExB.path))]
  {
    var p := AsWritten;
    var r1, r2: Result<T.Entry, Error> := Err(ExpectedDirectory(ExX.path)), Err(ExpectedFile(ExB.path));
    ExampleDescent(ExTree, p);
    ExampleFailure(ExTree, p);
    ExampleLeafOfPrefix(ExTree);
    assert [r1] + [r2] == [r1, r2];
  }

  /** With the frame put back and the level kept, the walk goes on to
      `r/b/c/f` after reporting `r/a/x`. */
  lemma RestoreReachesSibling()
    ensures Drain(ExTree, Restore, [[ExRoot]], None) ==
            [Err(ExpectedDirectory(ExX.path)), Ok(T.Entry([0x66], ExF.path))]
  {
    var p := Restore;
    var r1, r2: Result<T.Entry, Error> := Err(ExpectedDirectory(ExX.path)), Ok(T.Entry([0x66], ExF.path));
    ExampleDescent(ExTree, p);
    ExampleFailure(ExTree, p);
    ExampleSibling(ExTree);
    assert [r1] + [r2] == [r1, r2];
  }

  /** Both walks list `r` and `r/a`. */
  lemma ExampleDescent(t: T.Tree, p: OnListingError)
    requires t == ExTree
    ensures Drain(t, p, [[ExRoot]], None) == Drain(t, p, [[], [ExB], [ExX]], Some(1))
  {
    ExampleListRoot(t, p);
    ExampleListA(t, p);
  }

  lemma ExampleListRoot(t: T.Tree, p: OnListingError)
    requires t == ExTree
    ensures Drain(t, p, [[ExRoot]], None) == Drain(t, p, [[], [ExB, ExA]], Some(0))
  {
    ListingOfRoot();
    var e: Frame, z: seq<Frame> := [], [];
    assert e + [ExRoot] == [ExRoot];
    assert [[ExRoot]] == z + [e + [ExRoot]];
    ListStep(t, p, z, e, ExRoot, None, [ExB, ExA]);
    assert z + [e, [ExB, ExA]] == [[], [ExB, ExA]];
  }

  lemma ExampleListA(t: T.Tree, p: OnListingError)
    requires t == ExTree
    ensures Drain(t, p, [[], [ExB, ExA]], Some(0)) == Drain(t, p, [[], [ExB], [ExX]], Some(1))
  {
    ListingOfA();
    var e: Frame := [];
    assert [ExB] + [ExA] == [ExB, ExA];
    assert [[], [ExB, ExA]] == [e] + [[ExB] + [ExA]];
    ListStep(t, p, [e], [ExB], ExA, Some(0), [ExX]);
    assert [e] + [[ExB], [ExX]] == [[], [ExB], [ExX]];
  }

  /** Listing the file `r/a/x` fails; the policies leave different states. */
  lemma ExampleFailure(t: T.Tree, p: OnListingError)
    requires t == ExTree
    ensures p.AsWritten? ==> Drain(t, p, [[], [ExB], [ExX]], Some(1)) ==
                             [Err(ExpectedDirectory(ExX.path))] + Drain(t, p, [[], [ExB]], Some(2))
    ensures p.Restore? ==> Drain(t, p, [[], [ExB], [ExX]], Some(1)) ==
                           [Err(ExpectedDirectory(ExX.path))] + Drain(t, p, [[], [ExB]], Some(0))
  {
    ListingOfX();
    var e: Frame := [];
    assert e + [ExX] == [ExX];
    assert [[], [ExB], [ExX]] == [e, [ExB]] + [e + [ExX]];
    ListErrorStep(t, p, [e, [ExB]], e, ExX, Some(1), ExpectedDirectory(ExX.path));
    if p.Restore? {
      PopStep(t, p, [e, [ExB]], Some(1));
    }
  }

  /** As written, `r/b` is taken for a leaf. */
  lemma ExampleLeafOfPrefix(t: T.Tree)
    requires t == ExTree
    ensures Drain(t, AsWritten, [[], [ExB]], Some(2)) == [Err(ExpectedFile(ExB.path))]
  {
    var p := AsWritten;
    ExampleEntry();
    var e: Frame := [];
    assert e + [ExB] == [ExB];
    assert [[], [ExB]] == [e] + [e + [ExB]];
    LeafStep(t, p, [e], e, ExB, Some(2));
    DrainOfEmptyFrames(t, p, [e] + [e], Some(2));
  }

  /** Restored, the walk lists `r/b` and `r/b/c` and reaches `r/b/c/f`. */
  lemma ExampleSibling(t: T.Tree)
    requires t == ExTree
    ensures Drain(t, Restore, [[], [ExB]], Some(0)) == [Ok(T.Entry([0x66], ExF.path))]
  {
    ExampleListB(t);
    ExampleListC(t);
    ExampleLeaf(t, Restore);
  }

  lemma ExampleListB(t: T.Tree)
    requires t == ExTree
    ensures Drain(t, Restore, [[], [ExB]], Some(0)) == Drain(t, Restore, [[], [], [ExC]], Some(1))
  {
    ListingOfB();
    var e: Frame := [];
    assert e + [ExB] == [ExB];
    assert [[], [ExB]] == [e] + [e + [ExB]];
    ListStep(t, Restore, [e], e, ExB, Some(0), [ExC]);
    assert [e] + [e, [ExC]] == [[], [], [ExC]];
  }

  lemma ExampleListC(t: T.Tree)
    requires t == ExTree
    ensures Drain(t, Restore, [[], [], [ExC]], Some(1)) == Drain(t, Restore, [[], [], [], [ExF]], Some(2))
  {
    ListingOfC();
    var e: Frame := [];
    assert e + [ExC] == [ExC];
    assert [[], [], [ExC]] == [e, e] + [e + [ExC]];
    ListStep(t, Restore, [e, e], e, ExC, Some(1), [ExF]);
    assert [e, e] + [e, [ExF]] == [[], [], [], [ExF]];
  }

  /** The leaf `r/b/c/f` is the last result. */
  lemma ExampleLeaf(t: T.Tree, p: OnListingError)
    requires t == ExTree
    ensures Drain(t, p, [[], [], [], [ExF]], Some(2)) == [Ok(T.Entry([0x66], ExF.path))]
  {
    var e: Frame := [];
    ExampleEntry();
    assert e + [ExF] == [ExF];
    assert [[], [], [], [ExF]] == [e, e, e] + [e + [ExF]];
    LeafStep(t, p, [e, e, e], e, ExF, Some(2));
    DrainOfEmptyFrames(t, p, [e, e, e] + [e], Some(2));
  }

  /** A stack of empty frames pops to the end without a result. */
  lemma {:induction false} DrainOfEmptyFrames(t: T.Tree, p: OnListingError, stack: seq<Frame>, level: Option<nat>)
    requires Schemes.Valid(t.scheme)
    requires forall i :: 0 <= i < |stack| ==> stack[i] == []
    ensures Drain(t, p, stack, level) == []
    decreases |stack|
  {
    if stack != [] {
      var below := stack[..|stack| - 1];
      assert stack == below + [[]];
      PopStep(t, p, below, level);
      DrainOfEmptyFrames(t, p, below, Decremented(level));
    }
  }

  // The four kinds of step, each on a stack given as the frames below the
  // top, the rest of the top frame and its last item.

  lemma PopStep(t: T.Tree, p: OnListingError, below: seq<Frame>, level: Option<nat>)
    requires Schemes.Valid(t.scheme)
    ensures Drain(t, p, below + [[]], level) == Drain(t, p, below, Decremented(level))
  {
    var stack := below + [[]];
    assert stack[..|stack| - 1] == below && stack[|stack| - 1] == [];
    DrainOfAgain(t, p, stack, level, below, Decremented(level));
  }

  lemma LeafStep(t: T.Tree, p: OnListingError, below: seq<Frame>, rest: Frame, item: Fs.Item, level: Option<nat>)
    requires Schemes.Valid(t.scheme) && IsLast(t, level)
    ensures Drain(t, p, below + [rest + [item]], level) == [PathToEntry(t, item)] + Drain(t, p, below + [rest], level)
  {
    var frame := rest + [item];
    var stack := below + [frame];
    assert stack[..|stack| - 1] == below && stack[|stack| - 1] == frame;
    assert frame[|frame| - 1] == item && frame[..|frame| - 1] == rest;
    DrainOfYield(t, p, stack, level, PathToEntry(t, item), below + [rest], level);
  }

  lemma ListStep(t: T.Tree, p: OnListingError, below: seq<Frame>, rest: Frame, item: Fs.Item, level: Option<nat>, paths: Frame)
    requires Schemes.Valid(t.scheme) && !IsLast(t, level)
    requires PathToPaths(t, item, CurrentPrefixPartLength(t, Incremented(level))) == Ok(paths)
    ensures Drain(t, p, below + [rest + [item]], level) == Drain(t, p, below + [rest, paths], Incremented(level))
  {
    var frame := rest + [item];
    var stack := below + [frame];
    assert stack[..|stack| - 1] == below && stack[|stack| - 1] == frame;
    assert frame[|frame| - 1] == item && frame[..|frame| - 1] == rest;
    DrainOfAgain(t, p, stack, level, below + [rest, paths], Incremented(level));
  }

  lemma ListErrorStep(t: T.Tree, p: OnListingError, below: seq<Frame>, rest: Frame, item: Fs.Item, level: Option<nat>, e: Error)
    requires Schemes.Valid(t.scheme) && !IsLast(t, level)
    requires PathToPaths(t, item, CurrentPrefixPartLength(t, Incremented(level))) == Err(e)
    ensures p.AsWritten? ==> Drain(t, p, below + [rest + [item]], level) == [Err(e)] + Drain(t, p, below, Incremented(level))
    ensures p.Restore? ==> Drain(t, p, below + [rest + [item]], level) == [Err(e)] + Drain(t, p, below + [rest], level)
  {
    var frame := rest + [item];
    var stack := below + [frame];
    assert stack[..|stack| - 1] == below && stack[|stack| - 1] == frame;
    assert frame[|frame| - 1] == item && frame[..|frame| - 1] == rest;
    if p.AsWritten? {
      DrainOfYield(t, p, stack, level, Err(e), below, Incremented(level));
    } else {
      DrainOfYield(t, p, stack, level, Err(e), below + [rest], level);
    }
  }
}
