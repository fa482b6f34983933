# prefix-file-tree, modelled in Dafny

`prefix-file-tree` stores named files in a directory tree sharded by
prefixes of each name's encoded form. A *scheme* turns a name into a string
(`Identity`, `Utf8`, `Hex<N>`, `AnyLengthHex`, `Base32<N>`) and back. The
tree's *prefix part lengths* `[p0, p1, …]` say how many bytes of that string
name each directory level. The leaf file is named by the whole encoded
string, plus an optional fixed extension. A builder records the settings and
checks them once. The `Entries` iterator walks an existing tree depth first
and yields one entry or error per leaf, smallest prefix part first.
`infer_prefix_part_lengths` reads the lengths back from a store by following
first entries.

The model has one module per source concern:

| file | module | models |
|---|---|---|
| common.dfy | `Common` | `Option`/`Result`, orderings, byte-string order, `Sum` |
| constraint.dfy | `Constraint` | `src/constraint.rs` |
| utf8.dfy | `Utf8` | UTF-8 validity (`to_str`) and lossy replacement (`to_string_lossy`) |
| scheme.dfy | `Scheme` | `src/scheme/mod.rs`: errors, `Case`, trait defaults, `Identity`, `Utf8` |
| hex.dfy | `Hex` | `src/scheme/hex.rs` |
| encoding.dfy | `Base32` | `src/scheme/encoding.rs`, with an RFC 4648 section 6 codec on full 5-byte groups |
| schemes.dfy | `Schemes` | the `Scheme` trait as a closed datatype that dispatches to the schemes above |
| fs.dfy | `Fs` | the filesystem as a finite tree value, and the parts of `std::path` the library uses |
| tree.dfy | `PrefixTree` | `src/lib.rs`: `name_path`, `path`, `infer_prefix_part_lengths` |
| builder.dfy | `Builder` | `src/builder.rs` |
| sorting.dfy | `Sorting` | `slice::sort_by` as a stable insertion sort |
| iter.dfy | `Iter` | `src/iter.rs` |

Modelling choices:

- Names, stems and path components are byte sequences. A path is the sequence of its components, as `Path::components` gives them and as paths compare: pushing an empty string adds no component, and pushing `.` adds one only to the empty path, where it is the leading current-directory component.
- The filesystem is a value of type `Fs.Node`:
  - a file;
  - a directory listing its entries in `read_dir` order;
  - a directory whose listing fails;
  - anything else.
  A listing carries each entry's node with its path, as an `Fs.Item`.
- Every `std::io::Error` is the single variant `Io`.
- Code that changes state step by step is imperative Dafny:
  - `Iter.Entries` is a class whose fields `stack` and `level` are changed by `Next`, `IncrementLevel` and `DecrementLevel`.
  - The tail calls of `next` become a loop in `Next`, one pass per call to `Step`.
  - `name_path`, `path` and `bytes_to_string` are methods with loops.
  - `Hex::<N>::name_from_file_stem` fills an `array`.

  Each method is proved equal to a function: `Iter.Run`, `PrefixTree.NamePathOf`, `PrefixTree.PathOf`, `Hex.Render` and `Hex.NameFromFileStem`. The properties are proved about those functions.
- `Iter.Drain` is everything the iterator yields from a state on. `Iter.DrainIsRepeatedNext` proves it is what repeated calls of `next` return.
- `decrement_level` on level 0 leaves no level at all (src/iter.rs:54-60).
- The comment at src/iter.rs:173-175 says that when the prefix-part ordering fails the paths are left in their original order. The code makes only the pair whose comparison failed compare `Equal`, and the model does the same: the sort as a whole is not undone.

## Model

| member | source | states |
|---|---|---|
| Common.LexEqualIff | src/scheme/mod.rs:38-40 | byte-string order says `Equal` exactly for equal strings |
| Common.LexAntisymmetric | src/scheme/mod.rs:38-40 | swapping the operands reverses byte-string order |
| Common.LexTransitive | src/scheme/mod.rs:38-40 | byte-string `Less` is transitive |
| Common.LexPrefixFirst | src/scheme/mod.rs:38-40 | a proper prefix sorts before the longer string |
| Common.SumAppend | src/lib.rs:79-81 | the total of prefix lengths adds up over concatenation |
| Constraint.DefaultExtension | src/constraint.rs:3-9 | the default extension constraint is `None` |
| Constraint.LengthFromSize | src/constraint.rs:17-21 | a size converts to `Length::Fixed` of that size |
| Constraint.LengthFromRange | src/constraint.rs:23-27 | a range converts to `Length::Range(start, end)` |
| Constraint.AdmittedWithinUpperBound | src/iter.rs:84-106 | a stem length the constraint admits is at most the bound `build` checks against |
| Utf8.LossyIsValid | src/scheme/mod.rs:49-51 | `to_string_lossy` always gives valid UTF-8 |
| Utf8.LossyOfValid | src/scheme/mod.rs:49-51 | lossy conversion leaves valid UTF-8 unchanged |
| Utf8.LossyChangesInvalid | src/scheme/mod.rs:49-51 | lossy conversion changes every invalid byte string |
| Utf8.AsciiIsValid | src/scheme/hex.rs:114-129 | ASCII text, like every hex or Base32 rendering, is valid UTF-8 |
| Scheme.DefaultCase | src/scheme/mod.rs:19-25 | the default case is `Lower` |
| Scheme.DefaultFixedLength | src/scheme/mod.rs:30-33 | a scheme has no fixed length by default |
| Scheme.DefaultCmpPrefixPart | src/scheme/mod.rs:38-40 | the default comparison never fails, is `Equal` only on equal names, and is byte-string order |
| Scheme.IdentityNameToString | src/scheme/mod.rs:49-51 | `Identity` renders valid UTF-8, and renders a name unchanged exactly when the name is valid UTF-8 |
| Scheme.IdentityDecodeTotal | src/scheme/mod.rs:53-55 | `Identity` decodes every stem, to itself |
| Scheme.IdentityRoundTrip | src/scheme/mod.rs:46-56 | an `Identity` name survives a round trip exactly when it is valid UTF-8 |
| Scheme.Utf8NameFromFileStem | src/scheme/mod.rs:68-73 | `Utf8` decodes exactly the valid UTF-8 stems, to themselves, and fails with `NonUtf8` otherwise |
| Scheme.Utf8RoundTrip | src/scheme/mod.rs:61-73 | a `Utf8` name survives a round trip |
| Hex.ValidCharacterByCase | src/scheme/hex.rs:105-112 | the valid digit bytes for each case: `0-9a-fA-F` for `Any`, `0-9a-f` for `Lower`, `0-9A-F` for `Upper` |
| Hex.FirstInvalidByte | src/scheme/hex.rs:97-103 | none exactly when every byte is valid; otherwise the first invalid byte |
| Hex.RenderAt | src/scheme/hex.rs:114-129 | the rendering has two digits per byte: the high nibble, then the low nibble |
| Hex.RenderCase | src/scheme/hex.rs:114-129 | rendered digits are uppercase for `Upper` and lowercase for `Lower` and `Any`, so they are valid for the case |
| Hex.RenderIsUtf8 | src/scheme/hex.rs:114-129 | the rendering is valid UTF-8 |
| Hex.BytesToString | src/scheme/hex.rs:114-129 | the loop that appends two digits per byte builds exactly the rendering |
| Hex.FailingPairHasInvalidByte | src/scheme/hex.rs:37-43 | a pair that `from_str_radix` rejects holds an invalid byte for every case, so the `expect` holds on the failing pair itself |
| Hex.DecodePairsOk | src/scheme/hex.rs:36-47 | decoding pairs succeeds exactly when every pair parses, giving one byte per pair |
| Hex.DecodePairsErr | src/scheme/hex.rs:80-90 | decoding stops at the first failing pair and reports that pair's first invalid byte |
| Hex.DecodePairsRender | src/scheme/hex.rs:114-129 | decoding a rendering gives the bytes back, whatever the two cases |
| Hex.FixedLength | src/scheme/hex.rs:22-24 | `Hex<N>` stems are `2 N` bytes long |
| Hex.NameToString | src/scheme/hex.rs:26-28 | a `Hex<N>` rendering has `2 N` bytes and is valid UTF-8 |
| Hex.NameFromFileStemSpec | src/scheme/hex.rs:30-51 | `NonUtf8` for invalid UTF-8, else `InvalidLength` for a length other than `2 N`; success exactly when every pair parses, with `N` bytes |
| Hex.NameFirstFailingPair | src/scheme/hex.rs:36-44 | with the slice of line 38 corrected (see Findings), the error names the first invalid byte of the first failing pair |
| Hex.NameRoundTrip | src/scheme/hex.rs:26-51 | a `Hex<N>` name survives a round trip, whatever the two cases |
| Hex.NameFromFileStemLoop | src/scheme/hex.rs:30-51 | the loop that fills the `N`-byte array gives exactly the decoded name or error of `Hex.NameFromFileStem`, whose error byte is corrected (see Findings) |
| Hex.AsWrittenReportPanics | src/scheme/hex.rs:37-43 | on stem `000g` with `N = 2`, the window the source searches holds no invalid byte |
| Hex.AnyNameToString | src/scheme/hex.rs:70-72 | an `AnyLengthHex` rendering has two bytes per byte and is valid UTF-8 |
| Hex.AnyNameFromFileStemSpec | src/scheme/hex.rs:74-94 | `NonUtf8`, else `InvalidLength` for odd lengths; on success, one parsed byte per pair |
| Hex.AnyNameFirstFailingPair | src/scheme/hex.rs:80-90 | the error names the first invalid byte of the first failing pair |
| Hex.AnyNameRoundTrip | src/scheme/hex.rs:70-94 | an `AnyLengthHex` name survives a round trip |
| Hex.DecodeIgnoresCase | src/scheme/hex.rs:74-94 | decoding accepts digits of either case, whatever case is configured |
| Base32.TryFromByte | src/scheme/encoding.rs:75-87 | `A-Z` are alphabetic characters, `2-7` numeric, and every other byte is `InvalidByte` of itself |
| Base32.CompareCharIsDigitOrder | src/scheme/encoding.rs:69-73 | the derived order on characters is the order of their Base32 digit values |
| Base32.ToCharsSpec | src/scheme/encoding.rs:38-48 | conversion succeeds exactly on alphabet bytes; otherwise it reports the first byte outside the alphabet |
| Base32.CompareCharsIsValueOrder | src/scheme/encoding.rs:50 | comparing character vectors is comparing digit-value sequences |
| Base32.CmpPrefixPartSpec | src/scheme/encoding.rs:37-51 | success exactly when both names are in the alphabet; errors report the first bad byte of `a`, then of `b`; the result is digit-value order |
| Base32.ValuesInjective | src/scheme/encoding.rs:37-51 | alphabet strings with equal digit values are equal |
| Base32.CmpPrefixPartTotalOrder | src/scheme/encoding.rs:37-51 | on alphabet strings the comparison is antisymmetric, `Equal` only on equal strings, and transitive |
| Base32.ByteOrderDisagrees | src/scheme/encoding.rs:37-51 | `7` sorts after `A` here but before it in byte order, which is why the scheme overrides the default |
| Base32.AllSevensSortLast | src/scheme/encoding.rs:136-142 | an all-`7` part (the encoding of all-ones bytes) is never less than another part of its length |
| Base32.DecodeEncodeGroup | src/scheme/encoding.rs:33-66 | decoding the 8 digits of a 5-byte group gives the group back |
| Base32.EncodeDecodeGroup | src/scheme/encoding.rs:33-66 | encoding the 5 bytes decoded from 8 digits gives the digits back |
| Base32.Encode | src/scheme/encoding.rs:33-35 | 8 alphabet bytes for every 5 input bytes |
| Base32.DecodeValues | src/scheme/encoding.rs:58-60 | 5 bytes for every 8 digits |
| Base32.DecodeEncode | src/scheme/encoding.rs:33-66 | decoding an encoding gives the bytes back |
| Base32.EncodeDecode | src/scheme/encoding.rs:33-66 | encoding a decoded alphabet string of whole groups gives the string back |
| Base32.FixedLength | src/scheme/encoding.rs:29-31 | `Base32<N>` stems are `N / 5 * 8` bytes long |
| Base32.NameToString | src/scheme/encoding.rs:33-35 | the encoding of an `N`-byte name is `N / 5 * 8` bytes long |
| Base32.NameFromFileStemSpec | src/scheme/encoding.rs:53-66 | `InvalidLength` for the wrong length, else `InvalidByte` of the first non-alphabet byte; success exactly on alphabet stems of that length, with an `N`-byte name that encodes back to the stem |
| Base32.NameRoundTrip | src/scheme/encoding.rs:33-66 | a `Base32<N>` name survives a round trip |
| Base32.KnownEncodings | src/scheme/encoding.rs:99-133 | `abcd_` encodes to `MFRGGZC7` |
| Base32.AllOnesEncoding | src/scheme/encoding.rs:101 | five `0xFF` bytes encode to `77777777` |
| Schemes.FixedLength | src/scheme/mod.rs:30-33 | only `Hex<N>` and `Base32<N>` have fixed lengths: `2 N` and `N / 5 * 8` |
| Schemes.NameToString | src/scheme/mod.rs:35 | every scheme renders valid UTF-8 |
| Schemes.Base32AsciiIsValid | src/scheme/encoding.rs:33-35 | Base32 renderings are valid UTF-8 |
| Schemes.NameFromFileStemIsName | src/scheme/mod.rs:36 | what a scheme decodes is a name of that scheme (for example, `N` bytes for `Hex<N>`) |
| Schemes.RoundTrip | src/scheme/mod.rs:35-36 | every scheme decodes its own rendering of a name back to the name (for `Identity`, when the name is valid UTF-8) |
| Schemes.FixedLengthIsStemLength | src/scheme/mod.rs:30-36 | with a fixed length, renderings and successfully decoded stems are exactly that long |
| Schemes.CmpPrefixPartIsTotalOrder | src/scheme/mod.rs:38-40 | where a scheme's comparison succeeds, it is antisymmetric, `Equal` only on equal names, and transitive |
| Fs.ReadDir | src/iter.rs:168-171 | a listing exists exactly for readable directories, with one path per entry in listing order |
| Fs.Push | src/lib.rs:57-60 | `push` keeps the path and appends the component, except that an empty component adds none and `.` adds none to a non-empty path; `.` pushed onto the empty path gives `.` (as `Path::components` sees it) |
| Fs.PushAllKept | src/lib.rs:53-60 | pushing parts one by one appends exactly the parts that are neither empty nor `.`, in order, after a leading `.` when the path was empty and the first non-empty part is `.` |
| Fs.KeptAll | src/lib.rs:53-60 | when no part is empty or `.`, every part becomes a component |
| Fs.FileName | src/iter.rs:177-178 | the file name is the last component, unless the path is empty or ends in `.` or `..` |
| Fs.StemAndExtension | src/iter.rs:62-106 | a path has a stem exactly when it has a file name; the file name is the stem, or the stem, a dot and the extension |
| Fs.AddExtension | src/lib.rs:72-74 | `add_extension` keeps the number of components |
| Fs.AddExtensionSplits | src/lib.rs:72-74 | after a dot-free extension is added, the stem is the old file name and the extension is the one added |
| Fs.PlainName | src/iter.rs:151-153 | a dot-free file name is its own stem and has no extension |
| PrefixTree.NamePath | src/lib.rs:46-66 | the loop that slices off each prefix part and pushes it gives exactly `NamePathOf` |
| PrefixTree.NamePathSpec | src/lib.rs:46-66 | success exactly when the encoded name is at least `max(total, 1)` long; the path is the base, then the parts (part `i` = the `p_i` bytes after the earlier parts) and the whole encoded name, dropping each that is empty or `.`, except that a `.` pushed onto an empty base stays as the leading component; when none is dropped there is one directory per part; the error carries the encoded name |
| PrefixTree.ZeroPrefixLengthAddsNoDirectory | src/lib.rs:53-57 | with prefix lengths `[0]` and base `r`, the UTF-8 name `ab` lives at `r/ab`: a zero-length part adds no directory |
| PrefixTree.CurrentDirectoryKept | src/lib.rs:53-74 | under base `.`, no prefix parts and fixed extension `t`, the UTF-8 name `.` lives at `.` itself (no file name, so no extension is added); under the empty base with lengths `[1]`, the name `.a` lives at `./.a` |
| PrefixTree.PartsJoin | src/lib.rs:53-58 | the prefix parts laid end to end are the front of the encoded name |
| PrefixTree.PathFor | src/lib.rs:69-77 | the method that adds the fixed extension in place gives exactly `PathOf` |
| PrefixTree.PathSpec | src/lib.rs:69-77 | `path` fails exactly when `name_path` does, with the same error; it adds the extension only for a fixed constraint and changes only the leaf |
| PrefixTree.PathLeafSplits | src/lib.rs:69-77 | with a non-empty dot-free fixed extension and an encoded name other than `.` and `..`, the leaf's stem is the encoded name and its extension is the fixed one |
| PrefixTree.InferBaseCases | src/lib.rs:141-157 | a base that is not a directory gives `ExpectedDirectory`; an empty base gives none; a file first in the base gives the empty list |
| PrefixTree.InferRecFollowsFirstEntries | src/lib.rs:160-182 | along the chain of first entries: ending in a file gives the lengths of the directories above it; ending in an empty directory means no files; an unreadable end gives `Io` |
| PrefixTree.InferRecStep | src/lib.rs:172-180 | a non-empty directory pushes its name's length and continues with its first entry |
| PrefixTree.InferRecStops | src/lib.rs:164-178 | a file, an empty directory or an unreadable node ends the descent |
| PrefixTree.InferRecOnLayout | src/lib.rs:160-182 | in a store laid out for `lengths`, the descent from a prefix directory collects exactly the remaining lengths |
| PrefixTree.InferOnLayout | src/lib.rs:136-157 | inference on a store laid out for `lengths` gives `lengths`, or none when the store is empty |
| Builder.New | src/builder.rs:24-33 | a new builder has the base, nothing else set and the `Identity` scheme |
| Builder.IntoTree | src/builder.rs:62-71 | the tree takes every setting as it is; unset prefix lengths become empty |
| Builder.Build | src/builder.rs:37-60 | success exactly without a length constraint or with the prefix total at most its upper bound; the error carries the total and the constraint |
| Builder.WithNoExtension | src/builder.rs:74-83 | sets the extension constraint to `None` and nothing else |
| Builder.WithExtension | src/builder.rs:85-94 | sets the extension constraint to `Fixed(extension)` and nothing else |
| Builder.WithAnyExtension | src/builder.rs:96-105 | sets the extension constraint to `Any` and nothing else |
| Builder.WithLength | src/builder.rs:107-116 | sets the length constraint to `Fixed(length)` and nothing else |
| Builder.WithLengthRange | src/builder.rs:118-127 | sets the length constraint to `Range(start, end)` and nothing else |
| Builder.WithPrefixPartLengths | src/builder.rs:129-138 | sets the prefix lengths and nothing else |
| Builder.WithScheme | src/builder.rs:140-152 | sets the scheme; a fixed-length scheme also fixes the length constraint, otherwise the constraint stays |
| Builder.BuildWithoutLengthConstraint | src/builder.rs:37-60 | without a length constraint, every configuration builds |
| Builder.LastSettingWins | src/builder.rs:74-138 | the last setting of a field wins, and settings of different fields commute |
| Builder.SchemeLengthOrder | src/builder.rs:107-152 | a fixed-length scheme overrides an earlier `with_length`, and a later `with_length` overrides the scheme's length |
| Builder.FixedSchemeTreeHasEveryPath | src/builder.rs:37-60 | a built tree whose fixed-length scheme set the length constraint has a path for every name |
| Builder.HexStoreBuilds | src/scheme/hex.rs:279-284 | `Hex<16>` with prefix lengths `[19, 13]` builds; `[19, 14]` fails with total 33 against `Fixed(32)` |
| Sorting.SortPermutes | src/iter.rs:176-190 | sorting only reorders the listing |
| Sorting.SortSorts | src/iter.rs:176-190 | with a comparison that is a total order on the elements, the result is sorted |
| Iter.LevelRoundTrip | src/iter.rs:50-60 | decrementing undoes incrementing; incrementing undoes decrementing exactly when there is a level |
| Iter.CurrentPrefixPartLength | src/iter.rs:44-48 | the configured length at the current level, and none without a level or past the last one |
| Iter.ValidateExtension | src/iter.rs:62-82 | success exactly when the extension matches the constraint (no constraint, none, any, or the fixed one); the error carries the actual extension |
| Iter.ValidateFileStemLength | src/iter.rs:84-106 | success exactly without a constraint, or when the stem's length is admitted (equal to the fixed length, or in `[min, max)`); the error carries the stem's length, or none |
| Iter.PathToEntrySpec | src/iter.rs:143-161 | an entry exactly when the path is a file, passes both checks and has a stem the scheme decodes; the entry keeps the path; the first failing check names the error, in the order `ExpectedFile`, `InvalidExtension`, `InvalidFileStemLength`, `InvalidFileStem`, `Scheme` |
| Iter.EntryOfPath | src/iter.rs:143-161 | a file at the path `Tree::path` gives a name reads back as that name, under the stated constraints |
| Iter.FirstMisnamed | src/iter.rs:194-197 | none exactly when every path has a file name of the required length; otherwise the first path that does not |
| Iter.PathToPathsSpec | src/iter.rs:162-211 | `ExpectedDirectory` for non-directories, `Io` for unreadable ones; success gives the sorted listing, which weighs less than the directory; `InvalidPrefixPart` names the first misnamed path of the sorted listing, and is the error whenever one is misnamed |
| Iter.PathToPathsSucceeds | src/iter.rs:192-207 | listing a directory succeeds exactly when no length is required or every entry's name has the required length |
| Iter.ListingTotal | src/iter.rs:176-190 | where the scheme compares all entry names, the sort's comparison is a total order on the listing |
| Iter.ListingDescends | src/iter.rs:176-190 | the sorted listing is in descending name order, so popping from its end visits prefix parts in ascending order |
| Iter.SmallDecreases | src/iter.rs:112-139 | every pass through `next` leaves a lighter stack, so `next` terminates |
| Iter.DrainIsRepeatedNext | src/iter.rs:112-139 | the iterator's results are the results of calling `next` until it returns none; after that the stack is empty and `next` keeps returning none |
| Iter.Entries.constructor | src/iter.rs:32-38 | one frame holding the base, and no level |
| Iter.Entries.IncrementLevel | src/iter.rs:50-52 | no level becomes 0, and level `l` becomes `l + 1` |
| Iter.Entries.DecrementLevel | src/iter.rs:54-60 | level 0 becomes no level, level `l > 0` becomes `l - 1`, and no level stays none |
| Iter.Entries.Next | src/iter.rs:112-139 | the result and the new stack and level are those of `Run` from the old state |
| Iter.Entries.Step | src/iter.rs:113-138 | one pass of `next`: a result and the final state of `Run`, or a lighter state from which `Run` gives the same result |
| Iter.SmallKeepsAligned | src/iter.rs:112-139 | listing, popping and yielding an entry keep the level equal to what the stack's depth calls for |
| Iter.RestoreKeepsAligned | src/iter.rs:120-131 | when a failed listing puts the frame back, every step keeps the level aligned with the stack |
| Iter.ListingErrorSkewsLevel | src/iter.rs:120-131 | as written, a failed listing drops the rest of the frame and leaves the level out of step with the stack |
| Iter.WalkOfLayout | src/iter.rs:112-139 | on a store laid out for the prefix lengths, the walk yields every leaf's entry or error, smallest prefix part first, under either policy |
| Iter.WalkOfNonDirectory | src/iter.rs:208-210 | a base that is not a directory yields exactly one `ExpectedDirectory` error |
| Iter.ListingErrorHidesSibling | src/iter.rs:120-131 | as written, the example store yields `ExpectedDirectory(r/a/x)` and then `ExpectedFile(r/b)`: the well-formed file `r/b/c/f` is never reached |
| Iter.RestoreReachesSibling | src/iter.rs:120-131 | with the frame put back, the example store yields `ExpectedDirectory(r/a/x)` and then the entry for `r/b/c/f` |

## Left out

- `open_file` and `create_file` (src/lib.rs:87-123) are real file I/O, directory creation, atomic create and file locking. The model only computes the path they use (`PathOf`), whose failure they report as `InvalidName`.
- `Tree::entries` and `Tree::builder` construct `Entries` and `TreeBuilder` values. They are modelled by `Iter.Entries.constructor` and `Builder.New`.
- Real directory listings, metadata, symbolic links and the kinds of `std::io::Error` are replaced by the fixed tree value `Fs.Node` and the single error `Io`. Listing order is an input.
- A filesystem that changes during a walk is not modelled, nor is concurrency.
- The internals of the `data_encoding` library are left out. Base32 is modelled as a plain RFC 4648 section 6 codec on full groups. Its error position is modelled as the first byte outside the alphabet. A `=` padding byte counts as such a byte. A correctly padded stem of the right length (such as `MFRGGZA=` for `Base32<5>`) decodes short in the library, and the source then panics at `expect("Invalid decoded bytes length")` (src/scheme/encoding.rs:58-62); the model reports `InvalidByte(=)` there instead.
- `Iter.PathToEntry` decodes `Hex<N>` stems with the corrected error byte (see Findings), where the source can panic.
- `Fs.FileStem` and `Fs.Extension` split at the last `.`, as `std::path` does, but leave out other platform path rules. `/` inside a component, and a component that is an absolute path (which `push` lets replace the whole path), are not modelled.
- `to_string_lossy` is modelled by its observable properties: the result is valid UTF-8, and equal to the input exactly when the input is valid. The replacement is done per maximal invalid subpart.
- Panics from slicing a string at a non-character boundary are not modelled. All slicing is on bytes. A non-UTF-8 stem is rejected before `Hex` slices it.
- `Sorting.Sort` is a stable insertion sort on a sequence value. It is not the in-place merge sort of `slice::sort_by`. For a comparison that is not a total order, the standard library's result is unspecified, or it may panic; the model fixes one result. The iterator's comparison is such a comparison for `Base32` listings that mix valid and invalid names, such as `A`, `b` and `B`.
- `InvalidDirectory` in inference can only arise for a path without a file name, that is, one ending in an entry named empty, `.` or `..`. Real listings never contain such names. `Fs.Node` does not exclude them, so in the model the branch is reachable only through such improper names.
- `Common.Sum` is unbounded. The source's `iter().sum::<usize>()` (src/lib.rs:79-81, src/builder.rs:43) panics on overflow in debug builds and wraps in release builds; neither is modelled.
- `Iter.Entries.constructor` takes the listing policy as an extra argument. `AsWritten` is the source's `Entries::new`. `Restore` is the corrected behaviour under Findings.
- `Iter.EntryOfPath` is stated only under hypotheses that exclude these cases, each for its own reason:
  - An encoded name containing `.`: without a fixed extension, the leaf splits at that dot into a shorter stem and an extension, so another stem is decoded, or the extension check fails. Under a fixed extension the stem would be the encoded name, except for the names `.` and `..`; the lemma does not cover that case.
  - The `Any` constraint: the stem is the encoded name, but `path` adds no extension, so `validate_extension` fails with `InvalidExtension(None)` (src/iter.rs:69-71).
  - An empty fixed extension: `add_extension` adds nothing, so the stem is the encoded name, but the leaf has no extension and `validate_extension` fails with `InvalidExtension(None)` (src/iter.rs:72-73).
  - A fixed extension containing `.`: the leaf splits at the extension's last dot, so the stem is the encoded name followed by part of the extension.
  - A length constraint that rejects the encoded length: `validate_file_stem_length` fails.
  - An `Identity` name that is not valid UTF-8: its rendering is lossy, so a different name is decoded.

## Findings

| source | as written | input that shows it | evidently intended | confidence | as-written member | corrected member |
|---|---|---|---|---|---|---|
| src/scheme/hex.rs:38 | For a failing pair `i`, the invalid byte is searched for in `as_str[i..i + 2]` rather than in the pair `as_str[2 i..2 i + 2]` that failed. If that window is valid, the `expect` panics. | `Hex<2>`, `Case::Lower`, stem `000g`: pair 1 (`0g`) fails, but window `[1..3]` is `00` | report the first invalid byte of the failing pair, `InvalidByte(b'g')` | not executed | Hex.AsWrittenReportPanics | Hex.NameFirstFailingPair |
| src/iter.rs:120-131 | When listing a prefix directory fails, `next` returns the error with the level already incremented and without pushing back the rest of the frame. Later siblings are then handled at the wrong level. | prefix lengths `[1, 1]`, base `r`, with `r/a/x` a file where a directory belongs and `r/b/c/f` well formed: the walk yields `ExpectedDirectory(r/a/x)` and then `ExpectedFile(r/b)` | push the remaining frame back and restore the level, so the walk continues with the queued siblings | not executed | Iter.ListingErrorHidesSibling | Iter.RestoreReachesSibling |
