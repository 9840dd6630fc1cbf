# tiffwalk in Dafny

A model of the core of `tiffwalk.py`. The program parses a TIFF container (TIFF, DNG, and the Olympus ORF and Panasonic RW2 variants). It then searches every entry of every loaded image file directory (IFD) for a target value, which is an integer or a byte string. For each entry whose value holds the target it reports the path to that entry.

The file is an immutable byte sequence `seq<byte>`. The `seek` then `read` pair becomes the clamped slice `Bytes.Read`. Each operation of the `TIFF` class becomes a pure function returning `Result<T>`. Every exception the program can raise is an `Error` value:

| Error | Raised by |
|---|---|
| `NotTiff` | a bad magic number |
| `ShortRead` | `struct.error` on a short read |
| `TooMany` | either of the `assert len(...) < 32` caps |
| `NoDirectory` | `self.ifd[0]` on an empty chain |
| `BadSeek` | `seek` to a negative or non-integer offset |
| `NotIterable` | `enumerate(None)` or `x in None` in `ifdwalk` |
| `NoStrip` | `rstrip` on a tuple |

The modules follow the program's layers:

- `Bytes`:
  - byte-order-aware unsigned and two's-complement integers, with their encoders;
  - `Read`;
  - the NUL stripping of `bytes.strip` and `bytes.rstrip`.
- `FieldTypes`:
  - the `TIFF.types` table;
  - `struct.unpack` over a format string as `Unpack`, with its inverse `Pack`.
- `Header`: the first half of `TIFF.__init__`.
- `Directory`:
  - `_ifdread`;
  - the dict it builds, kept in insertion order, which is the order `for tag in ifd` visits.
- `Resolve`: `ifdget`.
- `Chain`:
  - `reinit_from` and the constructor;
  - the `while next_ifd` walk, generic over the step function so that its properties are proved once, against the reference definition `Trail`.
- `Search`:
  - `ifdwalk` and `tiffwalk`;
  - the reference output `Lines`: one line per matching tag, directories in scope order and tags in dict order. The scan is proved to print exactly it, with no line twice (`Once`).

The model follows the code as written, under Python 3 semantics: indexing `bytes` gives an `int`, and `bytes` never equals a `str`. Under Python 2 the byte-order lookup at `tiffwalk.py:41` would fail on a `str` key. In particular:

- The variant is `d[2:4].strip(b"\0")`, so a standard file has variant `*` (`Header.ParseHeader`).
- The ORF test compares `bytes` with the `str` `"RO"`, so it is always false. No offset is checked for an ORF header (`Header.OrfOffsetUnchecked`).
- Type 13 (IFD) is commented out of the type table at `tiffwalk.py:28`, so `ifdget` returns `None` for such an entry. `enumerate(None)` then raises, and so does `find_value in None` for any other unknown type. A type-13 or unknown-type entry therefore fails the search rather than being skipped or followed. The nested-directory stack `todo` is never filled (`Search.NoNestedWork`).
- The start offset is never put into `seen_ifd`. A directory whose next pointer is itself is therefore collected twice before the loop is detected (`Chain.SelfLoop`).
- The cap `assert len(self.ifd) < 32` runs after the next offset has been read and recorded. So:
  - a chain of exactly 32 directories that ends in 0 fails;
  - a chain cut short by the loop check may hold 32 directories (`Chain.ChainFrom`).
- ASCII and UNDEFINED values are never short reads. Inline or at an offset, they are cut off at the end of the file.

## Model

| member | source | states |
|---|---|---|
| `Bytes.Read` | tiffwalk.py:73-75 | `seek(pos)` then `read(n)`. The result has exactly n bytes unless the file ends first. In that case it holds the bytes that remain, and none past the end. Byte i is the file byte at pos + i. |
| `Bytes.DecodeUnsigned` | tiffwalk.py:42-44 | An unsigned field of n bytes decodes to a value below 256^n, in either byte order. |
| `Bytes.EncodeUnsigned` | tiffwalk.py:42-44 | An encoded value has n bytes and decodes back to the value written. |
| `Bytes.Reverse` | tiffwalk.py:41 | The bytes in the opposite order: byte i of the result is byte n - 1 - i of the input. |
| `Bytes.BigIsReversedLittle` | tiffwalk.py:41-42 | `>` reads the most significant byte first: a big-endian field is the little-endian reading of its bytes reversed. |
| `Bytes.ByteOrderExamples` | tiffwalk.py:41-42 | `<` puts the least significant byte first: `01 00` is 1 little-endian and 256 big-endian, and `08 00 00 00` and `00 00 00 08` are both 8 in their own order. |
| `Bytes.EncodeDecode` | tiffwalk.py:42-44 | Every byte string is the encoding of its decoded value, so decoding loses nothing. |
| `Bytes.EncodeDecodeLittle` | tiffwalk.py:41-42 | The same for `<`, by induction from the low byte. |
| `Bytes.EncodeDecodeBig` | tiffwalk.py:41-42 | The same for `>`, by induction from the low byte at the end. |
| `Bytes.DecodeSigned` | tiffwalk.py:22-26 | A signed field of n bytes lies in [-256^n/2, 256^n/2). It agrees with the unsigned reading when non-negative, and is 256^n below it otherwise. |
| `Bytes.EncodeSigned` | tiffwalk.py:22-26 | An encoded signed value has n bytes and decodes back to the value written. |
| `Bytes.SignedEncodeDecode` | tiffwalk.py:22-26 | Every byte string is the two's-complement encoding of its signed reading. |
| `Bytes.StripTrailingNul` | tiffwalk.py:77-78 | `rstrip(b"\0")`: the result is a prefix of the input, and it does not end in NUL. Every byte removed was NUL. |
| `Bytes.StripLeadingNul` | tiffwalk.py:40 | The leading half of `strip(b"\0")`: the result is a suffix of the input, and it does not start with NUL. Every byte removed was NUL. |
| `FieldTypes.TypeOf` | tiffwalk.py:17-29 | The table has exactly the codes 1 to 12, so 13 is absent. Every width is positive, and a format's size equals its type's width. Exactly ASCII (2) and UNDEFINED (7) have no format. |
| `FieldTypes.RepeatSize` | tiffwalk.py:76 | The format `fmt * vc` needs vc times the bytes of `fmt`. |
| `FieldTypes.DecodeScalar` | tiffwalk.py:42 | Each format letter decodes to a number in that letter's range, read in the file's byte order. An unsigned or non-negative value is the field's unsigned reading in that order; a negative one is that reading less 256^n; a FLOAT or DOUBLE keeps that reading as its bit pattern. |
| `FieldTypes.UnpackByteOrderExamples` | tiffwalk.py:42 | A SHORT 5 unpacks from `05 00` in a little-endian file and from `00 05` in a big-endian one; `00 05` read little-endian is 1280. |
| `FieldTypes.EncodeScalar` | tiffwalk.py:42 | Encoding a number that fits its letter gives that letter's size, and decodes back to the number. |
| `FieldTypes.EncodeDecodeScalar` | tiffwalk.py:42 | Decoding a letter's bytes and encoding the result gives back the same bytes. |
| `FieldTypes.Unpack` | tiffwalk.py:42 | `struct.unpack` succeeds exactly when the byte count equals the format's size. Otherwise it fails as a short read. It yields one number per letter, each within that letter's range. |
| `FieldTypes.Pack` | tiffwalk.py:42 | Packed numbers take exactly the format's size. |
| `FieldTypes.DecodeScalars` | tiffwalk.py:42 | One number per letter, each in its letter's range. |
| `FieldTypes.UnpackPack` | tiffwalk.py:42 | Unpacking packed numbers gives the numbers back. |
| `FieldTypes.PackUnpack` | tiffwalk.py:42 | Packing unpacked numbers gives the bytes back. |
| `FieldTypes.Decode` | tiffwalk.py:89-94 | Raw types keep their bytes. A numeric type decodes exactly when `width * count` bytes are present, and gives `count` numbers per format letter. Every other case is a short read. |
| `FieldTypes.DecodePack` | tiffwalk.py:76 | Numbers packed with `fmt * vc` decode back to themselves through the table row. |
| `FieldTypes.ReadUnsigned` | tiffwalk.py:44 | `_up1(fmt, read(n))` succeeds exactly when n bytes remain at the position. The result is below 256^n and encodes back to those bytes. |
| `Header.ParseHeader` | tiffwalk.py:31-48 | Succeeds exactly when there are 8 bytes and the magic is accepted. A file shorter than 4 bytes or an unknown magic is `NotTiff`, and an accepted magic with fewer than 8 bytes is a short read. The byte order is little for `I` and big for `M`. The first offset is the 4 bytes at position 4. The variant is `*` exactly for the standard magics, `RO` for ORF and `U` for RW2. |
| `Header.HeaderRoundTrip` | tiffwalk.py:31-44 | A standard header written for a byte order and a first offset parses back to both, with variant `*`, whatever follows it. |
| `Header.LittleHeaderExample` | tiffwalk.py:34-44 | `II*\0` followed by `08 00 00 00` opens little-endian with variant `*` and the first directory at 8. |
| `Header.BigHeaderExample` | tiffwalk.py:34-44 | `MM\0*` followed by `00 00 00 08` opens big-endian with variant `*` and the first directory at 8. |
| `Header.VariantOf` | tiffwalk.py:40 | The variant of an accepted magic is `*` exactly for the standard magics, `RO` for ORF and `U` for RW2. |
| `Header.VariantOfTail` | tiffwalk.py:40 | Stripping NULs from the last two magic bytes gives `*`, `RO` or `U`, and `*` only for the standard magics. |
| `Header.StripSecond` | tiffwalk.py:40 | `strip(b"\0")` of a non-NUL byte followed by NUL keeps just that byte. |
| `Header.VariantNames` | tiffwalk.py:35-40 | The variant each accepted magic yields. |
| `Header.OrfOffsetUnchecked` | tiffwalk.py:45-47 | An `IIRO` header is accepted whatever its first offset. The offset is the little-endian word at position 4. |
| `Directory.Lookup` | tiffwalk.py:69-70 | `ifd[tag]` is absent exactly when no field has the tag. Otherwise it is the entry of a field with that tag, and the only one when tags are unique. |
| `Directory.Insert` | tiffwalk.py:97 | `ifd[tag] = entry` keeps tags unique. A present tag keeps its position and the dict keeps its length. A new tag is appended. |
| `Directory.InsertLookup` | tiffwalk.py:97 | After the assignment, the tag maps to the new entry and every other tag to what it mapped to before. |
| `Directory.BuildDict` | tiffwalk.py:82-97 | The dict built from the entries read has unique tags and no more fields than entries. |
| `Directory.LastFor` | tiffwalk.py:85-97 | Reference definition: the entry of the last field with the tag, or none when no field has it. |
| `Directory.BuildDictLookup` | tiffwalk.py:85-97 | Each tag of the built dict maps to the last entry read with that tag. |
| `Directory.BuildDictLastWins` | tiffwalk.py:85-97 | A tag maps to an entry exactly when that entry is the last one read with the tag. |
| `Directory.BuildDictHasTag` | tiffwalk.py:85-97 | A tag is in the dict exactly when some entry read carries it. |
| `Directory.InlineBoundary` | tiffwalk.py:88 | The 4-byte slot test on examples. 4 BYTEs, 2 SHORTs and 1 LONG are in place. 5 BYTEs, 3 SHORTs and 1 RATIONAL are not, and no type-13 entry is, whatever its count. |
| `Directory.ParseSlot` | tiffwalk.py:88-96 | The value slot, which holds fewer than 4 bytes when the file ends inside it. The value is in place exactly when the type is known and `width * count <= 4`. It is then `count` numbers per letter, or the first `count` raw bytes, cut short to the bytes there. Otherwise the slot is a 32-bit offset. An in-place raw value always succeeds; an in-place numeric value succeeds exactly when all its `width * count` bytes are there, and an offset exactly when all 4 are. The only failure is a short read. |
| `Directory.ParseEntry` | tiffwalk.py:86-97 | One entry from the bytes read. It fails only as a short read: always with fewer than 8 bytes, never with 12. With 8 or more it is the tag, type and count of the first 8 bytes, with the value the rest parses to as a slot, or that slot's error. Tag, type and count are within their widths, and the value is in place exactly when it fits the slot. |
| `Directory.ReadEntry` | tiffwalk.py:86-97 | The entry at a position: it always succeeds when 12 bytes remain, and never when fewer than 8 do. Tag, type and count are within their widths, and the value is in place exactly when it fits the slot. |
| `Directory.ReadEntryBytes` | tiffwalk.py:86-97 | With at least 8 bytes left, the entry is the tag, type and count at the position, with the value the following bytes, up to 4 and cut short at the end of the file, parse to as a slot. |
| `Directory.TruncatedSlotExamples` | tiffwalk.py:86-96 | At the end of the file: an in-place ASCII value with count 3 and 2 bytes left is those 2 bytes; two in-place SHORTs with 2 bytes left and an offset with 3 bytes left are short reads. |
| `Directory.EncodeEntry` | tiffwalk.py:86-87 | A written entry takes 12 bytes. |
| `Directory.EntryHeader` | tiffwalk.py:87 | The tag, type and count of an encoded entry read back as written, and its last 4 bytes are the slot. |
| `Directory.EncodedEntry` | tiffwalk.py:86-97 | Every complete slot parses. An encoded entry parses back to the tag, type and count written, with the value its slot parses to. |
| `Directory.PointerSlotRoundTrip` | tiffwalk.py:95-96 | A slot whose value does not fit in place parses back as the offset written. |
| `Directory.NumericSlotRoundTrip` | tiffwalk.py:88-92 | An in-place numeric slot parses back as the numbers packed into it, whatever padding follows. |
| `Directory.RawSlotRoundTrip` | tiffwalk.py:88-94 | An in-place ASCII or UNDEFINED slot parses back as the bytes written, without the padding. |
| `Directory.PointerEntryRoundTrip` | tiffwalk.py:86-97 | An encoded entry too large for its slot parses back as the offset written. |
| `Directory.NumericEntryRoundTrip` | tiffwalk.py:86-97 | An encoded in-place numeric entry parses back as the numbers packed into its slot, whatever padding follows. |
| `Directory.RawEntryRoundTrip` | tiffwalk.py:86-97 | An encoded in-place ASCII or UNDEFINED entry parses back as the bytes written. |
| `Directory.ReadEntries` | tiffwalk.py:85-86 | The entries succeed exactly when each entry at `offset + 2 + 12 i` does. In that case entry i is the i-th one read. The only failure is a short read. |
| `Directory.ReadIfd` | tiffwalk.py:81-98 | `_ifdread` succeeds exactly when the count and every declared entry can be read. It ends at `offset + 2 + 12 count`, and yields unique tags, no more than the count. |
| `Directory.ReadIfdLookupLast` | tiffwalk.py:85-97 | What a tag maps to is an entry on file with that tag, and no later entry has the tag. |
| `Directory.ReadIfdLastLookup` | tiffwalk.py:85-97 | The last entry on file with a tag is what the tag maps to. |
| `Directory.ReadIfdLookup` | tiffwalk.py:81-98 | In a directory read from the file, a tag maps to an entry exactly when the last entry on file with that tag is that entry. |
| `Resolve.Get` | tiffwalk.py:68-79 | `ifdget` yields `None` exactly when the tag is absent or its type is not in the table. A resolved ASCII value has no trailing NUL. The only failures are a short read and `rstrip` on numbers. |
| `Resolve.ResolveNumericPointer` | tiffwalk.py:72-76 | A numeric value at an offset resolves exactly when its `width * count` bytes lie in the file. It is then the numbers whose packing is those bytes. |
| `Resolve.ResolveRawPointer` | tiffwalk.py:72-78 | ASCII and UNDEFINED values at an offset always resolve. UNDEFINED gives the bytes available there. ASCII gives a prefix of them, having lost only trailing NULs. |
| `Resolve.ResolveInline` | tiffwalk.py:72-79 | An in-place value resolves to itself, except that ASCII loses only its trailing NULs. |
| `Chain.Step` | tiffwalk.py:55-56 | One loop body succeeds exactly when the directory reads and 4 bytes follow its entries. It yields that directory, and the next offset encoded in those 4 bytes. |
| `Chain.ChainFrom` | tiffwalk.py:54-62 | The loop extends the directories already collected. It never collects more than 32, and fewer than 32 unless it stopped on a loop. |
| `Chain.Trail` | tiffwalk.py:54-56 | Reference definition: the first k + 1 offsets reached by following next pointers from the start. |
| `Chain.TrailSteps` | tiffwalk.py:54-56 | Each offset of a trail is non-zero and readable, and its directory's next pointer is the following offset. |
| `Chain.TrailPrefix` | tiffwalk.py:54-56 | A shorter trail is a prefix of a longer one. |
| `Chain.NextSeen` | tiffwalk.py:61 | Adding the next offset keeps `seen_ifd` equal to the set of next offsets read so far. |
| `Chain.OnTrailStep` | tiffwalk.py:54-61 | One loop pass keeps the invariant: a non-zero offset on the trail whose next pointer is new extends the collected directories and `seen_ifd` by one. |
| `Chain.ChainFromSpec` | tiffwalk.py:54-62 | Loop invariant: from any point on the trail, a successful walk satisfies `WalkSpec`. |
| `Chain.ChainFollowsTrail` | tiffwalk.py:50-62 | A successful walk collects the directories at the trail's offsets, in order. It reports a loop exactly when the last next pointer repeats an earlier one. Otherwise it ended on offset 0 with fewer than 32 directories. The next pointers it passed are all different. |
| `Chain.ChainFromComplete` | tiffwalk.py:54-62 | Converse loop invariant: from any point on the trail, a walk satisfying `WalkSpec` that has not yet passed its last directory is what the loop returns. |
| `Chain.ChainIffTrail` | tiffwalk.py:50-62 | The loop returns a walk exactly when it satisfies `WalkSpec`. So a chain is accepted when it reaches offset 0 within 31 directories, or repeats a next pointer within 32, with no earlier repeat. |
| `Chain.ChainFromCap` | tiffwalk.py:62 | Loop invariant for the cap: a trail that neither ends nor repeats within 32 steps fails the cap. |
| `Chain.ChainCap` | tiffwalk.py:54-62 | A chain that neither ends nor loops within 32 directories fails with the cap error. |
| `Chain.SelfLoop` | tiffwalk.py:54-61 | A directory whose next pointer is itself is collected twice, and the loop is reported. |
| `Chain.ReadEach` | tiffwalk.py:65-66 | Reading each offset in turn succeeds exactly when every read does, and then gives one result per offset, in order. |
| `Chain.ReadSubIfds` | tiffwalk.py:65-66 | The sub-directories succeed exactly when every offset is a non-negative integer and its directory reads. They are read in order, one per offset. |
| `Chain.SubIfds` | tiffwalk.py:63-66 | A failing `ifdget` fails the list. There are no sub-directories when tag 0x14a is absent or its type is not in the table. 32 or more offsets fail the cap, and fewer are each read from their offset. |
| `Chain.SubIfdsOk` | tiffwalk.py:63-66 | The list succeeds exactly when tag 0x14a resolves, names fewer than 32 offsets, and each is a non-negative integer whose directory reads. |
| `Chain.Reinit` | tiffwalk.py:50-66 | `reinit_from(0)` fails. A failing walk or sub-directory read fails it with the same error, and an empty chain fails at `self.ifd[0]`. Otherwise it holds the walk's directories and loop flag and the first directory's sub-directories: 1 to 32 and fewer than 32. |
| `Chain.ReinitIffTrail` | tiffwalk.py:50-66 | `reinit_from` yields a state exactly when its walk satisfies `WalkSpec` with at least one directory and the sub-directories read. |
| `Chain.ChainUniqueTags` | tiffwalk.py:54-57 | Every directory of a walked chain was read by `_ifdread`, so no tag appears in it twice. |
| `Chain.ReinitUniqueTags` | tiffwalk.py:50-66 | Every main-chain directory and sub-directory `reinit_from` loads has unique tags. |
| `Chain.Open` | tiffwalk.py:31-48 | The constructor fails as the header does, and then as `reinit_from` from the first offset does. Otherwise it keeps the parsed header, a non-zero first offset, and that state. |
| `Search.OccursStep` | tiffwalk.py:117 | `t in b` holds exactly when `b` starts with `t` or `t` occurs in the rest of `b`. |
| `Search.Contains` | tiffwalk.py:115-117 | The search gives true exactly when the target occurs contiguously in the bytes. |
| `Search.Matches` | tiffwalk.py:114-120 | A byte string matches only a byte-string target that occurs in it. A tuple matches only an integer target that is one of its elements. |
| `Search.MatchingExamples` | tiffwalk.py:114-120 | 5 is found in the SHORTs (3, 5, 7), and `DNG` in `ADNGFILE`. An integer never matches bytes, and a byte string never matches a tuple. |
| `Search.StartsAtTail` | tiffwalk.py:117 | `t` starts at position i + 1 of `b` exactly when it starts at position i of `b[1:]`. |
| `Search.Firsts` | tiffwalk.py:97 | Reference definition of dict key order: each value once, in order of first occurrence. It has exactly the values of its input, with no repeats. |
| `Search.TagsBuildDict` | tiffwalk.py:85-97 | `for tag in ifd` visits each tag read exactly once, in the order of first occurrence. A repeated tag keeps its first position. |
| `Search.FirstsSnoc` | tiffwalk.py:97 | One more value is added to the key order when it is new, and changes nothing when seen before. |
| `Search.TagsInsert` | tiffwalk.py:97 | `ifd[tag] = entry` leaves the tag order unchanged for a present tag, and adds a new tag last. |
| `Search.ReadIfdTagOrder` | tiffwalk.py:81-98 | A directory read from the file visits its tags in the order its entries first carry them. |
| `Search.ScanTagsOk` | tiffwalk.py:109-120 | Scanning tags succeeds exactly when every scanned tag resolves to a value: `ifdget` neither fails nor gives `None`. |
| `Search.ScanTagsSound` | tiffwalk.py:109-121 | Every match reported is a scanned tag whose value holds the target, under the directory's path. |
| `Search.ScanTagsComplete` | tiffwalk.py:109-121 | Every scanned tag whose value holds the target is reported. |
| `Search.ScanDirOk` | tiffwalk.py:108-120 | A directory scans exactly when each of its entries does. |
| `Search.ScanDirSound` | tiffwalk.py:108-121 | Every match reported for a directory is one of its entries whose value holds the target. |
| `Search.ScanDirComplete` | tiffwalk.py:108-121 | Every entry of a directory whose value holds the target is reported. |
| `Search.ScanAllOk` | tiffwalk.py:107-120 | A list of directories scans exactly when each directory does. |
| `Search.ScanAllSound` | tiffwalk.py:107-121 | Every match reported is a matching entry of one of the directories. |
| `Search.ScanAllComplete` | tiffwalk.py:107-121 | Every matching entry of every directory in the list is reported. |
| `Search.ScannableKnown` | tiffwalk.py:71 | An entry that resolves to a value is present, and its type is in the table and is not 13. |
| `Search.ScanTagsInOrder` | tiffwalk.py:109-121 | A successful tag scan prints one line per scanned tag whose value holds the target, in the order the tags are scanned, and nothing else. |
| `Search.ScanAllInOrder` | tiffwalk.py:107-121 | A successful scan over directories prints each directory's lines in turn, in the order of the directories. |
| `Search.DirLinesOnce` | tiffwalk.py:108-121 | Each line printed for a directory names its path and one of the scanned tags. Without a repeated tag, no line is printed twice. |
| `Search.LinesPaths` | tiffwalk.py:107-121 | Each line printed by a pass names the path of one of the directories scanned. |
| `Search.LinesOnce` | tiffwalk.py:107-121 | Directories with different paths and no repeated tags never print the same line twice. |
| `Search.ScopePaths` | tiffwalk.py:105-108 | The directories of one pass have pairwise different paths: `(idx,)` tokens differ by index, and differ from every `(0x14a, idx)` token. |
| `Search.IfdWalkInOrder` | tiffwalk.py:104-121 | One pass prints the main-chain directories' lines first, then the sub-directories', each directory's lines in its tag order. |
| `Search.IfdWalkOnce` | tiffwalk.py:104-121 | When no loaded directory repeats a tag, one pass prints no line twice. |
| `Search.ScopeAt` | tiffwalk.py:105-107 | The directory at position k of a pass is main-chain directory k under `prefix + [(k,)]`, or sub-directory k - n under `prefix + [(0x14a, k - n)]`. |
| `Search.ScopeScannable` | tiffwalk.py:105-108 | All directories in scope scan exactly when every main-chain directory and every sub-directory does. |
| `Search.SoundAt` | tiffwalk.py:104-121 | Each line of a pass is a matching entry of a main-chain directory or of a sub-directory, under that directory's path. |
| `Search.ScopeComplete` | tiffwalk.py:104-121 | A matching entry of any directory in scope is printed. |
| `Search.IfdWalkOk` | tiffwalk.py:104-120 | One pass succeeds exactly when every main-chain directory and every sub-directory scans. |
| `Search.IfdWalkSound` | tiffwalk.py:104-121 | Every match reported is a matching entry of a main-chain directory under `prefix + [(i,)]`, or of a sub-directory under `prefix + [(0x14a, i)]`. |
| `Search.IfdWalkComplete` | tiffwalk.py:104-121 | Every matching entry of a main-chain directory or a sub-directory is reported under its path. |
| `Search.IfdWalkReports` | tiffwalk.py:104-121 | A successful pass reports exactly the matching entries of the main-chain directories, under `prefix + [(i,)]`, and of the sub-directories, under `prefix + [(0x14a, i)]`. |
| `Search.IfdWalkSpec` | tiffwalk.py:104-121 | One `ifdwalk` pass succeeds exactly when every entry of every loaded directory resolves to a value. It then reports exactly the matching entries, each under its directory's path. They come in the reference order: main-chain directories, then sub-directories, each in tag order. When no directory repeats a tag, no line appears twice. |
| `Search.NoNestedWork` | tiffwalk.py:110-113 | A successful pass met no type-13 entry, so nothing is pushed onto `todo`. |
| `Search.TiffWalk` | tiffwalk.py:123-129 | `tiffwalk` fails as opening fails, and then as its one pass with an empty prefix fails. Otherwise it reports that pass's matches and the chain walk's loop flag. |
| `Search.TiffWalkOk` | tiffwalk.py:123-129 | A run succeeds exactly when the file opens and every entry of every loaded directory resolves to a value. |
| `Search.TopLevelSpec` | tiffwalk.py:123-125 | The first pass reports exactly the matching entries, each under `(idx,)` or `(0x14a, idx)`, so every path has one token. They come in the reference order. |
| `Search.TiffWalkSpec` | tiffwalk.py:123-129 | The matches of a whole run are exactly the matching entries of the opened file's main-chain and sub-directories. Each path has one token. |
| `Search.TiffWalkInOrder` | tiffwalk.py:123-129 | A run prints the main-chain directories' lines first, then the sub-directories', each directory's lines in its tag order. No line appears twice, because every directory loaded is a dict. |

## Left out

- Command line (`tiffwalk.py:131-142`): argument checking and the `int`/UTF-8 conversion of the target are outside the model. The model takes a `Target` directly.
- `show` (`tiffwalk.py:100-101`): printing is replaced by returning `Match` values in output order.
- The `WARNING: Looping IFDs` message on stderr (`tiffwalk.py:58-59`) becomes the `looped` flag of `Chain.Walked`, `Chain.Tiff` and `Search.Report`.
- The `todo` push (`tiffwalk.py:111-113`) and the `while todo` loop (`tiffwalk.py:126-129`) are not modelled. As written they are unreachable, because type 13 is missing from the table (`Search.NoNestedWork`).
- Search.TiffWalk: output printed before an exception is not kept; a failed run yields only its error.
- FieldTypes.DecodeScalar: FLOAT and DOUBLE keep their IEEE bit pattern as `FloatBits(bits)` instead of a floating-point value. Floating point is outside the model.
- Search.Matches: a FLOAT or DOUBLE element never equals an integer target, whereas Python's `5 == 5.0` holds. This follows from the opaque float representation.
- File handles are replaced by the byte sequence. The file position is modelled only where the program relies on it: the end of a directory's entries, where the next offset is read.
- Exception messages and exception classes are reduced to the `Error` kinds listed above.
