# EnigmaFileFunctions core in Dafny

This project models two parts of ENIGMA's file functions and proves properties about them.

**`utf8::utf8_string`** (include/utf8_string.hpp). This is a UTF-8 byte buffer `data` with a sparse index `nthcharat` and a stored codepoint count `utf8length`.
- The block size is K = `CHARSPERIND` = `1 << po2log2<sizeof(size_t)>`. On a 64-bit target this is 8.
- The intended invariant (`Utf8Index.Indexed`) says three things: `utf8length` is the number of codepoint starts, index entry b holds the byte offset of codepoint b·K, and there are ceil(length/K) entries.
- Decoding (`Utf8Decode`) follows the lead-byte tables of the header. Those tables implement the 1–6-byte sequences of section 2 of RFC 2279. Overlong forms, surrogates and values above U+10FFFF are accepted, and 0xFE/0xFF decode to 0.
- The class (`Utf8Strings.Utf8String`) is imperative. Each of its loops is proved against a specification function in `Utf8Index`. The properties of those functions are proved as lemmas.
- Where the code breaks the invariant, the class does what the code does. `Utf8Findings` shows each defect and proves a repaired version beside it.

**Archive directories** (src/gdir.cpp, include/gdir.hpp).
- `parsed_directory::add_file` builds a tree of subdirectory and file maps from flat `/`-separated entry names. The tree is an arena: a sequence of nodes indexed by id, with node 0 as the root. `ArchiveTree.Represents` states what the tree means: exactly the directories and files the entry names describe, and each file maps to the index of the last entry that names it.
- `directory_zip::kernel_zip` (`ZipKernel.KernelZip`) is a cursor over that tree. A `std::map` iterator is modelled as a position in the sorted key sequence. Kernels share the tree, the archive handle and a heap `size_t` reference count (`ZipKernel.Counter`). Ghost holders tie each count to the objects it counts.
- `eff::directory` (`Directories.Directory`) is the reference-counted handle on a kernel. `is_open()` and `good()` are the predicates `IsOpen`/`Good`, which hold exactly when the kernel pointer is non-null. Every navigation method requires `IsOpen()`, because the source dereferences `kernel` without checking it.
- libzip is replaced by a `ZipArchive` object with an `open` flag and by a list of entry names of type `seq<Option<string>>`.

The samples (`Utf8Samples`, `ArchiveSamples`, `DirectorySamples`) restate the expectations of test/utf8_string_test.cpp and test/gdir_test.cpp, proved on the model.

Three details of the code that the model keeps as written:
- `SHIFTBY` is `po2log2<sizeof(size_t)>`, which is 3 for an 8-byte word (include/utf8_string.hpp:56-58). So K is the word's byte width, 8, not its bit width.
- Growing `resize(n)` extends `data` with `std::string::resize`, which pads with NUL bytes (include/utf8_string.hpp:169-178).
- `enter_new` copies the kernel and points its `curdir` at a node of the shared tree, whose `parent` link stays in place (src/gdir.cpp:305-315). So a kernel made by `enter_new` can `leave()` to the parent node.

## Model

| member | source | states |
|---|---|---|
| Utf8Decode.BitForms | include/utf8_string.hpp:46-48 | the arithmetic tests on bytes 0..255 equal the source's masks: fragment `(c & 0xC0) == 0x80`, table slot `(c & 0x3E) >> 1`, payload `c & 0x3F`, the high-bit and second-bit tests |
| Utf8Decode.LeadClasses | include/utf8_string.hpp:61-72 | the `maskfor`/`length_of` tables give lengths 2..6 with masks 0x1F..0x01 to the lead-byte classes C0, E0, F0, F8, FC of RFC 2279; FE and FF get length 1 and mask 0 (the literal's NUL) |
| Utf8Decode.DecodeSucceedsIff | include/utf8_string.hpp:98-122 | `char_and_length_at_byte` succeeds iff the byte is ASCII, or a non-continuation lead byte followed inside the buffer by exactly length_of−1 continuation bytes |
| Utf8Decode.DecodeFaults | include/utf8_string.hpp:113-122 | a position past the end throws out_of_range, a continuation byte in lead position throws "lrn2utf8", a non-continuation byte right after a multi-byte lead throws "lrn2mask", and a sequence of continuation bytes running past the buffer throws out_of_range |
| Utf8Decode.DecodeNeverTruncated | include/utf8_string.hpp:100-104 | the `n > data.length()` guard never fires: "truncated char" is never thrown |
| Utf8Decode.DecodeLayout | include/utf8_string.hpp:98-122 | a successful decode has length 1..6 within the buffer; ASCII decodes to itself with length 1; otherwise the value is (lead & mask) followed by 6 bits per continuation byte, and it is below 2^31 |
| Utf8Decode.ContinueSucceedsIff | include/utf8_string.hpp:98-110 | the continuation loop of `utf8char_at_byte` succeeds iff the next k bytes exist and are all 10xxxxxx |
| Utf8Decode.ContinueLayout | include/utf8_string.hpp:99-109 | the accumulated value keeps the lead bits on top, then the low six bits of each continuation byte in order |
| Utf8Decode.DecodeEncoded | include/utf8_string.hpp:98-122 | decoding the shortest RFC 2279 encoding of v, anywhere in a buffer, returns v and the encoding's length |
| Utf8Decode.DecodeEncode | include/utf8_string.hpp:98-122 | round trip: decode(encode(v)) = (v, |encode(v)|) for every v below 2^31 |
| Utf8Decode.DecodeExtend | include/utf8_string.hpp:98-122 | a successful decode reads only its own bytes, so appending bytes after them changes nothing |
| Utf8Decode.DecodeShift | include/utf8_string.hpp:98-122 | decoding does not depend on the bytes before the lead byte |
| Utf8Decode.EncodeShape | include/utf8_string.hpp:46-48 | an encoding is one non-fragment lead byte followed by fragments only |
| Utf8Decode.AcceptsOverlong | include/utf8_string.hpp:98-122 | non-property: the overlong C0 80 decodes to 0 |
| Utf8Decode.AcceptsSurrogate | include/utf8_string.hpp:98-122 | non-property: the surrogate ED A0 80 decodes to U+D800 |
| Utf8Decode.AcceptsPastUnicode | include/utf8_string.hpp:98-122 | non-property: F4 90 80 80 decodes to 0x110000 |
| Utf8Decode.AcceptsFeFf | include/utf8_string.hpp:61-72 | non-property: FE and FF decode to 0 with length 1 and no error |
| Utf8Index.Next | include/utf8_string.hpp:79 | the skip loop stops at the first later byte that is past the end or not a continuation byte, and every byte it passes is a continuation byte |
| Utf8Index.OffsetIsKthStart | include/utf8_string.hpp:74-82 | k skips from byte 0 reach the k-th codepoint start (the end of the buffer for k = length); exactly k starts lie before it |
| Utf8Index.OffsetStrict | include/utf8_string.hpp:74-82 | codepoint offsets strictly increase with the codepoint number |
| Utf8Index.LookupIsOffset | include/utf8_string.hpp:74-82 | under the invariant, `byte_of_unsafe(n)` for n < length is the start of codepoint n; at n = length it is the end of the bytes, or 0 when length % K == 0 (it reads `nthcharat[size()]`) |
| Utf8Index.ScanBuildsIndex | include/utf8_string.hpp:90-95 | the build_index loop, started at the offset of codepoint len with a correct index prefix, ends with the whole invariant |
| Utf8Index.PrefixStep | include/utf8_string.hpp:91-94 | one loop step appends an entry exactly at a multiple of K and keeps the index prefix correct |
| Utf8Index.BuildFromScratch | include/utf8_string.hpp:84-96 | `build_index(0)` establishes the invariant, and the length it counts is the number of codepoint starts |
| Utf8Index.BuildIndexRestarts | include/utf8_string.hpp:87-90 | `build_index(from)` with from > 0 keeps from/K entries and starts scanning at the offset of codepoint from % K, not from |
| Utf8Index.ConcatOffsets | include/utf8_string.hpp:227-235 | when the appended bytes do not start with a continuation byte, codepoint counts add up and the offsets of both parts carry over into the concatenation |
| Utf8Index.WellFormedConcat | include/utf8_string.hpp:227-235 | concatenating two well-formed buffers at a clean join gives a well-formed buffer |
| Utf8Index.GrowKeepsIndex | include/utf8_string.hpp:169-178 | growing `resize(n)` (n − length NUL bytes, one entry per new multiple of K) keeps the invariant with length n |
| Utf8Index.ShrinkIndexesPrefix | include/utf8_string.hpp:135-139 | `shrink_to(n)` for n < length cuts the bytes at the offset of codepoint n and keeps ceil(n/K) entries, which are correct for n codepoints |
| Utf8Index.ShrinkKeepsStaleLength | include/utf8_string.hpp:135-139 | `shrink_to(n)` leaves `utf8length` unchanged, so the invariant fails whenever n is below the length |
| Utf8Index.AppendFixedKeepsIndex | include/utf8_string.hpp:227-235 | the repaired index update of `+=` keeps the invariant, and the new length is the sum of the two counts |
| Utf8Index.SubStdStrSlices | include/utf8_string.hpp:215-225 | on a valid, well-formed string, `substdstr(pos, len)` with len ≥ 1 and pos+len ≤ length is the byte range from codepoint pos to codepoint pos+len |
| Utf8Index.SliceOfSpan | include/utf8_string.hpp:220-224 | the same, needing only that the last requested codepoint decodes |
| Utf8Index.SubStdStrRangeErrors | include/utf8_string.hpp:216-222 | `substdstr` throws range_error when pos > length, or when pos+len−1 > length (in size_t arithmetic) |
| Utf8Index.ReassemblyRoundTrip | include/utf8_string.hpp:215-225 | joining `substdstr(i, 1)` for every i below the length of a valid, well-formed string gives back its bytes |
| Utf8Index.CountAtMostLength | include/utf8_string.hpp:166-168 | the codepoint count never exceeds the byte count |
| Utf8Strings.CString | include/utf8_string.hpp:186-188 | a `const char *` contributes the bytes before its first NUL, and none of them is NUL |
| Utf8Strings.CStringOfTerminated | include/utf8_string.hpp:186-188 | a NUL-free byte string followed by its terminator reads back as itself |
| Utf8Strings.Utf8String.FromStdString | include/utf8_string.hpp:189-191 | construction from a std::string keeps every byte and establishes the invariant |
| Utf8Strings.Utf8String.FromCString | include/utf8_string.hpp:186-188 | construction from a `const char *` keeps the bytes before the NUL and establishes the invariant |
| Utf8Strings.Utf8String.Empty | include/utf8_string.hpp:192-193 | the default constructor gives empty bytes, an empty index and length 0 |
| Utf8Strings.Utf8String.SkipFrom | include/utf8_string.hpp:79 | the inner skip loop returns `Next` |
| Utf8Strings.Utf8String.ByteOfUnsafe | include/utf8_string.hpp:74-82 | the loop starts at entry n/K (0 past the last entry) and skips n mod K codepoints |
| Utf8Strings.Utf8String.BuildIndex | include/utf8_string.hpp:84-96 | the bytes are unchanged; the index and length are those of the build_index specification |
| Utf8Strings.Utf8String.CharAtByteFrom | include/utf8_string.hpp:98-110 | the accumulation loop returns the continuation specification, with its three faults |
| Utf8Strings.Utf8String.CharAndLengthAtByte | include/utf8_string.hpp:113-122 | returns the decode specification `DecodeAt` |
| Utf8Strings.Utf8String.CharAtByte | include/utf8_string.hpp:124-127 | the decoded codepoint alone |
| Utf8Strings.Utf8String.LengthAtByte | include/utf8_string.hpp:129-133 | the decoded length alone |
| Utf8Strings.Utf8String.ShrinkTo | include/utf8_string.hpp:135-139 | cuts the bytes at `byte_of_unsafe(n)` and the index to ceil(n/K) entries, and keeps the old length |
| Utf8Strings.Utf8String.Resize | include/utf8_string.hpp:169-181 | growing appends n − length NUL bytes, sets the length to n and keeps the invariant; shrinking is `shrink_to(n)`, whose bytes and index are right for n codepoints while the length stays stale; an equal n changes nothing |
| Utf8Strings.Utf8String.ResizeFill | include/utf8_string.hpp:182-184 | `resize(n, c)` changes nothing |
| Utf8Strings.Utf8String.ByteOf | include/utf8_string.hpp:195-199 | fails for n > length and otherwise returns `byte_of_unsafe(n)`, which is the offset of codepoint n when n < length |
| Utf8Strings.Utf8String.At | include/utf8_string.hpp:201-205 | fails for n > length and otherwise decodes at `byte_of_unsafe(n)`, which is codepoint n when n < length |
| Utf8Strings.Utf8String.SubStdStr | include/utf8_string.hpp:215-225 | returns the `substdstr` specification, including npos and size_t wrap-around |
| Utf8Strings.Utf8String.Append | include/utf8_string.hpp:227-235 | the bytes become the old bytes followed by the appended bytes; the index and length are those of the fast path or of `build_index(length())` |
| Utf8Strings.Utf8String.Equals | include/utf8_string.hpp:151 | `==` holds exactly when the bytes are equal |
| Utf8Strings.Utf8String.NotEquals | include/utf8_string.hpp:152 | `!=` as written holds exactly when `==` holds |
| Utf8Strings.Utf8String.Length | include/utf8_string.hpp:166-168 | under the invariant, `length()` is the number of codepoint starts |
| Utf8Strings.Utf8String.Size | include/utf8_string.hpp:144 | `size()` is the byte count |
| Utf8Strings.ReassembleByCodepoints | test/utf8_string_test.cpp:52-58 | appending `substdstr(i, 1)` for every i to an empty string rebuilds a byte-equal string, whatever `+=` does to the index |
| Utf8Strings.AppendCodepoint | test/utf8_string_test.cpp:55-56 | one round of that loop appends exactly the bytes of codepoint i |
| Utf8Encoded.FlattenIndexes | include/utf8_string.hpp:84-96 | a buffer made of encoded codepoints is well formed, has one codepoint per chunk, and decodes to the k-th value at the end of the first k chunks |
| Utf8Encoded.CutIndexes | include/utf8_string.hpp:84-96 | the same for a buffer given by its cut points |
| Utf8Encoded.CutSlice | include/utf8_string.hpp:215-225 | the bytes between the offsets of codepoints a and b are chunks a .. b−1 |
| Utf8Samples.EmojiAtFacts | test/utf8_string_test.cpp:21-22 | the five-emoji string is well formed, has 5 codepoints, and codepoint 2 is U+1F602 |
| Utf8Samples.GreekAtFacts | test/utf8_string_test.cpp:24-29 | "γειά, κόσμο!" has 12 codepoints, and codepoints 6 to 10 are 0x3BA, 0x3CC, 0x3C3, 0x3BC, 0x3BF |
| Utf8Samples.KosmoFacts | test/utf8_string_test.cpp:33-35 | codepoints 6 to 10 of the Greek phrase are the bytes of "κόσμο" |
| Utf8Samples.EmojiPairFacts | test/utf8_string_test.cpp:37-39 | codepoints 2 and 3 of the emoji string are U+1F602 U+1F604 |
| Utf8Samples.MixedFacts | test/utf8_string_test.cpp:42-50 | "γειά, κόσμο! 😀!" is 27 bytes, well formed, with 15 codepoints |
| Utf8Samples.TestAtEmoji | test/utf8_string_test.cpp:20-22 | `at(2)` on the emoji string is 0x1F602 |
| Utf8Samples.TestAtGreek | test/utf8_string_test.cpp:24-29 | `at(6)` .. `at(10)` on the Greek phrase are κ, ό, σ, μ, ο |
| Utf8Samples.TestSubstr | test/utf8_string_test.cpp:32-40 | `substdstr(6, 5)` is "κόσμο", and `substdstr(2, 2)` on the emoji string is two emoji |
| Utf8Samples.TestLengthAndSize | test/utf8_string_test.cpp:42-50 | length 15 and size 27 |
| Utf8Samples.TestReassembly | test/utf8_string_test.cpp:52-58 | the reassembled string equals the input |
| Utf8Findings.NotEqualsFixed | include/utf8_string.hpp:152 | the repaired `!=` holds exactly when the bytes differ, which is always the opposite of the written one |
| Utf8Findings.AtLengthReadsTerminator | include/utf8_string.hpp:195-205 | at n = length, `byte_of_unsafe` gives byte 0 when length % K == 0 (so `at(length())` is the first codepoint); otherwise it gives the end of the bytes, where decoding throws out_of_range |
| Utf8Findings.ByteOfChecked | include/utf8_string.hpp:195-199 | with the bound `n >= length()`, `byte_of` succeeds exactly for n < length, and then returns a codepoint start that is the offset of n |
| Utf8Findings.AtChecked | include/utf8_string.hpp:201-205 | with that bound, `at` on a well-formed string succeeds exactly for n < length, and then returns codepoint n |
| Utf8Findings.AppendFastPathKeepsLength | include/utf8_string.hpp:229-232 | the fast path (length % K == K−1) leaves the length below the true count and breaks the invariant |
| Utf8Findings.ScanCounts | include/utf8_string.hpp:90-95 | the build_index loop started at codepoint m adds the count of the codepoints from m on |
| Utf8Findings.AppendRebuildOvercounts | include/utf8_string.hpp:233 | the other path of `+=` ends with a length that exceeds the true count by length − length % K; below K the length is right but the index has one entry too few and entry 0 holds the offset of codepoint K; the invariant breaks for every non-empty string |
| Utf8Findings.ShortRebuildDropsFirstEntry | include/utf8_string.hpp:84-96 | `build_index(from)` with 0 < from < K keeps no entries and rescans from codepoint from, so it rebuilds every entry but the first, and entry 0 becomes the offset of codepoint K |
| Utf8Findings.ShortAppendWithoutFragments | include/utf8_string.hpp:227-235 | three single-byte codepoints += ten more leaves the index [8] with length 13, so `byte_of_unsafe(0)` is byte 8 |
| Utf8Findings.AppendShortExample | include/utf8_string.hpp:227-235 | "abc" += "defghijklm" leaves the index [8] with length 13, so `byte_of_unsafe(0)` is byte 8, the 'i', and `at(0)` decodes from there |
| Utf8Findings.AppendFixed | include/utf8_string.hpp:227-235 | the repaired `+=` appends the bytes and rescans from the old end (from scratch when the join is not clean), keeping the invariant |
| Utf8Findings.ShrinkFixed | include/utf8_string.hpp:179-180 | shrinking `resize(n)` that also sets the length to n keeps the invariant |
| Utf8Findings.SubStdStrOnePast | include/utf8_string.hpp:220-224 | `substdstr(0, length()+1)` passes the guard: it returns the first codepoint when length % K == 0 and throws out_of_range otherwise, instead of range_error |
| Utf8Findings.OnePastLookups | include/utf8_string.hpp:220-223 | the two index reads of `substdstr(0, length()+1)` land on byte 0 and on byte 0 or the end |
| Utf8Findings.SubStdStrEmptyRefused | include/utf8_string.hpp:220-222 | `substdstr(0, 0)` wraps pos+len−1 to npos and throws range_error |
| Utf8Findings.SubStdStrFixedSlices | include/utf8_string.hpp:215-225 | the repaired `substdstr(pos, len)` is exactly the bytes of codepoints pos .. pos+len−1, empty for len = 0, and range_error whenever that range leaves the string |
| Utf8Findings.FixedAgreesInRange | include/utf8_string.hpp:215-225 | inside the string, the repaired and the written `substdstr` agree |
| Utf8Findings.ContinueFixedReportsTruncation | include/utf8_string.hpp:100-106 | with the guard `n >= data.length()`, a sequence running past the buffer throws "truncated char" (never out_of_range), and every other outcome is unchanged |
| ArchivePaths.SortedKeys | src/gdir.cpp:60-61 | a std::map's keys in iteration order: every key once, strictly ascending |
| ArchivePaths.AscendingUnique | src/gdir.cpp:60-61 | a strictly ascending sequence is determined by its elements |
| ArchivePaths.BelowTotal | src/gdir.cpp:60-61 | std::string's order is total |
| ArchivePaths.BelowTransitive | src/gdir.cpp:60-61 | std::string's order is transitive |
| ArchivePaths.Segment | src/gdir.cpp:80 | the scan stops at the first `/` or at the end, and passes no `/` |
| ArchivePaths.Dirs | src/gdir.cpp:79-84 | the directory components of a name are non-empty and contain no `/` |
| ArchivePaths.FileName | src/gdir.cpp:85-86 | the file component, when present, is non-empty and contains no `/` |
| ArchivePaths.SplitJoin | src/gdir.cpp:79-86 | splitting a name joined from non-empty, slash-free components gives back those components and that file name |
| ArchivePaths.LeadingSlashSkipped | src/gdir.cpp:82 | a leading `/` changes neither the directories nor the file |
| ArchivePaths.TrailingSlashIsDirectory | src/gdir.cpp:81-86 | a trailing `/` turns the last component into a directory and leaves no file |
| ArchiveTree.ParsedTree.constructor | src/gdir.cpp:69 | a new tree is a root with no parent and no entries |
| ArchiveTree.ParsedTree.AddFile | src/gdir.cpp:76-87 | `add_file` keeps the tree well formed and only grows it: parents are set once, every non-final non-empty component is found or created as a subdirectory, the final non-empty component maps to index (the last index wins), and nothing else changes |
| ArchiveTree.SkipSlash | src/gdir.cpp:82 | an empty component is skipped at the same node |
| ArchiveTree.FileBranch | src/gdir.cpp:85-86 | a final non-empty component becomes a file of the current node |
| ArchiveTree.EmptyBranch | src/gdir.cpp:85 | an empty final component adds nothing |
| ArchiveTree.ExistingChild | src/gdir.cpp:77-78 | an existing subdirectory already has its parent set, so `if (!parent)` leaves it |
| ArchiveTree.NewChildWf | src/gdir.cpp:83 | a subdirectory created by `operator[]` is a new node, and once its parent is set to the current node the tree stays well formed |
| ArchiveTree.LiftThroughChild | src/gdir.cpp:83 | `add_file` on the child, with the rest of the name, does what `add_file` does on the whole name |
| ArchiveTree.ResolveInjective | src/gdir.cpp:83 | two directory paths from a node that reach the same node are equal |
| ArchiveTree.EmptyRepresentsNothing | src/gdir.cpp:318 | the fresh tree represents the empty entry list |
| ArchiveTree.DirsAfterAdd | src/gdir.cpp:76-87 | after `add_file` from the root, the new directory paths are exactly the prefixes of the name's directories |
| ArchiveTree.AddFileMeaning | src/gdir.cpp:320-324 | each `add_file` of the constructor loop extends the tree's meaning by one entry |
| ZipKernel.Counter.constructor | src/gdir.cpp:318 | `new size_t(1)` starts a live count of 1 |
| ZipKernel.Entries | src/gdir.cpp:319-323 | the names the loop passes to `add_file`, one per entry, in order |
| ZipKernel.NoEmptyKeys | src/gdir.cpp:285-294 | no stored file or directory name is "", so the "" that ends a listing cannot be a name |
| ZipKernel.EnterThenLeave | src/gdir.cpp:299-316 | a subdirectory is never the root, and its parent is the node it was entered from |
| ZipKernel.RootOnlyOrphan | src/gdir.cpp:312-316 | a node has no parent exactly when it is the root |
| ZipKernel.KernelZip.constructor | src/gdir.cpp:318-325 | a count of 1 held by this kernel, a new tree holding exactly the entries' directories and files, and the cursor at the root |
| ZipKernel.KernelZip.CopyOf | src/gdir.cpp:334-337 | the copy shares the archive, tree and count, copies the cursor, and increments the count by one |
| ZipKernel.KernelZip.FirstFile | src/gdir.cpp:277-280 | restarts the file iterator and returns the first file name, or "" when there is none |
| ZipKernel.KernelZip.FirstDirectory | src/gdir.cpp:281-284 | restarts the directory iterator and returns the first subdirectory name, or "" when there is none |
| ZipKernel.KernelZip.NextFile | src/gdir.cpp:285-289 | returns the key under the iterator and advances it; at end() returns "" and stays there |
| ZipKernel.KernelZip.NextDirectory | src/gdir.cpp:290-294 | the same over subdirectory names |
| ZipKernel.KernelZip.FileCount | src/gdir.cpp:296 | the size of the file map, which is the number of names a listing yields |
| ZipKernel.KernelZip.DirectoryCount | src/gdir.cpp:297 | the size of the subdirectory map, which is the number of names a listing yields |
| ZipKernel.KernelZip.Enter | src/gdir.cpp:299-304 | succeeds iff the name is a subdirectory of curdir, then moves to it; otherwise curdir is unchanged |
| ZipKernel.KernelZip.EnterNew | src/gdir.cpp:305-311 | returns NULL and changes nothing if the name is absent; otherwise returns a new kernel at the child that shares the tree and increments the count; the caller's cursor never moves |
| ZipKernel.KernelZip.Leave | src/gdir.cpp:312-316 | fails iff curdir is the root; otherwise moves to the parent |
| ZipKernel.KernelZip.Destroy | src/gdir.cpp:326-332 | decrements the count; the archive is closed and the tree and count freed exactly when the last kernel sharing them is destroyed |
| Directories.Directory.ListFiles | test/gdir_test.cpp:64-68 | on the handle, first_file then next_file until "" yields each file name of the current directory once, in ascending order |
| Directories.Directory.ListDirectories | test/gdir_test.cpp:48-52 | on the handle, first_directory then next_directory until "" yields each subdirectory name once, in ascending order |
| Directories.Directory.constructor | include/gdir.hpp:56 | wrapping a kernel, null or not, starts a fresh count of 1 |
| Directories.Directory.Copy | include/gdir.hpp:69-72 | the copy shares the kernel and count and increments the count by exactly 1 |
| Directories.Directory.Unref | include/gdir.hpp:59-64 | decrements the count; the kernel (via `~kernel_zip`) and the count are deleted exactly when it reaches 0 |
| Directories.Directory.FirstFile | include/gdir.hpp:74 | delegates to the kernel |
| Directories.Directory.FirstDirectory | include/gdir.hpp:75 | delegates to the kernel |
| Directories.Directory.NextFile | include/gdir.hpp:76 | delegates to the kernel |
| Directories.Directory.NextDirectory | include/gdir.hpp:77 | delegates to the kernel |
| Directories.Directory.FileCount | include/gdir.hpp:78 | delegates to the kernel |
| Directories.Directory.DirectoryCount | include/gdir.hpp:79 | delegates to the kernel |
| Directories.Directory.Enter | include/gdir.hpp:83 | delegates to the kernel: true, having moved, iff the name is a subdirectory |
| Directories.Directory.Leave | include/gdir.hpp:90 | delegates to the kernel: false iff at the root |
| Directories.Directory.EnterNew | include/gdir.hpp:88 | wraps the kernel's result in a new handle with a count of 1; the handle is open iff the name is a subdirectory |
| Directories.Directory.Assign | include/gdir.hpp:93-100 | releases the old target only if its kernel is non-null, then increments and shares the source's count; a null handle's count is never released; both handles stay valid except on `d = d` with the kernel set and a count of 1 |
| Directories.Directory.SelfAssign | include/gdir.hpp:93-100 | `d = d` with the kernel set leaves the count and its holders as they were, live exactly when another handle holds it, and the handle valid when the count was above 1 |
| Directories.OpenTests | include/gdir.hpp:85-86 | on a valid handle `good()` equals `is_open()`, and both hold exactly when the handle wraps a valid kernel |
| Directories.Directory.AssignFixed | include/gdir.hpp:93-100 | the repaired assignment: self-assignment changes nothing, and otherwise the old count is always released |
| Directories.Directory.Share | include/gdir.hpp:96-98 | takes over the source's kernel and count, one holder more |
| Directories.OtherHandleSurvives | include/gdir.hpp:59-64 | releasing one handle leaves every other handle valid |
| Directories.KernelSurvives | src/gdir.cpp:326-332 | destroying one kernel leaves every other kernel valid: the tree and archive are freed only with the last reference |
| Directories.Ctor | include/gdir.hpp:57 | `ctor(k)` makes a handle on k with a count of 1 |
| Directories.OpenZip | src/gdir.cpp:346-350 | a handle that is open iff the archive opened, then at the root of a tree holding exactly the archive's entries |
| DirectoryFindings.SelfAssignAsWritten | include/gdir.hpp:93-100 | `d = d` on the only handle leaves d holding a deleted count |
| DirectoryFindings.SelfAssignFixed | include/gdir.hpp:93-100 | with the repaired assignment, `d = d` leaves d valid and still the only handle |
| DirectoryFindings.AssignToClosedAsWritten | include/gdir.hpp:94-95 | assigning to a handle that is not open leaves its count allocated at 1 with no handle using it |
| DirectoryFindings.AssignToClosedFixed | include/gdir.hpp:94-95 | with the repaired assignment, that count is released and deleted |
| ArchiveSamples.OneDirEntry | src/gdir.cpp:79-86 | "d/f" splits into directory d and file f |
| ArchiveSamples.ThreeDirRootDirs | test/gdir_test.cpp:44-52 | the tree of a/fa, b/fb1, b/fb2, c/fc lists a, b, c at the root |
| ArchiveSamples.ThreeDirRootFiles | test/gdir_test.cpp:45-47 | that root holds no file |
| ArchiveSamples.ThreeDirSubdirFiles | test/gdir_test.cpp:54-68 | a holds fa, b holds fb1 and fb2, c holds fc |
| ArchiveSamples.TestArchive | test/gdir_test.cpp:27-37 | the test archive lists alpha, beta, gamma at the root, no root file, and apple.txt; banana.txt, blueberry.txt; grape.txt in them |
| DirectorySamples.TestRoot | test/gdir_test.cpp:44-47 | the tree built from the test archive's names has three root directories and no root file |
| DirectorySamples.TestSubdir | test/gdir_test.cpp:58-68 | each root directory of that tree holds the expected files |
| DirectorySamples.TestNotADirectory | src/gdir.cpp:299-311 | a file name of the archive is not a root subdirectory |
| DirectorySamples.TestRootListing | test/gdir_test.cpp:44-52 | through the handle: directory_count 3, file_count 0, first_file "", and the listing alpha, beta, gamma |
| DirectorySamples.TestEnterLeave | test/gdir_test.cpp:54-70 | enter succeeds, the file count and listing are the expected ones, and leave succeeds back to the root |
| DirectorySamples.TestEnterNew | test/gdir_test.cpp:72-87 | enter_new gives a good handle with the expected files, while the original handle stays at the root |
| DirectorySamples.TestEnterNewMissing | include/gdir.hpp:88 | enter_new on a missing name gives a handle that is not open, and enter fails |

## Left out

- The filesystem backend `directory_filesystem` (src/gdir.cpp:94-262) is not part of this model. It is OS I/O (`opendir`, `readdir`, `stat`), and its Windows branch is stubbed. Its refcount imbalance on `leave()` after `enter_new` is an unmodelled defect.
- libzip (`zip_open`, `zip_get_num_entries`, `zip_get_name`, `zip_close`) is foreign code. `zip_open` becomes an optional `ZipArchive`, entry names become the input list, and `zip_close` clears the archive's `open` flag.
- ZipKernel.KernelZip.constructor: requires every entry name to be present. The source passes a NULL name from `zip_get_name` to `add_file`, which dereferences it (src/gdir.cpp:80, 321-323).
- ZipKernel.KernelZip.NextFile: requires an iterator started by `first_file` in the current directory. A value-initialised or stale iterator is undefined behaviour in the source. NextDirectory has the same requirement.
- Utf8Strings.Utf8String.ByteOfUnsafe: requires n/K ≤ |nthcharat|. Reading `nthcharat` beyond its terminator is undefined behaviour, so `Resize`, `ShrinkTo`, `ByteOf`, `At` and `SubStdStr` carry the same requirement.
- The copy constructor and `operator=` of `parsed_directory` (src/gdir.cpp:70-74) are not modelled. `map::operator[]` copies only fresh, parentless nodes, so the throw never happens on the modelled paths.
- `reserve`, `capacity`, `max_size`, `empty`, `c_str`, `shrink_to_fit`, `operator<<`, the `std::string` conversions, `debug()` and `operator[]` (the same as `at`) are thin wrappers and are not modelled.
- Archive entry names are `string`s whose characters carry the byte values 0x01..0xFF of the C string `zip_get_name` returns, which cannot hold a NUL. `ArchivePaths.Below` compares character codes, which is the unsigned-byte order `std::char_traits<char>::compare` gives `std::string` keys, so the `std::map` order is the same.
- Bytes are the integers 0..255. The source's `char` may be signed, but every use of it masks or compares bits, and `BitForms` proves those tests equal.
- `size_t` arithmetic is modelled only in `substdstr`, where it decides behaviour (npos and pos+len−1). Other counters are unbounded, because no buffer reaches 2^64.
- Memory is modelled by `live`/`open` flags and ghost holder multisets, not by deallocation. Use after free shows up as a handle whose count is no longer live.
- The build demo (build/main.cpp) and the test harness are not part of this model. Concurrency is left out because there is none.

## Findings

| source | as written | input that shows it | evidently intended | confidence | as-written member | corrected member |
|---|---|---|---|---|---|---|
| include/utf8_string.hpp:152 | `operator!=` returns `data == x.data` | any two equal strings: `!=` is true | `data != x.data` | high, not executed | Utf8Strings.Utf8String.NotEquals | Utf8Findings.NotEqualsFixed |
| include/utf8_string.hpp:196-198 | `byte_of` rejects only n > length | "abcdefgh": `byte_of(8)` returns 0 | reject n >= length | high, not executed | Utf8Findings.AtLengthReadsTerminator | Utf8Findings.ByteOfChecked |
| include/utf8_string.hpp:202-204 | `at` rejects only n > length | "abcdefgh": `at(8)` returns 'a' | reject n >= length | high, not executed | Utf8Strings.Utf8String.At | Utf8Findings.AtChecked |
| include/utf8_string.hpp:229-232 | fast path when length % K == K−1, copying unshifted entries and keeping the length | "abcdefg" += "x": the length stays 7 | fast path at length % K == 0, with shifted entries and an updated length | high, not executed | Utf8Findings.AppendFastPathKeepsLength | Utf8Findings.AppendFixed |
| include/utf8_string.hpp:88-90 | `build_index(from)` keeps from/K entries, then `byte_of_unsafe(from)` reads the terminator and restarts at byte 0 while counting from `from` | "abcdefghi" += "x": the length becomes 18; "abc" += "defghijklm": the index is [8], so `at(0)` is 'i' | rescan from the old end, keeping the old index | high, not executed | Utf8Findings.AppendRebuildOvercounts | Utf8Findings.AppendFixed |
| include/utf8_string.hpp:135-139 | `shrink_to` never updates `utf8length` | "ab".resize(1): the length stays 2 | set the length to n | high, not executed | Utf8Index.ShrinkKeepsStaleLength | Utf8Findings.ShrinkFixed |
| include/utf8_string.hpp:220-221 | `last > utf8length` lets pos+len = length+1 through | "abcdefgh".substdstr(0, 9) returns "a" | range_error when pos+len > length | high, not executed | Utf8Findings.SubStdStrOnePast | Utf8Findings.SubStdStrFixedSlices |
| include/utf8_string.hpp:220-222 | pos+len−1 wraps for len = 0 | substdstr(0, 0) throws range_error | the empty string | medium, not executed | Utf8Findings.SubStdStrEmptyRefused | Utf8Findings.SubStdStrFixedSlices |
| include/utf8_string.hpp:101-103 | guard `n > data.length()` after the increment | the byte C3 alone: `at(0)` throws out_of_range from `data.at`, not "truncated char" | guard `n >= data.length()` | high, not executed | Utf8Decode.DecodeNeverTruncated | Utf8Findings.ContinueFixedReportsTruncation |
| include/gdir.hpp:93-99 | `unref()` before `++*dir.krefs`, with no self-assignment test | `d = d` on the only handle: the count is deleted, then incremented | skip self-assignment | high, not executed | DirectoryFindings.SelfAssignAsWritten | DirectoryFindings.SelfAssignFixed |
| include/gdir.hpp:94-95 | `unref()` only when the kernel is non-null | assigning to a handle on a failed open: its count is never freed | always release the old count | high, not executed | DirectoryFindings.AssignToClosedAsWritten | DirectoryFindings.AssignToClosedFixed |

The class `Utf8Strings.Utf8String` and the handle `Directories.Directory` keep the behaviour as written, so the defects above stay observable. The corrected members are proved beside them.
