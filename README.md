# URenamer: a verified model of the UnityFS bundle renamer

URenamer is a small command-line tool. It reads one or more Unity asset
bundles in the "UnityFS" format and copies each one to a destination folder.
Each copy is named after the path of the bundle's first directory entry. When
a file of that name already exists, the copy gets a `" (i)"` suffix with the
least free counter `i >= 1`. The whole program lives in `Main`
(`Program.cs`). This project lifts its steps into separate Dafny modules and
proves what each step guarantees.

- `Wire` covers bytes, fixed-width integer types, the `Option`/`Result`
  wrappers and the `Error` kinds. It also holds big-endian integers and the
  primitive reads of the big-endian `FileReader`. Each read is a function on
  the whole buffer and a cursor. The class `Reader` is the cursor object: its
  `TryRead...` methods advance `pos` and are proved to follow those
  functions. A failed read leaves the cursor where it was.
- `Flags` holds the three flag tests of the header: vendor prefix (0x200),
  metadata at end of file (0x80) and the codec mask (0x3e). Each test is
  proved equal to the program's bitwise mask test.
- `Header` is the header decoder. It reads the magic string, the version, the
  two version strings, the sizes and the flags. It applies the size guards,
  skips the vendor prefix and rejects the end-of-file layout and unknown
  codecs. There is a pure decoder (`DecodeHeader`), its encoder and round
  trip, and the cursor-based reader (`ReadHeader`) proved equal to it.
- `Metadata` parses the decompressed metadata: a 16-byte hash, a guarded
  block count and 10-byte block records, then a guarded directory count and
  directory records. It has a pure parser (`ParseTables`), its encoder and
  round trip, and the loop-based reader (`ParseMetadata`) proved equal to it.
  It also models the program as written (the `AsWritten` members), with
  wrapping guards and unchecked record reads; see "Findings".
- `Naming` builds the name a bundle is copied to and the collision search
  that adds a `" (i)"` suffix.
- `CommandLine` models the argument-splitting loop and the decision between
  usage text, a missing-source error and a rename.
- `Bundle` decodes one bundle from file bytes to tables, with decompression
  as a parameter. It also models the batch that copies every source bundle
  in order, stopping at the first failure.

## Model

| member | source | states |
|---|---|---|
| Wire.ReadUInt | Program.cs:121-136 | a big-endian read succeeds exactly when `width` bytes remain, advances the cursor by `width` and yields a value below 256^width |
| Wire.BE | Program.cs:115 | the big-endian value of a window is below 256^width |
| Wire.BESameBytes | Program.cs:115 | the value read depends only on the bytes in the window |
| Wire.BEOfToBE | Program.cs:115 | encoding a value big-endian and reading it back gives the value |
| Wire.ToBEOfBE | Program.cs:115 | re-encoding the value read gives the same bytes (big-endian decoding is injective) |
| Wire.ToInt32 | Program.cs:129-131 | an `int` read of a 32-bit pattern is negative exactly when the top bit is set |
| Wire.FromInt32 | Program.cs:129-131 | every `int` value has a bit pattern that reads back as it |
| Wire.FromInt32OfToInt32 | Program.cs:129-131 | the bit pattern of a value read is the pattern it was read from |
| Wire.ToInt64 | Program.cs:144 | the unchecked `(long)` cast of a `ulong` is the value itself or the value minus 2^64, in the `long` range |
| Wire.Wrap64 | Program.cs:144 | unchecked `long` subtraction stays in the `long` range and differs from the exact value by a multiple of 2^64 |
| Wire.ReadU16 | Program.cs:180 | a `ushort` field reads exactly when 2 bytes remain, and is their big-endian value |
| Wire.ReadU32 | Program.cs:170 | a `uint` field reads exactly when 4 bytes remain, and is their big-endian value |
| Wire.ReadU64 | Program.cs:128 | a `ulong` field reads exactly when 8 bytes remain, and is their big-endian value |
| Wire.ReadI32 | Program.cs:121 | an `int` field reads exactly when 4 bytes remain, and is the two's-complement value of their big-endian pattern |
| Wire.ReadBytes | Program.cs:165 | the 16-byte hash reads exactly when 16 bytes remain, and takes exactly those bytes |
| Wire.FindZero | Program.cs:196-197 | the zero byte found lies between the cursor and the end of the buffer |
| Wire.FindZeroFirst | Program.cs:196-197 | the zero found is the first after the cursor; none is found only when there is none before the end |
| Wire.FindZeroAt | Program.cs:196-197 | a zero byte with no zero before it is the one found |
| Wire.ReadCString | Program.cs:117 | a string read consumes at least its terminator and stays inside the buffer |
| Wire.ReadCStringNoZero | Program.cs:117 | a string read holds no zero byte |
| Wire.ReadCStringFails | Program.cs:197 | a string read fails only when no zero byte follows the cursor |
| Wire.CStringBytes | Program.cs:117 | the bytes consumed by a string read are the string and its zero terminator |
| Wire.ReadUIntOfEncoding | Program.cs:121-136 | an integer encoded at the cursor is read back with the cursor advanced by its width |
| Wire.ReadCStringOfEncoding | Program.cs:117-123 | a zero-free string with its terminator at the cursor is read back, terminator consumed |
| Wire.ReadBytesOfEncoding | Program.cs:165 | a run of bytes at the cursor is read back whole |
| Wire.Reader.TryReadUInt | Program.cs:128-133 | the cursor read yields what `ReadUInt` yields and moves the cursor to its end; a failed read leaves the cursor |
| Wire.Reader.TryReadUInt16 | Program.cs:180 | `TryReadUInt16` follows the 2-byte big-endian read; a failure leaves the cursor |
| Wire.Reader.TryReadUInt32 | Program.cs:170 | `TryReadUInt32` follows the 4-byte big-endian read; a failure leaves the cursor |
| Wire.Reader.TryReadUInt64 | Program.cs:128 | `TryReadUInt64` follows the 8-byte big-endian read; a failure leaves the cursor |
| Wire.Reader.TryReadInt32 | Program.cs:121 | `TryReadInt32` follows the two's-complement 4-byte read; a failure leaves the cursor |
| Wire.Reader.TryReadBytes | Program.cs:165 | the 16-byte hash read follows `ReadBytes`; a failure leaves the cursor |
| Wire.Reader.ReadBytesClamped | Program.cs:139 | skipping 0x46 bytes moves the cursor by 0x46 or to the end of the file, whichever comes first |
| Wire.Reader.TryReadStringNullTerm | Program.cs:117 | the string read follows `ReadCString`; a failure leaves the cursor |
| Flags.CodecBits | Program.cs:154 | the codec number reported is below 0x40 |
| Flags.CodecBitsIsMask | Program.cs:154 | the codec number reported is `flags & 0x3f` |
| Flags.VendorPrefixIsMask | Program.cs:137 | the vendor-prefix test is `flags & 0x200 != 0` |
| Flags.MetadataAtEndIsMask | Program.cs:142 | the end-of-file test is `flags & 0x80 != 0` |
| Flags.CodecAcceptedIsMask | Program.cs:152 | the codec test is `(flags & 0x3e) == 2` |
| Flags.CodecMaskAccepts | Program.cs:152-155 | the 0x3e mask accepts exactly the codecs whose low six bits are 2 or 3 |
| Header.ReadPreamble | Program.cs:117-126 | on success the cursor is past the magic, the version and both zero-terminated strings, inside the file |
| Header.ReadSizes | Program.cs:127-136 | on success the metadata size is nonzero, the uncompressed size is at least 24 and exactly 20 bytes were read |
| Header.ReadFields | Program.cs:117-136 | on success the sizes are valid and the cursor advanced by exactly the header's field widths |
| Header.Locate | Program.cs:137-155 | the metadata is located exactly when the flags are supported, at an offset between the end of the fields and the end of the file; flag 0x80 always gives one of its two errors |
| Header.DecodeHeader | Program.cs:115-155 | a decoded header has valid sizes and supported flags, and the metadata offset is right after the fields, past the vendor prefix when flagged |
| Header.NotABundleIff | Program.cs:117-120 | decoding fails with `NotABundle` exactly when the file does not begin with "UnityFS" and a zero byte; a truncated magic is rejected too |
| Header.NotABundleFromTag | Program.cs:117-126 | only the magic check yields `NotABundle`; later short reads give `CorruptHeader` |
| Header.EndOfFileLayoutFails | Program.cs:142-151 | with flag 0x80 decoding fails whichever way the bounds test goes, so the seek at line 150 is unreachable |
| Header.CodecErrorAfterLayout | Program.cs:142-155 | a codec error comes only after the 0x80 check passed, and carries the low six flag bits |
| Header.HeaderRoundTrip | Program.cs:115-155 | decoding an encoded supported header, followed by any bytes, gives it back with the metadata offset after the fields and the prefix |
| Header.LocateSupported | Program.cs:137-155 | supported flags place the metadata after the fields, 0x46 bytes further (clamped at the end) when flag 0x200 is set |
| Header.FieldsRoundTrip | Program.cs:117-136 | reading the fields of an encoded header with valid sizes gives them back and stops at its end |
| Header.PreambleRoundTrip | Program.cs:117-126 | reading the encoded magic, version and strings gives them back |
| Header.SizesRoundTrip | Program.cs:127-136 | reading the encoded sizes and flags gives them back |
| Header.DecodedHeaderIsPrefix | Program.cs:117-136 | a successful decode read its fields from the file's leading bytes, which are the header's encoding |
| Header.PreambleIsPrefix | Program.cs:117-126 | the bytes the leading fields consumed are their encoding |
| Header.SizesArePrefix | Program.cs:127-136 | the bytes the size and flag fields consumed are their encoding |
| Header.SizesValues | Program.cs:128-133 | each size field is the big-endian value at its offset, the signed ones read as two's complement |
| Header.ReadPreambleFrom | Program.cs:117-126 | the cursor reads of the leading fields give `ReadPreamble`'s outcome and end where it ends |
| Header.ReadSizesFrom | Program.cs:127-136 | the cursor reads and guards of the size fields give `ReadSizes`'s outcome and end where it ends |
| Header.LocateFrom | Program.cs:137-155 | the cursor-based flag checks give the same outcome as `Locate`, leave the reader valid, and on success leave the cursor at the metadata offset |
| Header.ReadHeader | Program.cs:115-155 | reading the header through a cursor gives `DecodeHeader` of the file's bytes |
| Metadata.ReadBlock | Program.cs:178-180 | a block record reads exactly when ten bytes remain, and takes ten bytes |
| Metadata.ReadBlocks | Program.cs:176-183 | `n` block records read exactly when `10 * n` bytes remain; there are `n` of them and they take `10 * n` bytes |
| Metadata.ReadDirectory | Program.cs:193-197 | a directory record takes at least 21 bytes and stays inside the buffer |
| Metadata.ReadDirectories | Program.cs:191-200 | `n` directory records, when they read, number `n` and take at least `21 * n` bytes inside the buffer |
| Metadata.DirectoryFailurePropagates | Program.cs:191-200 | a record that fails to read fails every longer run with the same error |
| Metadata.ParseTables | Program.cs:165-200 | parsed tables fit the buffer: 20 + 10 per block + 4 + 21 per directory bytes at most |
| Metadata.BlockTable | Program.cs:165-183 | an accepted block table ends at 20 + 10 bytes per block, inside the buffer |
| Metadata.DirectoryTable | Program.cs:185-200 | an accepted directory table has as many records as its count says, at least 21 bytes each inside the buffer, and passes the unwrapped guard |
| Metadata.BlockTableOutcome | Program.cs:165-183 | the block stage fails with `MetadataUnreadable` iff the hash is short, with `BlockTableTooLarge` iff the count is short or fails the guard, never on a short record, and otherwise yields `blockcount` records |
| Metadata.BlocksInWireOrder | Program.cs:176-183 | block `i` holds the three big-endian fields at offset `10 * i`, in wire order |
| Metadata.DirectoriesInWireOrder | Program.cs:191-200 | directory record `k` is the record that starts where the first `k` records end |
| Metadata.DirectoryTableOutcome | Program.cs:185-200 | the directory stage fails with `DirectoryTableTooLarge` iff the count is short or fails the guard; otherwise it yields the `directorycount` records |
| Metadata.DirectoriesErrors | Program.cs:191-200 | a run of directory records fails only with `InsufficientData` or `MalformedString` |
| Metadata.DirectoryLayout | Program.cs:193-197 | a directory record is a u64, a u64, a u32 and a path that runs to the next zero byte and holds no zero |
| Metadata.DirectoryFailure | Program.cs:193-197 | a record fails with `InsufficientData` iff its fixed fields are short, and with `MalformedString` iff no zero byte ends its path |
| Metadata.TablesRoundTrip | Program.cs:165-200 | parsing the encoding of any tables, followed by any padding, gives back those tables |
| Metadata.ReadBlockFrom | Program.cs:178-180 | the three cursor reads of a block give `ReadBlock`'s outcome and end where it ends |
| Metadata.ReadDirectoryFrom | Program.cs:193-197 | the four cursor reads of a directory record give `ReadDirectory`'s outcome and end where it ends |
| Metadata.ReadBlockTable | Program.cs:165-183 | the hash read, the guarded count and the counted loop give `BlockTable`'s outcome |
| Metadata.ReadDirectoryTable | Program.cs:185-200 | the guarded count and the record loop give `DirectoryTable`'s outcome |
| Metadata.ReadDirectoryRecords | Program.cs:191-200 | the counted loop gives `ReadDirectories`'s outcome |
| Metadata.ParseMetadata | Program.cs:163-200 | reading the metadata buffer through a cursor gives `ParseTables` of its bytes |
| Metadata.FieldOrZero | Program.cs:178-180 | an unchecked read yields the field when it fits, else zero with the cursor unmoved |
| Metadata.ReadBlockAsWritten | Program.cs:178-182 | the unchecked block read agrees with the checked one where that succeeds, and otherwise stops within one byte of the end |
| Metadata.ReadBlocksAsWritten | Program.cs:176-183 | the unchecked loop always yields `n` blocks and never moves past the buffer |
| Metadata.BlocksAsWrittenAgree | Program.cs:176-183 | where the block records fit, the unchecked reads yield what the checked reads yield |
| Metadata.BlocksAsWrittenOverrun | Program.cs:176-185 | where they do not fit, the unchecked reads end less than one field short of the end, so the directory count cannot be read |
| Metadata.ReadDirectoryAsWritten | Program.cs:193-199 | the unchecked directory read agrees with the checked one where that succeeds and never moves past the buffer |
| Metadata.ReadDirectoriesAsWritten | Program.cs:191-200 | the unchecked loop always yields `n` records and never moves past the buffer |
| Metadata.DirectoriesAsWrittenAgree | Program.cs:191-200 | where every record reads, the unchecked reads yield the same records |
| Metadata.DirectoriesPastEnd | Program.cs:191-200 | records read at or past the end are all zero fields and an empty path |
| Metadata.BlockTableAsWritten | Program.cs:165-183 | the as-written block stage yields fewer than 2^31 blocks, and fails on the record list exactly when the wrapping guard passes a count of 2^31 or more |
| Metadata.DirectoryTableAsWritten | Program.cs:185-200 | the as-written directory stage yields as many records as its count says, fewer than 2^31 |
| Metadata.ParseTablesAsWritten | Program.cs:165-200 | the as-written parser yields fewer than 2^31 blocks and directories |
| Metadata.BlockNoOverflow | Program.cs:165-183 | when `blockcount * 10 + 20` cannot wrap, the as-written block stage equals the corrected one |
| Metadata.BlockGuardRejects | Program.cs:170-173 | a count the guard rejects without wrapping fails both stages with `BlockTableTooLarge` |
| Metadata.DirectoryNoOverflow | Program.cs:185-200 | when the directory guard cannot wrap, an accepted directory table passes the unwrapped guard |
| Metadata.GuardsAgreeWithoutOverflow | Program.cs:170-185 | for buffers below 2^31 bytes, a table the corrected guards accept also passes the wrapping guards |
| Metadata.TablesAgreeWhenValid | Program.cs:165-200 | on every buffer the corrected parser accepts, the program as written yields the same tables |
| Metadata.BlockTableAgrees | Program.cs:165-183 | on every buffer the corrected block stage accepts, the as-written stage agrees |
| Metadata.DirectoryTableAgrees | Program.cs:185-200 | on every buffer the corrected directory stage accepts, the as-written stage agrees |
| Metadata.BlockGuardWrapOutcome | Program.cs:170-185 | when the block guard passes only by wrapping, with a count the loop counter reaches, the program fails on the directory count, where the corrected guard rejects the block count |
| Metadata.BlockCountWraps | Program.cs:170-185 | a 24-byte buffer with block count 429496728 shows the wrap |
| Metadata.DirectoryGuardWrapOutcome | Program.cs:185-200 | when the directory guard passes only by wrapping, with a count the loop counter reaches, the program accepts a directory table the buffer cannot hold |
| Metadata.DirectoryCountWraps | Program.cs:185-200 | a 24-byte buffer with no blocks and 429496728 directories is accepted with zero-field records |
| Metadata.ShortDirectoryRecord | Program.cs:193-197 | a 30-byte buffer whose one directory record runs past the end yields an invented record as written, and an error in the corrected parser |
| Naming.Digit | Program.cs:215 | a digit character has the value of its digit |
| Naming.Decimal | Program.cs:215 | the numeral of a counter is nonempty, all digits, with no leading zero |
| Naming.DecimalRoundTrip | Program.cs:215 | reading back the numeral of a counter gives the counter |
| Naming.DecimalInjective | Program.cs:215 | distinct counters have distinct numerals |
| Naming.WithSuffix | Program.cs:215 | a suffixed candidate is longer than the base name plus `" ()"` |
| Naming.SuffixInjective | Program.cs:213-215 | distinct counters give distinct candidates |
| Naming.Text | Program.cs:197 | a path's text has one character per byte, each with that byte's value |
| Naming.BaseName | Program.cs:206 | the preferred name is destination, backslash and the first directory's path; it fails with `EmptyBundle` exactly when there is no directory |
| Naming.ChosenName | Program.cs:206-221 | the chosen name always begins with the preferred name |
| Naming.NextCandidate | Program.cs:213-215 | striking the tried candidates off the existing names does not change whether the next candidate exists |
| Naming.FirstFreeLeast | Program.cs:213-220 | the search finds a free counter, and every counter below it is taken |
| Naming.ChosenNameFreshAndLeast | Program.cs:206-221 | the chosen name never exists; it is the preferred name iff that is free, else the suffix with the least free counter |
| Naming.ChooseName | Program.cs:207-221 | the search loop returns the chosen name, which does not exist and is the preferred name iff that is free |
| CommandLine.Tokenize | Program.cs:58-73 | the loop forms at most one step per argument and consumes at most two arguments per step |
| CommandLine.LastDestination | Program.cs:65-68 | the destination, when there is one, is the value of some `-d` option |
| CommandLine.Interpret | Program.cs:51-79 | usage is shown exactly when there are no arguments; a rename has at least one source and no more sources than arguments |
| CommandLine.Sources | Program.cs:58-73 | there are no more sources than tokens |
| CommandLine.Consumed | Program.cs:58-68 | each step of the loop consumes one or two arguments, never more than remain |
| CommandLine.TokensCoverArguments | Program.cs:58-73 | every argument is consumed exactly once, in order |
| CommandLine.BareOptionIsLast | Program.cs:61-72 | `-s` or `-d` is taken as a source only when it is the last argument |
| CommandLine.PlainArguments | Program.cs:69-72 | without options every argument is a source, in order, and there is no destination |
| CommandLine.LastOptionWins | Program.cs:65-68 | the last `-d` option decides the destination, whatever came before |
| CommandLine.NoDestination | Program.cs:65-68 | without `-d` options there is no destination |
| CommandLine.LastDestinationAppend | Program.cs:65-68 | a destination in later arguments overrides any earlier one |
| CommandLine.TokenizeAt | Program.cs:58-72 | the tokens from argument `i` on start with the token the loop body forms at `i` |
| CommandLine.SplitArguments | Program.cs:56-73 | the two-cursor loop yields the sources in order and the last destination |
| CommandLine.ParseCommandLine | Program.cs:51-79 | no arguments shows usage, no source is an error, otherwise a rename with at least one source |
| Bundle.Decompress | Program.cs:157-161 | decompression succeeds iff the stage yields exactly the requested number of bytes; otherwise `DecompressionError` |
| Bundle.DecodeBundle | Program.cs:113-200 | a decoded bundle had a valid header, and its tables fit the declared uncompressed size |
| Bundle.DecodeBundleAsWritten | Program.cs:113-200 | the decode with the table stage as written succeeds only after a valid header, and a header failure is its result |
| Bundle.DecodeBundleAgrees | Program.cs:113-200 | wherever the corrected decode succeeds, the decode as written yields the same tables |
| Bundle.NotABundleIff | Program.cs:117-120 | a bundle decode fails with `NotABundle` exactly when the magic is absent, whatever the decompressor does |
| Bundle.TablesNeverNotABundle | Program.cs:165-200 | the metadata stage never reports `NotABundle` |
| Bundle.DirectoryTableErrors | Program.cs:185-200 | the directory stage never reports `NotABundle` |
| Bundle.HeaderFailureFirst | Program.cs:115-161 | a header failure ends the decode before decompression, whatever the decompressor |
| Bundle.BundleRoundTrip | Program.cs:113-200 | a supported header, any prefix bytes and metadata that decompresses to encoded tables decode back to those tables |
| Bundle.HeaderAndMetadata | Program.cs:113-200 | after an encoded supported header, the decode yields the tables of the decompressed metadata |
| Bundle.PrefixSkipped | Program.cs:137-140 | the metadata starts after the header and the 0x46-byte prefix when flagged |
| Bundle.DecompressionFails | Program.cs:157-161 | a decompression that fails or yields the wrong length fails the decode |
| Bundle.DecodeBundleStages | Program.cs:157-163 | a located header and metadata of the declared size leave the outcome to the tables |
| Bundle.ReadBundle | Program.cs:113-205 | reading a bundle from its file through cursors gives `DecodeBundle` of its bytes |
| Bundle.Preferred | Program.cs:113-206 | a bundle has no preferred name exactly when its decode fails or it has no directory |
| Bundle.PreferredNames | Program.cs:108-206 | there is one preferred-name outcome per source |
| Bundle.Batch | Program.cs:108-222 | the batch copies no more bundles than there are sources |
| Bundle.ThenAppend | Program.cs:108-222 | appending a copy and then the rest is the same as appending the rest after it |
| Bundle.CopiesFresh | Program.cs:206-221 | no copy overwrites a file that existed before or one made earlier in the batch |
| Bundle.ConsFresh | Program.cs:206-221 | a fresh name before fresh distinct copies keeps them fresh and distinct |
| Bundle.BatchInOrder | Program.cs:104-236 | bundle `k` is copied under the name chosen against the existing names plus the earlier copies; the batch copies all or stops at the first failing bundle with its error |
| Bundle.ConsCopied | Program.cs:108-222 | a first copy followed by copies made in order are made in order |
| Bundle.CopiedShift | Program.cs:108-222 | the order of later copies holds after the first one |
| Bundle.ConsStopped | Program.cs:108-236 | a first copy keeps the rest's stopping point |
| Bundle.BatchStep | Program.cs:108-222 | one loop iteration: a failing bundle ends the batch with its error, else its chosen name is copied and joins the existing names |
| Bundle.RenameAll | Program.cs:104-236 | the loop over sources gives the copies and the failure of `Batch` |
| Bundle.PreferredFrom | Program.cs:113-206 | opening, decoding and naming one source gives `Preferred` |

## Left out

- Console output, the usage text and `Console.ReadKey` (Program.cs:13-31, 141, 174-175, 181, 189-190, 198, 227-233) are pure I/O. `ParseCommandLine` returns `ShowUsage` or `MissingSource` where the program prints the usage text.
- The check that every source file exists (Program.cs:81-88) is not modelled. The batch takes the sources' contents; opening a file (line 113) is not modelled either.
- The folder dialog (Program.cs:90-102) is UI. It also replaces an empty `-d` value. `RenameAll` takes the destination as a parameter.
- `File.Exists` and `File.Copy` (Program.cs:207-220) become a finite set of existing names. A copy adds its name to the set. A failed copy and `Path.GetFullPath` are not modelled.
- LZ4 decompression (Program.cs:159-161) is not shown. It is the `Decompressor` parameter, applied to the bytes from the metadata offset on with the two sizes. A failure, or a result of another length than the uncompressed size, is `DecompressionError`.
- `FileReader` is not shown. Its reads are modelled from their call sites as big-endian reads. A failed read is assumed to leave the cursor where it was. A failed `TryRead` whose result is ignored (lines 178-180, 193-197) is assumed to leave 0 in the field and `null` in the path. The model gives the path as empty (`Metadata.FieldOrZero`, `Metadata.NoPath`), and `dArg + @"\" + null` reads the same. Also `ReadBytes(0x46)` at line 139 is assumed to stop at the end of the file instead of failing.
- The text encoding of strings is not shown. The magic and paths are kept as bytes. A path becomes text with one character per byte (`Naming.Text`).
- The .NET exception types and messages (Program.cs:119-172, 187, 225-235) are not modelled. Each throw site becomes an `Error` value, and an empty directory list (`directories[0]` at line 206) is `EmptyBundle`. Four values match no throw site:
  - `InsufficientData` and `MalformedString` are the record reads the program leaves unchecked, on which the corrected decoder fails.
  - `DecompressionError` stands for a failure inside the decompressor.
  - `RecordListOverflow` stands for the record list failing to grow.
- The flags word is read as an `int` (line 133). Every test on it is a bit test, so the model keeps the 32-bit pattern as an unsigned value.
- The unused `bundleSizePtr` and the vendor-prefix stripping comments (Program.cs:127-133) are not modelled, because they are never acted on.
- The `DEBUG` build, which has no `try`/`catch` (Program.cs:104-106, 224-236), is not modelled. In the release build the handler surrounds the whole loop. So the first failing source ends the batch, and the sources after it are not copied (`Bundle.Batch`, `Bundle.BatchInOrder`).
- The codec test masks with 0x3e, while the error message at Program.cs:154 reports `flags & 0x3f`. The model keeps the 0x3e test, which accepts codecs 2 and 3 (`Flags.CodecMaskAccepts`).
- Bundle.DecodeBundle: it runs the corrected table parser, as do `Bundle.ReadBundle`, `Bundle.Preferred`, `Bundle.PreferredFrom`, `Bundle.RenameAll` and `Bundle.Batch`. On metadata the corrected parser rejects, the program can go on with invented records (see "Findings"); the batch model then stops where the program would copy. `Bundle.DecodeBundleAsWritten` is the decode as written, and `Bundle.DecodeBundleAgrees` proves it equal wherever the corrected decode succeeds.
- Metadata.ReadBlocksAsWritten: its loop counter is the `int i` of line 176. A block count of 2^31 or more is never reached, so the as-written stage fails with `RecordListOverflow` there. A `List<Block>` capacity or memory limit below 2^31 records is not modelled.
- Metadata.ReadDirectoriesAsWritten: the same holds for the `int i` of line 191 and `List<DirectoryInfo>`.
- Naming.ChooseName: the counter is an `int` in the program. Its overflow after 2^31 - 1 taken names is not modelled, because the model's counter is unbounded.
- Bundle.Batch: its own contract states only the length bound. The order, freshness and stopping behaviour are in `Bundle.BatchInOrder` and `Bundle.CopiesFresh`.
- CommandLine.Sources: its own contract states only the length bound. Its content is in `CommandLine.PlainArguments`, `CommandLine.BareOptionIsLast` and `CommandLine.SplitArguments`.

## Findings

| source | as written | input that shows it | evidently intended | confidence | as-written member | corrected member |
|---|---|---|---|---|---|---|
| Program.cs:170 | `blockcount * 10 + 20` is computed in wrapping `uint` arithmetic | 24-byte metadata: 16 zero bytes, block count `19 99 99 98` (429496728), 4 zero bytes; the sum wraps to 4, the guard passes, and the program reads past the end and fails on the directory count | reject the block count with "Block count ... is too large" | not executed | Metadata.BlockCountWraps | Metadata.BlockTableOutcome |
| Program.cs:185 | `directorycount * 10 + blockcount * 10 + 20` is computed in wrapping `uint` arithmetic | 24-byte metadata: 16 zero bytes, block count 0, directory count `19 99 99 98` (429496728); the sum wraps to 4, and the program accepts 429496728 directory records of zero fields and empty paths | reject the directory count with "Directory count ... is too large" | not executed | Metadata.DirectoryCountWraps | Metadata.DirectoryTableOutcome |
| Program.cs:193-197 | the record reads ignore the result of each `TryRead` | 30-byte metadata: 16 zero bytes, block count 0, directory count 1, six bytes `01`; both `u64` reads fail, the `u32` read takes four bytes, the path finds no terminator, and a record with flags 0x01010101 and no path is added | fail on a record that runs past the end of the metadata | not executed | Metadata.ShortDirectoryRecord | Metadata.DirectoryFailure |
