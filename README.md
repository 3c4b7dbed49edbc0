# ssbfile resource-table model

A Dafny model of how `ssbfile` reads a Super Smash Bros. 64 ROM image. It covers four parts:

- **Entry resolution.** The resource table is a packed array of 12-byte big-endian records. A record names a payload, which may be compressed. It also names the heads of two relocation chains embedded in that payload: an internal chain and an external chain. An external chain has a list of 16-bit file ids stored after its payload.
- **Relocation rewrite.** A relocation chain is a singly linked list inside the payload. Each node is 4 bytes: a big-endian u16 `next` and a u16 `ptr`, both counted in words. The rewrite walks the list, replaces every node with the byte pointer `ptr * 4` as a big-endian u32, and logs `(file id, node offset, pointer)`.
- **Version table.** A constant table of known images, keyed by the header checksum pair.
- **Earlier library crate.** From `ssb-resource`: the N64 header parser, the game-code maps, the MIPS `%hi`/`%lo` immediate decoder, and the resource-table locator.

Modules, one file each:

- `Bytes` (`bytes.dfy`): byte and fixed-width integer types, big-endian reads and writes, and Option/Result.
- `Versions` (`versions.dfy`): `src/versions.rs`.
- `Relocation` (`relocation.dfy`): `RelocInfo`, `write_relocations` and `relocate` from `src/extract.rs`.
  - `write_relocations` and `relocate` are methods over an `array<Byte>`.
  - They are specified by the pure walk `Walk` and the log `Log`.
  - The lemmas prove what the walk does to the buffer: frame, last write, and read-from-original.
- `Extract` (`extract.dfy`): `TableFile::get`, `parse_externs` and `get_next_entry_offset` from `src/extract.rs`.
  - The mutual recursion of `get` and `get_next_entry_offset` is kept.
  - It is split into `Get`, `FromRecord`, `ExternList` and `NextEntryOffset`.
- `Utf8` (`utf8.dfy`): the parts of Rust's `str` that the header parser uses. These are `from_utf8` well-formedness (Table 3-7 of the Unicode Standard), the first character, and `str::get` on a byte range.
- `RomInfo` (`rominfo.dfy`): `ssb-resource/src/rom_info.rs`.
- `Ssb` (`ssb.dfy`): `ssb-resource/src/ssb.rs`.

Where the program would panic, the model does one of two things:

- **Inside `get`:** a slice past the end of the image or the `usize` subtraction `next_start - exoffstart` going negative becomes an error value, `SliceOutOfBounds` or `OffsetUnderflow`. `get` recurses into `get(id + 1)` through `get_next_entry_offset`, so only an error value can describe a failure further down the recursion.
- **Everywhere else:** the condition that avoids the panic becomes a precondition. This covers the checksum read of `find_version`, the `total_entries() - 1` in the `get` error message, `extract_asm_immediate` overflow, the US-only table offsets, and the table slices of `ResourceTbl::from_rom`.

A node is rewritten in place: `copy_from_slice` writes exactly its 4 bytes, so the u32 pointer never spills past the node (`Relocation.Rewrite`, `Relocation.RewriteFrame`).

## Model

| member | source | states |
|---|---|---|
| Bytes.U32Bytes | src/extract.rs:243-244 | the 4 bytes written for a pointer read back, big-endian, as that pointer |
| Bytes.U32BytesOfBE32 | src/extract.rs:244 | writing back the u32 read at an offset reproduces those 4 bytes exactly (the other half of the round trip) |
| Versions.TotalEntries | src/versions.rs:10-14 | the entry count is the number of whole 12-byte records between table start and end, minus the terminator: the table holds n+1 records and not n+2 |
| Versions.NaleTotalEntries | src/versions.rs:17-22 | the NALE layout has room for its terminator and holds 2132 entries |
| Versions.FindIn | src/versions.rs:32-38 | the result is absent exactly when no entry has the checksum pair; otherwise it is an entry with that pair and no earlier entry has it |
| Versions.FindVersion | src/versions.rs:24-39 | for an image of at least 0x18 bytes: NALE exactly when the big-endian words at 0x10 and 0x14 are its two checksums, otherwise none |
| Utf8.FirstScalar | ssb-resource/src/rom_info.rs:67 | the first encoded scalar is a Unicode scalar value (no surrogate, below 0x110000); it is the byte itself for ASCII and at least 0x80 otherwise |
| Utf8.FirstChar | ssb-resource/src/rom_info.rs:67 | `chars().next()` is absent exactly for the empty string; an ASCII first byte is that character |
| Utf8.AsciiValid | ssb-resource/src/rom_info.rs:39-42 | `str::from_utf8` accepts every all-ASCII slice, such as the name and game code of a real header |
| Utf8.ValidStartsOnBoundary | ssb-resource/src/rom_info.rs:39-42 | a slice `from_utf8` accepts never starts with a continuation byte, and its first scalar fits in it |
| Utf8.LastOfFour | ssb-resource/src/rom_info.rs:106 | `code.get(3..4)` on the 4-byte game code is the last byte, or nothing exactly when that byte is a continuation byte |
| Utf8.AsciiSubstring | ssb-resource/src/rom_info.rs:106 | on ASCII text every in-range `get(lo..hi)` exists and is well-formed |
| RomInfo.MediaFormatFromGameCode | ssb-resource/src/rom_info.rs:64-76 | a format is returned exactly when the first character is its letter (N, D, E); the empty code gives `UnknownMediaFormat('?')`; any other first character is carried in `UnknownMediaFormat` |
| RomInfo.CountryFromGameCode | ssb-resource/src/rom_info.rs:103-130 | a country is returned exactly when byte range 3..4 is a substring and its character is one of that country's letters (X, Y and Z for Others); no such substring gives `UnknownCountry('?')`; any other character is carried in `UnknownCountry` |
| RomInfo.HeaderFromRom | ssb-resource/src/rom_info.rs:34-50 | `ImageTooSmall(len)` exactly below 0x40 bytes; then `Name` exactly when 0x20..0x34 is not UTF-8; then `GameCode` exactly when 0x3b..0x3f is not; a header has the big-endian checksums at 0x10 and 0x14, that name and game code, and version byte 0x3f; with both strings valid, parsing succeeds exactly when both the format and the country are recognised; a format error is returned before any country error, and a parsed header carries the format and country the two game-code maps give |
| RomInfo.EncodeHeader | ssb-resource/src/rom_info.rs:37-43 | the header fields laid out at the offsets the parser reads fill exactly 0x40 bytes |
| RomInfo.HeaderRoundTrip | ssb-resource/src/rom_info.rs:34-50 | a header whose format and country agree with its game code and whose strings are well-formed is parsed back unchanged from its layout |
| RomInfo.SignExtend16 | ssb-resource/src/rom_info.rs:137 | `x as i16 as i32` lies in the i16 range and agrees with x modulo 2^16 |
| RomInfo.LowerPart | ssb-resource/src/rom_info.rs:139-144 | the low part agrees with the lower instruction modulo 2^16 and lies in -0x8000..0xFFFF |
| RomInfo.ExtractAsmImmediate | ssb-resource/src/rom_info.rs:136-147 | when the i32 sum does not overflow, the result is an i32 and is the sign-extended upper immediate shifted by 16 plus the low part |
| RomInfo.ImmediateOfSignedSplit | ssb-resource/src/rom_info.rs:136-147 | for a sign-extending low instruction, the assembler's %hi/%lo split of any constant in range is decoded back to that constant |
| RomInfo.ImmediateOfUnsignedSplit | ssb-resource/src/rom_info.rs:139-146 | for a zero-extending low instruction (top byte 0x20), the plain upper/lower halves of any i32 are decoded back to it |
| Ssb.GameCodeOf | ssb-resource/src/ssb.rs:35-39 | each release's game code is four bytes |
| Ssb.CheckVersion | ssb-resource/src/ssb.rs:32-42 | a version is returned exactly when the game code is that version's code (NALE, NALJ, NALP, NALU); otherwise `UnknownVersion` carries the code |
| Ssb.VersionFromRom | ssb-resource/src/ssb.rs:27-31 | header errors come back wrapped in `N64ParseError`; a version is returned exactly when the header parses and its code bytes are that version's; a parsed header with another code gives `UnknownVersion` of those bytes |
| Ssb.AsU32 | ssb-resource/src/ssb.rs:98 | `as u32` on an i32 keeps the value modulo 2^32 |
| Ssb.ResourceTblFromRom | ssb-resource/src/ssb.rs:86-109 | with the US offsets of lines 46-55: `start` is the u32 at 0x41F08, `entries_count` is the immediate of the instructions at 0x527E8/0x527F8, `raw` is the `12 * entries_count` bytes from `start`, `eof` is the next 12 bytes, and `ptr_to_next_tbl` is the u32 that begins `eof` |
| Ssb.Ssb64FromRom | ssb-resource/src/ssb.rs:67-72 | succeeds exactly when the version is recognised, with the version's error otherwise; a result holds the image and the table located for NtscU |
| Ssb.ResourceTblAgreesWithSsbInfo | ssb-resource/src/ssb.rs:100-106 | a version record spanning `start` to past the terminator has exactly `entries_count` entries, and the terminator word it reads for the last id is `ptr_to_next_tbl` |
| Relocation.StartingOffset | src/extract.rs:69-74 | the chain head of either kind |
| Relocation.ExternalFiles | src/extract.rs:76-81 | ids exist exactly for an external chain, and they are its list |
| Relocation.Rewrite | src/extract.rs:239-244 | rewriting a node keeps the buffer length |
| Relocation.RewriteFrame | src/extract.rs:244 | after a rewrite the node reads back as `4 * ptr` and every byte outside the node's 4 bytes is unchanged |
| Relocation.Walk | src/extract.rs:232-253 | a finished walk logs one pointer per visited node, uses at most the given number of nodes, and keeps the buffer length |
| Relocation.Log | src/extract.rs:246-247 | one log entry per visited node |
| Relocation.LogFids | src/extract.rs:236-247 | the ids a walk logs are the external list up to the last node, then zeros once the list runs out; only zeros for an internal chain |
| Relocation.TakeFileIdDrop | src/extract.rs:236-246 | after k nodes, `next()` on the remaining iterator yields the k-th external id (0 once exhausted or with no list) and leaves the iterator advanced by one |
| Relocation.RewriteNode | src/extract.rs:239-244 | both fields are read from the buffer before the write, and the buffer becomes the rewritten one |
| Relocation.WriteRelocations | src/extract.rs:232-253 | the buffer becomes the walk's final buffer, and the returned log is the log of the walk's nodes and pointers with the chain's file ids, in traversal order |
| Relocation.WalkStart | src/extract.rs:237-238 | the walk is empty exactly when it starts at the end marker; otherwise it starts at the head, with that node's scaled pointer |
| Relocation.WalkNodesInBounds | src/extract.rs:238-239 | every visited node lies inside the buffer and is not the end marker |
| Relocation.WalkPtrsBounded | src/extract.rs:241-243 | every logged pointer is a multiple of 4 and at most `4 * 0xFFFF` |
| Relocation.WalkFuel | src/extract.rs:238-250 | a walk that ends within some bound gives the same result under any larger bound, so the bound does not change what is modelled |
| Relocation.WalkUnchangedOutside | src/extract.rs:239-244 | bytes outside every visited node keep their original value |
| Relocation.WalkLastWrite | src/extract.rs:244 | a node that no later node overlaps holds its logged pointer as a big-endian u32 when the walk ends |
| Relocation.WalkReadsOriginal | src/extract.rs:238-250 | when visited nodes do not overlap, each next offset and pointer the walk uses is the one stored in the original buffer |
| Relocation.WalkOfChain | src/extract.rs:238-250 | conversely, a non-overlapping chain of the original buffer is walked to its end with one step per node, visiting exactly its nodes and logging exactly its pointers |
| Relocation.ChainRewritten | src/extract.rs:232-253 | for such a chain, each node afterwards holds its pointer and every other byte is unchanged |
| Relocation.RunChain | src/extract.rs:221-227 | an absent chain leaves the buffer as it was and logs nothing; a chain that is run keeps the buffer length and produces a log |
| Relocation.Relocate | src/extract.rs:213-230 | the internal chain runs first and the external chain second over the same buffer; the buffer ends as after both, and each log is present exactly when its chain is |
| Relocation.TwoNodeWalk | src/extract.rs:232-253 | a chain at 0 with nodes (4, 0x10) and (0xFFFF, 0x20) visits 0 and 0x10 and leaves 0x40 and 0x80 in them |
| Relocation.TwoNodeRewrites | src/extract.rs:239-249 | in that chain each node's fields are read before its own write, and the second node is read from the buffer after the first write |
| Relocation.TwoNodeLogs | src/extract.rs:236-247 | that chain is logged with id 0 twice when internal, ids 5 and 7 with the id list [5, 7], and ids 5 and then 0 with the list [5] |
| Extract.CheckedU16 | src/extract.rs:99-104 | the field is absent exactly when both bytes are 0xFF; otherwise it is the big-endian u16 |
| Extract.DecodeRecord | src/extract.rs:115-121 | compressed exactly when bit 31 is set; the offset is the other 31 bits, so the first word is the flag bit plus the offset; the size is 4 times the u16 at bytes 6..8; the heads are the checked u16s at 4..6 and 8..10 |
| Extract.EncodeRecord | src/extract.rs:115-133 | an encodable record is laid out as 12 bytes |
| Extract.DecodeEncodeRecord | src/extract.rs:115-133 | decoding an encoded record gives the record back |
| Extract.EncodeDecodeRecord | src/extract.rs:115-133 | every decoded record is encodable, and its encoding reproduces the first 10 bytes, which are all that `get` reads |
| Extract.Be16Chunks | src/extract.rs:164-166 | `2n` bytes give exactly n ids, and id i is the big-endian u16 at bytes 2i..2i+2, in input order |
| Extract.ParseExterns | src/extract.rs:158-167 | fails exactly on an odd length, with `MalformedList` naming it; otherwise returns `len/2` ids in input order |
| Extract.JoinU16s | src/extract.rs:158-167 | a stored id list takes two bytes per id |
| Extract.ParseJoin | src/extract.rs:158-167 | parsing the stored bytes of any id list gives that list back |
| Extract.JoinParse | src/extract.rs:158-167 | storing the ids parsed from an even-length slice gives back that slice |
| Extract.Get | src/extract.rs:98-156 | fails with the range error exactly when `id >= total_entries`, and then that error is `OutOfRange(id, total, total - 1)` before anything is read; a result's record lies inside the image and its offset is the record's first word with bit 31 cleared |
| Extract.FromRecord | src/extract.rs:122-155 | an entry built from a decoded record never fails with the range error and carries the record's offset |
| Extract.ExternList | src/extract.rs:134-146 | reading the id list never fails with the range error |
| Extract.NextEntryOffset | src/extract.rs:169-179 | never fails with the range error; a result is the next record's offset with bit 31 cleared, or for the last id the terminator's whole first word |
| Extract.ExternListOk | src/extract.rs:134-146 | a list that is read spans from the end of the payload to the next data offset, inside the image, with an even length, and is that span read as big-endian u16s |
| Extract.GetRecord | src/extract.rs:115-133 | an entry that is resolved is the record at `table_start + 12 * id`; its compression flag is bit 31 of the first word and its offset the other bits; its payload is exactly the `4 * size field` bytes at `table_end + offset`, inside the image; a head of 0xFFFF is absent and any other head x starts a chain at `4 * x` |
| Extract.GetExternals | src/extract.rs:129-146 | an external chain starts at 4 times its head, and its ids are the big-endian u16s from the end of the payload up to `table_end` plus the next record's offset (the terminator word for the last id), an even span inside the image |
| Extract.GetNeedsNext | src/extract.rs:134-136 | an entry with an external chain resolves only if the entry after it resolves too |
| Extract.GetOutcome | src/extract.rs:106-156 | for an id inside the table, `get` succeeds exactly when the 12-byte record, the payload at its 31-bit offset with 4 times its size field, and, for an external chain, the id list up to the next data offset all lie inside the image with the list span even; so the slice and underflow errors occur exactly where the source panics |
| Extract.GetMalformedList | src/extract.rs:131-146 | an entry whose id list is in bounds with an odd number of bytes fails with `MalformedList` of that number |
| Extract.ExternListOutcome | src/extract.rs:134-146 | the list is read exactly when the next data offset is readable, not before the payload's end, inside the image, and the span is even; an odd in-bounds span is `MalformedList(span)` |
| Extract.NextEntryOffsetOutcome | src/extract.rs:169-179 | for an inner id the next offset is found exactly when `get(id + 1)` succeeds; for the last id exactly when the terminator's first word is inside the image |
| Extract.FromRecordOutcome | src/extract.rs:122-146 | building the entry succeeds exactly when the payload lies inside the image and, for an external chain, the id list is read |
| Extract.GetDecoded | src/extract.rs:115-121 | with the record inside the image, `get` builds the entry from the decoded record, whose offset is the first word with bit 31 cleared, whose size is 4 times the u16 at byte 6, and whose external head is absent exactly on 0xFFFF |
| Extract.SmallTableEntry0 | src/extract.rs:98-156 | in a two-entry sample table, entry 0 is compressed at offset 0 with a 4-byte payload and an external chain at 0 whose ids are 5 and 7 |
| Extract.SmallTableEntry1 | src/extract.rs:98-156 | in the same table, the last entry (id `total_entries - 1`) resolves: uncompressed at offset 8, with an internal chain at 4 |
| Extract.SmallTableExterns | src/extract.rs:169-179 | entry 0's id list ends at entry 1's offset and holds 5 and 7 |
| Extract.SmallTableEntry2 | src/extract.rs:106-113 | id 2 (`total_entries`) fails with `OutOfRange(2, 2, 1)` |

## Left out

- `data` (src/extract.rs:10-57) is not modelled. It is filesystem reading and writing plus orchestration.
- `decompress` (src/extract.rs:209-211) is not modelled. It is a foreign call into the `vpk0` crate. `relocate` is modelled on the buffer it is given.
- `generate_filename` and `generate_reloc_filename` are not modelled. They are path formatting.
- The `Display` impl of `FileReloc` is not modelled. It renders text.
- src/main.rs, ssb-resource/src/export/mod.rs and ssb-resource/src/lib.rs are not modelled. They hold no logic of the core.
- `ResourceTbl::get_entry` and the `unimplemented!()` arms of `get_table_offsets` are not modelled. Non-US versions are excluded by precondition.
- `RomInfo.N64ParseError`: the `Utf8Error` value inside `Name` and `GameCode` is not modelled. Only which of the two strings failed is kept.
- `Versions.TotalEntries`, `Extract.Get`, `Ssb.ResourceTblFromRom`: machine integers are modelled as unbounded naturals. `usize` wrap-around in `table_start + id * 12` and `table_end + offset` is not modelled, since it cannot happen on a real 32- or 64-bit host with an image in memory. The `u32` sum `start + 12 * entries_count` is required not to overflow.
- `Extract.Get`: slices past the image and the negative `next_start - exoffstart` abort the source program. Here they are the errors `SliceOutOfBounds` and `OffsetUnderflow`. The `anyhow` message texts are not modelled. The `total_entries() - 1` in the range error would underflow for a table without entries, so `Get` requires at least one entry.
- `Relocation.WriteRelocations`: the source loop has no bound and panics on a node past the buffer. The method takes a ghost bound and requires the walk to end within it inside the buffer. `Relocation.WalkFuel` shows that the bound does not affect the result. A cyclic chain (where the source loops forever) is outside the precondition.
- `Relocation.WriteRelocations`: the `Relocations::with_capacity(64)` hint has no observable effect and is not modelled.
- `Relocation.Relocate`: the source takes and returns an owned `Vec<u8>`. The model rewrites an `array<Byte>` in place. Its `?` on `write_relocations` can never fail, because both `try_into` calls convert exactly two bytes.
- `Extract.TableFile`: `raw` borrows a slice of the image. The model holds a copy of those bytes, so aliasing with the image is not modelled.
- `Ssb.TableOffsets`: `get_table_offsets` is a constant map. Its content is stated through `Ssb.ResourceTblFromRom`.
