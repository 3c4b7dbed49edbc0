/** The resource-table resolver of src/extract.rs: the 12-byte records of the
    table, the payload slice each one names, its chain heads, and the list of
    external file ids stored after a payload. */
module Extract {
  import opened Bytes
  import opened Versions
  import opened Relocation

  const ENTRY_SIZE: nat := 12
  const COMPRESS_BIT: nat := 0x8000_0000

  /** Why `TableFile::get` gives up. `OutOfRange` is the error it reports for
      an id past the table. A slice past the end of the image and the
      subtraction `next_start - exoffstart` going below zero abort the source
      program; here they are the errors `SliceOutOfBounds` and
      `OffsetUnderflow`. `MalformedList` is the error of `parse_externs`. */
  datatype ExtractError =
    | OutOfRange(id: nat, entries: nat, lastId: int)
    | MalformedList(size: nat)
    | SliceOutOfBounds(from: nat, to: nat, len: nat)
    | OffsetUnderflow(nextStart: nat, dataEnd: nat)

  /** The fields of one 12-byte table record, as `get` reads them: bit 31 of
      the first word, the remaining 31 bits (an offset from the end of the
      table), the two chain heads (`None` for 0xFFFF) and the payload size in
      bytes. The last two bytes of a record are not read. */
  datatype Record = Record(compressed: bool, offset: nat, inHead: Option<U16>, size: nat, exHead: Option<U16>)

  /** `read_checked_u16`: the big-endian u16 at `i`, or `None` for 0xFFFF. */
  function CheckedU16(s: seq<Byte>, i: nat): (r: Option<U16>)
    requires i + 2 <= |s|
    ensures r.None? <==> s[i] == 0xFF && s[i + 1] == 0xFF
    ensures r.Some? ==> r.value == BE16(s, i) && r.value < 0xFFFF
  {
    var v := BE16(s, i);
    if v == 0xFFFF then None else Some(v)
  }

  /** The field reads at the top of `TableFile::get` (with `read_checked_u16`)
      applied to one 12-byte record. */
  function DecodeRecord(entry: seq<Byte>): (r: Record)
    requires |entry| == ENTRY_SIZE
    ensures r.compressed <==> entry[0] >= 0x80
    ensures r.offset < COMPRESS_BIT
    ensures BE32(entry, 0) == (if r.compressed then COMPRESS_BIT else 0) + r.offset
    ensures r.size == 4 * BE16(entry, 6)
    ensures r.inHead == CheckedU16(entry, 4) && r.exHead == CheckedU16(entry, 8)
  {
    var word := BE32(entry, 0);
    Record(word >= COMPRESS_BIT, word % COMPRESS_BIT, CheckedU16(entry, 4), 4 * BE16(entry, 6), CheckedU16(entry, 8))
  }

  /** A record that has a 12-byte encoding. */
  predicate Encodable(r: Record)
  {
    && r.offset < COMPRESS_BIT
    && r.size % 4 == 0 && r.size / 4 <= 0xFFFF
    && r.inHead != Some(0xFFFF) && r.exHead != Some(0xFFFF)
  }

  /** The 12 bytes of a record, with zeros in the two unread bytes. */
  function EncodeRecord(r: Record): (e: seq<Byte>)
    requires Encodable(r)
    ensures |e| == ENTRY_SIZE
  {
    U32Bytes((if r.compressed then COMPRESS_BIT else 0) + r.offset)
      + U16Bytes(if r.inHead.Some? then r.inHead.value else 0xFFFF)
      + U16Bytes(r.size / 4)
      + U16Bytes(if r.exHead.Some? then r.exHead.value else 0xFFFF)
      + [0, 0]
  }

  /** Decoding an encoded record gives the record back. */
  lemma DecodeEncodeRecord(r: Record)
    requires Encodable(r)
    ensures DecodeRecord(EncodeRecord(r)) == r
  {
    var e := EncodeRecord(r);
    var word := (if r.compressed then COMPRESS_BIT else 0) + r.offset;
    assert e[..4] == U32Bytes(word);
    assert BE32(e, 0) == BE32(U32Bytes(word), 0);
    assert e[4..6] == U16Bytes(if r.inHead.Some? then r.inHead.value else 0xFFFF);
    assert BE16(e, 4) == BE16(e[4..6], 0);
    assert e[6..8] == U16Bytes(r.size / 4);
    assert BE16(e, 6) == BE16(e[6..8], 0);
    assert e[8..10] == U16Bytes(if r.exHead.Some? then r.exHead.value else 0xFFFF);
    assert BE16(e, 8) == BE16(e[8..10], 0);
    DivModOf(word, COMPRESS_BIT, if r.compressed then 1 else 0, r.offset);
  }

  /** Encoding a decoded record gives back the ten bytes `get` reads. */
  lemma EncodeDecodeRecord(entry: seq<Byte>)
    requires |entry| == ENTRY_SIZE
    ensures Encodable(DecodeRecord(entry))
    ensures EncodeRecord(DecodeRecord(entry))[..10] == entry[..10]
  {
    var r := DecodeRecord(entry);
    var e := EncodeRecord(r);
    U32BytesOfBE32(entry, 0);
    U16BytesOfBE16(entry, 4);
    U16BytesOfBE16(entry, 6);
    U16BytesOfBE16(entry, 8);
    assert e[..4] == entry[..4] && e[4..6] == entry[4..6] && e[6..8] == entry[6..8] && e[8..10] == entry[8..10];
    assert e[..10] == e[..4] + e[4..6] + e[6..8] + e[8..10];
    assert entry[..10] == entry[..4] + entry[4..6] + entry[6..8] + entry[8..10];
  }

  /** The big-endian u16s of `raw`, two bytes each, in order. */
  function Be16Chunks(raw: seq<Byte>): (ids: seq<U16>)
    requires |raw| % 2 == 0
    ensures |ids| == |raw| / 2
    ensures forall i :: 0 <= i < |ids| ==> ids[i] == BE16(raw, 2 * i)
    decreases |raw|
  {
    if raw == [] then []
    else
      var rest := Be16Chunks(raw[2..]);
      assert forall i :: 0 <= i < |rest| ==> rest[i] == BE16(raw, 2 * (i + 1)) by {
        forall i | 0 <= i < |rest| ensures rest[i] == BE16(raw, 2 * (i + 1)) {
          assert raw[2..][2 * i] == raw[2 * (i + 1)] && raw[2..][2 * i + 1] == raw[2 * (i + 1) + 1];
        }
      }
      [BE16(raw, 0)] + rest
  }

  /** `parse_externs`: an odd number of bytes is an error naming that number;
      otherwise the list of big-endian u16 file ids. */
  function ParseExterns(raw: seq<Byte>): (r: Result<seq<U16>, ExtractError>)
    ensures r.Err? <==> |raw| % 2 != 0
    ensures r.Err? ==> r.error == MalformedList(|raw|)
    ensures r.Ok? ==> |r.value| == |raw| / 2 && forall i :: 0 <= i < |r.value| ==> r.value[i] == BE16(raw, 2 * i)
  {
    if |raw| % 2 != 0 then Err(MalformedList(|raw|)) else Ok(Be16Chunks(raw))
  }

  /** The bytes of a list of file ids, as the table stores it. */
  function JoinU16s(ids: seq<U16>): (raw: seq<Byte>)
    ensures |raw| == 2 * |ids|
  {
    if ids == [] then [] else U16Bytes(ids[0]) + JoinU16s(ids[1..])
  }

  /** Parsing the stored form of a list gives the list back. */
  lemma {:induction false} ParseJoin(ids: seq<U16>)
    ensures ParseExterns(JoinU16s(ids)) == Ok(ids)
  {
    if ids != [] {
      ParseJoin(ids[1..]);
      var raw := JoinU16s(ids);
      assert raw[2..] == JoinU16s(ids[1..]);
      assert raw[..2] == U16Bytes(ids[0]);
      assert BE16(raw, 0) == BE16(raw[..2], 0);
      assert Be16Chunks(raw) == [BE16(raw, 0)] + Be16Chunks(raw[2..]);
      assert ids == [ids[0]] + ids[1..];
    }
  }

  /** Storing a parsed list gives back the bytes it was parsed from. */
  lemma {:induction false} JoinParse(raw: seq<Byte>)
    requires |raw| % 2 == 0
    ensures JoinU16s(Be16Chunks(raw)) == raw
    decreases |raw|
  {
    if raw != [] {
      JoinParse(raw[2..]);
      U16BytesOfBE16(raw, 0);
      assert Be16Chunks(raw)[1..] == Be16Chunks(raw[2..]);
      assert raw == raw[..2] + raw[2..];
    }
  }

  /** `TableFile`: one resolved table entry, with its payload as stored
      (compressed or not) and the heads of its relocation chains. */
  datatype TableFile = TableFile(id: nat, offset: nat, compressed: bool, raw: seq<Byte>,
                                 inreloc: Option<RelocInfo>, exreloc: Option<RelocInfo>)

  /** Where record `id` starts in the image. */
  function RecordAt(info: SsbInfo, id: nat): nat
  {
    info.tableStart + id * ENTRY_SIZE
  }

  /** Where, as an offset from the end of the table, the data stored after
      the payload of record `id` ends: the 31-bit offset of the next record,
      or for the last record the whole first word of the terminator record. */
  ghost function NextDataOffset(rom: seq<Byte>, info: SsbInfo, id: nat): nat
    requires HasTerminator(info) && id < TotalEntries(info)
    requires RecordAt(info, id + 1) + 4 <= |rom|
  {
    var word := BE32(rom, RecordAt(info, id + 1));
    if id + 1 < TotalEntries(info) then word % COMPRESS_BIT else word
  }

  /** `TableFile::get`. The id is checked against the table before anything
      is read; an entry with an external chain needs the offset of the entry
      after it, which is itself looked up with `get` (so a broken later entry
      makes this lookup fail too). The error message prints
      `total_entries() - 1`, so a table without any real record is excluded.
      What a successful lookup returns is stated by `GetRecord` and
      `GetExternals`. */
  function Get(id: nat, rom: seq<Byte>, info: SsbInfo): (r: Result<TableFile, ExtractError>)
    requires HasTerminator(info) && TotalEntries(info) >= 1
    ensures (r.Err? && r.error.OutOfRange?) <==> id >= TotalEntries(info)
    ensures id >= TotalEntries(info) ==> r == Err(OutOfRange(id, TotalEntries(info), TotalEntries(info) - 1))
    ensures r.Ok? ==> RecordAt(info, id) + ENTRY_SIZE <= |rom|
                      && r.value.offset == BE32(rom, RecordAt(info, id)) % COMPRESS_BIT
    decreases TotalEntries(info) - id, 3
  {
    var total := TotalEntries(info);
    if id >= total then Err(OutOfRange(id, total, total - 1))
    else
      var start := RecordAt(info, id);
      var end := start + ENTRY_SIZE;
      if end > |rom| then Err(SliceOutOfBounds(start, end, |rom|))
      else
        var entry := rom[start..end];
        assert BE32(entry, 0) == BE32(rom, start);
        var rec := DecodeRecord(entry);
        DivModOf(BE32(entry, 0), COMPRESS_BIT, if rec.compressed then 1 else 0, rec.offset);
        FromRecord(id, rom, info, rec)
  }

  /** The rest of `TableFile::get` once the record is decoded: the entry `id` described by its decoded record: the
      payload slice, the internal chain head, and for an external chain the
      list of file ids after the payload. */
  function FromRecord(id: nat, rom: seq<Byte>, info: SsbInfo, rec: Record): (r: Result<TableFile, ExtractError>)
    requires HasTerminator(info) && TotalEntries(info) >= 1 && id < TotalEntries(info)
    ensures r.Err? ==> !r.error.OutOfRange?
    ensures r.Ok? ==> r.value.offset == rec.offset
    decreases TotalEntries(info) - id, 2
  {
    var fstart := info.tableEnd + rec.offset;
    var fend := fstart + rec.size;
    if fend > |rom| then Err(SliceOutOfBounds(fstart, fend, |rom|))
    else
      var raw := rom[fstart..fend];
      var inreloc := if rec.inHead.Some? then Some(Internal(rec.inHead.value * 4)) else None;
      if rec.exHead.None? then Ok(TableFile(id, rec.offset, rec.compressed, raw, inreloc, None))
      else
        match ExternList(id, rom, info, rec.offset + rec.size)
        case Err(e) => Err(e)
        case Ok(externs) =>
          Ok(TableFile(id, rec.offset, rec.compressed, raw, inreloc, Some(External(rec.exHead.value * 4, externs))))
  }

  /** The closure of `TableFile::get` that builds the external chain: the file ids stored after a payload that ends
      at `dataEnd` (an offset from the end of the table) and before the data
      of the next record. */
  function ExternList(id: nat, rom: seq<Byte>, info: SsbInfo, dataEnd: nat): (r: Result<seq<U16>, ExtractError>)
    requires HasTerminator(info) && TotalEntries(info) >= 1 && id < TotalEntries(info)
    ensures r.Err? ==> !r.error.OutOfRange?
    decreases TotalEntries(info) - id, 1
  {
    match NextEntryOffset(id, rom, info)
    case Err(e) => Err(e)
    case Ok(nextStart) =>
      if nextStart < dataEnd then Err(OffsetUnderflow(nextStart, dataEnd))
      else
        var exstart := dataEnd + info.tableEnd;
        var exend := exstart + (nextStart - dataEnd);
        if exend > |rom| then Err(SliceOutOfBounds(exstart, exend, |rom|))
        else ParseExterns(rom[exstart..exend])
  }

  /** `get_next_entry_offset`: the offset of the record after `id`, read
      through `get`, or for the last record the first word of the terminator
      record, taken whole. */
  function NextEntryOffset(id: nat, rom: seq<Byte>, info: SsbInfo): (r: Result<nat, ExtractError>)
    requires HasTerminator(info) && TotalEntries(info) >= 1 && id < TotalEntries(info)
    ensures r.Err? ==> !r.error.OutOfRange?
    ensures r.Ok? ==> RecordAt(info, id + 1) + 4 <= |rom| && r.value == NextDataOffset(rom, info, id)
    decreases TotalEntries(info) - id, 0
  {
    var next := id + 1;
    if next >= TotalEntries(info) then
      var start := RecordAt(info, next);
      if start + 4 > |rom| then Err(SliceOutOfBounds(start, start + 4, |rom|))
      else Ok(BE32(rom, start))
    else
      match Get(next, rom, info)
      case Err(e) => Err(e)
      case Ok(entry) => Ok(entry.offset)
  }

  /** A list of file ids that `ExternList` returns lies between the end of
      the payload and the data of the next record, and holds an even number
      of bytes read as big-endian u16s. */
  lemma ExternListOk(id: nat, rom: seq<Byte>, info: SsbInfo, dataEnd: nat)
    requires HasTerminator(info) && TotalEntries(info) >= 1 && id < TotalEntries(info)
    requires ExternList(id, rom, info, dataEnd).Ok?
    ensures NextEntryOffset(id, rom, info).Ok? && RecordAt(info, id + 1) + 4 <= |rom|
    ensures var listEnd := info.tableEnd + NextDataOffset(rom, info, id);
      && info.tableEnd + dataEnd <= listEnd <= |rom| && (listEnd - info.tableEnd - dataEnd) % 2 == 0
      && ExternList(id, rom, info, dataEnd).value == Be16Chunks(rom[info.tableEnd + dataEnd..listEnd])
  {
    var nextStart := NextEntryOffset(id, rom, info).value;
    assert dataEnd + info.tableEnd == info.tableEnd + dataEnd;
    assert dataEnd + info.tableEnd + (nextStart - dataEnd) == info.tableEnd + NextDataOffset(rom, info, id);
  }

  /** The list of file ids after a payload ending at `dataEnd` can be sliced:
      the next data offset is readable, does not precede `dataEnd`, and lies
      inside the image. */
  ghost predicate ListSpanFits(id: nat, rom: seq<Byte>, info: SsbInfo, dataEnd: nat)
    requires HasTerminator(info) && TotalEntries(info) >= 1 && id < TotalEntries(info)
  {
    && NextEntryOffset(id, rom, info).Ok?
    && dataEnd <= NextDataOffset(rom, info, id)
    && info.tableEnd + NextDataOffset(rom, info, id) <= |rom|
  }

  /** `get_next_entry_offset` fails only where the source does: for an inner
      id when `get` of the next id fails, and for the last id when the
      terminator's first word is past the end of the image. */
  lemma NextEntryOffsetOutcome(id: nat, rom: seq<Byte>, info: SsbInfo)
    requires HasTerminator(info) && TotalEntries(info) >= 1 && id < TotalEntries(info)
    ensures NextEntryOffset(id, rom, info).Ok? <==>
      if id + 1 < TotalEntries(info) then Get(id + 1, rom, info).Ok?
      else RecordAt(info, id + 1) + 4 <= |rom|
  {
  }

  /** The external list is read exactly when its span can be sliced and holds
      an even number of bytes; an odd in-bounds span is `MalformedList` of its
      length. */
  lemma ExternListOutcome(id: nat, rom: seq<Byte>, info: SsbInfo, dataEnd: nat)
    requires HasTerminator(info) && TotalEntries(info) >= 1 && id < TotalEntries(info)
    ensures ExternList(id, rom, info, dataEnd).Ok? <==>
      ListSpanFits(id, rom, info, dataEnd) && (NextDataOffset(rom, info, id) - dataEnd) % 2 == 0
    ensures ListSpanFits(id, rom, info, dataEnd) && (NextDataOffset(rom, info, id) - dataEnd) % 2 != 0 ==>
      ExternList(id, rom, info, dataEnd) == Err(MalformedList(NextDataOffset(rom, info, id) - dataEnd))
  {
    if ListSpanFits(id, rom, info, dataEnd) {
      var next := NextDataOffset(rom, info, id);
      assert dataEnd + info.tableEnd + (next - dataEnd) == info.tableEnd + next;
      assert |rom[dataEnd + info.tableEnd..info.tableEnd + next]| == next - dataEnd;
    }
  }

  /** For an id inside the table, `get` succeeds exactly when every slice it
      takes is inside the image and, for an entry with an external chain, the
      list span is in bounds and even: the record, the payload at its 31-bit
      offset with 4 times its size field, and the ids up to the next data
      offset. So each `SliceOutOfBounds`, `OffsetUnderflow` or
      `MalformedList` stands for a failure of one of these conditions. */
  lemma GetOutcome(id: nat, rom: seq<Byte>, info: SsbInfo)
    requires HasTerminator(info) && TotalEntries(info) >= 1 && id < TotalEntries(info)
    ensures Get(id, rom, info).Ok? <==>
      && RecordAt(info, id) + ENTRY_SIZE <= |rom|
      && var start := RecordAt(info, id);
         var dataEnd := BE32(rom, start) % COMPRESS_BIT + 4 * BE16(rom, start + 6);
         && info.tableEnd + dataEnd <= |rom|
         && (BE16(rom, start + 8) != 0xFFFF ==>
               ListSpanFits(id, rom, info, dataEnd) && (NextDataOffset(rom, info, id) - dataEnd) % 2 == 0)
  {
    var start := RecordAt(info, id);
    if start + ENTRY_SIZE <= |rom| {
      GetDecoded(id, rom, info);
      var rec := DecodeRecord(rom[start..start + ENTRY_SIZE]);
      FromRecordOutcome(id, rom, info, rec);
      ExternListOutcome(id, rom, info, rec.offset + rec.size);
      assert info.tableEnd + rec.offset + rec.size == info.tableEnd + (rec.offset + rec.size);
    }
  }

  /** `FromRecord` succeeds exactly when the payload is in the image and, for
      an external chain, the list is read. */
  lemma FromRecordOutcome(id: nat, rom: seq<Byte>, info: SsbInfo, rec: Record)
    requires HasTerminator(info) && TotalEntries(info) >= 1 && id < TotalEntries(info)
    ensures FromRecord(id, rom, info, rec).Ok? <==>
      && info.tableEnd + rec.offset + rec.size <= |rom|
      && (rec.exHead.Some? ==> ExternList(id, rom, info, rec.offset + rec.size).Ok?)
  {
  }

  /** An entry whose external id list is in bounds but has an odd number of
      bytes fails with `MalformedList` of that number. */
  lemma GetMalformedList(id: nat, rom: seq<Byte>, info: SsbInfo)
    requires HasTerminator(info) && TotalEntries(info) >= 1 && id < TotalEntries(info)
    requires RecordAt(info, id) + ENTRY_SIZE <= |rom|
    ensures var start := RecordAt(info, id);
      var dataEnd := BE32(rom, start) % COMPRESS_BIT + 4 * BE16(rom, start + 6);
      && info.tableEnd + dataEnd <= |rom|
      && BE16(rom, start + 8) != 0xFFFF
      && ListSpanFits(id, rom, info, dataEnd)
      && (NextDataOffset(rom, info, id) - dataEnd) % 2 != 0
      ==> Get(id, rom, info) == Err(MalformedList(NextDataOffset(rom, info, id) - dataEnd))
  {
    var start := RecordAt(info, id);
    GetDecoded(id, rom, info);
    var rec := DecodeRecord(rom[start..start + ENTRY_SIZE]);
    ExternListOutcome(id, rom, info, rec.offset + rec.size);
  }

  /** `get` of an id inside the table with its record in the image is
      `FromRecord` of the decoded record, whose offset is the low 31 bits of
      the first word and whose size is 4 times the u16 at byte 6. */
  lemma GetDecoded(id: nat, rom: seq<Byte>, info: SsbInfo)
    requires HasTerminator(info) && TotalEntries(info) >= 1 && id < TotalEntries(info)
    requires RecordAt(info, id) + ENTRY_SIZE <= |rom|
    ensures var start := RecordAt(info, id);
      var rec := DecodeRecord(rom[start..start + ENTRY_SIZE]);
      && Get(id, rom, info) == FromRecord(id, rom, info, rec)
      && rec.offset == BE32(rom, start) % COMPRESS_BIT
      && rec.size == 4 * BE16(rom, start + 6)
      && (rec.exHead.None? <==> BE16(rom, start + 8) == 0xFFFF)
  {
    var start := RecordAt(info, id);
    var rec := DecodeRecord(rom[start..start + ENTRY_SIZE]);
    RecordFields(rom, start);
    DivModOf(BE32(rom, start), COMPRESS_BIT, if rec.compressed then 1 else 0, rec.offset);
  }

  /** What `FromRecord` builds, field by field, from the decoded record. */
  lemma FromRecordOk(id: nat, rom: seq<Byte>, info: SsbInfo, rec: Record)
    requires HasTerminator(info) && TotalEntries(info) >= 1 && id < TotalEntries(info)
    requires FromRecord(id, rom, info, rec).Ok?
    ensures var r := FromRecord(id, rom, info, rec).value;
      && r.id == id && r.offset == rec.offset && r.compressed == rec.compressed
      && info.tableEnd + rec.offset + rec.size <= |rom|
      && r.raw == rom[info.tableEnd + rec.offset .. info.tableEnd + rec.offset + rec.size]
      && r.inreloc == (if rec.inHead.Some? then Some(Internal(4 * rec.inHead.value)) else None)
      && (r.exreloc.None? <==> rec.exHead.None?)
  {
  }

  /** `get` on an id inside the table decodes the record at `RecordAt`. */
  lemma GetUnfold(id: nat, rom: seq<Byte>, info: SsbInfo)
    requires HasTerminator(info) && TotalEntries(info) >= 1
    requires Get(id, rom, info).Ok?
    ensures id < TotalEntries(info) && RecordAt(info, id) + ENTRY_SIZE <= |rom|
    ensures var start := RecordAt(info, id);
      Get(id, rom, info) == FromRecord(id, rom, info, DecodeRecord(rom[start..start + ENTRY_SIZE]))
  {
  }

  /** The record at `start`, decoded, in terms of the bytes of the image. */
  lemma RecordFields(rom: seq<Byte>, start: nat)
    requires start + ENTRY_SIZE <= |rom|
    ensures var rec := DecodeRecord(rom[start..start + ENTRY_SIZE]);
      var word := BE32(rom, start);
      && rec.compressed == (word >= COMPRESS_BIT)
      && rec.offset < COMPRESS_BIT
      && word == (if rec.compressed then COMPRESS_BIT else 0) + rec.offset
      && rec.size == 4 * BE16(rom, start + 6)
      && rec.inHead == CheckedU16(rom, start + 4)
      && rec.exHead == CheckedU16(rom, start + 8)
  {
    var entry := rom[start..start + ENTRY_SIZE];
    assert BE32(entry, 0) == BE32(rom, start) && BE16(entry, 6) == BE16(rom, start + 6);
    assert entry[4] == rom[start + 4] && entry[5] == rom[start + 5];
    assert entry[8] == rom[start + 8] && entry[9] == rom[start + 9];
  }

  /** What a successful `get` returns, read from the bytes of record `id`:
      bit 31 of its first word is the compression flag and the other 31 bits
      the payload offset from the end of the table; the payload is the slice
      of 4 times the size field at that offset; a chain head of 0xFFFF is
      absent and any other value starts a chain at 4 times it. */
  lemma GetRecord(id: nat, rom: seq<Byte>, info: SsbInfo)
    requires HasTerminator(info) && TotalEntries(info) >= 1
    requires Get(id, rom, info).Ok?
    ensures var r := Get(id, rom, info).value;
      var start := RecordAt(info, id);
      var word := BE32(rom, start);
      var size := 4 * BE16(rom, start + 6);
      && id < TotalEntries(info)
      && start + ENTRY_SIZE <= |rom|
      && r.id == id
      && r.compressed == (word >= COMPRESS_BIT)
      && r.offset < COMPRESS_BIT
      && word == (if r.compressed then COMPRESS_BIT else 0) + r.offset
      && info.tableEnd + r.offset + size <= |rom|
      && r.raw == rom[info.tableEnd + r.offset .. info.tableEnd + r.offset + size]
      && r.inreloc == (if BE16(rom, start + 4) == 0xFFFF then None else Some(Internal(4 * BE16(rom, start + 4))))
      && (r.exreloc.None? <==> BE16(rom, start + 8) == 0xFFFF)
  {
    GetUnfold(id, rom, info);
    var start := RecordAt(info, id);
    var rec := DecodeRecord(rom[start..start + ENTRY_SIZE]);
    RecordFields(rom, start);
    FromRecordOk(id, rom, info, rec);
    var r := Get(id, rom, info).value;
    assert r == FromRecord(id, rom, info, rec).value;
    assert rec.size == 4 * BE16(rom, start + 6);
    assert rec.inHead == CheckedU16(rom, start + 4) && rec.exHead == CheckedU16(rom, start + 8);
  }

  /** The external chain of a successful `FromRecord` is the head field,
      scaled, with the list `ExternList` reads. */
  lemma FromRecordExreloc(id: nat, rom: seq<Byte>, info: SsbInfo, rec: Record)
    requires HasTerminator(info) && TotalEntries(info) >= 1 && id < TotalEntries(info)
    requires FromRecord(id, rom, info, rec).Ok? && FromRecord(id, rom, info, rec).value.exreloc.Some?
    ensures rec.exHead.Some? && ExternList(id, rom, info, rec.offset + rec.size).Ok?
    ensures FromRecord(id, rom, info, rec).value.exreloc.value
            == External(4 * rec.exHead.value, ExternList(id, rom, info, rec.offset + rec.size).value)
  {
  }

  /** For an entry with an external chain, the chain starts at 4 times the
      head field, and its file ids are the big-endian u16s stored from the
      end of the payload up to the data of the next record (its offset, or
      for the last record the terminator's first word). */
  lemma GetExternals(id: nat, rom: seq<Byte>, info: SsbInfo)
    requires HasTerminator(info) && TotalEntries(info) >= 1
    requires Get(id, rom, info).Ok? && Get(id, rom, info).value.exreloc.Some?
    ensures var r := Get(id, rom, info).value;
      var start := RecordAt(info, id);
      && id < TotalEntries(info)
      && start + ENTRY_SIZE <= |rom|
      && RecordAt(info, id + 1) + 4 <= |rom|
      && var listStart := info.tableEnd + r.offset + 4 * BE16(rom, start + 6);
      && var listEnd := info.tableEnd + NextDataOffset(rom, info, id);
      && listStart <= listEnd <= |rom| && (listEnd - listStart) % 2 == 0
      && r.exreloc.value == External(4 * BE16(rom, start + 8), Be16Chunks(rom[listStart..listEnd]))
  {
    GetUnfold(id, rom, info);
    var start := RecordAt(info, id);
    var rec := DecodeRecord(rom[start..start + ENTRY_SIZE]);
    RecordFields(rom, start);
    FromRecordExreloc(id, rom, info, rec);
    ExternListOk(id, rom, info, rec.offset + rec.size);
    ExternListShift(info.tableEnd, rec.offset, rec.size, Get(id, rom, info).value.offset, BE16(rom, start + 6),
                    NextDataOffset(rom, info, id));
  }

  /** The list bounds of `ExternListOk`, rewritten in terms of the fields of a record. */
  lemma ExternListShift(tableEnd: nat, offset: nat, size: nat, offset': nat, words: nat, next: nat)
    requires offset == offset' && size == 4 * words
    ensures tableEnd + (offset + size) == tableEnd + offset' + 4 * words
    ensures tableEnd + next - tableEnd - (offset + size) == tableEnd + next - (tableEnd + offset' + 4 * words)
  {
  }

  /** A successful lookup of an entry with an external chain has looked up
      the next entry successfully as well. */
  lemma GetNeedsNext(id: nat, rom: seq<Byte>, info: SsbInfo)
    requires HasTerminator(info) && TotalEntries(info) >= 1
    requires Get(id, rom, info).Ok? && Get(id, rom, info).value.exreloc.Some?
    requires id + 1 < TotalEntries(info)
    ensures Get(id + 1, rom, info).Ok?
  {
    GetUnfold(id, rom, info);
    var start := RecordAt(info, id);
    var rec := DecodeRecord(rom[start..start + ENTRY_SIZE]);
    FromRecordNeedsList(id, rom, info, rec);
    ExternListOk(id, rom, info, rec.offset + rec.size);
    NextEntryNeedsGet(id, rom, info);
  }

  /** An external chain in a successful `FromRecord` came from `ExternList`. */
  lemma FromRecordNeedsList(id: nat, rom: seq<Byte>, info: SsbInfo, rec: Record)
    requires HasTerminator(info) && TotalEntries(info) >= 1 && id < TotalEntries(info)
    requires FromRecord(id, rom, info, rec).Ok? && FromRecord(id, rom, info, rec).value.exreloc.Some?
    ensures ExternList(id, rom, info, rec.offset + rec.size).Ok?
  {
  }

  /** Before the last record, the next data offset is read through `get`. */
  lemma NextEntryNeedsGet(id: nat, rom: seq<Byte>, info: SsbInfo)
    requires HasTerminator(info) && TotalEntries(info) >= 1 && id + 1 < TotalEntries(info)
    requires NextEntryOffset(id, rom, info).Ok?
    ensures Get(id + 1, rom, info).Ok?
  {
  }

  /** A two-entry table at the start of a 48-byte image: the table ends at
      36, so its data starts there. */
  const SmallTable := SsbInfo("TEST", (0, 0), 0, 36)

  /** Compressed, offset 0, no internal chain, one word of payload, external chain at 0. */
  const SmallRecord0: seq<Byte> := [0x80, 0, 0, 0, 0xFF, 0xFF, 0, 1, 0, 0, 0, 0]
  /** Uncompressed, offset 8, internal chain at word 1, one word of payload, no external chain. */
  const SmallRecord1: seq<Byte> := [0, 0, 0, 8, 0, 1, 0, 1, 0xFF, 0xFF, 0, 0]
  /** The terminator: the data ends at offset 12. */
  const SmallTerminator: seq<Byte> := [0, 0, 0, 0x0C, 0, 0, 0, 0, 0, 0, 0, 0]
  /** Payload 0, the external ids 5 and 7 of entry 0, payload 1. */
  const SmallData: seq<Byte> := [0xAA, 0xBB, 0xCC, 0xDD, 0, 5, 0, 7, 1, 2, 3, 4]

  const SmallImage: seq<Byte> := SmallRecord0 + SmallRecord1 + SmallTerminator + SmallData

  /** Slicing a four-part concatenation gives back its parts. */
  lemma SliceParts(a: seq<Byte>, b: seq<Byte>, c: seq<Byte>, d: seq<Byte>)
    ensures var s := a + b + c + d;
      && s[..|a|] == a
      && s[|a|..|a| + |b|] == b
      && s[|a| + |b|..|a| + |b| + |c|] == c
      && s[|a| + |b| + |c|..] == d
  {
    var s := a + b + c + d;
    assert s[..|a| + |b| + |c|] == a + b + c;
    assert s[..|a| + |b|] == a + b;
  }

  /** The image read record by record and data slice by data slice. */
  lemma SmallImageParts()
    ensures |SmallImage| == 48
    ensures SmallImage[0..12] == SmallRecord0 && SmallImage[12..24] == SmallRecord1
    ensures BE32(SmallImage, 24) == 12
    ensures SmallImage[36..40] == [0xAA, 0xBB, 0xCC, 0xDD]
    ensures SmallImage[40..44] == [0, 5, 0, 7]
    ensures SmallImage[44..48] == [1, 2, 3, 4]
  {
    SliceParts(SmallRecord0, SmallRecord1, SmallTerminator, SmallData);
    var rom := SmallImage;
    assert rom[24..36] == SmallTerminator;
    assert BE32(rom, 24) == BE32(rom[24..36], 0);
    var data := rom[36..];
    assert data == SmallData;
    assert rom[36..40] == data[0..4] && rom[40..44] == data[4..8] && rom[44..48] == data[8..12];
  }

  /** Entry 1 is uncompressed at offset 8 with an internal chain at 4. */
  lemma SmallTableEntry1()
    ensures HasTerminator(SmallTable) && TotalEntries(SmallTable) == 2
    ensures Get(1, SmallImage, SmallTable) == Ok(TableFile(1, 8, false, [1, 2, 3, 4], Some(Internal(4)), None))
  {
    SmallImageParts();
    SmallRecords();
  }

  /** The two records decoded. */
  lemma SmallRecords()
    ensures DecodeRecord(SmallRecord0) == Record(true, 0, None, 4, Some(0))
    ensures DecodeRecord(SmallRecord1) == Record(false, 8, Some(1), 4, None)
  {
  }

  /** The ids of entry 0 are read up to offset 8, where entry 1's data starts. */
  lemma SmallTableExterns()
    ensures HasTerminator(SmallTable) && TotalEntries(SmallTable) == 2
    ensures ExternList(0, SmallImage, SmallTable, 4) == Ok([5, 7])
  {
    SmallImageParts();
    SmallTableEntry1();
    assert NextEntryOffset(0, SmallImage, SmallTable) == Ok(8);
    assert Be16Chunks([0, 5, 0, 7]) == [5, 7];
  }

  /** Entry 2 is past the table, which holds entries 0 and 1. */
  lemma SmallTableEntry2()
    ensures HasTerminator(SmallTable) && TotalEntries(SmallTable) == 2
    ensures Get(2, SmallImage, SmallTable) == Err(OutOfRange(2, 2, 1))
  {
  }

  /** Entry 0 is compressed at offset 0, and its external chain at 0 uses the
      ids 5 and 7 stored between its payload and the data of entry 1. */
  lemma SmallTableEntry0()
    ensures HasTerminator(SmallTable) && TotalEntries(SmallTable) == 2
    ensures Get(0, SmallImage, SmallTable)
         == Ok(TableFile(0, 0, true, [0xAA, 0xBB, 0xCC, 0xDD], None, Some(External(0, [5, 7]))))
  {
    var rom := SmallImage;
    var rec := Record(true, 0, None, 4, Some(0));
    SmallEntry0Record();
    SmallTableExterns();
    SmallImageParts();
    assert FromRecord(0, rom, SmallTable, rec)
        == Ok(TableFile(0, 0, true, rom[36..40], None, Some(External(0, [5, 7]))));
  }

  /** `get(0)` decodes the first record. */
  lemma SmallEntry0Record()
    ensures HasTerminator(SmallTable) && TotalEntries(SmallTable) == 2
    ensures Get(0, SmallImage, SmallTable) == FromRecord(0, SmallImage, SmallTable, Record(true, 0, None, 4, Some(0)))
  {
    SmallImageParts();
    SmallRecords();
  }
}
