/** Version detection and the location of the resource table in the earlier
    library crate (ssb-resource/src/ssb.rs). */
module Ssb {
  import opened Bytes
  import opened RomInfo
  import Versions

  datatype Ssb64Error =
    | N64ParseError(cause: RomInfo.N64ParseError)
    | UnknownVersion(gameCode: seq<Byte>)

  datatype Ssb64Version = NtscU | NtscJ | Pal | PalA

  /** The ASCII game code that identifies each release. */
  function GameCodeOf(v: Ssb64Version): (code: seq<Byte>)
    ensures |code| == 4
  {
    match v
    case NtscU => [0x4E, 0x41, 0x4C, 0x45] // "NALE"
    case NtscJ => [0x4E, 0x41, 0x4C, 0x4A] // "NALJ"
    case Pal => [0x4E, 0x41, 0x4C, 0x50]   // "NALP"
    case PalA => [0x4E, 0x41, 0x4C, 0x55]  // "NALU"
  }

  /** `Ssb64Version::check_version`: a release is recognised by its game code
      alone; any other code is reported back. */
  function CheckVersion(header: N64Header): (r: Result<Ssb64Version, Ssb64Error>)
    ensures forall v :: r == Ok(v) <==> header.gameCode == GameCodeOf(v)
    ensures r.Err? ==> r.error == UnknownVersion(header.gameCode)
  {
    var code := header.gameCode;
    if code == [0x4E, 0x41, 0x4C, 0x45] then Ok(NtscU)
    else if code == [0x4E, 0x41, 0x4C, 0x4A] then Ok(NtscJ)
    else if code == [0x4E, 0x41, 0x4C, 0x50] then Ok(Pal)
    else if code == [0x4E, 0x41, 0x4C, 0x55] then Ok(PalA)
    else Err(UnknownVersion(code))
  }

  /** `Ssb64Version::from_rom`: header errors are passed through, wrapped. */
  function VersionFromRom(rom: seq<Byte>): (r: Result<Ssb64Version, Ssb64Error>)
    ensures HeaderFromRom(rom).Err? ==> r == Err(N64ParseError(HeaderFromRom(rom).error))
    ensures forall v :: r == Ok(v) <==> HeaderFromRom(rom).Ok? && rom[0x3b..0x3f] == GameCodeOf(v)
    ensures r.Err? && HeaderFromRom(rom).Ok? ==> r.error == UnknownVersion(rom[0x3b..0x3f])
  {
    match HeaderFromRom(rom)
    case Err(e) => Err(N64ParseError(e))
    case Ok(header) => CheckVersion(header)
  }

  /** `get_table_offsets`: where the pointer to the resource table and the two
      instructions that load its entry count sit. Only the US release is known. */
  function TableOffsets(v: Ssb64Version): (r: (nat, (nat, nat)))
    requires v == NtscU
  {
    (0x41F08, (0x527E8, 0x527F8))
  }

  /** `extract_asm_immediate(..) as u32`: the i32 reinterpreted as unsigned. */
  function AsU32(x: int): (r: U32)
    requires -0x8000_0000 <= x < 0x8000_0000
    ensures r % 0x1_0000_0000 == x % 0x1_0000_0000
  {
    if x >= 0 then x else x + 0x1_0000_0000
  }

  datatype ResourceTbl = ResourceTbl(
    entriesCount: U32,
    start: U32,
    raw: seq<Byte>,
    eof: seq<Byte>,
    ptrToNextTbl: U32)

  /** `ResourceTbl::from_rom` for the US release does not panic: every read is
      in bounds, the immediate and the u32 end computation do not overflow. */
  predicate TableReadable(rom: seq<Byte>)
  {
    && |rom| >= 0x527F8 + 4
    && ImmediateFits(BE32(rom, 0x527E8), BE32(rom, 0x527F8))
    && var count := AsU32(ExtractAsmImmediate(BE32(rom, 0x527E8), BE32(rom, 0x527F8)));
    && BE32(rom, 0x41F08) + 12 * count < 0x1_0000_0000
    && BE32(rom, 0x41F08) + 12 * count + 12 <= |rom|
  }

  /** `ResourceTbl::from_rom` (US release only; the others are unimplemented). */
  function ResourceTblFromRom(rom: seq<Byte>, v: Ssb64Version): (t: ResourceTbl)
    requires v == NtscU && TableReadable(rom)
    ensures t.start == BE32(rom, 0x41F08)
    ensures t.entriesCount == AsU32(ExtractAsmImmediate(BE32(rom, 0x527E8), BE32(rom, 0x527F8)))
    ensures |t.raw| == 12 * t.entriesCount && t.raw == rom[t.start..t.start + 12 * t.entriesCount]
    ensures t.eof == rom[t.start + |t.raw|..t.start + |t.raw| + 12]
    ensures t.ptrToNextTbl == BE32(rom, t.start + |t.raw|)
  {
    var (ptrToTableStart, (sizeUpperInstruct, sizeLowerInstruct)) := TableOffsets(v);
    var start := BE32(rom, ptrToTableStart);
    var upper := BE32(rom, sizeUpperInstruct);
    var lower := BE32(rom, sizeLowerInstruct);
    var entriesCount := AsU32(ExtractAsmImmediate(upper, lower));
    var end := start + 12 * entriesCount;
    var raw := rom[start..end];
    var eof := rom[end..end + 12];
    ResourceTbl(entriesCount, start, raw, eof, BE32(eof, 0))
  }

  datatype Ssb64 = Ssb64(version: Ssb64Version, rom: seq<Byte>, resourceTable: ResourceTbl)

  /** `Ssb64::from_rom` panics for a recognised non-US release (its table
      offsets are unimplemented) and for an unreadable US table. */
  predicate FromRomDefined(rom: seq<Byte>)
  {
    VersionFromRom(rom).Ok? ==> VersionFromRom(rom).value == NtscU && TableReadable(rom)
  }

  /** `Ssb64::from_rom`: identify the release, then locate its resource table. */
  function Ssb64FromRom(rom: seq<Byte>): (r: Result<Ssb64, Ssb64Error>)
    requires FromRomDefined(rom)
    ensures r.Ok? <==> VersionFromRom(rom).Ok?
    ensures r.Err? ==> r.error == VersionFromRom(rom).error
    ensures r.Ok? ==> r.value.version == NtscU && r.value.rom == rom
                      && r.value.resourceTable == ResourceTblFromRom(rom, NtscU)
  {
    match VersionFromRom(rom)
    case Err(e) => Err(e)
    case Ok(version) => Ok(Ssb64(version, rom, ResourceTblFromRom(rom, version)))
  }

  /** The two crates describe one table: the later program's version record
      with `table_start = start` and `table_end` just past the terminator
      record has exactly `entries_count` entries, and the terminator word the
      later program reads for the last id is `ptr_to_next_tbl`. */
  lemma ResourceTblAgreesWithSsbInfo(rom: seq<Byte>)
    requires TableReadable(rom)
    ensures var t := ResourceTblFromRom(rom, NtscU);
            var info := Versions.SsbInfo("NALE", (0, 0), t.start, t.start + 12 * t.entriesCount + 12);
            && Versions.HasTerminator(info)
            && Versions.TotalEntries(info) == t.entriesCount
            && info.tableStart + 12 * Versions.TotalEntries(info) + 4 <= |rom|
            && BE32(rom, info.tableStart + 12 * Versions.TotalEntries(info)) == t.ptrToNextTbl
  {
    var t := ResourceTblFromRom(rom, NtscU);
    var info := Versions.SsbInfo("NALE", (0, 0), t.start, t.start + 12 * t.entriesCount + 12);
    assert (info.tableEnd - info.tableStart) / 12 == t.entriesCount + 1;
  }
}
