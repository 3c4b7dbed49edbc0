/** The constant table of known ROM images and the checksum lookup over it
    (src/versions.rs). */
module Versions {
  import opened Bytes

  /** One known image: its checksum pair and where its resource table lies.
      The table is `tableStart..tableEnd`, 12-byte records, the last of which
      is a dummy terminator. */
  datatype SsbInfo = SsbInfo(version: string, crc: (U32, U32), tableStart: nat, tableEnd: nat)

  /** `total_entries` does not underflow: the table has room for the terminator record. */
  predicate HasTerminator(info: SsbInfo)
  {
    info.tableStart + 12 <= info.tableEnd
  }

  /** Number of real records: whole 12-byte records in the table, minus the terminator. */
  function TotalEntries(info: SsbInfo): (n: nat)
    requires HasTerminator(info)
    ensures info.tableStart + 12 * (n + 1) <= info.tableEnd < info.tableStart + 12 * (n + 2)
  {
    (info.tableEnd - info.tableStart) / 12 - 1
  }

  /** The US NTSC image, the only layout the program knows. */
  const Nale := SsbInfo("NALE", (0x916B8B5B, 0x780B85A4), 0x1AC870, 0x1B2C6C)

  const SsbRomsInfo: seq<SsbInfo> := [Nale]

  /** The NALE table holds 2132 real records before its terminator. */
  lemma NaleTotalEntries()
    ensures HasTerminator(Nale) && TotalEntries(Nale) == 2132
  {
  }

  /** The first entry of `table` whose checksum pair is `crc`, if any. */
  function FindIn(table: seq<SsbInfo>, crc: (U32, U32)): (r: Option<SsbInfo>)
    ensures r.None? <==> forall i :: 0 <= i < |table| ==> table[i].crc != crc
    ensures r.Some? ==> exists i :: 0 <= i < |table| && table[i] == r.value && r.value.crc == crc
                                   && forall j :: 0 <= j < i ==> table[j].crc != crc
  {
    if table == [] then None
    else if table[0].crc == crc then Some(table[0])
    else
      var r := FindIn(table[1..], crc);
      assert r.Some? ==> exists i :: 0 < i < |table| && table[i] == r.value && r.value.crc == crc
                                     && forall j :: 0 <= j < i ==> table[j].crc != crc by {
        if r.Some? {
          var k :| 0 <= k < |table[1..]| && table[1..][k] == r.value && r.value.crc == crc
                   && forall j :: 0 <= j < k ==> table[1..][j].crc != crc;
          assert table[k + 1] == r.value;
          assert forall j :: 0 <= j < k + 1 ==> table[j].crc != crc by {
            forall j | 0 <= j < k + 1 ensures table[j].crc != crc {
              if j > 0 { assert table[j] == table[1..][j - 1]; }
            }
          }
        }
      }
      assert r.None? ==> forall i :: 0 <= i < |table| ==> table[i].crc != crc by {
        if r.None? {
          forall i | 0 <= i < |table| ensures table[i].crc != crc {
            if i > 0 { assert table[i] == table[1..][i - 1]; }
          }
        }
      }
      r
  }

  /** `find_version`: the known image whose checksum pair equals the big-endian
      words at 0x10 and 0x14. Slicing `rom[0x10..0x18]` panics on a shorter image. */
  function FindVersion(rom: seq<Byte>): (r: Option<SsbInfo>)
    requires |rom| >= 0x18
    ensures r == if BE32(rom, 0x10) == 0x916B8B5B && BE32(rom, 0x14) == 0x780B85A4
                 then Some(Nale) else None
  {
    FindIn(SsbRomsInfo, (BE32(rom, 0x10), BE32(rom, 0x14)))
  }
}
