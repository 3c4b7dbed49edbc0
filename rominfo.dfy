/** Parsing of the 64-byte N64 cartridge header and the MIPS immediate
    helper (ssb-resource/src/rom_info.rs). */
module RomInfo {
  import opened Bytes
  import Utf8

  /** Why a header could not be parsed. The UTF-8 error value carried by
      `Name` and `GameCode` in the source is not modelled. */
  datatype N64ParseError =
    | ImageTooSmall(len: nat)
    | Name
    | GameCode
    | UnknownMediaFormat(format: char)
    | UnknownCountry(country: char)

  datatype N64MediaFormat = Cart | Disk | ExpandableCart

  datatype N64CountryCode =
    | GenericNtsc | Brazilian | Chinese | German | NorthAmerica | French
    | Gateway64Ntsc | Dutch | Italian | Japanese | Korean | Gateway64Pal
    | Canadian | European | Spanish | Australian | Scandinavian | Others

  /** The identifying fields of a header; `name` and `gameCode` are the bytes
      of the two `&str` slices, which are well-formed UTF-8. */
  datatype N64Header = N64Header(
    crc1: U32,
    crc2: U32,
    name: seq<Byte>,
    gameCode: seq<Byte>,
    format: N64MediaFormat,
    countryCode: N64CountryCode,
    version: Byte)

  /** Nintendo's letter for each media format (first character of a game code). */
  function FormatLetter(f: N64MediaFormat): char
  {
    match f
    case Cart => 'N'
    case Disk => 'D'
    case ExpandableCart => 'E'
  }

  /** `N64MediaFormat::from_game_code`: decided by the first character. */
  function MediaFormatFromGameCode(code: seq<Byte>): (r: Result<N64MediaFormat, N64ParseError>)
    requires Utf8.Valid(code)
    ensures forall f :: r == Ok(f) <==> |code| > 0 && code[0] as char == FormatLetter(f)
    ensures code == [] ==> r == Err(UnknownMediaFormat('?'))
    ensures r.Err? && code != [] ==> r.error == UnknownMediaFormat(Utf8.FirstChar(code).value)
  {
    match Utf8.FirstChar(code)
    case Some('N') => Ok(Cart)
    case Some('D') => Ok(Disk)
    case Some('E') => Ok(ExpandableCart)
    case Some(unk) => Err(UnknownMediaFormat(unk))
    case None => Err(UnknownMediaFormat('?'))
  }

  /** The letters that denote each region (fourth character of a game code). */
  function CountryLetters(c: N64CountryCode): set<char>
  {
    match c
    case GenericNtsc => {'A'}
    case Brazilian => {'B'}
    case Chinese => {'C'}
    case German => {'D'}
    case NorthAmerica => {'E'}
    case French => {'F'}
    case Gateway64Ntsc => {'G'}
    case Dutch => {'H'}
    case Italian => {'I'}
    case Japanese => {'J'}
    case Korean => {'K'}
    case Gateway64Pal => {'L'}
    case Canadian => {'N'}
    case European => {'P'}
    case Spanish => {'S'}
    case Australian => {'U'}
    case Scandinavian => {'W'}
    case Others => {'X', 'Y', 'Z'}
  }

  /** `N64CountryCode::from_game_code`: decided by the one-byte substring `code.get(3..4)`. */
  function CountryFromGameCode(code: seq<Byte>): (r: Result<N64CountryCode, N64ParseError>)
    ensures forall c :: r == Ok(c) <==>
      Utf8.Substring(code, 3, 4).Some? && code[3] as char in CountryLetters(c)
    ensures Utf8.Substring(code, 3, 4).None? ==> r == Err(UnknownCountry('?'))
    ensures r.Err? && Utf8.Substring(code, 3, 4).Some? ==> r.error == UnknownCountry(code[3] as char)
  {
    match Utf8.Substring(code, 3, 4)
    case None => Err(UnknownCountry('?'))
    case Some(sub) =>
      assert sub[0] == code[3];
      match sub[0] as char
      case 'A' => Ok(GenericNtsc)
      case 'B' => Ok(Brazilian)
      case 'C' => Ok(Chinese)
      case 'D' => Ok(German)
      case 'E' => Ok(NorthAmerica)
      case 'F' => Ok(French)
      case 'G' => Ok(Gateway64Ntsc)
      case 'H' => Ok(Dutch)
      case 'I' => Ok(Italian)
      case 'J' => Ok(Japanese)
      case 'K' => Ok(Korean)
      case 'L' => Ok(Gateway64Pal)
      case 'N' => Ok(Canadian)
      case 'P' => Ok(European)
      case 'S' => Ok(Spanish)
      case 'U' => Ok(Australian)
      case 'W' => Ok(Scandinavian)
      case 'X' => Ok(Others)
      case 'Y' => Ok(Others)
      case 'Z' => Ok(Others)
      case unk => Err(UnknownCountry(unk))
  }

  /** `N64Header::from_rom`. Checks, in this order: length, name, game code,
      media format, country. */
  function HeaderFromRom(rom: seq<Byte>): (r: Result<N64Header, N64ParseError>)
    ensures r == Err(ImageTooSmall(|rom|)) <==> |rom| < 0x40
    ensures r == Err(Name) <==> |rom| >= 0x40 && !Utf8.Valid(rom[0x20..0x34])
    ensures r == Err(GameCode) <==>
      |rom| >= 0x40 && Utf8.Valid(rom[0x20..0x34]) && !Utf8.Valid(rom[0x3b..0x3f])
    ensures r.Ok? ==>
      && |rom| >= 0x40
      && r.value.crc1 == BE32(rom, 0x10)
      && r.value.crc2 == BE32(rom, 0x14)
      && r.value.name == rom[0x20..0x34]
      && r.value.gameCode == rom[0x3b..0x3f]
      && r.value.version == rom[0x3f]
    ensures |rom| >= 0x40 && Utf8.Valid(rom[0x20..0x34]) && Utf8.Valid(rom[0x3b..0x3f]) ==>
      (r.Ok? <==> MediaFormatFromGameCode(rom[0x3b..0x3f]).Ok? && CountryFromGameCode(rom[0x3b..0x3f]).Ok?)
    // the media format is checked before the country, so its error wins
    ensures (&& |rom| >= 0x40 && Utf8.Valid(rom[0x20..0x34]) && Utf8.Valid(rom[0x3b..0x3f])
             && MediaFormatFromGameCode(rom[0x3b..0x3f]).Err?) ==>
      r == Err(MediaFormatFromGameCode(rom[0x3b..0x3f]).error)
    ensures (&& |rom| >= 0x40 && Utf8.Valid(rom[0x20..0x34]) && Utf8.Valid(rom[0x3b..0x3f])
             && MediaFormatFromGameCode(rom[0x3b..0x3f]).Ok? && CountryFromGameCode(rom[0x3b..0x3f]).Err?) ==>
      r == Err(CountryFromGameCode(rom[0x3b..0x3f]).error)
    ensures r.Ok? ==>
      && MediaFormatFromGameCode(rom[0x3b..0x3f]).Ok?
      && CountryFromGameCode(rom[0x3b..0x3f]).Ok?
      && r.value.format == MediaFormatFromGameCode(rom[0x3b..0x3f]).value
      && r.value.countryCode == CountryFromGameCode(rom[0x3b..0x3f]).value
  {
    if |rom| < 0x40 then Err(ImageTooSmall(|rom|))
    else
      var crc1 := BE32(rom, 0x10);
      var crc2 := BE32(rom, 0x14);
      var name := rom[0x20..0x34];
      if !Utf8.Valid(name) then Err(Name)
      else
        var gameCode := rom[0x3b..0x3f];
        if !Utf8.Valid(gameCode) then Err(GameCode)
        else
          var version := rom[0x3f];
          match MediaFormatFromGameCode(gameCode)
          case Err(e) => Err(e)
          case Ok(format) =>
            match CountryFromGameCode(gameCode)
            case Err(e) => Err(e)
            case Ok(country) => Ok(N64Header(crc1, crc2, name, gameCode, format, country, version))
  }

  function Zeros(n: nat): (z: seq<Byte>)
    ensures |z| == n
  {
    seq(n, _ => 0)
  }

  /** The header fields laid out as the first 0x40 bytes of an image. */
  function EncodeHeader(h: N64Header): (rom: seq<Byte>)
    requires |h.name| == 0x14 && |h.gameCode| == 4
    ensures |rom| == 0x40
  {
    Zeros(0x10) + U32Bytes(h.crc1) + U32Bytes(h.crc2) + Zeros(8) + h.name + Zeros(7) + h.gameCode + [h.version]
  }

  /** A header whose fields are consistent with one another can be written out and parsed back. */
  predicate Consistent(h: N64Header)
  {
    && |h.name| == 0x14 && Utf8.Valid(h.name)
    && |h.gameCode| == 4 && Utf8.Valid(h.gameCode)
    && MediaFormatFromGameCode(h.gameCode) == Ok(h.format)
    && CountryFromGameCode(h.gameCode) == Ok(h.countryCode)
  }

  lemma HeaderRoundTrip(h: N64Header)
    requires Consistent(h)
    ensures HeaderFromRom(EncodeHeader(h)) == Ok(h)
  {
    var rom := EncodeHeader(h);
    assert rom[0x10..0x14] == U32Bytes(h.crc1);
    assert rom[0x14..0x18] == U32Bytes(h.crc2);
    assert BE32(rom, 0x10) == BE32(U32Bytes(h.crc1), 0);
    assert BE32(rom, 0x14) == BE32(U32Bytes(h.crc2), 0);
    assert rom[0x20..0x34] == h.name;
    assert rom[0x3b..0x3f] == h.gameCode;
    assert rom[0x3f] == h.version;
  }

  /** `x as i16 as i32` for a 16-bit `x`. */
  function SignExtend16(x: U16): (v: int)
    ensures -0x8000 <= v < 0x8000
    ensures v % 0x1_0000 == x
  {
    if x < 0x8000 then x else x - 0x1_0000
  }

  /** The low part of the constant: the lower instruction's immediate,
      zero-extended when its top byte is 0x20 and sign-extended otherwise. */
  function LowerPart(lower: U32): (l: int)
    ensures -0x8000 <= l < 0x1_0000
    ensures l % 0x1_0000 == lower % 0x1_0000
  {
    if lower / 0x100_0000 == 0x20 then lower % 0x1_0000 else SignExtend16(lower % 0x1_0000)
  }

  /** The i32 addition in `extract_asm_immediate` overflows exactly when the
      upper immediate is 0x8000 and the low part is negative. */
  predicate ImmediateFits(upper: U32, lower: U32)
  {
    !(upper % 0x1_0000 == 0x8000 && LowerPart(lower) < 0)
  }

  /** `extract_asm_immediate`: the 32-bit constant built by an upper-immediate
      instruction and a following lower-immediate instruction. */
  function ExtractAsmImmediate(upper: U32, lower: U32): (r: int)
    requires ImmediateFits(upper, lower)
    ensures -0x8000_0000 <= r < 0x8000_0000
    ensures r - LowerPart(lower) == SignExtend16(upper % 0x1_0000) * 0x1_0000
  {
    SignExtend16(upper % 0x1_0000) * 0x1_0000 + LowerPart(lower)
  }

  /** The assembler's %hi/%lo split with a sign-extending low instruction
      (top byte not 0x20) is undone: the constant comes back. */
  lemma ImmediateOfSignedSplit(v: int, upper: U32, lower: U32)
    requires -0x8000_0000 <= v < 0x7FFF_8000
    requires upper % 0x1_0000 == ((v + 0x8000) / 0x1_0000) % 0x1_0000
    requires lower % 0x1_0000 == v % 0x1_0000 && lower / 0x100_0000 != 0x20
    ensures ImmediateFits(upper, lower) && ExtractAsmImmediate(upper, lower) == v
  {
    var hi := (v + 0x8000) / 0x1_0000;
    assert -0x8000 <= hi < 0x8000;
    var lo := v % 0x1_0000;
    assert SignExtend16(upper % 0x1_0000) == hi;
    if lo < 0x8000 {
      assert hi * 0x1_0000 == v - lo;
    } else {
      assert hi * 0x1_0000 == v - lo + 0x1_0000;
    }
  }

  /** With a zero-extending low instruction (top byte 0x20) the plain
      upper/lower halves of the constant are undone. */
  lemma ImmediateOfUnsignedSplit(v: int, upper: U32, lower: U32)
    requires -0x8000_0000 <= v < 0x8000_0000
    requires upper % 0x1_0000 == (v / 0x1_0000) % 0x1_0000
    requires lower % 0x1_0000 == v % 0x1_0000 && lower / 0x100_0000 == 0x20
    ensures ImmediateFits(upper, lower) && ExtractAsmImmediate(upper, lower) == v
  {
    var hi := v / 0x1_0000;
    assert -0x8000 <= hi < 0x8000;
    assert SignExtend16(upper % 0x1_0000) == hi;
  }
}
