/** The parts of Rust's `str` that the header parser relies on: UTF-8
    well-formedness (`str::from_utf8`), the first character
    (`chars().next()`), and byte-range substrings (`str::get`). Well-formed
    sequences follow Table 3-7 of the Unicode Standard (also RFC 3629,
    section 4). A Rust `&str` is modelled by its bytes. */
module Utf8 {
  import opened Bytes

  /** Length of the encoded scalar that lead byte `b` starts, or 0 when `b`
      can never start one (0x80..0xC1 and 0xF5..0xFF). */
  function LeadLength(b: Byte): nat
  {
    if b < 0x80 then 1
    else if 0xC2 <= b <= 0xDF then 2
    else if 0xE0 <= b <= 0xEF then 3
    else if 0xF0 <= b <= 0xF4 then 4
    else 0
  }

  predicate Continuation(b: Byte)
  {
    0x80 <= b <= 0xBF
  }

  /** Allowed range of the second byte after lead `b0` (narrowed after E0, ED, F0, F4). */
  function SecondLow(b0: Byte): Byte
  {
    if b0 == 0xE0 then 0xA0 else if b0 == 0xF0 then 0x90 else 0x80
  }

  function SecondHigh(b0: Byte): Byte
  {
    if b0 == 0xED then 0x9F else if b0 == 0xF4 then 0x8F else 0xBF
  }

  /** `s` starts with one well-formed encoded scalar. */
  predicate ScalarAt(s: seq<Byte>)
  {
    && |s| > 0
    && var n := LeadLength(s[0]);
    && 0 < n <= |s|
    && (n >= 2 ==> SecondLow(s[0]) <= s[1] <= SecondHigh(s[0]))
    && (n >= 3 ==> Continuation(s[2]))
    && (n == 4 ==> Continuation(s[3]))
  }

  /** `str::from_utf8(s).is_ok()`. */
  predicate Valid(s: seq<Byte>)
    decreases |s|
  {
    s == [] || (ScalarAt(s) && Valid(s[LeadLength(s[0])..]))
  }

  /** The scalar value encoded at the start of `s`. */
  function FirstScalar(s: seq<Byte>): (c: int)
    requires ScalarAt(s)
    ensures 0 <= c < 0xD800 || 0xE000 <= c < 0x11_0000
    ensures s[0] < 0x80 ==> c == s[0]
    ensures s[0] >= 0x80 ==> c >= 0x80
  {
    var b0: int := s[0];
    match LeadLength(s[0])
    case 1 => b0
    case 2 => (b0 - 0xC0) * 0x40 + (s[1] as int - 0x80)
    case 3 => (b0 - 0xE0) * 0x1000 + (s[1] as int - 0x80) * 0x40 + (s[2] as int - 0x80)
    case 4 =>
      (b0 - 0xF0) * 0x4_0000 + (s[1] as int - 0x80) * 0x1000 + (s[2] as int - 0x80) * 0x40 + (s[3] as int - 0x80)
  }

  /** `s.chars().next()` on a well-formed `s`. */
  function FirstChar(s: seq<Byte>): (r: Option<char>)
    requires Valid(s)
    ensures r.None? <==> s == []
    ensures r.Some? && s[0] < 0x80 ==> r.value == s[0] as char
    ensures r.Some? && s[0] >= 0x80 ==> r.value as int >= 0x80
  {
    if s == [] then None else Some(FirstScalar(s) as char)
  }

  /** `str::is_char_boundary`: index 0, the end, or a byte that is not a continuation byte. */
  predicate IsCharBoundary(s: seq<Byte>, i: nat)
  {
    i == 0 || i == |s| || (i < |s| && !Continuation(s[i]))
  }

  /** `str::get(lo..hi)`: the substring when both ends are in range and on character boundaries. */
  function Substring(s: seq<Byte>, lo: nat, hi: nat): (r: Option<seq<Byte>>)
  {
    if lo <= hi <= |s| && IsCharBoundary(s, lo) && IsCharBoundary(s, hi) then Some(s[lo..hi]) else None
  }

  /** An all-ASCII byte string is well-formed UTF-8 (each byte is one scalar). */
  lemma {:induction false} AsciiValid(s: seq<Byte>)
    requires forall i :: 0 <= i < |s| ==> s[i] < 0x80
    ensures Valid(s)
    decreases |s|
  {
    if s != [] {
      AsciiValid(s[1..]);
    }
  }

  /** A well-formed string never starts with a continuation byte, so
      `from_utf8` rejects any slice that does. */
  lemma ValidStartsOnBoundary(s: seq<Byte>)
    requires Valid(s) && s != []
    ensures !Continuation(s[0])
    ensures 0 < LeadLength(s[0]) <= |s|
  {
  }

  /** `code.get(3..4)` on a 4-byte string: the last byte as a one-byte string,
      or nothing when that byte continues a multi-byte scalar. */
  lemma LastOfFour(s: seq<Byte>)
    requires |s| == 4
    ensures Substring(s, 3, 4) == if Continuation(s[3]) then None else Some([s[3]])
  {
    assert s[3..4] == [s[3]];
  }

  /** On ASCII text every in-range substring exists and is itself well-formed. */
  lemma AsciiSubstring(s: seq<Byte>, lo: nat, hi: nat)
    requires forall i :: 0 <= i < |s| ==> s[i] < 0x80
    requires lo <= hi <= |s|
    ensures Substring(s, lo, hi) == Some(s[lo..hi])
    ensures Valid(s[lo..hi])
  {
    var t := s[lo..hi];
    assert forall i :: 0 <= i < |t| ==> t[i] == s[lo + i];
    AsciiValid(t);
  }
}
