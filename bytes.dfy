/** Byte-level vocabulary shared by every module: bytes, fixed-width unsigned
    integers, big-endian reads and writes, and the Option/Result wrappers the
    Rust code gets from `Option` and `Result`. */
module Bytes {

  type Byte = x: int | 0 <= x < 0x100
  type U16 = x: int | 0 <= x < 0x1_0000
  type U32 = x: int | 0 <= x < 0x1_0000_0000

  datatype Option<T> = None | Some(value: T)

  datatype Result<T, E> = Ok(value: T) | Err(error: E)

  /** `u16::from_be_bytes` of the two bytes at `s[i..i+2]`. */
  function BE16(s: seq<Byte>, i: nat): U16
    requires i + 2 <= |s|
  {
    (s[i] as int) * 0x100 + s[i + 1]
  }

  /** `u32::from_be_bytes` (also `BE::read_u32`) of the four bytes at `s[i..i+4]`. */
  function BE32(s: seq<Byte>, i: nat): U32
    requires i + 4 <= |s|
  {
    (s[i] as int) * 0x100_0000 + (s[i + 1] as int) * 0x1_0000 + (s[i + 2] as int) * 0x100 + s[i + 3]
  }

  /** `u16::to_be_bytes`: the encoding that `BE16` reads back. */
  function U16Bytes(v: U16): (b: seq<Byte>)
    ensures |b| == 2 && BE16(b, 0) == v
  {
    [v / 0x100, v % 0x100]
  }

  /** `u32::to_be_bytes`: the encoding that `BE32` reads back. */
  function U32Bytes(v: U32): (b: seq<Byte>)
    ensures |b| == 4 && BE32(b, 0) == v
  {
    var q1 := v / 0x100;
    var q2 := q1 / 0x100;
    [q2 / 0x100, q2 % 0x100, q1 % 0x100, v % 0x100]
  }

  /** Reading four bytes and writing the value back gives the same bytes. */
  lemma U32BytesOfBE32(s: seq<Byte>, i: nat)
    requires i + 4 <= |s|
    ensures U32Bytes(BE32(s, i)) == s[i..i + 4]
  {
    var v := BE32(s, i);
    var q1 := (s[i] as int) * 0x1_0000 + (s[i + 1] as int) * 0x100 + s[i + 2];
    var q2 := (s[i] as int) * 0x100 + s[i + 1];
    DivModOf(v, 0x100, q1, s[i + 3]);
    DivModOf(q1, 0x100, q2, s[i + 2]);
    DivModOf(q2, 0x100, s[i], s[i + 1]);
  }

  /** Reading two bytes and writing the value back gives the same bytes. */
  lemma U16BytesOfBE16(s: seq<Byte>, i: nat)
    requires i + 2 <= |s|
    ensures U16Bytes(BE16(s, i)) == s[i..i + 2]
  {
    DivModOf(BE16(s, i), 0x100, s[i], s[i + 1]);
  }

  /** Quotient and remainder are determined by any exact decomposition. */
  lemma DivModOf(x: int, m: int, q: int, r: int)
    requires 0 < m && x == q * m + r && 0 <= r < m
    ensures x / m == q && x % m == r
  {
    var q', r' := x / m, x % m;
    assert q' * m + r' == q * m + r;
    if q' > q {
      assert (q' - q) * m == r - r';
      MulAtLeast(q' - q, m);
    } else if q' < q {
      assert (q - q') * m == r' - r;
      MulAtLeast(q - q', m);
    }
  }

  lemma MulAtLeast(a: int, m: int)
    requires a >= 1 && m > 0
    ensures a * m >= m
    decreases a
  {
    if a > 1 {
      MulAtLeast(a - 1, m);
      assert a * m == (a - 1) * m + m;
    }
  }
}
