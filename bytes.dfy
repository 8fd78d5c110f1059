/** Bytes and the little-endian 32-bit decoding used by the GLB reader. */
module Bytes {

  /** Rust's `u8`. */
  type byte = b: int | 0 <= b < 256

  /** Rust's `u32`. */
  type u32 = x: int | 0 <= x < 0x1_0000_0000

  /** A `[u8; 4]` array: magic, chunk tag or an undecoded 32-bit field. */
  type Bytes4 = s: seq<byte> | |s| == 4 witness [0, 0, 0, 0]

  /**
   * `u8_arr_to_u32`: `arr[0] | arr[1] << 8 | arr[2] << 16 | arr[3] << 24`.
   * Each shifted byte occupies its own eight bits, so the bitwise OR is
   * written here as the sum of the shifted values. The contract says that
   * byte `i` of the result is `arr[i]`, which is what little-endian means.
   */
  function U8ArrToU32(arr: Bytes4): (r: u32)
    ensures r % 256 == arr[0]
    ensures r / 256 % 256 == arr[1]
    ensures r / 65536 % 256 == arr[2]
    ensures r / 16777216 == arr[3]
  {
    var lo: int := arr[0] as int + arr[1] as int * 256;
    var hi: int := arr[2] as int + arr[3] as int * 256;
    LowHigh(lo, hi);
    ByteDigits(arr[0], arr[1]);
    ByteDigits(arr[2], arr[3]);
    lo + hi * 65536
  }

  /** Splitting a two-byte number into its bytes. */
  lemma ByteDigits(a: byte, b: byte)
    ensures (a as int + b as int * 256) % 256 == a && (a as int + b as int * 256) / 256 == b
  {
  }

  /** Splitting a four-byte number into its 16-bit halves. */
  lemma LowHigh(lo: int, hi: int)
    requires 0 <= lo < 65536 && 0 <= hi < 65536
    ensures (lo + hi * 65536) / 65536 == hi
    ensures (lo + hi * 65536) % 65536 == lo
    ensures (lo + hi * 65536) % 256 == lo % 256
    ensures (lo + hi * 65536) / 256 % 256 == lo / 256
    ensures (lo + hi * 65536) / 65536 % 256 == hi % 256
    ensures (lo + hi * 65536) / 16777216 == hi / 256
    ensures lo + hi * 65536 < 0x1_0000_0000
  {
  }

  /** The four little-endian bytes of a `u32`, as a GLB writer lays them out. */
  function U32ToLe(x: u32): (r: Bytes4)
  {
    [x % 256, x / 256 % 256, x / 65536 % 256, x / 16777216]
  }

  /** Decoding the little-endian bytes of a value gives the value back. */
  lemma DecodeEncode(x: u32)
    ensures U8ArrToU32(U32ToLe(x)) == x
  {
  }

  /** Encoding a decoded field gives back the same four bytes. */
  lemma EncodeDecode(arr: Bytes4)
    ensures U32ToLe(U8ArrToU32(arr)) == arr
  {
  }
}
