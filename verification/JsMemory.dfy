/** Little-endian words in the linear memory that the JavaScript glue shares with Go. */
module JsMemory {
  import opened ByteStrings

  function U32Bytes(v: int): (b: Bytes)
    ensures |b| == 4
  {
    [v % 256, v / 256 % 256, v / 256 / 256 % 256, v / 256 / 256 / 256 % 256]
  }

  function FromLE(b0: int, b1: int, b2: int, b3: int): int {
    b0 + 256 * b1 + 65536 * b2 + 16777216 * b3
  }

  /** DataView.getUint32(a, true). */
  function ReadU32(m: Bytes, a: nat): (v: int)
    requires a + 4 <= |m|
    ensures 0 <= v < TWO_32
  {
    FromLE(m[a], m[a + 1], m[a + 2], m[a + 3])
  }

  /** DataView.setUint32(a, v, true), which reduces v modulo 2^32. */
  function WriteU32(m: Bytes, a: nat, v: int): (m': Bytes)
    requires a + 4 <= |m|
    ensures |m'| == |m|
  {
    m[..a] + U32Bytes(v) + m[a + 4..]
  }

  lemma ReadBack(m: Bytes, a: nat, v: int)
    requires a + 4 <= |m|
    ensures ReadU32(WriteU32(m, a, v), a) == v % TWO_32
  {
  }

  lemma ReadElsewhere(m: Bytes, a: nat, v: int, b: nat)
    requires a + 4 <= |m| && b + 4 <= |m| && (b + 4 <= a || a + 4 <= b)
    ensures ReadU32(WriteU32(m, a, v), b) == ReadU32(m, b)
  {
  }

  // ---------- setInt64 and getInt64 ----------

  /** Low word v, then high word floor(v / 2^32); both are reduced by the DataView. */
  function WriteI64(m: Bytes, a: nat, v: int): Bytes
    requires a + 8 <= |m|
  {
    WriteU32(WriteU32(m, a, v), a + 4, v / TWO_32)
  }

  function ReadI64(m: Bytes, a: nat): int
    requires a + 8 <= |m|
  {
    ReadU32(m, a) + Signed32(ReadU32(m, a + 4)) * TWO_32
  }

  /** The pair undoes itself on exactly the signed 64-bit integers, negative ones included. */
  lemma Int64RoundTrip(m: Bytes, a: nat, v: int)
    requires a + 8 <= |m|
    ensures ReadI64(WriteI64(m, a, v), a) == v <==> -0x8000_0000_0000_0000 <= v < 0x8000_0000_0000_0000
  {
    var low := WriteU32(m, a, v);
    var h := v / TWO_32;
    ReadBack(m, a, v);
    ReadBack(low, a + 4, h);
    ReadElsewhere(low, a + 4, h, a);
    if -0x8000_0000 <= h < 0 {
      ModUnique(h, TWO_32, -1, h + TWO_32);
    } else if 0 <= h < 0x8000_0000 {
      ModUnique(h, TWO_32, 0, h);
    }
  }

  /** The lowest byte of a word comes first in memory. */
  lemma LittleEndian(b0: byte, b1: byte, b2: byte, b3: byte)
    ensures U32Bytes(b0 + 0x100 * b1 + 0x1_0000 * b2 + 0x100_0000 * b3) == [b0, b1, b2, b3]
  {
    var v := b0 + 0x100 * b1 + 0x1_0000 * b2 + 0x100_0000 * b3;
    ModUnique(v, 256, b1 + 0x100 * b2 + 0x1_0000 * b3, b0);
    ModUnique(b1 + 0x100 * b2 + 0x1_0000 * b3, 256, b2 + 0x100 * b3, b1);
    ModUnique(b2 + 0x100 * b3, 256, b3, b2);
  }

  /** Only the named bytes change, and the low word of a 64-bit value is the one at the address. */
  lemma {:induction false} WordsOfI64(m: Bytes, a: nat, v: int)
    requires a + 8 <= |m|
    ensures var u := WriteI64(m, a, v);
            |u| == |m| && u[..a] == m[..a] && u[a + 8..] == m[a + 8..]
            && ReadU32(u, a) == v % TWO_32 && ReadU32(u, a + 4) == v / TWO_32 % TWO_32
  {
    var low := WriteU32(m, a, v);
    ReadBack(m, a, v);
    ReadBack(low, a + 4, v / TWO_32);
    ReadElsewhere(low, a + 4, v / TWO_32, a);
    assert low[..a] == m[..a] && low[a + 8..] == m[a + 8..];
  }
}
