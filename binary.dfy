/** Bytes and the fixed-width, little-endian unsigned 32-bit integers that
 *  `encoding/binary` reads and writes.  The container format uses this one
 *  encoding for the header's chunk size and for every record's length field.
 */
module Binary {

  type byte = b: int | 0 <= b < 256

  const U32_LIMIT: nat := 0x1_0000_0000

  /** Go's `uint32`. */
  type uint32 = x: int | 0 <= x < U32_LIMIT

  function Pow256(k: nat): (r: nat)
    ensures r > 0
  {
    if k == 0 then 1 else 256 * Pow256(k - 1)
  }

  lemma Pow256Four()
    ensures Pow256(4) == U32_LIMIT
  {
  }

  /** The k low-order base-256 digits of x, least significant first. */
  function LeBytes(x: nat, k: nat): (r: seq<byte>)
    ensures |r| == k
  {
    if k == 0 then [] else [x % 256] + LeBytes(x / 256, k - 1)
  }

  /** The number whose base-256 digits, least significant first, are s. */
  function LeValue(s: seq<byte>): (v: nat)
    ensures v < Pow256(|s|)
  {
    if s == [] then 0 else s[0] + 256 * LeValue(s[1..])
  }

  lemma {:induction false} LeValueOfLeBytes(x: nat, k: nat)
    requires x < Pow256(k)
    ensures LeValue(LeBytes(x, k)) == x
  {
    if k > 0 {
      LeValueOfLeBytes(x / 256, k - 1);
      assert LeBytes(x, k)[1..] == LeBytes(x / 256, k - 1);
    }
  }

  lemma {:induction false} LeBytesOfLeValue(s: seq<byte>)
    ensures LeBytes(LeValue(s), |s|) == s
  {
    if s != [] {
      LeBytesOfLeValue(s[1..]);
      var v := LeValue(s);
      assert v % 256 == s[0] && v / 256 == LeValue(s[1..]);
    }
  }

  /** `binary.LittleEndian` writing a `uint32`: four bytes, low byte first. */
  function PutUint32(x: uint32): (r: seq<byte>)
    ensures |r| == 4
    ensures r == [x % 0x100, x / 0x100 % 0x100, x / 0x1_0000 % 0x100, x / 0x100_0000]
  {
    LeBytesFour(x);
    assert x / 0x100 / 0x100 == x / 0x1_0000;
    assert x / 0x1_0000 / 0x100 == x / 0x100_0000 < 0x100;
    LeBytes(x, 4)
  }

  /** `binary.LittleEndian` reading a `uint32` from exactly four bytes. */
  function Uint32(b: seq<byte>): (x: uint32)
    requires |b| == 4
    ensures x % 256 == b[0]
  {
    Pow256Four();
    LeValue(b)
  }

  /** The four digits of LeBytes, written out. */
  lemma LeBytesFour(x: nat)
    ensures LeBytes(x, 4) == [x % 256, x / 256 % 256, x / 256 / 256 % 256, x / 256 / 256 / 256 % 256]
  {
    assert LeBytes(x / 256 / 256 / 256, 1) == [x / 256 / 256 / 256 % 256];
    assert LeBytes(x / 256 / 256, 2) == [x / 256 / 256 % 256] + LeBytes(x / 256 / 256 / 256, 1);
    assert LeBytes(x / 256, 3) == [x / 256 % 256] + LeBytes(x / 256 / 256, 2);
  }

  /** `binary.LittleEndian` reads the first byte as the lowest digit: the
   *  value of four bytes, written out. */
  lemma Uint32Digits(b: seq<byte>)
    requires |b| == 4
    ensures Uint32(b) == b[0] as int + 0x100 * b[1] as int + 0x1_0000 * b[2] as int + 0x100_0000 * b[3] as int
  {
    Pow256Four();
    assert b[3..][1..] == [];
    assert LeValue(b[3..]) == b[3];
    assert b[2..][1..] == b[3..];
    assert LeValue(b[2..]) == b[2] + 256 * LeValue(b[3..]);
    assert b[1..][1..] == b[2..];
    assert LeValue(b[1..]) == b[1] + 256 * LeValue(b[2..]);
    assert LeValue(b) == b[0] + 256 * LeValue(b[1..]);
  }

  /** Decoding an encoded `uint32` gives it back. */
  lemma Uint32OfPutUint32(x: uint32)
    ensures Uint32(PutUint32(x)) == x
  {
    Pow256Four();
    LeValueOfLeBytes(x, 4);
  }

  /** Encoding a decoded field gives back the same four bytes: the encoding is
   *  a bijection between `uint32` values and 4-byte strings. */
  lemma PutUint32OfUint32(b: seq<byte>)
    requires |b| == 4
    ensures PutUint32(Uint32(b)) == b
  {
    LeBytesOfLeValue(b);
  }
}
