/**
 * Unsigned big-endian byte order: the reading done by Go's
 * encoding/binary BigEndian.Uint16 and BigEndian.Uint32 (and a plain
 * byte-to-uint32 conversion for one byte), stated for any width, with the
 * writing direction as its inverse.
 */
module ByteOrder {

  type byte = b: int | 0 <= b < 0x100
  type uint32 = x: int | 0 <= x < 0x1_0000_0000

  /** 256^k: the number of values that k bytes can hold. */
  function Pow256(k: nat): (r: nat)
    ensures r >= 1
    ensures k >= 1 ==> r >= 256
  {
    if k == 0 then 1 else 256 * Pow256(k - 1)
  }

  /** The unsigned value of b, most significant byte first. */
  function BigEndian(b: seq<byte>): (r: nat)
    ensures r < Pow256(|b|)
  {
    if |b| == 0 then 0
    else
      var high := BigEndian(b[..|b| - 1]);
      assert high <= Pow256(|b| - 1) - 1;
      high * 256 + b[|b| - 1]
  }

  /** binary.BigEndian.Uint16: two bytes, high byte first. */
  function Uint16(b: seq<byte>): (r: nat)
    requires |b| == 2
    ensures r == BigEndian(b)
    ensures r < 0x1_0000
  {
    assert b[..1][..0] == [];
    assert b[..2][..1] == b[..1];
    b[0] as int * 0x100 + b[1] as int
  }

  /** binary.BigEndian.Uint32: four bytes, high byte first. */
  function Uint32(b: seq<byte>): (r: nat)
    requires |b| == 4
    ensures r == BigEndian(b)
    ensures r < 0x1_0000_0000
  {
    assert b[..1][..0] == [];
    assert b[..2][..1] == b[..1];
    assert b[..3][..2] == b[..2];
    assert b[..4][..3] == b[..3];
    assert b[..4] == b;
    assert BigEndian(b[..2]) == b[0] as int * 0x100 + b[1] as int;
    assert BigEndian(b[..3]) == BigEndian(b[..2]) * 0x100 + b[2] as int;
    b[0] as int * 0x100_0000 + b[1] as int * 0x1_0000 + b[2] as int * 0x100 + b[3] as int
  }

  /** The w-byte big-endian representation of n. */
  function EncodeBE(w: nat, n: nat): (r: seq<byte>)
    requires n < Pow256(w)
    ensures |r| == w
    ensures BigEndian(r) == n
  {
    if w == 0 then []
    else
      var high := EncodeBE(w - 1, n / 256);
      var r := high + [n % 256];
      assert r[..|r| - 1] == high;
      r
  }

  /** Writing back the value read from b gives b: a big-endian encoding is unique. */
  lemma {:induction false} EncodeOfDecode(b: seq<byte>)
    ensures EncodeBE(|b|, BigEndian(b)) == b
  {
    if |b| > 0 {
      var init := b[..|b| - 1];
      var high := BigEndian(init);
      var n := BigEndian(b);
      assert n == high * 256 + b[|b| - 1];
      assert n / 256 == high && n % 256 == b[|b| - 1];
      EncodeOfDecode(init);
      assert b == init + [b[|b| - 1]];
    }
  }
}
