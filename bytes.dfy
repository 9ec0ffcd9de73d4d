/** Bytes and the big-endian 32-bit field that Buffer.writeUInt32BE produces. */
module Bytes {

  type byte = x: int | 0 <= x < 0x100

  const TwoTo32: int := 0x1_0000_0000

  type uint32 = x: int | 0 <= x < TwoTo32

  /** The four bytes Buffer.writeUInt32BE stores for n, most significant first. */
  function BE32(n: uint32): (r: seq<byte>)
    ensures |r| == 4
  {
    [n / 0x100_0000, n / 0x1_0000 % 0x100, n / 0x100 % 0x100, n % 0x100]
  }

  /** The value a big-endian reader sees in four bytes (Buffer.readUInt32BE). */
  function ReadBE32(b: seq<byte>): (n: uint32)
    requires |b| == 4
  {
    ((b[0] as int * 0x100 + b[1]) * 0x100 + b[2]) * 0x100 + b[3]
  }

  /** Reading back what was written gives the value. */
  lemma ReadWriteBE32(n: uint32)
    ensures ReadBE32(BE32(n)) == n
  {
    var b := BE32(n);
    assert b[0] as int * 0x100 + b[1] == n / 0x1_0000;
    assert (b[0] as int * 0x100 + b[1]) * 0x100 + b[2] == n / 0x100;
  }

  /** Writing what was read gives the bytes back: the field has no redundancy. */
  lemma WriteReadBE32(b: seq<byte>)
    requires |b| == 4
    ensures BE32(ReadBE32(b)) == b
  {
    var n := ReadBE32(b);
    assert n / 0x100 == (b[0] as int * 0x100 + b[1]) * 0x100 + b[2];
    assert n / 0x1_0000 == b[0] as int * 0x100 + b[1];
    assert n / 0x100_0000 == b[0];
  }
}
