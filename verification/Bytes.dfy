/** Octets and the little-endian 32-bit words that the repository writes into shared memory. */
module Bytes {

  type byte = x: int | 0 <= x < 256

  const TWO_TO_32: int := 0x1_0000_0000

  type uint32 = x: int | 0 <= x < TWO_TO_32

  /** What a C conversion to `uint32_t` keeps of an unsigned number. */
  function ToUint32(n: nat): (w: uint32)
    ensures n < TWO_TO_32 ==> w == n
  {
    n % TWO_TO_32
  }

  /** The four bytes of a word, least significant first. */
  function EncodeLE32(n: uint32): (bytes: seq<byte>)
    ensures |bytes| == 4
  {
    [n % 256, n / 0x100 % 256, n / 0x1_0000 % 256, n / 0x100_0000]
  }

  function DecodeLE32(bytes: seq<byte>): uint32
    requires |bytes| == 4
  {
    var a: int, b: int, c: int, d: int := bytes[0], bytes[1], bytes[2], bytes[3];
    a + 0x100 * b + 0x1_0000 * c + 0x100_0000 * d
  }

  lemma DecodeEncodeLE32(n: uint32)
    ensures DecodeLE32(EncodeLE32(n)) == n
  {
    var a, b := n / 0x100, n / 0x1_0000;
    assert b == a / 0x100 && n / 0x100_0000 == b / 0x100;
  }

  lemma EncodeDecodeLE32(bytes: seq<byte>)
    requires |bytes| == 4
    ensures EncodeLE32(DecodeLE32(bytes)) == bytes
  {
    var n := DecodeLE32(bytes);
    var b: int, c: int, d: int := bytes[1], bytes[2], bytes[3];
    assert n / 0x100 == b + 0x100 * c + 0x1_0000 * d;
    assert n / 0x1_0000 == c + 0x100 * d;
    assert n / 0x100_0000 == d;
  }

  /** The number that bytes spell, least significant byte first. */
  function Number(bytes: seq<byte>): nat {
    if bytes == [] then 0
    else
      var b: int := bytes[0];
      b + 256 * Number(bytes[1..])
  }

  lemma NumberOfFour(bytes: seq<byte>)
    requires |bytes| == 4
    ensures Number(bytes) == DecodeLE32(bytes)
  {
    var b := bytes[1..];
    assert b[1..] == bytes[2..] && b[1..][1..] == bytes[3..] && b[1..][1..][1..] == [];
    assert Number(bytes[3..]) == bytes[3] && Number(bytes[2..]) == (bytes[2] as int) + 256 * Number(bytes[3..]);
  }

  lemma NumberOfWord(n: uint32)
    ensures Number(EncodeLE32(n)) == n
  {
    NumberOfFour(EncodeLE32(n));
    DecodeEncodeLE32(n);
  }

  lemma NumberOfEight(low: seq<byte>, high: seq<byte>)
    requires |low| == 4
    ensures Number(low + high) == Number(low) + 0x1_0000_0000 * Number(high)
  {
    var all := low + high;
    NumberOfFour(low);
    assert all[1..][1..][1..][1..] == high;
    var a: int, b: int, c: int, d: int := low[0], low[1], low[2], low[3];
    assert all[1..][1..][1..] == [low[3]] + high;
    assert Number(all[1..][1..][1..]) == d + 256 * Number(high);
    assert Number(all[1..][1..]) == c + 256 * (d + 256 * Number(high));
    assert Number(all[1..]) == b + 256 * (c + 256 * (d + 256 * Number(high)));
    assert Number(all) == a + 256 * (b + 256 * (c + 256 * (d + 256 * Number(high))));
  }
}
