/** The two `System.BitConverter` members the identifier code relies on,
    with the host's byte order as an explicit flag (`BitConverter.IsLittleEndian`):
    `GetBytes(long)` writes a 64-bit integer in the host's native order and
    `ToInt64(byte[], 0)` reads one back. */
module BitConverter {
  import opened Bytes

  const TwoTo63: int := 0x8000_0000_0000_0000
  const TwoTo64: int := 0x1_0000_0000_0000_0000

  /** .NET's `long`: a 64-bit two's-complement integer. */
  type Int64 = x: int | -TwoTo63 <= x < TwoTo63

  lemma Pow256Of8()
    ensures Pow256(8) == TwoTo64
  {
  }

  /** `BitConverter.GetBytes(value)`: the 8 bytes of the two's-complement
      representation of `value`, least significant first on a little-endian
      host and most significant first otherwise. */
  function GetBytes(value: Int64, isLittleEndian: bool): (r: seq<byte>)
    ensures |r| == 8
    ensures isLittleEndian ==> BigEndianValue(Reversed(r)) == value % TwoTo64
    ensures !isLittleEndian ==> BigEndianValue(r) == value % TwoTo64
  {
    var bigEndian := BigEndianBytes(value % TwoTo64, 8);
    Pow256Of8();
    ValueOfBytes(value % TwoTo64, 8);
    DivModUnique(value % TwoTo64, TwoTo64, 0, value % TwoTo64);
    ReversedTwice(bigEndian);
    if isLittleEndian then Reversed(bigEndian) else bigEndian
  }

  /** `BitConverter.ToInt64(bytes, 0)`: the first 8 bytes of `bytes`, read in
      the host's native order as a two's-complement integer. */
  function ToInt64(bytes: seq<byte>, isLittleEndian: bool): (r: Int64)
    requires |bytes| >= 8
    ensures var unsigned := BigEndianValue(if isLittleEndian then Reversed(bytes[..8]) else bytes[..8]);
      (r < 0 <==> unsigned >= TwoTo63) &&
      (r == unsigned || r == unsigned - TwoTo64)
  {
    var word := bytes[..8];
    Pow256Of8();
    var unsigned := BigEndianValue(if isLittleEndian then Reversed(word) else word);
    if unsigned >= TwoTo63 then unsigned - TwoTo64 else unsigned
  }

  /** Reversing an array twice restores it. */
  lemma ReversedTwice(s: seq<byte>)
    ensures Reversed(Reversed(s)) == s
  {
  }

  /** Reading back what `GetBytes` wrote, on the same host, gives the value. */
  lemma ToInt64OfGetBytes(value: Int64, isLittleEndian: bool)
    ensures ToInt64(GetBytes(value, isLittleEndian), isLittleEndian) == value
  {
    var unsigned := value % TwoTo64;
    var bigEndian := BigEndianBytes(unsigned, 8);
    ReversedTwice(bigEndian);
    assert GetBytes(value, isLittleEndian)[..8] == GetBytes(value, isLittleEndian);
    Pow256Of8();
    ValueOfBytes(unsigned, 8);
    DivModUnique(unsigned, TwoTo64, 0, unsigned);
    if value >= 0 {
      DivModUnique(value, TwoTo64, 0, value);
    } else {
      DivModUnique(value, TwoTo64, -1, value + TwoTo64);
    }
  }

  /** Writing back what `ToInt64` read, on the same host, gives the bytes. */
  lemma GetBytesOfToInt64(bytes: seq<byte>, isLittleEndian: bool)
    requires |bytes| == 8
    ensures GetBytes(ToInt64(bytes, isLittleEndian), isLittleEndian) == bytes
  {
    assert bytes[..8] == bytes;
    var bigEndian := if isLittleEndian then Reversed(bytes) else bytes;
    var unsigned := BigEndianValue(bigEndian);
    var value := ToInt64(bytes, isLittleEndian);
    Pow256Of8();
    if unsigned >= TwoTo63 {
      DivModUnique(value, TwoTo64, -1, unsigned);
    } else {
      DivModUnique(value, TwoTo64, 0, unsigned);
    }
    BytesOfValue(bigEndian);
    ReversedTwice(bytes);
  }

  /** A word stored most significant byte first and normalised to the host's
      order (reversed on a little-endian host, as `Array.Reverse` does) reads
      back the same on either host. */
  lemma ToInt64OfNormalised(bigEndian: seq<byte>, isLittleEndian: bool)
    requires |bigEndian| == 8
    ensures ToInt64(if isLittleEndian then Reversed(bigEndian) else bigEndian, isLittleEndian)
         == ToInt64(bigEndian, false)
  {
    ReversedTwice(bigEndian);
    assert bigEndian[..8] == bigEndian;
    assert Reversed(bigEndian)[..8] == Reversed(bigEndian);
  }
}
