/** The time-ordered identifier of `TimeGuid.cs`: a 16-byte SQL Server
    `uniqueidentifier` whose bytes 0..10 hold a payload (random, or a fill
    pattern for range bounds) and whose bytes 10..16 hold the low 48 bits of
    a millisecond count, most significant byte first.

    A `DateTime` is its tick count (100 ns units since 0001-01-01); a
    `SqlGuid` is its 16 bytes, which `new SqlGuid(byte[])` and `ToByteArray()`
    pass through unchanged. */
module TimeGuid {
  import opened Bytes
  import opened BitConverter

  const TicksPerMillisecond: int := 10000

  /** `DateTime.MaxValue.Ticks` (9999-12-31 23:59:59.9999999). */
  const MaxTicks: int := 3155378975999999999

  /** The values a `DateTime` can hold, as tick counts. */
  type DateTimeTicks = t: int | 0 <= t <= MaxTicks

  const PayloadLength: nat := 10
  const GuidLength: nat := 16

  /** 2^48: the timestamp field keeps a millisecond count modulo this. */
  const TimestampSpan: nat := 0x1_0000_0000_0000

  type Payload = p: seq<byte> | |p| == PayloadLength witness seq(10, _ => 0)
  type Guid = g: seq<byte> | |g| == GuidLength witness seq(16, _ => 0)

  /** A payload of ten copies of `b`. */
  function Fill(b: byte): (p: Payload)
    ensures forall k :: 0 <= k < |p| ==> p[k] == b
  {
    seq(PayloadLength, _ => b)
  }

  /** The payload of `MaxTimeGuid`: ten 0xFF bytes. */
  const MaxFill: Payload := Fill(0xFF)
  /** The payload of `MinTimeGuid`: ten 0x00 bytes. */
  const MinFill: Payload := Fill(0x00)

  lemma Pow256Of6()
    ensures Pow256(6) == TimestampSpan
  {
  }

  // ---------------------------------------------------------------------
  // Specification
  // ---------------------------------------------------------------------

  /** `dateTime.Ticks / 10000L`: whole milliseconds, rounded down (the tick
      count is never negative, so C#'s truncating division rounds down). */
  function Milliseconds(dateTime: DateTimeTicks): (ms: Int64)
    ensures 0 <= ms
    ensures ms * TicksPerMillisecond <= dateTime < (ms + 1) * TicksPerMillisecond
  {
    dateTime / TicksPerMillisecond
  }

  /** The 6-byte timestamp field for millisecond count `ms`. */
  function TimestampField(ms: int): (f: seq<byte>)
    ensures |f| == 6
    ensures BigEndianValue(f) == ms % TimestampSpan
  {
    Pow256Of6();
    ValueOfBytes(ms % TimestampSpan, 6);
    BigEndianBytes(ms % TimestampSpan, 6)
  }

  /** The identifier for millisecond count `ms` and payload `payload`. */
  function Pack(ms: int, payload: Payload): (g: Guid)
    ensures g[..PayloadLength] == payload
    ensures BigEndianValue(g[PayloadLength..]) == ms % TimestampSpan
  {
    var packed := payload + TimestampField(ms);
    assert packed[PayloadLength..] == TimestampField(ms);
    packed
  }

  /** The largest identifier of millisecond `ms`. */
  function MaxGuid(ms: int): (g: Guid) { Pack(ms, MaxFill) }

  /** The smallest identifier of millisecond `ms`. */
  function MinGuid(ms: int): (g: Guid) { Pack(ms, MinFill) }

  /** The `DateTime` ticks recorded in an identifier. */
  function DecodeTicks(g: Guid): (t: DateTimeTicks)
    ensures t % TicksPerMillisecond == 0
    ensures t / TicksPerMillisecond < TimestampSpan
  {
    Pow256Of6();
    BigEndianValue(g[PayloadLength..]) * TicksPerMillisecond
  }

  // ---------------------------------------------------------------------
  // The code, step by step
  // ---------------------------------------------------------------------

  /** A fresh array holding `s` (for a `byte[]` produced by library code). */
  method ArrayOf(s: seq<byte>) returns (a: array<byte>)
    ensures fresh(a) && a[..] == s
  {
    a := new byte[|s|](i requires 0 <= i < |s| => s[i]);
  }

  /** `Array.Reverse(a)`. */
  method ReverseInPlace(a: array<byte>)
    modifies a
    ensures a[..] == Reversed(old(a[..]))
  {
    var n := a.Length;
    var i := 0;
    while i < n / 2
      invariant 0 <= i <= n / 2
      invariant forall k :: 0 <= k < i ==> a[k] == old(a[n - 1 - k]) && a[n - 1 - k] == old(a[k])
      invariant forall k :: i <= k < n - i ==> a[k] == old(a[k])
    {
      a[i], a[n - 1 - i] := a[n - 1 - i], a[i];
      i := i + 1;
    }
  }

  /** `Buffer.BlockCopy(src, srcOffset, dst, dstOffset, count)` between two
      distinct arrays; the ranges must lie inside the arrays. */
  method BlockCopy(src: array<byte>, srcOffset: nat, dst: array<byte>, dstOffset: nat, count: nat)
    requires src != dst
    requires srcOffset + count <= src.Length && dstOffset + count <= dst.Length
    modifies dst
    ensures dst[..] == old(dst[..dstOffset]) + src[srcOffset..srcOffset + count] + old(dst[dstOffset + count..])
  {
    for i := 0 to count
      invariant forall k :: 0 <= k < dst.Length && !(dstOffset <= k < dstOffset + i) ==> dst[k] == old(dst[k])
      invariant dst[dstOffset..dstOffset + i] == src[srcOffset..srcOffset + i]
    {
      dst[dstOffset + i] := src[srcOffset + i];
    }
    assert dst[..] == old(dst[..dstOffset]) + src[srcOffset..srcOffset + count] + old(dst[dstOffset + count..]) by {
      forall k | 0 <= k < dst.Length
        ensures dst[k] == (old(dst[..dstOffset]) + src[srcOffset..srcOffset + count] + old(dst[dstOffset + count..]))[k]
      {
        if dstOffset <= k < dstOffset + count {
          assert dst[k] == dst[dstOffset..dstOffset + count][k - dstOffset];
        }
      }
    }
  }

  /** `GenerateSqlGuid(timestamp, guidBytes)`: normalises `timestamp` to
      big-endian in place (reversing it on a little-endian host), then builds
      the identifier from the first 10 bytes of `guidBytes` and bytes 2..8 of
      the normalised `timestamp`. */
  method GenerateSqlGuid(timestamp: array<byte>, guidBytes: array<byte>, isLittleEndian: bool)
    returns (guid: Guid)
    requires timestamp.Length >= 8 && guidBytes.Length >= PayloadLength
    modifies timestamp
    ensures timestamp[..] == if isLittleEndian then Reversed(old(timestamp[..])) else old(timestamp[..])
    ensures guid == guidBytes[..PayloadLength] + timestamp[2..8]
  {
    if isLittleEndian {
      ReverseInPlace(timestamp);
    }
    var newGuidBytes := new byte[16](_ => 0);
    BlockCopy(guidBytes, 0, newGuidBytes, 0, 10);
    BlockCopy(timestamp, 2, newGuidBytes, 10, 6);
    guid := newGuidBytes[..];
  }

  /** `NewTimeGuid(dateTime)`, with the instant already parsed (`dateTime`)
      and the 10 bytes the random number generator produced (`randomBytes`). */
  method NewTimeGuid(dateTime: DateTimeTicks, randomBytes: Payload, isLittleEndian: bool)
    returns (guid: Guid)
    ensures guid == Pack(Milliseconds(dateTime), randomBytes)
  {
    var timestamp := Milliseconds(dateTime);
    var timestampBytes := ArrayOf(GetBytes(timestamp, isLittleEndian));
    var randomArray := ArrayOf(randomBytes);
    guid := GenerateSqlGuid(timestampBytes, randomArray, isLittleEndian);
    NormalisedTimestamp(timestamp, isLittleEndian);
  }

  /** `MaxTimeGuid(dateTime)`, with the instant already parsed. */
  method MaxTimeGuid(dateTime: DateTimeTicks, isLittleEndian: bool) returns (guid: Guid)
    ensures guid == MaxGuid(Milliseconds(dateTime))
  {
    var timestamp := Milliseconds(dateTime);
    var timestampBytes := ArrayOf(GetBytes(timestamp, isLittleEndian));
    var fillBytes := new byte[10](_ => 0);
    for i := 0 to fillBytes.Length
      invariant forall k :: 0 <= k < i ==> fillBytes[k] == 0xFF
      invariant timestampBytes[..] == GetBytes(timestamp, isLittleEndian)
    {
      fillBytes[i] := 0xFF;
    }
    assert fillBytes[..] == MaxFill;
    guid := GenerateSqlGuid(timestampBytes, fillBytes, isLittleEndian);
    assert fillBytes[..PayloadLength] == MaxFill;
    NormalisedTimestamp(timestamp, isLittleEndian);
  }

  /** `MinTimeGuid(dateTime)`, with the instant already parsed. */
  method MinTimeGuid(dateTime: DateTimeTicks, isLittleEndian: bool) returns (guid: Guid)
    ensures guid == MinGuid(Milliseconds(dateTime))
  {
    var timestamp := Milliseconds(dateTime);
    var timestampBytes := ArrayOf(GetBytes(timestamp, isLittleEndian));
    var fillBytes := new byte[10](_ => 0);
    for i := 0 to fillBytes.Length
      invariant forall k :: 0 <= k < i ==> fillBytes[k] == 0x00
      invariant timestampBytes[..] == GetBytes(timestamp, isLittleEndian)
    {
      fillBytes[i] := 0x00;
    }
    assert fillBytes[..] == MinFill;
    guid := GenerateSqlGuid(timestampBytes, fillBytes, isLittleEndian);
    assert fillBytes[..PayloadLength] == MinFill;
    NormalisedTimestamp(timestamp, isLittleEndian);
  }

  /** `TimeGuidDateTime(guid)`: the `DateTime` recorded in an identifier.
      The product always lies in `DateTime`'s range, so the `DateTime`
      constructor never throws. */
  method TimeGuidDateTime(guid: Guid, isLittleEndian: bool) returns (dateTime: DateTimeTicks)
    ensures dateTime == DecodeTicks(guid)
  {
    var bytes := ArrayOf(guid);
    var timestampBytes := new byte[8](_ => 0);
    BlockCopy(bytes, 10, timestampBytes, 2, 6);
    ghost var bigEndian := timestampBytes[..];
    if isLittleEndian {
      ReverseInPlace(timestampBytes);
    }
    var ticks := ToInt64(timestampBytes[..], isLittleEndian);
    StoredTimestamp(guid, bigEndian, isLittleEndian);
    dateTime := ticks * TicksPerMillisecond;
  }

  // ---------------------------------------------------------------------
  // Host byte order does not matter
  // ---------------------------------------------------------------------

  /** Whatever the host's byte order, the native bytes of `ms` normalised to
      big-endian end in the 6-byte timestamp field of `ms`. */
  lemma NormalisedTimestamp(ms: Int64, isLittleEndian: bool)
    ensures (if isLittleEndian then Reversed(GetBytes(ms, true)) else GetBytes(ms, false))[2..8]
         == TimestampField(ms)
  {
    var bigEndian := BigEndianBytes(ms % TwoTo64, 8);
    ReversedTwice(bigEndian);
    SuffixOfBytes(ms % TwoTo64, 6, 8);
    Pow256Of6();
    Pow256Of8();
    LowBytesOfReduced(ms, 6, 8);
  }

  /** Whatever the host's byte order, the 8-byte word that `TimeGuidDateTime`
      assembles (two zero bytes, then bytes 10..16) reads back as the
      big-endian value of bytes 10..16. */
  lemma StoredTimestamp(guid: Guid, bigEndian: seq<byte>, isLittleEndian: bool)
    requires bigEndian == [0, 0] + guid[PayloadLength..]
    ensures ToInt64(if isLittleEndian then Reversed(bigEndian) else bigEndian, isLittleEndian)
         == BigEndianValue(guid[PayloadLength..])
  {
    ToInt64OfNormalised(bigEndian, isLittleEndian);
    LeadingZeros([0, 0], guid[PayloadLength..]);
    Pow256Of6();
    assert bigEndian[..8] == bigEndian;
  }

  // ---------------------------------------------------------------------
  // Round trip
  // ---------------------------------------------------------------------

  /** Decoding what was packed for a `DateTime` gives that `DateTime`
      truncated to whole milliseconds, never later than it, and exactly the
      truncated value if and only if its millisecond count fits in 48 bits. */
  lemma RoundTrip(dateTime: DateTimeTicks, payload: Payload)
    ensures DecodeTicks(Pack(Milliseconds(dateTime), payload)) <= dateTime
    ensures DecodeTicks(Pack(Milliseconds(dateTime), payload)) == dateTime - dateTime % TicksPerMillisecond
        <==> Milliseconds(dateTime) < TimestampSpan
  {
  }

  /** Every identifier is the packing of its own payload with the
      millisecond count it decodes to. */
  lemma PackOfDecode(guid: Guid)
    ensures Pack(DecodeTicks(guid) / TicksPerMillisecond, guid[..PayloadLength]) == guid
  {
    var field := guid[PayloadLength..];
    var ms := BigEndianValue(field);
    assert DecodeTicks(guid) / TicksPerMillisecond == ms;
    Pow256Of6();
    DivModUnique(ms, TimestampSpan, 0, ms);
    ValueInjective(TimestampField(ms), field);
    assert guid == guid[..PayloadLength] + field;
  }

  /** The first instant whose millisecond count needs a 49th bit lies inside
      `DateTime`'s range (in the year 8920), and its identifiers decode to
      `DateTime`'s first tick. */
  lemma TimestampWrapsBeforeMaxDateTime(payload: Payload)
    ensures TimestampSpan * TicksPerMillisecond <= MaxTicks
    ensures DecodeTicks(Pack(Milliseconds(TimestampSpan * TicksPerMillisecond), payload)) == 0
  {
  }

  /** For one instant the bounds differ only in their payloads, which are the
      two fill patterns; every identifier of that instant lies between them
      byte by byte. */
  lemma PackBetweenFills(ms: int, payload: Payload)
    ensures MinGuid(ms)[..PayloadLength] == MinFill && MaxGuid(ms)[..PayloadLength] == MaxFill
    ensures MinGuid(ms)[PayloadLength..] == Pack(ms, payload)[PayloadLength..] == MaxGuid(ms)[PayloadLength..]
    ensures forall i :: 0 <= i < GuidLength ==> MinGuid(ms)[i] <= Pack(ms, payload)[i] <= MaxGuid(ms)[i]
  {
  }
}
