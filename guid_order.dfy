/** How SQL Server orders `uniqueidentifier` values, and why the identifiers
    of `TimeGuid` sort by time under that order.

    SQL Server does not compare the 16 bytes from byte 0: it ranks bytes
    10..15 first, then 8..9, 6..7, 4..5 and 0..3, each group byte by byte as
    unsigned values. The identifier relies on this: its timestamp sits in the
    group compared first. */
module GuidOrder {
  import opened Bytes
  import opened TimeGuid

  /** The payload bytes in the order SQL Server compares them. */
  function PayloadKey(payload: Payload): (k: seq<byte>)
    ensures |k| == PayloadLength
    ensures multiset(k) == multiset(payload)
  {
    assert payload == payload[0..4] + payload[4..6] + payload[6..8] + payload[8..10];
    payload[8..10] + payload[6..8] + payload[4..6] + payload[0..4]
  }

  /** The bytes of an identifier in the order SQL Server compares them: a
      rearrangement of the identifier that starts with bytes 10..15. */
  function SqlKey(guid: Guid): (k: seq<byte>)
    ensures |k| == GuidLength
    ensures k[..GuidLength - PayloadLength] == guid[PayloadLength..]
    ensures multiset(k) == multiset(guid)
  {
    assert guid == guid[..PayloadLength] + guid[PayloadLength..];
    var key := guid[PayloadLength..] + PayloadKey(guid[..PayloadLength]);
    assert key[..GuidLength - PayloadLength] == guid[PayloadLength..];
    key
  }

  /** The identifier byte that SQL Server compares at rank `j`. */
  function SqlPosition(j: nat): (i: nat)
    requires j < GuidLength
    ensures i < GuidLength
  {
    if j < 6 then j + 10
    else if j < 8 then j + 2
    else if j < 10 then j - 2
    else if j < 12 then j - 6
    else j - 12
  }

  lemma SqlKeyAt(guid: Guid, j: nat)
    requires j < GuidLength
    ensures SqlKey(guid)[j] == guid[SqlPosition(j)]
  {
  }

  /** `a < b` as SQL Server compares `uniqueidentifier` values. */
  predicate SqlGuidLess(a: Guid, b: Guid)
  {
    LexLess(SqlKey(a), SqlKey(b))
  }

  /** `a <= b` as SQL Server compares `uniqueidentifier` values. */
  predicate SqlGuidLessOrEqual(a: Guid, b: Guid)
  {
    LexLessOrEqual(SqlKey(a), SqlKey(b))
  }

  /** Under SQL Server's order an identifier compares first by its timestamp
      field and, only on a tie, by its payload. */
  lemma {:induction false} SqlGuidLessByField(a: Guid, b: Guid)
    ensures SqlGuidLess(a, b) <==>
      BigEndianValue(a[PayloadLength..]) < BigEndianValue(b[PayloadLength..]) ||
      (a[PayloadLength..] == b[PayloadLength..] &&
       LexLess(PayloadKey(a[..PayloadLength]), PayloadKey(b[..PayloadLength])))
  {
    LexLessConcat(a[PayloadLength..], PayloadKey(a[..PayloadLength]),
                  b[PayloadLength..], PayloadKey(b[..PayloadLength]));
    LexLessIsNumericLess(a[PayloadLength..], b[PayloadLength..]);
  }

  /** The identifiers are semi-sequential: one whose (48-bit) millisecond
      count is smaller sorts first whatever the payloads, and an identifier
      that sorts strictly first never has the larger millisecond count. */
  lemma PackOrderedByTime(ms1: int, ms2: int, p1: Payload, p2: Payload)
    ensures ms1 % TimestampSpan < ms2 % TimestampSpan ==> SqlGuidLess(Pack(ms1, p1), Pack(ms2, p2))
    ensures SqlGuidLess(Pack(ms1, p1), Pack(ms2, p2)) ==> ms1 % TimestampSpan <= ms2 % TimestampSpan
  {
    var a, b := Pack(ms1, p1), Pack(ms2, p2);
    SqlGuidLessByField(a, b);
    if a[PayloadLength..] == b[PayloadLength..] {
      assert BigEndianValue(a[PayloadLength..]) == BigEndianValue(b[PayloadLength..]);
    }
  }

  /** For `DateTime`s whose millisecond counts fit in 48 bits, identifiers
      made in a later millisecond sort after those made in an earlier one. */
  lemma LaterMillisecondSortsLater(t1: DateTimeTicks, t2: DateTimeTicks, p1: Payload, p2: Payload)
    requires Milliseconds(t1) < Milliseconds(t2) < TimestampSpan
    ensures SqlGuidLess(Pack(Milliseconds(t1), p1), Pack(Milliseconds(t2), p2))
  {
    DivModUnique(Milliseconds(t1), TimestampSpan, 0, Milliseconds(t1));
    DivModUnique(Milliseconds(t2), TimestampSpan, 0, Milliseconds(t2));
    PackOrderedByTime(Milliseconds(t1), Milliseconds(t2), p1, p2);
  }

  /** Byte-wise `<=` at every position carries over to SQL Server's order. */
  lemma SqlKeyPointwise(a: Guid, b: Guid)
    requires forall i :: 0 <= i < GuidLength ==> a[i] <= b[i]
    ensures SqlGuidLessOrEqual(a, b)
  {
    var ka, kb := SqlKey(a), SqlKey(b);
    forall j | 0 <= j < GuidLength
      ensures ka[j] <= kb[j]
    {
      SqlKeyAt(a, j);
      SqlKeyAt(b, j);
    }
    PointwiseLexLessOrEqual(ka, kb);
  }

  /** Every identifier of millisecond `ms` lies between `MinTimeGuid` and
      `MaxTimeGuid` of that millisecond, both under SQL Server's order and
      under plain byte-0-first order. */
  lemma PackWithinBounds(ms: int, payload: Payload)
    ensures SqlGuidLessOrEqual(MinGuid(ms), Pack(ms, payload))
    ensures SqlGuidLessOrEqual(Pack(ms, payload), MaxGuid(ms))
    ensures LexLessOrEqual(MinGuid(ms), Pack(ms, payload))
    ensures LexLessOrEqual(Pack(ms, payload), MaxGuid(ms))
  {
    var lo, guid, hi := MinGuid(ms), Pack(ms, payload), MaxGuid(ms);
    PackBetweenFills(ms, payload);
    SqlKeyPointwise(lo, guid);
    SqlKeyPointwise(guid, hi);
    PointwiseLexLessOrEqual(lo, guid);
    PointwiseLexLessOrEqual(guid, hi);
  }

  /** An identifier between the bounds of millisecond `ms` carries the
      timestamp of `ms`. */
  lemma WithinBoundsHasField(ms: int, guid: Guid)
    requires SqlGuidLessOrEqual(MinGuid(ms), guid) && SqlGuidLessOrEqual(guid, MaxGuid(ms))
    ensures BigEndianValue(guid[PayloadLength..]) == ms % TimestampSpan
  {
    var lo, hi := MinGuid(ms), MaxGuid(ms);
    if lo != guid {
      SqlGuidLessByField(lo, guid);
    }
    if guid != hi {
      SqlGuidLessByField(guid, hi);
    }
  }

  /** An identifier that carries the timestamp of millisecond `ms` lies
      between the bounds of `ms`. */
  lemma FieldWithinBounds(ms: int, guid: Guid)
    requires BigEndianValue(guid[PayloadLength..]) == ms % TimestampSpan
    ensures SqlGuidLessOrEqual(MinGuid(ms), guid) && SqlGuidLessOrEqual(guid, MaxGuid(ms))
  {
    var payload := guid[..PayloadLength];
    ValueInjective(guid[PayloadLength..], TimestampField(ms));
    assert guid == Pack(ms, payload);
    PackWithinBounds(ms, payload);
  }

  /** A range scan from `MinTimeGuid` to `MaxTimeGuid` of one millisecond
      returns exactly the identifiers that decode to that millisecond count
      modulo 2^48. */
  lemma RangeScanExact(ms: int, guid: Guid)
    ensures SqlGuidLessOrEqual(MinGuid(ms), guid) && SqlGuidLessOrEqual(guid, MaxGuid(ms))
        <==> DecodeTicks(guid) == (ms % TimestampSpan) * TicksPerMillisecond
  {
    var v := BigEndianValue(guid[PayloadLength..]);
    assert DecodeTicks(guid) == v * TicksPerMillisecond;
    if SqlGuidLessOrEqual(MinGuid(ms), guid) && SqlGuidLessOrEqual(guid, MaxGuid(ms)) {
      WithinBoundsHasField(ms, guid);
    }
    if v == ms % TimestampSpan {
      FieldWithinBounds(ms, guid);
    }
  }

  /** Compared from byte 0, as a plain byte array, the identifiers do not sort
      by time: the payload decides first. */
  lemma ByteZeroFirstOrderIgnoresTime()
    ensures LexLess(Pack(1, MinFill), Pack(0, MaxFill))
  {
  }
}
