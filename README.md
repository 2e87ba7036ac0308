# TimeGuid in Dafny

This project models SqlTimeGuid. It is a set of SQL Server CLR functions that
build and decode time-ordered `uniqueidentifier` values (`SqlGuid`). An
identifier is 16 bytes:

```
byte offset:  0                10           16
              [ payload: 10B ][ timestamp: 6B, big-endian ]
```

The timestamp field holds the low 48 bits of `DateTime.Ticks / 10000`, which
counts milliseconds since 0001-01-01. `NewTimeGuid` fills the payload with
random bytes. `MaxTimeGuid` fills it with ten 0xFF bytes and `MinTimeGuid`
with ten 0x00 bytes. Those two give the bounds of a range scan. `TimeGuidDateTime`
reads the timestamp back and multiplies it by 10000 to get `DateTime` ticks.

Files:

- `bytes.dfy` (module `Bytes`) has unsigned bytes, big-endian numbers and
  their round trip, `Array.Reverse` as a function (`Reversed`), and byte-wise
  lexicographic order.
- `bit_converter.dfy` (module `BitConverter`) models `BitConverter.GetBytes(long)`
  and `BitConverter.ToInt64(byte[], 0)`. The host's byte order is the flag
  `isLittleEndian`, standing for `BitConverter.IsLittleEndian`, so both
  branches are verified.
- `time_guid.dfy` (module `TimeGuid`) holds the specification and the code.
  The specification is `Milliseconds`, `Pack`, `MaxGuid`, `MinGuid` and
  `DecodeTicks`. The code is `GenerateSqlGuid`, the three constructors and
  `TimeGuidDateTime`, written as imperative methods over arrays the way the C#
  code is: `Array.Reverse` in place, `Buffer.BlockCopy` into fresh arrays,
  and `for` loops that fill the payload.
- `guid_order.dfy` (module `GuidOrder`) defines SQL Server's order on
  `uniqueidentifier` values. It proves that the identifiers sort by time under
  that order while the millisecond count is below 2^48, and that the min/max
  bounds are exact.

Modelling choices:

- A `DateTime` is its tick count, `0 <= t <= DateTime.MaxValue.Ticks`.
- A `SqlGuid` is its 16 bytes. `new SqlGuid(byte[])` followed by
  `ToByteArray()` is the identity.
- `GetDateTime` (parse the string, or fall back to `DateTime.UtcNow`) is left
  out. Each constructor takes the resulting tick count as a parameter.
- The random number generator is left out. `NewTimeGuid` takes the ten bytes
  it would produce as a parameter.
- C#'s `new byte[n]` is zero-filled. The model allocates arrays the same way.

Behaviour of the code worth knowing:

- Comparing the 16 bytes from byte 0 does not sort these identifiers by
  time, because the payload comes first
  (`GuidOrder.ByteZeroFirstOrderIgnoresTime`). They sort by time under SQL
  Server's `uniqueidentifier` order, which ranks bytes 10..15 first
  (`GuidOrder.SqlKey`).
- The code raises no error for a millisecond count of 2^48 or more. It keeps
  the low 48 bits, and the model does the same. The first `DateTime` that
  wraps is in the year 8920 (`TimeGuid.TimestampWrapsBeforeMaxDateTime`).
- `TimeGuidDateTime` returns `DateTime` ticks, which is the millisecond count
  times 10000.

## Model

| member | source | states |
|---|---|---|
| `Bytes.ValueOfBytes` | TimeGuid/CLR/TimeGuid.cs:25 | Writing a number as `n` big-endian bytes keeps exactly its value modulo 256^n |
| `Bytes.BytesOfValue` | TimeGuid/CLR/TimeGuid.cs:123 | Reading `n` big-endian bytes as a number and writing it back gives the same bytes |
| `Bytes.LexLessIsNumericLess` | TimeGuid/CLR/TimeGuid.cs:16-25 | Comparing equal-length big-endian byte strings byte by byte gives the same answer as comparing their numbers, in both directions |
| `BitConverter.GetBytes` | TimeGuid/CLR/TimeGuid.cs:59 | 8 bytes holding the 64-bit two's-complement value (the value modulo 2^64), least significant byte first on a little-endian host and most significant first otherwise |
| `BitConverter.ToInt64` | TimeGuid/CLR/TimeGuid.cs:131 | Reads the first 8 bytes in the host's native order as a signed value: negative exactly when the unsigned reading is at least 2^63, and equal to that reading or to it minus 2^64 |
| `BitConverter.ToInt64OfGetBytes` | TimeGuid/CLR/TimeGuid.cs:59 | `ToInt64` reads back every 64-bit value that `GetBytes` wrote on a host with the same byte order |
| `BitConverter.GetBytesOfToInt64` | TimeGuid/CLR/TimeGuid.cs:131 | `GetBytes` writes back every 8-byte word that `ToInt64` read on a host with the same byte order |
| `BitConverter.ToInt64OfNormalised` | TimeGuid/CLR/TimeGuid.cs:125-131 | A big-endian word, reversed on a little-endian host, reads as the same value on either host |
| `TimeGuid.Milliseconds` | TimeGuid/CLR/TimeGuid.cs:58 | `Ticks / 10000` is the whole number of milliseconds: non-negative, and `ms*10000 <= ticks < (ms+1)*10000` |
| `TimeGuid.TimestampField` | TimeGuid/CLR/TimeGuid.cs:16-25 | The timestamp field is 6 bytes whose big-endian value is the millisecond count modulo 2^48, so the two high bytes are dropped |
| `TimeGuid.Pack` | TimeGuid/CLR/TimeGuid.cs:22-25 | A packed identifier has the payload exactly in bytes 0..10 and the 48-bit millisecond count big-endian in bytes 10..16 |
| `TimeGuid.DecodeTicks` | TimeGuid/CLR/TimeGuid.cs:120-131 | A decoded `DateTime` is a whole number of milliseconds, below 2^48 ms, and always inside `DateTime`'s range |
| `TimeGuid.ArrayOf` | TimeGuid/CLR/TimeGuid.cs:59-63 | The fresh `byte[]` that `BitConverter.GetBytes` returns and the random buffer holds (also used for `SqlGuid.ToByteArray()` at line 120): a new array holding exactly the given bytes |
| `TimeGuid.ReverseInPlace` | TimeGuid/CLR/TimeGuid.cs:19 | `Array.Reverse` leaves the array holding its old contents back to front |
| `TimeGuid.BlockCopy` | TimeGuid/CLR/TimeGuid.cs:24-25 | `Buffer.BlockCopy` replaces exactly `count` bytes of the destination at its offset with the source's bytes, and changes nothing else |
| `TimeGuid.GenerateSqlGuid` | TimeGuid/CLR/TimeGuid.cs:14-28 | Normalises the caller's timestamp array in place (reversed on a little-endian host) and returns the first 10 payload bytes followed by bytes 2..8 of the normalised array |
| `TimeGuid.NewTimeGuid` | TimeGuid/CLR/TimeGuid.cs:56-66 | Returns the identifier packing the instant's millisecond count with the random bytes, the same on either host byte order |
| `TimeGuid.MaxTimeGuid` | TimeGuid/CLR/TimeGuid.cs:75-88 | Returns the identifier packing the instant's millisecond count with ten 0xFF bytes, the same on either host byte order |
| `TimeGuid.MinTimeGuid` | TimeGuid/CLR/TimeGuid.cs:97-110 | Returns the identifier packing the instant's millisecond count with ten 0x00 bytes, the same on either host byte order |
| `TimeGuid.TimeGuidDateTime` | TimeGuid/CLR/TimeGuid.cs:118-134 | Returns the big-endian value of bytes 10..16 times 10000, ignoring bytes 0..10, the same on either host byte order |
| `TimeGuid.NormalisedTimestamp` | TimeGuid/CLR/TimeGuid.cs:16-25 | On either host, bytes 2..8 of `GetBytes(ms)` after normalisation are the 6-byte timestamp field of `ms` |
| `TimeGuid.StoredTimestamp` | TimeGuid/CLR/TimeGuid.cs:121-131 | On either host, the 8-byte word built from two zero bytes and bytes 10..16 reads as the big-endian value of bytes 10..16 |
| `TimeGuid.RoundTrip` | TimeGuid/CLR/TimeGuid.cs:58-65 | Decoding a packed `DateTime` never gives a later time, and it gives the time truncated to the millisecond if and only if the millisecond count is below 2^48 |
| `TimeGuid.PackOfDecode` | TimeGuid/CLR/TimeGuid.cs:118-131 | Every identifier is the packing of its own payload with the millisecond count it decodes to |
| `TimeGuid.TimestampWrapsBeforeMaxDateTime` | TimeGuid/CLR/TimeGuid.cs:25 | The instant 2^48 ms is a valid `DateTime`, and its identifiers decode to tick 0 |
| `TimeGuid.PackBetweenFills` | TimeGuid/CLR/TimeGuid.cs:80-109 | For one instant the min and max identifiers differ only in bytes 0..10, which are ten 0x00 and ten 0xFF bytes; every identifier of that instant lies between them at every byte position |
| `GuidOrder.SqlKey` | TimeGuid/CLR/TimeGuid.cs:24-25 | SQL Server's comparison key is a rearrangement of the 16 bytes that starts with the timestamp bytes 10..16 |
| `GuidOrder.SqlGuidLessByField` | TimeGuid/CLR/TimeGuid.cs:47-51 | Under SQL Server's order an identifier compares by its timestamp value first, and by its payload only on a tie |
| `GuidOrder.PackOrderedByTime` | TimeGuid/CLR/TimeGuid.cs:47-51 | An identifier whose 48-bit millisecond count is smaller sorts first whatever the payloads, and one that sorts first never has the larger count |
| `GuidOrder.LaterMillisecondSortsLater` | TimeGuid/CLR/TimeGuid.cs:47-58 | For `DateTime`s whose millisecond counts fit in 48 bits, an identifier from a later millisecond sorts after one from an earlier millisecond |
| `GuidOrder.PackWithinBounds` | TimeGuid/CLR/TimeGuid.cs:68-75 | Every identifier of a millisecond lies between that millisecond's `MinTimeGuid` and `MaxTimeGuid`, under SQL Server's order and under byte-0-first order |
| `GuidOrder.WithinBoundsHasField` | TimeGuid/CLR/TimeGuid.cs:68-75 | An identifier between a millisecond's min and max bounds under SQL Server's order carries that millisecond's 48-bit count in bytes 10..16 |
| `GuidOrder.FieldWithinBounds` | TimeGuid/CLR/TimeGuid.cs:90-97 | An identifier carrying a millisecond's 48-bit count in bytes 10..16 lies between that millisecond's min and max bounds, whatever its payload |
| `GuidOrder.RangeScanExact` | TimeGuid/CLR/TimeGuid.cs:90-97 | An identifier lies between a millisecond's min and max bounds under SQL Server's order if and only if it decodes to that millisecond count modulo 2^48 |
| `GuidOrder.ByteZeroFirstOrderIgnoresTime` | TimeGuid/CLR/TimeGuid.cs:22-25 | Compared from byte 0, an identifier of millisecond 1 sorts before one of millisecond 0, so that order is not chronological |

## Left out

- `GetDateTime` (TimeGuid.cs:35-45): parsing with the host culture and reading the wall clock are not modelled. Each constructor takes the resulting tick count.
- `RNGCryptoServiceProvider` (TimeGuid.cs:61-63): the generator is not modelled. `NewTimeGuid` takes its ten output bytes as a parameter.
- The `SqlFunction` attributes and their `DataAccess` and `IsDeterministic` settings: these are hosting metadata with no behaviour to model.
- `SqlGuid` internals: a `SqlGuid` is its 16 bytes. A NULL `SqlGuid`, on which `TimeGuidDateTime` throws in `ToByteArray()` (TimeGuid.cs:120), is not modelled. SQL Server's comparison is written out in `GuidOrder.SqlKey` because the ordering claims depend on it.
- `DateTime` time zones (`Kind`): a `DateTime` is only its tick count.
- TimeGuid.BlockCopy: requires distinct source and destination arrays. The code never copies within one array, so overlapping copies are not modelled. Out-of-range offsets, which throw in .NET, are excluded by `requires`. Every call in the code stays in range.
- BitConverter.ToInt64: reads from index 0 only, the only start index the code uses.
