# BinaryStream in Dafny

A model of `CSharpBinaryStream.BinaryStream`, a cursor-managed byte
buffer for binary serialisation. The stream holds a fixed-size `byte[]`
with a write cursor, a read cursor and an endianness flag. It offers
three groups of operations:

- fixed-width integer writes and reads (8, 16, 24, 32 and 64 bits), with
  a per-width range policy (`limit`) applied on both sides;
- variable-length integers: the base-128 `writeVarInt`, `writeVarLong`
  and the zigzag variants;
- cursor control: `rewind`, `reset`, `eos`, `swapEndian`, `readRemaining`.

Every operation is a pure function of the stream state. The operations
that can throw return a `Step`: `Ok` with the new state and the value
read, or `Fault` with the state at the moment the C# code would have
thrown. Effects made before the throw stay in that state. `Allocate`
returns an `Option` instead (`None` for a negative size). `Eos` is a
predicate, and `Rewind`, `Reset` and `SwapEndian`, which cannot throw,
return the new state directly.

C# `int` and `long` arithmetic is written out on unbounded integers:
- wrap-around (`Wrap32`, `Wrap64`);
- arithmetic shifts with masked shift counts;
- the truncating `%`;
- `&`, `|` and `^` defined bit by bit on the unsigned patterns.

The model keeps the behaviour of the code as written, including these
quirks:

- **The 32-bit unsigned bound is 28 bits.** The limits table gives
  `0xfffffff` as the unsigned upper bound for 32 bits. An unsigned
  32-bit write therefore masks to 28 bits, and negative values become 0.
- **Signed 32-bit values are shifted by one.** For `signInt(32, v)`,
  `1 << 31` is `int.MinValue` and `1 << 32` is `1`, so the result is
  `v - 1` (wrapping). A signed 32-bit write then read returns `v - 2`.
  This also applies to every float bit pattern.
- **`writeBool` and `readBool` disagree on size.** `writeBool` writes
  one byte; `readBool` reads two (`readInt16(false) == 1`).
- **`read` moves the cursor before checking.** It advances the read
  cursor before the copy that may throw, so a failed read still moves
  the cursor.
- **`writeInt64` can fail half-way.** When only its first half fits,
  that half stays written.
- **Negative varints are always five bytes.** `writeVarInt` of a
  negative value always writes five bytes with the continuation bit set,
  because the arithmetic shift never reaches zero. The five bytes have no
  terminator. This reaches `writeZigZag32` for every value outside
  [-2^30, 2^30), whose zigzag result is a negative `int`. It also reaches
  `writeVarLong` whenever one of the two halves is negative, and
  `writeZigZag64` whenever one of them lies outside [-2^30, 2^30).

Floats and doubles appear only as their bit patterns (`int` / `long`).

Modules, in dependency order:
- `CSharpInt` (csharp_int.dfy): integer semantics.
- `Bitwise` (bitwise.dfy): bitwise operators.
- `Codec` (codec.dfy): the tables, `signInt`, `limit` and the byte codec.
- `CodecProofs` (codec_proofs.dfy) and `LimitProofs` (limit_proofs.dfy):
  what the codec computes.
- `VarInt` (varint.dfy): the varint and zigzag encodings.
- `Stream` (stream.dfy): the stream operations.
- `StreamProofs` (stream_proofs.dfy), `StreamLongProofs`
  (stream_long_proofs.dfy) and `VarIntStreamProofs`
  (varint_stream_proofs.dfy): properties of the stream operations.

## Model

| member | source | states |
|---|---|---|
| Codec.ShiftOrder | CSharpBinaryStream/Program.cs:14-19 | the shift table has an entry for 16, 24 and 32 bits only, with one shift per byte (2, 3 or 4); the shifts are multiples of 8 descending to 0 on a big-endian stream and ascending from 0 otherwise |
| Codec.Limits | CSharpBinaryStream/Program.cs:21-27 | the limits table keeps both rows for each width; the unsigned row, the only one ever read, is 0 up to one less than 2^bits, except that for 32 bits its upper bound is 0xfffffff (2^28 - 1) |
| Codec.SignInt | CSharpBinaryStream/Program.cs:29-36 | no contract of its own; its meaning is given by `LimitProofs.SignInt8`, `LimitProofs.SignIntWide` and `LimitProofs.SignInt32` |
| Codec.Limit | CSharpBinaryStream/Program.cs:38-58 | no contract of its own; its meaning is given by `LimitProofs.LimitUnsigned` for unsigned values and by the `SignInt` lemmas for signed ones |
| Codec.WriteValueIntoBytes | CSharpBinaryStream/Program.cs:60-70 | yields one byte per entry of the shift table (2, 3 or 4); what the bytes denote is given by `CodecProofs.WriteValueIntoBytesValue` |
| Codec.ReadValueFromBytes | CSharpBinaryStream/Program.cs:72-84 | no contract of its own; its meaning is given by `CodecProofs.ReadValueFromBytesValue` |
| CodecProofs.WriteValueIntoBytesValue | CSharpBinaryStream/Program.cs:60-70 | the bytes written for a value denote that value modulo 2^bits, read most significant first on a big-endian stream and least significant first otherwise |
| CodecProofs.WriteLittleEndianIsReversed | CSharpBinaryStream/Program.cs:14-19 | the little-endian shift order lays out exactly the big-endian bytes in reverse |
| CodecProofs.ReadValueFromBytesValue | CSharpBinaryStream/Program.cs:72-84 | or-ing the shifted bytes yields the number the first 2, 3 or 4 bytes denote in the chosen byte order, reinterpreted as an `int` |
| CodecProofs.LittleEndianIsReversedBigEndian | CSharpBinaryStream/Program.cs:14-19 | the two reference readings agree: bytes read least significant first denote the same number as the reversed bytes read most significant first |
| CodecProofs.ValueBytesRoundTrip | CSharpBinaryStream/Program.cs:60-84 | reading back the bytes written for a value gives the value modulo 2^bits as an `int`: the identity on the 32-bit range, reduction on 16 and 24 bits |
| LimitProofs.LimitUnsigned | CSharpBinaryStream/Program.cs:38-52 | unsigned limit: negative values become 0; other values are reduced modulo one more than the table's bound (masking, not saturation), so in-range values are unchanged and 32-bit values keep only 28 bits |
| LimitProofs.SignInt8 | CSharpBinaryStream/Program.cs:31-34 | signInt for 8 bits is congruent to the value modulo 256; it lies in [-128, 128) when `value + 128` does not overflow or go negative, and otherwise in (-384, -128], where the truncating `%` leaves it |
| LimitProofs.SignIntWide | CSharpBinaryStream/Program.cs:35 | for 16 and 24 bits, values below 2^(bits-1) are kept and the others have 2^bits subtracted |
| LimitProofs.SignInt32 | CSharpBinaryStream/Program.cs:35 | for 32 bits the shifts by 31 and 32 give int.MinValue and 1, so the result is the value minus one, wrapping |
| LimitProofs.SignIntDecodes | CSharpBinaryStream/Program.cs:29-36 | on 16- and 24-bit patterns signInt is two's-complement decoding: the result is in the signed range and congruent to the pattern |
| LimitProofs.SignIntOfPattern | CSharpBinaryStream/Program.cs:29-36 | signInt inverts reduction modulo 2^bits on the 16- and 24-bit signed ranges |
| VarInt.VarIntNonNegative | CSharpBinaryStream/Program.cs:189-205 | a non-negative value is sent as its base-128 digits, least significant first, with the continuation bit on all but the last; 1 to 5 groups that decode back to the value |
| VarInt.VarIntNegative | CSharpBinaryStream/Program.cs:189-205 | a negative value always yields five groups, each with the continuation bit set, carrying the value modulo 2^35 |
| VarInt.VarIntOneGroup | CSharpBinaryStream/Program.cs:189-205 | a value below 128 is sent as a single group equal to itself |
| VarInt.VarIntTwoGroups | CSharpBinaryStream/Program.cs:189-205 | a value in [128, 16384) is sent as two groups, low seven bits plus 0x80 and then the rest (300 becomes 0xAC 0x02) |
| VarInt.ZigZag32 | CSharpBinaryStream/Program.cs:215 | no contract of its own; its meaning is given by `VarInt.ZigZag32Value` and `VarInt.ZigZag32RoundTrip` |
| VarInt.ZigZag32Value | CSharpBinaryStream/Program.cs:213-216 | the zigzag mapping takes v >= 0 to 2v and v < 0 to -2v - 1, as an unsigned 32-bit pattern |
| VarInt.ZigZag32RoundTrip | CSharpBinaryStream/Program.cs:213-216 | the zigzag mapping is undone by the reference decoder (halve, negate odd values) |
| VarInt.ZigZag32Injective | CSharpBinaryStream/Program.cs:213-216 | different values have different zigzag encodings |
| VarInt.ZigZag32Small | CSharpBinaryStream/Program.cs:213-216 | on [-2^30, 2^30) the signed zigzag result itself is 2v for v >= 0 and -2v - 1 for v < 0: 0, -1, 1, -2 become 0, 1, 2, 3 |
| Stream.Allocate | CSharpBinaryStream/Program.cs:94-97 | allocation succeeds exactly for a non-negative size and gives a zero-filled buffer of that size, both cursors at 0 and the requested byte order |
| Stream.Write | CSharpBinaryStream/Program.cs:99-105 | a raw write succeeds exactly when the bytes fit from a non-negative cursor; it then places them at the cursor, keeps every other byte and the read cursor, and advances the write cursor by their number; a failing write changes nothing |
| Stream.Read | CSharpBinaryStream/Program.cs:107-113 | a raw read always advances the read cursor by the size (wrapping), and succeeds exactly when the size is non-negative and the range lies inside the buffer, returning those bytes |
| Stream.Eos | CSharpBinaryStream/Program.cs:115-118 | no contract of its own; its meaning is given by `StreamProofs.EosMeansNoMoreBytes` |
| Stream.Rewind | CSharpBinaryStream/Program.cs:120-124 | no contract of its own; its meaning is given by `StreamProofs.RewindRestarts` |
| Stream.Reset | CSharpBinaryStream/Program.cs:126-131 | no contract of its own; its meaning is given by `StreamProofs.ResetEmpties` |
| Stream.SwapEndian | CSharpBinaryStream/Program.cs:133-136 | no contract of its own; its meaning is given by `StreamProofs.SwapEndianInvolution` |
| StreamProofs.RewindRestarts | CSharpBinaryStream/Program.cs:120-124 | after rewind a read of n bytes returns the first n bytes, and a write overwrites the buffer from the start |
| StreamProofs.ResetEmpties | CSharpBinaryStream/Program.cs:126-131 | after reset the stream is at its end and only empty writes and reads succeed |
| StreamProofs.EosMeansNoMoreBytes | CSharpBinaryStream/Program.cs:115-118 | eos holds exactly when a one-byte read from a non-negative cursor fails, and at the end every read of a positive size fails |
| StreamProofs.SwapEndianInvolution | CSharpBinaryStream/Program.cs:133-136 | swapEndian flips the byte order only, and twice is the identity |
| Stream.ReadRemaining | CSharpBinaryStream/Program.cs:264-267 | no contract of its own; its meaning is given by `StreamProofs.ReadRemainingRest` |
| StreamProofs.ReadRemainingRest | CSharpBinaryStream/Program.cs:264-267 | readRemaining always leaves the stream at its end; it succeeds exactly when the cursor was inside the buffer, returning the rest of the buffer |
| Stream.WriteInt8 | CSharpBinaryStream/Program.cs:138-142 | a one-byte write succeeds exactly when the write cursor is inside the buffer |
| StreamProofs.WriteInt8Byte | CSharpBinaryStream/Program.cs:138-142 | writeInt8 stores the value modulo 256, except that an unsigned write of a negative value stores 0 |
| Stream.WriteBool | CSharpBinaryStream/Program.cs:144-147 | writeBool succeeds exactly when the write cursor is inside the buffer; the byte stored is given by `StreamProofs.WriteBoolByte` |
| StreamProofs.WriteBoolByte | CSharpBinaryStream/Program.cs:144-147 | writeBool stores 1 for true and 0 for false |
| Stream.WriteInt | CSharpBinaryStream/Program.cs:149-171 | a 16-, 24- or 32-bit write succeeds exactly when 2, 3 or 4 bytes fit from a non-negative cursor, advancing only the write cursor by that many; a failing write changes nothing |
| StreamProofs.WriteIntLayout | CSharpBinaryStream/Program.cs:149-171 | the bytes written are those of the limited value in the stream's byte order, and denote the limited value modulo 2^bits |
| Stream.ReadInt | CSharpBinaryStream/Program.cs:229-245 | a 16-, 24- or 32-bit read always moves the read cursor by 2, 3 or 4 and succeeds exactly when those bytes are inside the buffer |
| StreamProofs.ReadIntValue | CSharpBinaryStream/Program.cs:229-245 | a typed read returns the limited number that the bytes at the read cursor denote in the stream's byte order |
| StreamProofs.WriteThenReadInt | CSharpBinaryStream/Program.cs:149-245 | reading back from where a typed write started consumes exactly the bytes written and returns the limited value, reduced modulo 2^bits and limited again |
| StreamProofs.RoundTripUnsigned | CSharpBinaryStream/Program.cs:149-245 | an unsigned round trip returns the limited value, so values in [0, 2^bits) come back unchanged for 16 and 24 bits and values in [0, 2^28) for 32 bits |
| StreamProofs.RoundTripSigned | CSharpBinaryStream/Program.cs:149-163 | a signed 16- or 24-bit round trip returns every value of the signed range unchanged |
| StreamProofs.RoundTrip32Signed | CSharpBinaryStream/Program.cs:165-245 | a signed 32-bit round trip returns the value minus two, wrapping |
| Stream.WriteFloatBits | CSharpBinaryStream/Program.cs:179-182 | no contract of its own; it is a signed 32-bit write of the bit pattern, and `StreamProofs.FloatBitsRoundTrip` says what reading it back gives |
| Stream.ReadFloatBits | CSharpBinaryStream/Program.cs:254-257 | no contract of its own; it is a signed 32-bit read, see `StreamProofs.FloatBitsRoundTrip` |
| StreamProofs.FloatBitsRoundTrip | CSharpBinaryStream/Program.cs:179-257 | a float's bit pattern read back after writeFloat is the pattern minus two, so it never comes back unchanged |
| Stream.ReadBool | CSharpBinaryStream/Program.cs:224-227 | readBool always moves the read cursor by 2 (wrapping) and succeeds exactly when those two bytes are inside the buffer; its value is given by `StreamProofs.ReadBoolValue` |
| StreamProofs.ReadBoolValue | CSharpBinaryStream/Program.cs:224-233 | readBool consumes two bytes and is true exactly when they are 0x00 0x01 (big-endian) or 0x01 0x00 (little-endian) |
| StreamProofs.WriteBoolThenReadBool | CSharpBinaryStream/Program.cs:144-233 | reading a bool back from where writeBool started also takes the next byte b: big-endian gives true only for false followed by b = 1, little-endian only for true followed by b = 0 |
| Stream.WriteInt64 | CSharpBinaryStream/Program.cs:173-177 | a long write succeeds exactly when 8 bytes fit from a non-negative cursor |
| Stream.High32 | CSharpBinaryStream/Program.cs:175 | no contract of its own; `StreamLongProofs.Int64Halves` gives it as the long's quotient by 2^32 |
| Stream.Low32 | CSharpBinaryStream/Program.cs:176 | no contract of its own; `StreamLongProofs.Int64Halves` gives its unsigned pattern as the long's low 32 bits |
| Stream.WriteDoubleBits | CSharpBinaryStream/Program.cs:184-187 | no contract of its own; it is a signed long write of the bit pattern, laid out as `StreamLongProofs.WriteInt64Layout` states |
| StreamLongProofs.Int64Halves | CSharpBinaryStream/Program.cs:173-177 | the two halves a long is split into are its quotient by 2^32 and its low 32 bits, and together they denote the long |
| StreamLongProofs.WriteInt64Layout | CSharpBinaryStream/Program.cs:173-177 | writeInt64 is a 32-bit write of the high half followed by one of the low half; when only the first fits, the first stays written and the operation fails |
| StreamLongProofs.WriteInt64Pair | CSharpBinaryStream/Program.cs:173-177 | a successful unsigned long write leaves the limited high half and then the limited low half at the old cursor and advances it by 8 |
| StreamLongProofs.CombineHalves | CSharpBinaryStream/Program.cs:251 | shifting a non-negative high half left by 32 and or-ing in the low 32 bits of a non-negative low half gives high times 2^32 plus low |
| Stream.ReadInt64 | CSharpBinaryStream/Program.cs:247-252 | readInt64 succeeds exactly when 8 bytes are inside the buffer from a non-negative cursor, and then moves the cursor by 8; when the first half is not inside the buffer the cursor has moved by 4 and when only the second is missing by 8 (wrapping) |
| Stream.ReadDoubleBits | CSharpBinaryStream/Program.cs:259-262 | no contract of its own; it is `readInt64`, whose value over written bytes is given by `StreamLongProofs.ReadInt64OfWritten` |
| StreamLongProofs.ReadInt64OfWritten | CSharpBinaryStream/Program.cs:247-252 | readInt64 over the bytes of two values below 2^28 returns the first times 2^32 plus the second and moves the cursor by 8 |
| StreamLongProofs.Int64HalvesSurvive | CSharpBinaryStream/Program.cs:173-252 | the limited halves of a long recombine to the long exactly when it is non-negative, its high half is below 2^28 and its low 32 bits are below 2^28 |
| VarIntStreamProofs.WriteInt8OfByte | CSharpBinaryStream/Program.cs:138-142 | an unsigned writeInt8 of a value in [0, 256) is a raw write of that byte |
| VarIntStreamProofs.WriteThenWrite | CSharpBinaryStream/Program.cs:99-105 | two raw writes that both fit are one raw write of their concatenation |
| VarIntStreamProofs.WriteVarIntFromWrites | CSharpBinaryStream/Program.cs:191-204 | the loop of writeVarInt from any iteration on is a run of one-byte writes of its groups: all of them when they fit, otherwise those that fit followed by a failure |
| Stream.WriteVarInt | CSharpBinaryStream/Program.cs:189-205 | no contract of its own; its meaning is given by `VarIntStreamProofs.WriteVarIntWrites` and the lemmas after it |
| VarIntStreamProofs.WriteVarIntWrites | CSharpBinaryStream/Program.cs:189-205 | writeVarInt writes the varint groups one byte at a time, stopping at the first failure |
| VarIntStreamProofs.WriteVarIntNonNegative | CSharpBinaryStream/Program.cs:189-205 | a non-negative value that fits is written as its base-128 digits with continuation bits, 1 to 5 bytes, and the cursor advances by their number |
| VarIntStreamProofs.WriteVarIntNegative | CSharpBinaryStream/Program.cs:189-205 | a negative value that fits takes exactly five bytes, each with the continuation bit set |
| VarIntStreamProofs.WriteVarIntRunsOut | CSharpBinaryStream/Program.cs:189-205 | when the buffer ends part-way, writeVarInt fails with the bytes that fit written and the write cursor at the end of the buffer |
| VarIntStreamProofs.WriteZigZag32Small | CSharpBinaryStream/Program.cs:213-216 | on [-2^30, 2^30), writeZigZag32 is writeVarInt of 2v for v >= 0 and of -2v - 1 for v < 0 |
| VarIntStreamProofs.WriteZigZag32Large | CSharpBinaryStream/Program.cs:189-216 | outside [-2^30, 2^30) the zigzag result is a negative `int`, so a writeZigZag32 that fits writes five bytes, each with the continuation bit set and none ending the varint |
| VarIntStreamProofs.BytewiseAppend | CSharpBinaryStream/Program.cs:207-211 | a run of one-byte writes of two sequences is the run of the first and then, if that did not fail, the run of the second |
| Stream.WriteVarLong | CSharpBinaryStream/Program.cs:207-211 | no contract of its own; its meaning is given by `VarIntStreamProofs.WriteVarLongWrites` |
| Stream.WriteZigZag32 | CSharpBinaryStream/Program.cs:213-216 | no contract of its own; its meaning is given by `VarIntStreamProofs.WriteZigZag32Small` and, for every value, by `VarInt.ZigZag32Value` with `VarIntStreamProofs.WriteVarIntWrites` |
| VarIntStreamProofs.WriteVarLongWrites | CSharpBinaryStream/Program.cs:207-211 | writeVarLong writes the varint of the high half and then that of the low half, as one run of one-byte writes |
| Stream.WriteZigZag64 | CSharpBinaryStream/Program.cs:218-222 | no contract of its own; its meaning is given by `VarIntStreamProofs.WriteZigZag64Writes` |
| VarIntStreamProofs.WriteZigZag64Writes | CSharpBinaryStream/Program.cs:218-222 | writeZigZag64 writes the zigzag varint of the high half and then that of the low half, as one run of one-byte writes |

## Left out

- Conversion between floats and their bit patterns (`BitConverter`) is
  left out: the model takes and returns the `int` or `long` bit pattern
  (`WriteFloatBits`, `WriteDoubleBits`, `ReadFloatBits`,
  `ReadDoubleBits`). Floating point is outside the model.
- The `Program.Main` demonstration (lines 270-286) is console I/O.
- The two tables are `Dictionary` lookups in the source. Here they are
  functions of the four widths the code uses (`Width`), so a width
  outside 8, 16, 24 and 32 cannot be expressed. The limits table has
  all four.
- Codec.WriteValueIntoBytes and Codec.ReadValueFromBytes require a width
  with an entry in the shift table. The `KeyNotFoundException` that
  `writeValueIntoBytes` and `readValueFromBytes` throw for 8 bits is not
  modelled. The stream calls them only with 16, 24 and 32.
- Codec.WriteValueIntoBytes returns a fresh sequence with exactly one
  byte per shift. The source writes into an array the caller passes.
  The model leaves out that array's bytes past the written ones, which
  the source leaves untouched. It also leaves out the
  `IndexOutOfRangeException` the source throws part-way when that array
  is too short. The stream always passes an array of exactly the right
  length.
- Codec.ReadValueFromBytes requires at least as many bytes as the width
  has shifts. The `IndexOutOfRangeException` the source throws part-way
  through its loop on a shorter array is not modelled. The stream always
  passes exactly that many bytes, the result of `read(2)`, `read(3)` or
  `read(4)` (lines 231, 237 and 243). A longer array is read only in its
  first bytes, in the model as in the source.
- Exceptions are one `Fault` outcome; their .NET types are not told
  apart. These are `ArgumentException` or `ArgumentOutOfRangeException`
  from `Array.Copy` and `OverflowException` from `new byte[size]`.
- Running out of memory in `allocate` is not modelled. Neither is a
  `null` buffer passed to the public constructor.
- Concurrent use of one stream is not modelled. The class has no
  synchronisation.
- StreamLongProofs.ReadInt64OfWritten: the unsigned long round trip is
  stated as two lemmas rather than one. `WriteInt64Pair` says what a
  long write leaves at the cursor. `ReadInt64OfWritten` says what
  `readInt64` returns over such bytes when the read cursor starts there.
  `Int64HalvesSurvive` says when the result equals the long. A single
  lemma chaining `WriteInt64` into `ReadInt64` is not stated.
- StreamLongProofs.WriteInt64Layout: for signed long writes (and so for
  `writeDouble`) the stored halves are stated, but no round trip with
  `readInt64` is given. `readInt64` reads both halves unsigned.
