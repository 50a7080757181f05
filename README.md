# DICOM UIDs derived from UUIDs

A Dafny model of `dicom-gen-uid`, a Rust library that derives DICOM unique
identifiers from UUIDs. Its UIDs have the shape of DICOM PS3.5 Annex B.2: the
root `2.25`, a dot, and the UUID written as one unsigned 128-bit decimal
integer. The library gets that integer from `Uuid::to_u128_le`, so the UUID's
16 bytes are read in little-endian order: byte `i` weighs 256^i. The model keeps
that byte order.

The standard reads the UUID's bytes the other way round, most significant
first. Its example UUID `f81d4fae-7dec-11d0-a765-00a0c91e6bf6` gets the UID
`2.25.329800735698586629295641978511506172918`. `new_uid` reads the same bytes
least significant first, which gives the integer
327546287173619387833863140454723165688. So for the same UUID this library's
UID differs from the standard's, although src/lib.rs:5 cites Annex B.2. The
library's UIDs still have the scheme's shape, and distinct UUIDs still give
distinct UIDs. `AnnexExampleDiffers` proves that for the example UUID, the
digits `new_uid` writes are worth a number other than the standard's.

The project has four modules:

- `Decimal` (`decimal.dfy`): how Rust's `Display` renders an unsigned integer.
  `Digits(n)` gives the numeral with no sign, no padding and no leading zero,
  and `0` for zero. `ParseDigits` is its inverse. The lemmas show that `Digits`
  is a bijection between the naturals and the canonical numerals. They also show
  that a numeral has at most `k` digits exactly when the value is below 10^k.
- `UuidBytes` (`uuid_bytes.dfy`): a UUID as the 16 bytes of `Uuid::as_bytes`.
  - `LeValue` / `ToU128Le` is `to_u128_le`. It is proved equal to the weighted
    sum `sum bytes[i] * 256^i` and always below 2^128.
  - `LeBytes` / `FromU128Le` is its inverse, so the conversion is injective.
  - `IsVersion4` gives the version and variant bits that `Uuid::new_v4` fixes.
- `Io` (`io.dfy`): the caller's `std::io::Write` sink, as a `Writer` class that
  holds the bytes it has accepted. It also records whether the writer is
  failing and how much room it has left. Each write succeeds or fails on its
  own. `WriteFmt` is what `write!` does: it writes the literal `2.25.` and then
  the number, and stops at the first error. The module also has the ASCII part
  of UTF-8, which turns the UID's characters into bytes.
- `DicomUid` (`dicom_uid.dfy`): the library's four public functions.
  - `NewUid` is `new_uid` and `GenUid` is `gen_uid`. Both are pure functions.
  - `NewUidTo` is `new_uid_to` and `GenUidTo` is `gen_uid_to`. Both are methods
    that append to a `Writer`.
  - `ParseUid` is the inverse of `NewUid`. It shows which strings are UIDs of
    this scheme and that distinct UUIDs give distinct UIDs.

`NewUid` is a function, so the same UUID always gives the same UID. This is the
determinism that `src/lib.rs:94-99` checks.

Length of a UID: `new_uid` accepts any UUID (src/lib.rs:31). The nil UUID gives
the 6-character `2.25.0`, so for an arbitrary UUID the UID has 6 to 44
characters. The tests' bound of more than 8 characters (src/lib.rs:52-57,
src/lib.rs:77-82) is only exercised on version 4 UUIDs from `Uuid::new_v4`.
In little-endian order their variant byte (byte 8, top bits `10`) makes the
value at least 2^71, so it has at least 22 digits. `GenUid` and `GenUidTo` are
therefore proved to give 27 to 44 characters.

## Model

| member | source | states |
|---|---|---|
| `Decimal.Digits` | src/lib.rs:32 | the `{}` rendering of an integer is a canonical numeral: at least one digit, only digits, and it starts with `0` exactly when the value is 0 |
| `Decimal.ParseDigits` | src/lib.rs:32 | reading a string of `k` digits gives a value below 10^k |
| `Decimal.ParseDigitsLower` | src/lib.rs:32 | a numeral whose first digit is not `0` is worth at least 10^(length - 1) |
| `Decimal.ParseDigitsOfDigits` | src/lib.rs:32 | parsing the rendered digits gives back the integer |
| `Decimal.DigitsOfParseDigits` | src/lib.rs:32 | every canonical numeral is the rendering of its own value, so rendering is onto the canonical numerals |
| `Decimal.DigitsInjective` | src/lib.rs:32 | distinct integers render to distinct digit strings |
| `Decimal.DigitsLength` | src/lib.rs:32 | a value has at most `k` digits if and only if it is below 10^k |
| `UuidBytes.LeValue` | src/lib.rs:32 | the little-endian value of `n` bytes is below 256^n |
| `UuidBytes.LeValueAppend` | src/lib.rs:32 | appending a byte adds it with weight 256^position |
| `UuidBytes.LeValueIsWeightedSum` | src/lib.rs:32 | `to_u128_le` is the sum of `bytes[i] * 256^i` |
| `UuidBytes.LeValueAtLeast` | src/lib.rs:32 | the value is at least any single byte times its weight |
| `UuidBytes.LeValueLowByte` | src/lib.rs:32 | the first byte is the least significant byte of the value |
| `UuidBytes.LeValueAllZero` | src/lib.rs:32 | all-zero bytes have value 0 |
| `UuidBytes.LeValueAllOnes` | src/lib.rs:32 | all-255 bytes have value 256^n - 1 |
| `UuidBytes.LeBytes` | src/lib.rs:32 | laying out a value below 256^n as `n` little-endian bytes gives bytes whose value is that value |
| `UuidBytes.LeBytesOfLeValue` | src/lib.rs:32 | reading bytes and laying their value out again gives the same bytes |
| `UuidBytes.ToU128Le` | src/lib.rs:32 | `to_u128_le` of a UUID fits in a `u128` (below 2^128) |
| `UuidBytes.FromU128Le` | src/lib.rs:32 | every `u128` value is `to_u128_le` of some UUID |
| `UuidBytes.FromToU128Le` | src/lib.rs:32 | converting a UUID to its value and back gives the same UUID |
| `UuidBytes.ToU128LeInjective` | src/lib.rs:32 | distinct UUIDs have distinct little-endian values |
| `UuidBytes.Version4Magnitude` | src/lib.rs:18 | a UUID with the version 4 and variant bits that `new_v4` sets has a value of at least 2^71 |
| `Io.AsciiBytes` | src/lib.rs:39 | writing an ASCII string gives one byte per character, equal to the character's code, all below 128 |
| `Io.AsciiBytesAppend` | src/lib.rs:39 | writing two strings in turn gives the bytes of their concatenation |
| `Io.DecodeAsciiBytes` | src/lib.rs:108-115 | UTF-8 decoding of the written bytes gives the string back, so byte length equals character length |
| `Io.Writer.constructor` | src/lib.rs:104 | a writer starts with the given bytes, health and room (the tests start from an empty, healthy, unbounded `Vec<u8>`) |
| `Io.Writer.WriteAll` | src/lib.rs:39 | a write succeeds exactly when the writer is healthy and has room for the data; then the data is appended and the room shrinks by its length; otherwise the writer's own error, or `WriteZero` when room is short, comes back and nothing is written |
| `Io.Writer.WriteFmt` | src/lib.rs:39 | `write!` writes its two pieces in turn: `Ok` exactly when the writer can take both, with both appended; when only the second write fails, the first piece stays written; an unbounded writer stays unbounded, and a bounded one loses exactly as much room as it gained bytes |
| `DicomUid.NewUid` | src/lib.rs:31-33 | the UID starts with `2.25.` and is followed by a canonical numeral (at least one digit, no leading zero); every character is `.` or a digit, so all are ASCII; 6 to 44 characters |
| `DicomUid.NewUidValue` | src/lib.rs:32 | the digits after `2.25.` parse to `sum u[i] * 256^i` |
| `DicomUid.ParseNewUid` | src/lib.rs:31-33 | every UID `new_uid` returns parses back to its UUID |
| `DicomUid.NewUidOfParse` | src/lib.rs:31-33 | every string that parses as a UID of this scheme is exactly `new_uid` of the UUID it parses to |
| `DicomUid.NewUidInjective` | src/lib.rs:1-6 | distinct UUIDs give distinct UIDs, as a unique identifier requires |
| `DicomUid.GenUid` | src/lib.rs:15-19 | `gen_uid` is `new_uid` of the drawn version 4 UUID and has 27 to 44 characters, so more than 8 (checked at src/lib.rs:50-63) |
| `DicomUid.NilUid` | src/lib.rs:32 | the nil UUID gives `2.25.0` |
| `DicomUid.FirstByteOneUid` | src/lib.rs:32 | the UUID whose first byte is 1 and the rest 0 gives `2.25.1`: byte 0 is least significant, and there are no leading zeros |
| `DicomUid.MaxUid` | src/lib.rs:32 | the all-255 UUID gives a 44-character UID whose digits are worth 2^128 - 1 = 340282366920938463463374607431768211455 |
| `DicomUid.AnnexExampleDiffers` | src/lib.rs:5-8 | for the example UUID of DICOM PS3.5 Annex B.2, the digits `new_uid` writes (src/lib.rs:32) are worth a number whose low byte is the UUID's first byte 0xf8, so they are not the standard's 329800735698586629295641978511506172918 |
| `DicomUid.NewUidTo` | src/lib.rs:35-40 | `Ok` exactly when the writer can take the whole UID, and then the writer holds its old bytes followed by the bytes of `new_uid` for the same UUID, so it strictly grows (checked at src/lib.rs:134-135); on an error the write's error comes back, and the writer keeps its old bytes, followed by `2.25.` when only the second write failed; an unbounded writer stays unbounded, a bounded one loses as much room as it gained bytes |
| `DicomUid.GenUidTo` | src/lib.rs:21-27 | on success it appends the bytes of `gen_uid`, 27 to 44 bytes, each `.` or an ASCII digit (checked at src/lib.rs:110-132); on an error the writer has gained nothing, or only `2.25.`; an unbounded writer stays unbounded, so a later call can succeed again |
| `DicomUid.GenUidToVecTwice` | src/lib.rs:102-136 | writing two UIDs into one fresh, unbounded `Vec<u8>` succeeds both times; the first write's bytes decode to `gen_uid`'s UID of 27 to 44 characters, and the second makes the buffer strictly longer |

## Left out

- `Uuid::new_v4` (src/lib.rs:18, src/lib.rs:26) draws random bytes. `GenUid` and `GenUidTo` take the drawn UUID as a parameter instead. It is required to carry the version 4 and variant bits that the generator guarantees.
- Uniqueness across many generated UIDs (the loop at src/lib.rs:49) is a probabilistic property of the random generator. It is not modelled. The model proves instead that distinct UUIDs give distinct UIDs.
- Partial writes within a single `write_all` are not modelled. A write either appends all its bytes or none. A real writer with too little room takes what fits before it reports `WriteZero`. Between the two writes of `write!`, a failure is modelled: it leaves `2.25.` behind.
- How a real writer comes to fail is not modelled. The model stands for it by a fixed failing state or a limited room.
- UTF-8 is modelled only for ASCII (one byte per character). Every character a UID contains is ASCII.
- The internals of the `uuid` crate and of Rust's formatting machinery are not part of this model. They are re-specified as the little-endian sum and the decimal numeral.
- DicomUid.MaxUid: the 39-digit numeral is not spelled out character by character. The lemma proves that the UID has 44 characters and that its digits parse to 2^128 - 1. Because `DigitsOfParseDigits` makes rendering a bijection, this fixes the string.
