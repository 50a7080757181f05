/** DICOM UIDs derived from UUIDs in the shape of DICOM PS3.5 Annex B.2: the
    root `2.25`, a dot, and the UUID read as one unsigned 128-bit integer in
    decimal. The standard reads the UUID's bytes most significant first; this
    library reads them in little-endian order (`to_u128_le`), so for the same
    UUID its integer, and its UID, differ from the standard's. */
module DicomUid {
  import opened Decimal
  import opened UuidBytes
  import opened Io

  datatype Option<T> = None | Some(value: T)

  /** The root `2.25` for UUID-derived UIDs, with the dot that separates it
      from the UUID's arc. */
  const Root: string := "2.25."

  /** 2^128 is below 10^39, so a `u128` has at most 39 decimal digits. */
  lemma U128FitsIn39Digits()
    ensures U128_LIMIT < Pow(10, 39)
  {
    PowAdd(10, 13, 26);
    PowAdd(10, 13, 13);
  }

  /** 2^128 - 1 is at least 10^38, so it has exactly 39 decimal digits. */
  lemma U128MaxHas39Digits()
    ensures U128_LIMIT - 1 >= Pow(10, 38)
  {
    PowAdd(10, 10, 9);
    PowAdd(10, 19, 19);
  }

  /** 2^71 is at least 10^21, so such a value has at least 22 decimal digits. */
  lemma Pow71AtLeast21Digits()
    ensures 0x80_0000_0000_0000_0000 >= Pow(10, 21)
  {
    PowAdd(10, 10, 11);
  }

  /** The characters a UID of this scheme is made of. */
  predicate IsUidChar(c: char)
  {
    c == '.' || IsDigit(c)
  }

  /** `new_uid`: `2.25.` followed by the decimal value of `to_u128_le`. */
  function NewUid(u: Uuid): (uid: string)
    ensures 6 <= |uid| <= 44
    ensures uid[..5] == "2.25."
    ensures IsCanonical(uid[5..])
    ensures forall i :: 0 <= i < |uid| ==> IsUidChar(uid[i])
    ensures IsAscii(uid)
  {
    var v := ToU128Le(u);
    U128FitsIn39Digits();
    DigitsLength(v, 39);
    var uid := Root + Digits(v);
    assert uid[5..] == Digits(v);
    uid
  }

  /** The digits after the root are the weighted sum `sum u[i] * 256^i`. */
  lemma NewUidValue(u: Uuid)
    ensures ParseDigits(NewUid(u)[5..]) == WeightedSum(u)
  {
    assert NewUid(u)[5..] == Digits(ToU128Le(u));
    ParseDigitsOfDigits(ToU128Le(u));
    LeValueIsWeightedSum(u);
  }

  /** Recovers the UUID from a UID of this scheme; `None` for any string that
      `NewUid` cannot produce. */
  function ParseUid(s: string): (r: Option<Uuid>)
  {
    if |s| >= 6 && s[..5] == Root && IsCanonical(s[5..]) && ParseDigits(s[5..]) < U128_LIMIT
    then Some(FromU128Le(ParseDigits(s[5..])))
    else None
  }

  /** Every UID that `NewUid` produces parses back to its UUID. */
  lemma ParseNewUid(u: Uuid)
    ensures ParseUid(NewUid(u)) == Some(u)
  {
    var uid := NewUid(u);
    assert uid[5..] == Digits(ToU128Le(u));
    ParseDigitsOfDigits(ToU128Le(u));
    FromToU128Le(u);
  }

  /** Every string that parses is the UID of the UUID it parses to. */
  lemma NewUidOfParse(s: string)
    requires ParseUid(s).Some?
    ensures NewUid(ParseUid(s).value) == s
  {
    var digits := s[5..];
    DigitsOfParseDigits(digits);
    assert s == Root + digits;
  }

  /** Distinct UUIDs give distinct UIDs. */
  lemma NewUidInjective(a: Uuid, b: Uuid)
    requires NewUid(a) == NewUid(b)
    ensures a == b
  {
    ParseNewUid(a);
    ParseNewUid(b);
  }

  /** `gen_uid`: the UID of a UUID drawn by `Uuid::new_v4`, whose version and
      variant bits make it at least 27 characters long. */
  function GenUid(drawn: Uuid): (uid: string)
    requires IsVersion4(drawn)
    ensures uid == NewUid(drawn)
    ensures 27 <= |uid| <= 44
  {
    Version4Magnitude(drawn);
    Pow71AtLeast21Digits();
    DigitsLength(ToU128Le(drawn), 21);
    assert NewUid(drawn)[5..] == Digits(ToU128Le(drawn));
    NewUid(drawn)
  }

  /** The nil UUID gives the shortest UID: the value 0 is the single digit `0`. */
  lemma NilUid()
    ensures NewUid([0, 0, 0, 0, 0, 0, 0, 0, 0, 0, 0, 0, 0, 0, 0, 0]) == "2.25.0"
  {
    var nil: Uuid := [0, 0, 0, 0, 0, 0, 0, 0, 0, 0, 0, 0, 0, 0, 0, 0];
    LeValueAllZero(nil);
    assert Digits(0) == "0";
  }

  /** The UUID whose first byte is 1 and whose other bytes are 0 has value 1,
      which renders without leading zeros. */
  lemma FirstByteOneUid()
    ensures NewUid([1, 0, 0, 0, 0, 0, 0, 0, 0, 0, 0, 0, 0, 0, 0, 0]) == "2.25.1"
  {
    var one: Uuid := [1, 0, 0, 0, 0, 0, 0, 0, 0, 0, 0, 0, 0, 0, 0, 0];
    LeValueAllZero(one[1..]);
    assert ToU128Le(one) == 1;
    assert Digits(1) == "1";
  }

  /** The all-ones UUID has the largest value, 2^128 - 1, and gives a UID of
      the largest length, 44 characters. */
  lemma MaxUid(ones: Uuid)
    requires forall i :: 0 <= i < 16 ==> ones[i] == 255
    ensures |NewUid(ones)| == 44
    ensures ParseDigits(NewUid(ones)[5..]) == 340282366920938463463374607431768211455
  {
    LeValueAllOnes(ones);
    U128LimitIsPow();
    var v := ToU128Le(ones);
    assert v == 340282366920938463463374607431768211455;
    U128MaxHas39Digits();
    DigitsLength(v, 38);
    assert NewUid(ones)[5..] == Digits(v);
    ParseDigitsOfDigits(v);
  }

  /** The example of DICOM PS3.5 Annex B.2, UUID
      f81d4fae-7dec-11d0-a765-00a0c91e6bf6, has the UID
      2.25.329800735698586629295641978511506172918 there: the UUID's bytes read
      most significant first. `new_uid` reads them least significant first, so
      the digits it writes for that UUID are worth another integer, whose low
      byte is the UUID's first byte 0xf8 rather than its last byte 0xf6. */
  lemma AnnexExampleDiffers(u: Uuid)
    requires u == [0xf8, 0x1d, 0x4f, 0xae, 0x7d, 0xec, 0x11, 0xd0, 0xa7, 0x65, 0x00, 0xa0, 0xc9, 0x1e, 0x6b, 0xf6]
    ensures ParseDigits(NewUid(u)[5..]) % 256 == 0xf8
    ensures ParseDigits(NewUid(u)[5..]) != 329800735698586629295641978511506172918
  {
    var v := ToU128Le(u);
    assert NewUid(u)[5..] == Digits(v);
    ParseDigitsOfDigits(v);
    LeValueLowByte(u);
  }

  /** `new_uid_to`: `write!` sends the literal `2.25.` and then the number to
      the writer, in two writes (`Writer.WriteFmt`). The result is `Ok` exactly when the writer can
      take the whole UID; then it holds its old bytes followed by the UID's
      bytes. Otherwise the error of the failing write comes back, and the
      writer holds its old bytes, followed by `2.25.` when only the second
      write failed. */
  method NewUidTo(u: Uuid, to: Writer) returns (r: WriteResult)
    modifies to
    ensures to.health == old(to.health)
    ensures r.Ok? <==> old(to.Accepts(|NewUid(u)|))
    ensures r.Err? ==> r.error == if to.health.Failing? then to.health.error else WriteZero
    ensures to.written == if r.Ok? then old(to.written) + AsciiBytes(NewUid(u))
                          else if old(to.Accepts(|Root|)) then old(to.written) + AsciiBytes(Root)
                          else old(to.written)
    ensures r.Ok? ==> |to.written| > |old(to.written)|
    ensures old(to.room).Unlimited? ==> to.room.Unlimited?
    ensures old(to.room).AtMost? ==> to.room.AtMost? && to.room.bytes + |to.written| == old(to.room).bytes + |old(to.written)|
  {
    var digits := Digits(ToU128Le(u));
    assert IsAscii(digits) by {
      forall i | 0 <= i < |digits| ensures digits[i] as int < 128 { assert IsDigit(digits[i]); }
    }
    assert IsAscii(Root);
    AsciiBytesAppend(Root, digits);
    assert NewUid(u) == Root + digits;
    r := to.WriteFmt(AsciiBytes(Root), AsciiBytes(digits));
  }

  /** `gen_uid_to`: writes the UID of a UUID drawn by `Uuid::new_v4`. On
      success it adds 27 to 44 bytes, each `.` or an ASCII digit. */
  method GenUidTo(drawn: Uuid, to: Writer) returns (r: WriteResult)
    requires IsVersion4(drawn)
    modifies to
    ensures to.health == old(to.health)
    ensures r.Ok? <==> old(to.Accepts(|GenUid(drawn)|))
    ensures r.Ok? ==> to.written == old(to.written) + AsciiBytes(GenUid(drawn))
    ensures r.Ok? ==> 27 <= |to.written| - |old(to.written)| <= 44
    ensures r.Ok? ==> forall i :: |old(to.written)| <= i < |to.written| ==> IsUidChar(to.written[i] as char)
    ensures r.Err? ==> r.error == if to.health.Failing? then to.health.error else WriteZero
    ensures r.Err? ==> to.written == old(to.written) || to.written == old(to.written) + AsciiBytes(Root)
    ensures old(to.room).Unlimited? ==> to.room.Unlimited?
    ensures old(to.room).AtMost? ==> to.room.AtMost? && to.room.bytes + |to.written| == old(to.room).bytes + |old(to.written)|
  {
    r := NewUidTo(drawn, to);
    if r.Ok? {
      var uid := GenUid(drawn);
      var base := |old(to.written)|;
      forall i | base <= i < |to.written| ensures IsUidChar(to.written[i] as char) {
        assert to.written[i] == AsciiBytes(uid)[i - base] == uid[i - base] as int;
      }
    }
  }

  /** The test that writes two UIDs into one empty `Vec<u8>`: both writes
      succeed, the first leaves bytes that decode to a 27 to 44 character UID,
      and the second makes the buffer strictly longer. */
  method GenUidToVecTwice(a: Uuid, b: Uuid) returns (first: string, r1: WriteResult, r2: WriteResult, len: nat, total: nat)
    requires IsVersion4(a) && IsVersion4(b)
    ensures r1.Ok? && r2.Ok?
    ensures first == GenUid(a) && len == |first|
    ensures 27 <= len <= 44
    ensures total > len
  {
    var out := new Writer([], Healthy, Unlimited);
    r1 := GenUidTo(a, out);
    var bytes := out.written;
    assert bytes == AsciiBytes(GenUid(a));
    DecodeAsciiBytes(GenUid(a));
    first := DecodeAscii(bytes);
    len := |bytes|;
    r2 := GenUidTo(b, out);
    total := |out.written|;
  }
}
