/** A UUID as the 16 bytes that `Uuid::as_bytes` exposes (RFC 4122 field
    order), and `Uuid::to_u128_le`, which reads those bytes as one unsigned
    128-bit integer in little-endian order: byte `i` weighs 256^i. */
module UuidBytes {
  import opened Decimal

  type Byte = b: nat | b < 256

  type Uuid = s: seq<Byte> | |s| == 16 witness [0, 0, 0, 0, 0, 0, 0, 0, 0, 0, 0, 0, 0, 0, 0, 0]

  /** 2^128: every `u128` value lies below it. */
  const U128_LIMIT: nat := 0x1_0000_0000_0000_0000_0000_0000_0000_0000

  lemma U128LimitIsPow()
    ensures Pow(256, 16) == U128_LIMIT
  {
    PowAdd(256, 8, 8);
  }

  /** Little-endian value: the first byte is the least significant. */
  function LeValue(bytes: seq<Byte>): (v: nat)
    ensures v < Pow(256, |bytes|)
  {
    if bytes == [] then 0 else bytes[0] + 256 * LeValue(bytes[1..])
  }

  /** The reference reading of little-endian order: the sum of
      `bytes[i] * 256^i` over all positions, accumulated from the last byte. */
  function WeightedSum(bytes: seq<Byte>): nat
  {
    if bytes == [] then 0
    else WeightedSum(bytes[..|bytes| - 1]) + bytes[|bytes| - 1] * Pow(256, |bytes| - 1)
  }

  /** Appending a byte adds it with the weight of its position. */
  lemma {:induction false} LeValueAppend(bytes: seq<Byte>, b: Byte)
    ensures LeValue(bytes + [b]) == LeValue(bytes) + b * Pow(256, |bytes|)
  {
    if bytes != [] {
      assert (bytes + [b])[1..] == bytes[1..] + [b];
      LeValueAppend(bytes[1..], b);
    }
  }

  /** `LeValue` is the weighted sum `sum bytes[i] * 256^i`. */
  lemma {:induction false} LeValueIsWeightedSum(bytes: seq<Byte>)
    ensures LeValue(bytes) == WeightedSum(bytes)
  {
    if bytes != [] {
      var init := bytes[..|bytes| - 1];
      LeValueIsWeightedSum(init);
      LeValueAppend(init, bytes[|bytes| - 1]);
      assert init + [bytes[|bytes| - 1]] == bytes;
    }
  }

  /** Every byte contributes at least its own weight. */
  lemma {:induction false} LeValueAtLeast(bytes: seq<Byte>, i: nat)
    requires i < |bytes|
    ensures LeValue(bytes) >= bytes[i] * Pow(256, i)
  {
    if i > 0 {
      var rest, b, p := bytes[1..], bytes[i], Pow(256, i - 1);
      LeValueAtLeast(rest, i - 1);
      assert rest[i - 1] == b;
      var q := b * p;
      assert q <= LeValue(rest);
      assert LeValue(bytes) >= 256 * q;
      assert b * Pow(256, i) == 256 * q by {
        assert Pow(256, i) == 256 * p;
      }
    }
  }

  /** The first byte is the value's least significant byte. */
  lemma LeValueLowByte(bytes: seq<Byte>)
    requires bytes != []
    ensures LeValue(bytes) % 256 == bytes[0]
  {
    var rest := LeValue(bytes[1..]);
    assert LeValue(bytes) == bytes[0] + 256 * rest;
  }

  /** Bytes that are all zero have value 0. */
  lemma {:induction false} LeValueAllZero(bytes: seq<Byte>)
    requires forall i :: 0 <= i < |bytes| ==> bytes[i] == 0
    ensures LeValue(bytes) == 0
  {
    if bytes != [] {
      LeValueAllZero(bytes[1..]);
    }
  }

  /** Bytes that are all 255 have the largest value of their length. */
  lemma {:induction false} LeValueAllOnes(bytes: seq<Byte>)
    requires forall i :: 0 <= i < |bytes| ==> bytes[i] == 255
    ensures LeValue(bytes) == Pow(256, |bytes|) - 1
  {
    if bytes != [] {
      LeValueAllOnes(bytes[1..]);
    }
  }

  /** The `len` little-endian bytes of `v`, as `Uuid::from_u128_le` lays them out. */
  function LeBytes(v: nat, len: nat): (bytes: seq<Byte>)
    requires v < Pow(256, len)
    ensures |bytes| == len && LeValue(bytes) == v
  {
    if len == 0 then [] else [v % 256] + LeBytes(v / 256, len - 1)
  }

  /** Reading bytes and laying the value out again gives the same bytes back. */
  lemma {:induction false} LeBytesOfLeValue(bytes: seq<Byte>)
    ensures LeBytes(LeValue(bytes), |bytes|) == bytes
  {
    if bytes != [] {
      var v := LeValue(bytes);
      assert v % 256 == bytes[0] && v / 256 == LeValue(bytes[1..]);
      LeBytesOfLeValue(bytes[1..]);
    }
  }

  /** `Uuid::to_u128_le`: the value always fits in a `u128`. */
  function ToU128Le(u: Uuid): (v: nat)
    ensures v < U128_LIMIT
  {
    U128LimitIsPow();
    LeValue(u)
  }

  /** `Uuid::from_u128_le`, the inverse of `ToU128Le` on `u128` values. */
  function FromU128Le(v: nat): (u: Uuid)
    requires v < U128_LIMIT
    ensures ToU128Le(u) == v
  {
    U128LimitIsPow();
    LeBytes(v, 16)
  }

  lemma FromToU128Le(u: Uuid)
    ensures FromU128Le(ToU128Le(u)) == u
  {
    LeBytesOfLeValue(u);
  }

  /** Distinct UUIDs have distinct little-endian values. */
  lemma ToU128LeInjective(a: Uuid, b: Uuid)
    requires ToU128Le(a) == ToU128Le(b)
    ensures a == b
  {
    FromToU128Le(a);
    FromToU128Le(b);
  }

  /** The fields that `Uuid::new_v4` fixes: version 4 in the high nibble of
      byte 6, and the RFC 4122 variant (bits `10`) at the top of byte 8. */
  predicate IsVersion4(u: Uuid)
  {
    u[6] / 16 == 4 && u[8] / 64 == 2
  }

  /** In little-endian order the variant byte weighs 256^8, so the value of a
      version 4 UUID is at least 128 * 2^64 = 2^71. */
  lemma Version4Magnitude(u: Uuid)
    requires IsVersion4(u)
    ensures ToU128Le(u) >= 0x80_0000_0000_0000_0000
  {
    LeValueAtLeast(u, 8);
    assert Pow(256, 8) == 0x1_0000_0000_0000_0000;
  }
}
