/** The caller-supplied `std::io::Write` sink, reduced to what `write!` needs
    from it: writes that either append every byte or fail without writing,
    and the ASCII part of the UTF-8 encoding that turns characters into the
    bytes it receives. Each write succeeds or fails on its own, so of the
    several writes one `write!` makes, the first can succeed and a later one
    fail. */
module Io {
  import opened UuidBytes

  /** The error a write reports; it reaches the caller unchanged. `WriteZero`
      is the error of `write_all` when the writer has no room left for the
      data; `Os` is an error of the underlying medium (a closed pipe). */
  datatype IoError = WriteZero | Os(code: int)

  datatype WriteResult = Ok | Err(error: IoError)

  /** Whether a writer accepts writes, or refuses every one with the same error. */
  datatype Health = Healthy | Failing(error: IoError)

  /** How many more bytes a writer can take: a `Vec<u8>` grows without bound,
      a fixed buffer or a nearly full disk has a limit. */
  datatype Room = Unlimited | AtMost(bytes: nat)

  predicate IsAscii(s: string)
  {
    forall i :: 0 <= i < |s| ==> s[i] as int < 128
  }

  predicate AllAsciiBytes(bytes: seq<Byte>)
  {
    forall i :: 0 <= i < |bytes| ==> bytes[i] < 128
  }

  /** UTF-8 encoding of an ASCII string: one byte per character, the
      character's code. */
  function AsciiBytes(s: string): (bytes: seq<Byte>)
    requires IsAscii(s)
    ensures |bytes| == |s|
    ensures forall i :: 0 <= i < |s| ==> bytes[i] == s[i] as int
    ensures AllAsciiBytes(bytes)
  {
    if s == [] then [] else [s[0] as int] + AsciiBytes(s[1..])
  }

  /** UTF-8 decoding (`std::str::from_utf8`) of bytes that are all below 128:
      each byte is one character. */
  function DecodeAscii(bytes: seq<Byte>): (s: string)
    requires AllAsciiBytes(bytes)
  {
    if bytes == [] then [] else [bytes[0] as char] + DecodeAscii(bytes[1..])
  }

  lemma {:induction false} AsciiBytesAppend(a: string, b: string)
    requires IsAscii(a) && IsAscii(b)
    ensures IsAscii(a + b) && AsciiBytes(a + b) == AsciiBytes(a) + AsciiBytes(b)
  {
    if a != [] {
      assert (a + b)[1..] == a[1..] + b;
      AsciiBytesAppend(a[1..], b);
    } else {
      assert a + b == b;
    }
  }

  /** Decoding the written bytes gives back the string, character for
      character, so byte length and character length agree. */
  lemma {:induction false} DecodeAsciiBytes(s: string)
    requires IsAscii(s)
    ensures DecodeAscii(AsciiBytes(s)) == s
  {
    if s != [] {
      DecodeAsciiBytes(s[1..]);
    }
  }

  /** A writer that stores what it accepts, as the `Vec<u8>` of the tests does. */
  class Writer {
    var written: seq<Byte>
    var health: Health
    var room: Room

    constructor (initial: seq<Byte>, health: Health, room: Room)
      ensures written == initial && this.health == health && this.room == room
    {
      written := initial;
      this.health := health;
      this.room := room;
    }

    /** Whether a write of `n` bytes would succeed now. */
    predicate Accepts(n: nat)
      reads this
    {
      health.Healthy? && (room.Unlimited? || n <= room.bytes)
    }

    /** `Write::write_all`: append all of `data`, or fail without writing. A
        failing writer reports its own error; a healthy one without room for
        the data reports `WriteZero`. */
    method WriteAll(data: seq<Byte>) returns (r: WriteResult)
      modifies this
      ensures health == old(health)
      ensures r.Ok? <==> old(Accepts(|data|))
      ensures r.Err? ==> r.error == if health.Failing? then health.error else WriteZero
      ensures written == if r.Ok? then old(written) + data else old(written)
      ensures room == if r.Ok? && old(room).AtMost? then AtMost(old(room).bytes - |data|) else old(room)
    {
      if health.Failing? {
        r := Err(health.error);
      } else if room.AtMost? && |data| > room.bytes {
        r := Err(WriteZero);
      } else {
        written := written + data;
        if room.AtMost? {
          room := AtMost(room.bytes - |data|);
        }
        r := Ok;
      }
    }

    /** `Write::write_fmt`, which `write!` expands to, for a format with a
        literal piece and one argument: it writes the two pieces in turn and
        stops at the first error. The result is `Ok` exactly when the writer
        can take both; a failure of the second write leaves the first behind.
        An unbounded writer stays unbounded; a bounded one loses exactly as
        much room as it gained bytes. */
    method WriteFmt(first: seq<Byte>, second: seq<Byte>) returns (r: WriteResult)
      modifies this
      ensures health == old(health)
      ensures r.Ok? <==> old(Accepts(|first| + |second|))
      ensures r.Err? ==> r.error == if health.Failing? then health.error else WriteZero
      ensures written == if r.Ok? then old(written) + (first + second)
                         else if old(Accepts(|first|)) then old(written) + first
                         else old(written)
      ensures old(room).Unlimited? ==> room.Unlimited?
      ensures old(room).AtMost? ==> room.AtMost? && room.bytes + |written| == old(room).bytes + |old(written)|
    {
      ghost var before := written;
      r := WriteAll(first);
      if r.Ok? {
        r := WriteAll(second);
        assert before + first + second == before + (first + second);
      }
    }
  }
}
