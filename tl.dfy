/**
 * The MTProto TL base-type serialisation the messages are built from:
 * little-endian `long` and `int`, verbatim `int128`, length-prefixed `bytes`
 * padded to four bytes, and the boxed `Vector long`; plus the forward read
 * cursor that deserialisation threads through.
 *
 * The encoders are reference definitions of the TL wire format; the decoders
 * are what a peer applies to read the encoders' output back.
 */
module Tl {
  import opened Bytes
  import opened Wrappers

  newtype Int64 = x: int | -0x8000_0000_0000_0000 <= x < 0x8000_0000_0000_0000
  newtype UInt32 = x: int | 0 <= x < 0x1_0000_0000

  /** A 16-byte `int128` (Rust `[u8; 16]`), such as a nonce. */
  type Int128 = s: seq<byte> | |s| == 16 witness Zeros(16)

  datatype DeserializeError = UnexpectedEof

  /** Constructor tag of a boxed `Vector`. */
  const VectorTag: UInt32 := 0x1cb5c415

  /** `i64::serialize`: the two's-complement value in eight little-endian bytes. */
  function EncodeInt64(x: Int64): (s: seq<byte>)
    ensures |s| == 8
  {
    LittleEndian(x as int % 0x1_0000_0000_0000_0000, 8)
  }

  /** `i64::deserialize` of eight bytes: little-endian, two's complement. */
  function DecodeInt64(s: seq<byte>): (r: Int64)
    requires |s| == 8
    ensures r as int % 0x1_0000_0000_0000_0000 == FromLittleEndian(s)
  {
    Pow256Values();
    var u := FromLittleEndian(s);
    if u < 0x8000_0000_0000_0000 then u as Int64 else (u - 0x1_0000_0000_0000_0000) as Int64
  }

  /** `u32::serialize`: four little-endian bytes. */
  function EncodeUInt32(x: UInt32): (s: seq<byte>)
    ensures |s| == 4
  {
    LittleEndian(x as int, 4)
  }

  /** `u32::deserialize` of four bytes, little-endian. */
  function DecodeUInt32(s: seq<byte>): (r: UInt32)
    requires |s| == 4
    ensures r as int == FromLittleEndian(s)
  {
    Pow256Values();
    FromLittleEndian(s) as UInt32
  }

  lemma Int64RoundTrip(x: Int64)
    ensures DecodeInt64(EncodeInt64(x)) == x
  {
    Pow256Values();
    LittleEndianRoundTrip(x as int % 0x1_0000_0000_0000_0000, 8);
  }

  lemma Int64BytesRoundTrip(s: seq<byte>)
    requires |s| == 8
    ensures EncodeInt64(DecodeInt64(s)) == s
  {
    Pow256Values();
    var u := FromLittleEndian(s);
    assert DecodeInt64(s) as int % 0x1_0000_0000_0000_0000 == u;
    FromLittleEndianRoundTrip(s);
  }

  lemma UInt32RoundTrip(x: UInt32)
    ensures DecodeUInt32(EncodeUInt32(x)) == x
  {
    Pow256Values();
    LittleEndianRoundTrip(x as int, 4);
  }

  lemma UInt32BytesRoundTrip(s: seq<byte>)
    requires |s| == 4
    ensures EncodeUInt32(DecodeUInt32(s)) == s
  {
    FromLittleEndianRoundTrip(s);
  }

  /** Zero bytes that bring a `k`-byte string to a multiple of four. */
  function Padding(k: nat): (r: nat)
  {
    (4 - k % 4) % 4
  }

  lemma PaddingAligns(k: nat)
    ensures (k + Padding(k)) % 4 == 0 && Padding(k) < 4
  {
  }

  /**
   * TL `bytes`: one length byte when the data is at most 253 bytes long,
   * otherwise 0xfe followed by the length in three little-endian bytes (higher
   * bytes dropped); then the data; then zeros up to a multiple of four.
   */
  function EncodeBytes(data: seq<byte>): (s: seq<byte>)
    ensures |s| % 4 == 0
  {
    var header := if |data| <= 253 then [|data| as byte] else [0xfe] + LittleEndian(|data|, 3);
    var body := header + data;
    PaddingAligns(|body|);
    body + Zeros(Padding(|body|))
  }

  /** Reads TL `bytes` from the front of `s`: the data and the number of bytes consumed. */
  function DecodeBytes(s: seq<byte>): (r: Option<(seq<byte>, nat)>)
  {
    if |s| == 0 || s[0] == 0xff || (s[0] == 0xfe && |s| < 4) then None
    else
      var headerLength: nat := if s[0] == 0xfe then 4 else 1;
      var length := if s[0] == 0xfe then FromLittleEndian(s[1..4]) else s[0] as nat;
      var total: nat := headerLength + length + Padding(headerLength + length);
      if |s| < total then None else Some((s[headerLength..headerLength + length], total))
  }

  /** Any data shorter than 2^24 bytes is read back from its encoding, whatever follows it. */
  lemma BytesRoundTrip(data: seq<byte>, rest: seq<byte>)
    requires |data| < 0x100_0000
    ensures DecodeBytes(EncodeBytes(data) + rest) == Some((data, |EncodeBytes(data)|))
  {
    var s := EncodeBytes(data) + rest;
    if |data| <= 253 {
      assert s[0] == |data| as byte;
      assert s[1..1 + |data|] == data;
      DecodeBytesFields(s, 1, data);
    } else {
      Pow256Values();
      LittleEndianRoundTrip(|data|, 3);
      assert s[0] == 0xfe;
      assert s[1..4] == LittleEndian(|data|, 3);
      assert s[4..4 + |data|] == data;
      DecodeBytesFields(s, 4, data);
    }
  }

  /** DecodeBytes on a string whose header, of the given length, announces `data`, which follows it. */
  lemma DecodeBytesFields(s: seq<byte>, headerLength: nat, data: seq<byte>)
    requires headerLength == 1 || headerLength == 4
    requires |s| >= headerLength + |data| + Padding(headerLength + |data|)
    requires headerLength == 1 ==> s[0] as nat == |data| && |data| <= 253
    requires headerLength == 4 ==> s[0] == 0xfe && FromLittleEndian(s[1..4]) == |data|
    requires s[headerLength..headerLength + |data|] == data
    ensures DecodeBytes(s) == Some((data, headerLength + |data| + Padding(headerLength + |data|)))
  {
  }

  /** The elements of a `Vector long`, eight bytes each. */
  function EncodeInt64s(xs: seq<Int64>): (s: seq<byte>)
    ensures |s| == 8 * |xs|
  {
    if xs == [] then [] else EncodeInt64(xs[0]) + EncodeInt64s(xs[1..])
  }

  function DecodeInt64s(s: seq<byte>, count: nat): (xs: seq<Int64>)
    requires |s| >= 8 * count
    ensures |xs| == count
  {
    if count == 0 then [] else [DecodeInt64(s[..8])] + DecodeInt64s(s[8..], count - 1)
  }

  lemma {:induction false} Int64sRoundTrip(xs: seq<Int64>, rest: seq<byte>)
    ensures DecodeInt64s(EncodeInt64s(xs) + rest, |xs|) == xs
  {
    if xs != [] {
      var s := EncodeInt64s(xs) + rest;
      assert s[..8] == EncodeInt64(xs[0]);
      assert s[8..] == EncodeInt64s(xs[1..]) + rest;
      Int64RoundTrip(xs[0]);
      Int64sRoundTrip(xs[1..], rest);
    }
  }

  /**
   * Boxed `Vector long`: the vector tag, the element count as a 32-bit `int`
   * (the `as i32` cast keeps only the low four bytes), then the elements.
   */
  function EncodeVector(xs: seq<Int64>): (s: seq<byte>)
    ensures |s| == 8 + 8 * |xs|
  {
    EncodeUInt32(VectorTag) + LittleEndian(|xs|, 4) + EncodeInt64s(xs)
  }

  /** Reads a boxed `Vector long`: its elements and the number of bytes consumed. */
  function DecodeVector(s: seq<byte>): (r: Option<(seq<Int64>, nat)>)
  {
    if |s| < 8 || DecodeUInt32(s[..4]) != VectorTag then None
    else
      var count := FromLittleEndian(s[4..8]);
      if count >= 0x8000_0000 || |s| < 8 + 8 * count then None
      else Some((DecodeInt64s(s[8..], count), 8 + 8 * count))
  }

  lemma CountRoundTrip(n: nat)
    requires n < 0x8000_0000
    ensures FromLittleEndian(LittleEndian(n, 4)) == n
  {
    Pow256Values();
    LittleEndianRoundTrip(n, 4);
  }

  lemma DecodeVectorFields(s: seq<byte>, xs: seq<Int64>)
    requires |xs| < 0x8000_0000 && |s| >= 8 + 8 * |xs|
    requires DecodeUInt32(s[..4]) == VectorTag && FromLittleEndian(s[4..8]) == |xs|
    requires DecodeInt64s(s[8..], |xs|) == xs
    ensures DecodeVector(s) == Some((xs, 8 + 8 * |xs|))
  {
  }

  /** A vector of fewer than 2^31 elements is read back from its encoding, whatever follows it. */
  lemma VectorRoundTrip(xs: seq<Int64>, rest: seq<byte>)
    requires |xs| < 0x8000_0000
    ensures DecodeVector(EncodeVector(xs) + rest) == Some((xs, 8 + 8 * |xs|))
  {
    var tag, count, elements := EncodeUInt32(VectorTag), LittleEndian(|xs|, 4), EncodeInt64s(xs);
    var s := tag + count + elements + rest;
    assert EncodeVector(xs) + rest == s;
    assert s[..4] == tag && s[4..8] == count && s[8..] == elements + rest;
    UInt32RoundTrip(VectorTag);
    CountRoundTrip(|xs|);
    Int64sRoundTrip(xs, rest);
    DecodeVectorFields(s, xs);
  }

  /** A forward-only read position over a byte slice (`grammers_tl_types::Cursor`). */
  class Cursor {
    const buf: seq<byte>
    var pos: nat

    ghost predicate Valid()
      reads this
    {
      pos <= |buf|
    }

    /** The bytes not yet read. */
    ghost function Remaining(): seq<byte>
      reads this
      requires Valid()
    {
      buf[pos..]
    }

    constructor FromSlice(buf: seq<byte>)
      ensures Valid() && this.buf == buf && pos == 0
    {
      this.buf := buf;
      pos := 0;
    }

    /** Reads exactly `n` bytes, or fails without moving when fewer remain. */
    method ReadExact(n: nat) returns (r: Result<seq<byte>, DeserializeError>)
      requires Valid()
      modifies this
      ensures Valid()
      ensures old(pos) + n <= |buf| ==> r == Success(buf[old(pos)..old(pos) + n]) && pos == old(pos) + n
      ensures old(pos) + n > |buf| ==> r == Failure(UnexpectedEof) && pos == old(pos)
    {
      if pos + n > |buf| {
        return Failure(UnexpectedEof);
      }
      r := Success(buf[pos..pos + n]);
      pos := pos + n;
    }

    /** `i64::deserialize`. */
    method ReadInt64() returns (r: Result<Int64, DeserializeError>)
      requires Valid()
      modifies this
      ensures Valid()
      ensures old(pos) + 8 <= |buf| ==> r == Success(DecodeInt64(buf[old(pos)..old(pos) + 8])) && pos == old(pos) + 8
      ensures old(pos) + 8 > |buf| ==> r == Failure(UnexpectedEof) && pos == old(pos)
    {
      var bytes :- ReadExact(8);
      r := Success(DecodeInt64(bytes));
    }

    /** `u32::deserialize`. */
    method ReadUInt32() returns (r: Result<UInt32, DeserializeError>)
      requires Valid()
      modifies this
      ensures Valid()
      ensures old(pos) + 4 <= |buf| ==> r == Success(DecodeUInt32(buf[old(pos)..old(pos) + 4])) && pos == old(pos) + 4
      ensures old(pos) + 4 > |buf| ==> r == Failure(UnexpectedEof) && pos == old(pos)
    {
      var bytes :- ReadExact(4);
      r := Success(DecodeUInt32(bytes));
    }

    /** `<[u8; 16]>::deserialize`: sixteen bytes copied verbatim. */
    method ReadInt128() returns (r: Result<Int128, DeserializeError>)
      requires Valid()
      modifies this
      ensures Valid()
      ensures old(pos) + 16 <= |buf| ==> r == Success(buf[old(pos)..old(pos) + 16]) && pos == old(pos) + 16
      ensures old(pos) + 16 > |buf| ==> r == Failure(UnexpectedEof) && pos == old(pos)
    {
      var bytes :- ReadExact(16);
      r := Success(bytes);
    }
  }
}
