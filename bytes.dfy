/**
 * Bytes and byte strings: bitwise exclusive or, little-endian integer
 * encoding, reversal and the `skip`/`take` iterator adaptors used to slice key
 * material.
 */
module Bytes {

  /** Rust `u8`. */
  newtype byte = x: int | 0 <= x < 256

  /** 256 to the power `n`: one more than the largest `n`-byte little-endian value. */
  function Pow256(n: nat): (r: nat)
    ensures r >= 1
  {
    if n == 0 then 1 else 256 * Pow256(n - 1)
  }

  lemma Pow256Values()
    ensures Pow256(1) == 0x100
    ensures Pow256(3) == 0x100_0000
    ensures Pow256(4) == 0x1_0000_0000
    ensures Pow256(8) == 0x1_0000_0000_0000_0000
  {
    assert Pow256(2) == 0x1_0000;
    assert Pow256(4) == 0x1_0000_0000;
    assert Pow256(6) == 0x1_0000_0000_0000;
  }

  function Pow2(n: nat): (r: nat)
    ensures r >= 1
  {
    if n == 0 then 1 else 2 * Pow2(n - 1)
  }

  /** Bitwise exclusive or of the low `bits` bits of `a` and `b`, least significant bit first. */
  function XorBits(a: nat, b: nat, bits: nat): (r: nat)
    ensures r < Pow2(bits)
  {
    if bits == 0 then 0
    else
      var rest := XorBits(a / 2, b / 2, bits - 1);
      ((a % 2 + b % 2) % 2) + 2 * rest
  }

  lemma {:induction false} XorBitsInvolution(a: nat, b: nat, bits: nat)
    requires a < Pow2(bits)
    ensures XorBits(XorBits(a, b, bits), b, bits) == a
  {
    if bits > 0 {
      var low, high := a % 2, a / 2;
      var bit := (low + b % 2) % 2;
      var rest := XorBits(high, b / 2, bits - 1);
      assert XorBits(a, b, bits) == bit + 2 * rest;
      HalfBound(a, bits);
      XorBitsCons(bit, rest, b, bits);
      XorBitsInvolution(high, b / 2, bits - 1);
      XorBitTwice(low, b % 2);
      assert a == low + 2 * high;
    }
  }

  lemma HalfBound(a: nat, bits: nat)
    requires bits > 0 && a < Pow2(bits)
    ensures a / 2 < Pow2(bits - 1)
  {
  }

  lemma XorBitTwice(x: nat, y: nat)
    requires x < 2 && y < 2
    ensures ((x + y) % 2 + y) % 2 == x
  {
  }

  /** Unfolds XorBits on a value given as its low bit and the rest. */
  lemma XorBitsCons(bit: nat, rest: nat, b: nat, bits: nat)
    requires bit < 2 && bits > 0
    ensures XorBits(bit + 2 * rest, b, bits) == (bit + b % 2) % 2 + 2 * XorBits(rest, b / 2, bits - 1)
  {
    var c := bit + 2 * rest;
    assert c % 2 == bit && c / 2 == rest;
  }

  /** `a ^ b` on bytes. */
  function Xor(a: byte, b: byte): (r: byte)
  {
    assert Pow2(8) == 256;
    XorBits(a as nat, b as nat, 8) as byte
  }

  /** XORing with the same byte twice restores the original. */
  lemma XorTwice(a: byte, k: byte)
    ensures Xor(Xor(a, k), k) == a
  {
    assert Pow2(8) == 256;
    XorBitsInvolution(a as nat, k as nat, 8);
  }
  function Zeros(n: nat): (s: seq<byte>)
    ensures |s| == n
    ensures forall i :: 0 <= i < n ==> s[i] == 0
  {
    seq(n, _ => 0)
  }

  /**
   * The `width` low-order bytes of `n`, least significant first (Rust's
   * `to_le_bytes`, truncated to `width` bytes); higher-order bytes are dropped.
   */
  function LittleEndian(n: nat, width: nat): (s: seq<byte>)
    ensures |s| == width
  {
    if width == 0 then [] else [(n % 256) as byte] + LittleEndian(n / 256, width - 1)
  }

  /** The unsigned value of a little-endian byte string (Rust's `from_le_bytes`). */
  function FromLittleEndian(s: seq<byte>): (n: nat)
    ensures n < Pow256(|s|)
  {
    if s == [] then 0
    else
      var rest := FromLittleEndian(s[1..]);
      ConsBound(s[0] as nat, rest, Pow256(|s| - 1));
      s[0] as nat + 256 * rest
  }

  /** Encoding a value that fits and decoding it gives the value back. */
  lemma {:induction false} LittleEndianRoundTrip(n: nat, width: nat)
    requires n < Pow256(width)
    ensures FromLittleEndian(LittleEndian(n, width)) == n
  {
    if width > 0 {
      var low, high := n % 256, n / 256;
      DivBound(n, Pow256(width - 1));
      LittleEndianCons(low, high, width - 1);
      LittleEndianRoundTrip(high, width - 1);
      FromLittleEndianCons(low as byte, LittleEndian(high, width - 1));
    }
  }

  /** Decoding a byte string and re-encoding it at the same width gives the string back. */
  lemma {:induction false} FromLittleEndianRoundTrip(s: seq<byte>)
    ensures LittleEndian(FromLittleEndian(s), |s|) == s
  {
    if s != [] {
      var low, rest := s[0] as nat, FromLittleEndian(s[1..]);
      assert FromLittleEndian(s) == low + 256 * rest;
      LittleEndianCons(low, rest, |s| - 1);
      FromLittleEndianRoundTrip(s[1..]);
      assert (low as byte) == s[0];
      assert s == [s[0]] + s[1..];
    }
  }

  lemma LittleEndianCons(low: nat, high: nat, width: nat)
    requires low < 256
    ensures LittleEndian(low + 256 * high, width + 1) == [low as byte] + LittleEndian(high, width)
  {
    var n := low + 256 * high;
    assert n % 256 == low && n / 256 == high;
  }

  lemma FromLittleEndianCons(b: byte, rest: seq<byte>)
    ensures FromLittleEndian([b] + rest) == b as nat + 256 * FromLittleEndian(rest)
  {
    assert ([b] + rest)[1..] == rest;
  }

  lemma ConsBound(low: nat, high: nat, bound: nat)
    requires low < 256 && high < bound
    ensures low + 256 * high < 256 * bound
  {
  }

  lemma DivBound(n: nat, bound: nat)
    requires n < 256 * bound
    ensures n / 256 < bound
  {
  }

  lemma {:induction false} LittleEndianZero(width: nat)
    ensures LittleEndian(0, width) == Zeros(width)
  {
    if width > 0 {
      LittleEndianZero(width - 1);
    }
  }

  /** A value below 2^16 encodes as its two low bytes followed by zeros. */
  lemma LittleEndianTwoBytes(n: nat, width: nat)
    requires n < 0x1_0000
    ensures LittleEndian(n, width + 2) == [(n % 256) as byte, (n / 256) as byte] + Zeros(width)
  {
    LittleEndianZero(width);
    assert LittleEndian(n, width + 2) == [(n % 256) as byte] + LittleEndian(n / 256, width + 1);
    assert LittleEndian(n / 256, width + 1) == [(n / 256) as byte] + LittleEndian(0, width);
  }

  /** A byte string in the opposite order (Rust's `Iterator::rev`). */
  function Reversed(s: seq<byte>): (r: seq<byte>)
    ensures |r| == |s|
    ensures forall i :: 0 <= i < |s| ==> r[i] == s[|s| - 1 - i]
  {
    seq(|s|, i requires 0 <= i < |s| => s[|s| - 1 - i])
  }

  /** Reversing twice gives the original back. */
  lemma ReversedTwice(s: seq<byte>)
    ensures Reversed(Reversed(s)) == s
  {
    var r := Reversed(Reversed(s));
    forall i | 0 <= i < |s|
      ensures r[i] == s[i]
    {
      assert r[i] == Reversed(s)[|s| - 1 - i];
    }
  }

  /** `Iterator::skip(n)`: everything after the first `n` elements, or nothing. */
  function Skip(s: seq<byte>, n: nat): (r: seq<byte>)
    ensures |r| == if n <= |s| then |s| - n else 0
    ensures forall i :: 0 <= i < |r| ==> r[i] == s[n + i]
  {
    if n <= |s| then s[n..] else []
  }

  /** `Iterator::take(m)`: the first `m` elements, or all of them when there are fewer. */
  function Take(s: seq<byte>, m: nat): (r: seq<byte>)
    ensures |r| == if m <= |s| then m else |s|
    ensures forall i :: 0 <= i < |r| ==> r[i] == s[i]
  {
    if m <= |s| then s[..m] else s
  }

  /** Skipping `n` and taking `m` of a string long enough is the slice `[n..n+m]`. */
  lemma SkipTakeSlice(s: seq<byte>, n: nat, m: nat)
    requires n + m <= |s|
    ensures Take(Skip(s, n), m) == s[n..n + m]
  {
  }

  /**
   * Skipping `n` and taking `m` of the REVERSED string is the reversal of one
   * slice of the original, counted from its end.
   */
  lemma SkipTakeReversed(s: seq<byte>, n: nat, m: nat)
    requires n + m <= |s|
    ensures Take(Skip(Reversed(s), n), m) == Reversed(s[|s| - n - m..|s| - n])
  {
    var r := Take(Skip(Reversed(s), n), m);
    var slice := s[|s| - n - m..|s| - n];
    assert |r| == m;
    forall i | 0 <= i < m
      ensures r[i] == Reversed(slice)[i]
    {
      assert r[i] == Reversed(s)[n + i] == s[|s| - 1 - n - i];
    }
  }
}
