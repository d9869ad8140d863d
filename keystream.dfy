/**
 * The counter-mode stream cipher (AES-256, 64-bit big-endian counter) seen from
 * outside: a keystream byte for every position, XORed into the data. The block
 * cipher itself is not modelled; `Keystream` stands for every possible one.
 */
module Keystream {
  import opened Bytes

  /** The keystream byte at a position, for a 32-byte key and a 16-byte IV. */
  type Keystream = (seq<byte>, seq<byte>, nat) -> byte

  /** XORs `data` with the keystream bytes at positions `start`, `start + 1`, ... */
  function Apply(ks: Keystream, key: seq<byte>, iv: seq<byte>, start: nat, data: seq<byte>): (r: seq<byte>)
    ensures |r| == |data|
    ensures forall i :: 0 <= i < |data| ==> r[i] == Xor(data[i], ks(key, iv, start + i))
    decreases |data|
  {
    if data == [] then [] else [Xor(data[0], ks(key, iv, start))] + Apply(ks, key, iv, start + 1, data[1..])
  }

  /** Applying the same keystream twice restores the data: encryption and decryption coincide. */
  lemma ApplyInvolution(ks: Keystream, key: seq<byte>, iv: seq<byte>, start: nat, data: seq<byte>)
    ensures Apply(ks, key, iv, start, Apply(ks, key, iv, start, data)) == data
  {
    var once := Apply(ks, key, iv, start, data);
    var twice := Apply(ks, key, iv, start, once);
    forall i | 0 <= i < |data|
      ensures twice[i] == data[i]
    {
      XorTwice(data[i], ks(key, iv, start + i));
    }
  }

  /**
   * Applying the keystream to two pieces in turn, the second starting where the
   * first ended, is one application to their concatenation.
   */
  lemma ApplySplit(ks: Keystream, key: seq<byte>, iv: seq<byte>, start: nat, a: seq<byte>, b: seq<byte>)
    ensures Apply(ks, key, iv, start, a) + Apply(ks, key, iv, start + |a|, b) == Apply(ks, key, iv, start, a + b)
  {
    var first, second := Apply(ks, key, iv, start, a), Apply(ks, key, iv, start + |a|, b);
    var whole := Apply(ks, key, iv, start, a + b);
    forall i | 0 <= i < |a| + |b|
      ensures (first + second)[i] == whole[i]
    {
      if i < |a| {
        assert (first + second)[i] == first[i] == Xor(a[i], ks(key, iv, start + i));
      } else {
        var j := i - |a|;
        assert (first + second)[i] == second[j] == Xor(b[j], ks(key, iv, start + |a| + j));
      }
    }
    assert first + second == whole;
  }

  /**
   * `Ctr64BE<Aes256>`: a cipher instance whose keystream position advances with
   * every byte it processes.
   */
  class Ctr {
    const ks: Keystream
    const key: seq<byte>
    const iv: seq<byte>
    var pos: nat

    /** `KeyIvInit::new`: the slices must be exactly 32 and 16 bytes long. */
    constructor (ks: Keystream, key: seq<byte>, iv: seq<byte>)
      requires |key| == 32 && |iv| == 16
      ensures this.ks == ks && this.key == key && this.iv == iv && pos == 0
    {
      this.ks, this.key, this.iv := ks, key, iv;
      pos := 0;
    }

    /** `StreamCipher::apply_keystream`: XORs the buffer in place and advances past it. */
    method ApplyKeystream(buf: array<byte>)
      modifies this, buf
      ensures buf[..] == Apply(ks, key, iv, old(pos), old(buf[..]))
      ensures pos == old(pos) + buf.Length
    {
      ghost var original := buf[..];
      var i := 0;
      while i < buf.Length
        invariant 0 <= i <= buf.Length
        invariant pos == old(pos) + i
        invariant forall j :: 0 <= j < i ==> buf[j] == Xor(original[j], ks(key, iv, old(pos) + j))
        invariant forall j :: i <= j < buf.Length ==> buf[j] == original[j]
      {
        buf[i] := Xor(buf[i], ks(key, iv, pos));
        pos := pos + 1;
        i := i + 1;
      }
    }
  }
}
