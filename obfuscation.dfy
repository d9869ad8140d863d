/**
 * Key derivation of the obfuscated transport: both cipher keys and IVs are
 * slices of the 64-byte init header, the second pair read from the header
 * reversed.
 */
module Obfuscation {
  import opened Bytes

  const HeaderLength: nat := 64

  /**
   * What the server holds as its header: only the first 56 bytes are read
   * into the 64-byte buffer, whose last eight bytes stay zero. Fewer bytes
   * are copied when the connection supplies fewer.
   */
  function ReceivedHeader(input: seq<byte>): (init: seq<byte>)
    ensures |init| == HeaderLength
    ensures |input| >= 56 ==> init == input[..56] + Zeros(8)
  {
    var n := if |input| < 56 then |input| else 56;
    input[..n] + Zeros(HeaderLength - n)
  }

  /** `init.into_iter().skip(8).take(32)`: the key of the cipher applied to inbound data. */
  function EncryptKey(init: seq<byte>): (key: seq<byte>)
    requires |init| == HeaderLength
    ensures key == init[8..40]
  {
    SkipTakeSlice(init, 8, 32);
    Take(Skip(init, 8), 32)
  }

  /** `init.into_iter().skip(40).take(16)`. */
  function EncryptIv(init: seq<byte>): (iv: seq<byte>)
    requires |init| == HeaderLength
    ensures iv == init[40..56]
  {
    SkipTakeSlice(init, 40, 16);
    Take(Skip(init, 40), 16)
  }

  /** `init.into_iter().rev().skip(8).take(32)`: the key of the cipher applied to the response. */
  function DecryptKey(init: seq<byte>): (key: seq<byte>)
    requires |init| == HeaderLength
    ensures key == Reversed(init[24..56])
  {
    SkipTakeReversed(init, 8, 32);
    Take(Skip(Reversed(init), 8), 32)
  }

  /** `init.into_iter().rev().skip(40).take(16)`. */
  function DecryptIv(init: seq<byte>): (iv: seq<byte>)
    requires |init| == HeaderLength
    ensures iv == Reversed(init[8..24])
  {
    SkipTakeReversed(init, 40, 16);
    Take(Skip(Reversed(init), 40), 16)
  }

  /** The derived material has the sizes AES-256 in counter mode demands. */
  lemma DerivedSizes(init: seq<byte>)
    requires |init| == HeaderLength
    ensures |EncryptKey(init)| == 32 && |EncryptIv(init)| == 16
    ensures |DecryptKey(init)| == 32 && |DecryptIv(init)| == 16
  {
  }

  /**
   * Neither key nor IV depends on the first eight header bytes or on the last
   * eight (the ones the server never fills in): headers that agree on bytes
   * 8..56 derive the same four values.
   */
  lemma DerivationIgnoresOuterBytes(a: seq<byte>, b: seq<byte>)
    requires |a| == HeaderLength && |b| == HeaderLength
    requires a[8..56] == b[8..56]
    ensures EncryptKey(a) == EncryptKey(b) && EncryptIv(a) == EncryptIv(b)
    ensures DecryptKey(a) == DecryptKey(b) && DecryptIv(a) == DecryptIv(b)
  {
    assert a[8..40] == a[8..56][..32] && b[8..40] == b[8..56][..32];
    assert a[40..56] == a[8..56][32..] && b[40..56] == b[8..56][32..];
    assert a[24..56] == a[8..56][16..] && b[24..56] == b[8..56][16..];
    assert a[8..24] == a[8..56][..16] && b[8..24] == b[8..56][..16];
  }

  /**
   * The server derives from its zero-padded copy of the first 56 bytes
   * exactly what a client derives from the full 64-byte header it sent.
   */
  lemma ReceivedHeaderDerivesClientKeys(header: seq<byte>, input: seq<byte>)
    requires |header| == HeaderLength && |input| >= 56 && input[..56] == header[..56]
    ensures EncryptKey(ReceivedHeader(input)) == EncryptKey(header)
    ensures EncryptIv(ReceivedHeader(input)) == EncryptIv(header)
    ensures DecryptKey(ReceivedHeader(input)) == DecryptKey(header)
    ensures DecryptIv(ReceivedHeader(input)) == DecryptIv(header)
  {
    var init := ReceivedHeader(input);
    assert init[8..56] == input[..56][8..] == header[..56][8..] == header[8..56];
    DerivationIgnoresOuterBytes(init, header);
  }

  /**
   * The two directions are not always keyed differently: the forward and the
   * reverse key coincide exactly when bytes 8..40 read the same as bytes
   * 24..56 backwards, which the all-zero header satisfies.
   */
  lemma KeysCoincideWhenMirrored(init: seq<byte>)
    requires |init| == HeaderLength
    ensures EncryptKey(init) == DecryptKey(init) <==> init[8..40] == Reversed(init[24..56])
    ensures EncryptIv(init) == DecryptIv(init) <==> init[40..56] == Reversed(init[8..24])
  {
  }

  lemma ZeroHeaderKeysCoincide()
    ensures EncryptKey(Zeros(HeaderLength)) == DecryptKey(Zeros(HeaderLength))
    ensures EncryptIv(Zeros(HeaderLength)) == DecryptIv(Zeros(HeaderLength))
  {
    var z := Zeros(HeaderLength);
    assert EncryptKey(z) == Zeros(32) == DecryptKey(z);
    assert EncryptIv(z) == Zeros(16) == DecryptIv(z);
  }
}
