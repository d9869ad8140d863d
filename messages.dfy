/**
 * The two handshake messages: the client's `req_pq_multi` request, read from
 * a fixed 40-byte little-endian layout, and the server's `resPQ` reply.
 */
module Messages {
  import opened Bytes
  import opened Wrappers
  import opened Tl

  /** Bytes the request's fixed fields occupy: 8 + 8 + 4 + 4 + 16. */
  const ReqPqMultiLength: nat := 40

  /** Constructor tag of `resPQ`. */
  const ResPqMagic: UInt32 := 0x05162463

  /** `SERVER_NONCE`: 0x1337 as a 128-bit little-endian integer (lemma ServerNonceBytes). */
  const ServerNonce: Int128 := [0x37, 0x13, 0, 0, 0, 0, 0, 0, 0, 0, 0, 0, 0, 0, 0, 0]

  /** The public key fingerprint the server offers; the 64-bit literal wraps to a negative `i64`. */
  const Fingerprint: Int64 := (0xd09d1d85de64fd85 - 0x1_0000_0000_0000_0000) as Int64

  /** The `pq` the server sends: 0x17ED48941A08F981 in eight little-endian bytes (lemma PqBytes). */
  const Pq: seq<byte> := [0x81, 0xf9, 0x08, 0x1a, 0x94, 0x48, 0xed, 0x17]

  datatype ReqPqMulti = ReqPqMulti(authKeyId: Int64, messageId: Int64, messageLength: UInt32, magic: UInt32, nonce: Int128)

  /** The request as a client writes it. */
  function EncodeReqPqMulti(m: ReqPqMulti): (s: seq<byte>)
    ensures |s| == ReqPqMultiLength
  {
    EncodeInt64(m.authKeyId) + EncodeInt64(m.messageId) + EncodeUInt32(m.messageLength) + EncodeUInt32(m.magic) + m.nonce
  }

  /**
   * What `ReqPqMulti::parse` reads from a cursor holding `s`: the five fields
   * in order from bytes 0..8, 8..16, 16..20, 20..24 and 24..40. Reading fails
   * as soon as a field does not fit, so exactly when fewer than 40 bytes are
   * left; bytes after the 40th are not looked at.
   */
  function ParseReqPqMulti(s: seq<byte>): (r: Result<ReqPqMulti, DeserializeError>)
    ensures r.Success? <==> |s| >= ReqPqMultiLength
    ensures r.Failure? ==> r.error == UnexpectedEof
  {
    if |s| < ReqPqMultiLength then Failure(UnexpectedEof)
    else Success(ReqPqMulti(DecodeInt64(s[0..8]), DecodeInt64(s[8..16]), DecodeUInt32(s[16..20]), DecodeUInt32(s[20..24]), s[24..40]))
  }

  /** `ReqPqMulti::parse`, threading the cursor through five sequential reads. */
  method Parse(cur: Cursor) returns (r: Result<ReqPqMulti, DeserializeError>)
    requires cur.Valid()
    modifies cur
    ensures cur.Valid()
    ensures r == ParseReqPqMulti(old(cur.Remaining()))
    ensures r.Success? ==> cur.pos == old(cur.pos) + ReqPqMultiLength
  {
    ghost var s := cur.Remaining();
    ghost var start := cur.pos;
    var authKeyId :- cur.ReadInt64();
    var messageId :- cur.ReadInt64();
    var messageLength :- cur.ReadUInt32();
    var magic :- cur.ReadUInt32();
    var nonce :- cur.ReadInt128();
    assert cur.buf[start..start + 8] == s[0..8] && cur.buf[start + 8..start + 16] == s[8..16];
    assert cur.buf[start + 16..start + 20] == s[16..20] && cur.buf[start + 20..start + 24] == s[20..24];
    assert cur.buf[start + 24..start + 40] == s[24..40];
    r := Success(ReqPqMulti(authKeyId, messageId, messageLength, magic, nonce));
  }

  /** Parsing an encoded request gives it back, whatever trails it. */
  lemma RequestRoundTrip(m: ReqPqMulti, rest: seq<byte>)
    ensures ParseReqPqMulti(EncodeReqPqMulti(m) + rest) == Success(m)
  {
    var s := EncodeReqPqMulti(m) + rest;
    assert s[0..8] == EncodeInt64(m.authKeyId) && s[8..16] == EncodeInt64(m.messageId);
    assert s[16..20] == EncodeUInt32(m.messageLength) && s[20..24] == EncodeUInt32(m.magic);
    assert s[24..40] == m.nonce;
    Int64RoundTrip(m.authKeyId);
    Int64RoundTrip(m.messageId);
    UInt32RoundTrip(m.messageLength);
    UInt32RoundTrip(m.magic);
  }

  /** A successful parse accounts for every one of the first 40 bytes. */
  lemma RequestBytesRoundTrip(s: seq<byte>)
    requires |s| >= ReqPqMultiLength
    ensures EncodeReqPqMulti(ParseReqPqMulti(s).value) == s[..ReqPqMultiLength]
  {
    var m := ParseReqPqMulti(s).value;
    Int64BytesRoundTrip(s[0..8]);
    Int64BytesRoundTrip(s[8..16]);
    UInt32BytesRoundTrip(s[16..20]);
    UInt32BytesRoundTrip(s[20..24]);
    assert EncodeReqPqMulti(m) == s[0..8] + s[8..16] + s[16..20] + s[20..24] + s[24..40];
    RequestFieldsCover(s);
  }

  lemma RequestFieldsCover(s: seq<byte>)
    requires |s| >= ReqPqMultiLength
    ensures s[0..8] + s[8..16] + s[16..20] + s[20..24] + s[24..40] == s[..ReqPqMultiLength]
  {
  }

  datatype ResPq = ResPq(
    authKeyId: Int64,
    messageId: Int64,
    messageLength: UInt32,
    magic: UInt32,
    nonce: Int128,
    serverNonce: Int128,
    pq: seq<byte>,
    serverPublicKeyFingerprints: seq<Int64>)
  {
    /**
     * The serialised reply: the fields in struct order, `pq` as TL `bytes`
     * and the fingerprints as a boxed `Vector long`; always a whole number of
     * 4-byte words (lemma WireLayout gives the offsets).
     */
    function Wire(): (s: seq<byte>)
      ensures |s| == 56 + |EncodeBytes(pq)| + 8 + 8 * |serverPublicKeyFingerprints|
      ensures |s| % 4 == 0
    {
      var prefix := EncodeInt64(authKeyId) + EncodeInt64(messageId) + EncodeUInt32(messageLength) + EncodeUInt32(magic)
        + nonce + serverNonce;
      var pqBytes, vector := EncodeBytes(pq), EncodeVector(serverPublicKeyFingerprints);
      WordAligned(|prefix|, |pqBytes|, |serverPublicKeyFingerprints|);
      prefix + pqBytes + vector
    }

    /** `ResPq::ser`: appends the eight fields, in struct order, to an empty buffer. */
    method Ser() returns (res: seq<byte>)
      ensures res == Wire()
    {
      res := [];
      res := res + EncodeInt64(authKeyId);
      res := res + EncodeInt64(messageId);
      res := res + EncodeUInt32(messageLength);
      res := res + EncodeUInt32(magic);
      res := res + nonce;
      res := res + serverNonce;
      res := res + EncodeBytes(pq);
      res := res + EncodeVector(serverPublicKeyFingerprints);
    }
  }

  /**
   * Where each field of the reply sits: `auth_key_id` at 0, `message_id` at
   * 8, `message_length` at 16, `magic` at 20, `nonce` at 24..40,
   * `server_nonce` at 40..56, then `pq` and the fingerprint vector.
   */
  lemma WireLayout(r: ResPq)
    ensures var s := r.Wire();
      && s[0..8] == EncodeInt64(r.authKeyId) && s[8..16] == EncodeInt64(r.messageId)
      && s[16..20] == EncodeUInt32(r.messageLength) && s[20..24] == EncodeUInt32(r.magic)
      && s[24..40] == r.nonce && s[40..56] == r.serverNonce
      && s[56..] == EncodeBytes(r.pq) + EncodeVector(r.serverPublicKeyFingerprints)
  {
    var a, b := EncodeInt64(r.authKeyId), EncodeInt64(r.messageId);
    var c, d := EncodeUInt32(r.messageLength), EncodeUInt32(r.magic);
    var tail := EncodeBytes(r.pq) + EncodeVector(r.serverPublicKeyFingerprints);
    var s := r.Wire();
    var p40 := a + b + c + d + r.nonce;
    assert s == p40 + r.serverNonce + tail;
    assert s[..40] == p40 && s[40..56] == r.serverNonce && s[56..] == tail by {
      SplitAt(p40 + r.serverNonce, tail);
      SplitAt(p40, r.serverNonce);
    }
    assert p40[0..8] == a && p40[8..16] == b && p40[16..20] == c && p40[20..24] == d && p40[24..40] == r.nonce;
  }

  lemma SplitAt(x: seq<byte>, y: seq<byte>)
    ensures (x + y)[..|x|] == x && (x + y)[|x|..] == y
  {
  }

  lemma WordAligned(prefix: nat, pqBytes: nat, count: nat)
    requires prefix == 56 && pqBytes % 4 == 0
    ensures (prefix + pqBytes + (8 + 8 * count)) % 4 == 0
  {
    assert prefix + pqBytes + (8 + 8 * count) == 4 * (16 + pqBytes / 4 + 2 * count);
  }

  /**
   * `ResPq::generate`: echoes the request's nonce and the given `pq`; every
   * other field is a constant, except the message id, which the server takes
   * from its clock and is a parameter here.
   */
  function Generate(nonce: Int128, pq: seq<byte>, messageId: Int64): (r: ResPq)
    ensures r.nonce == nonce && r.pq == pq && r.messageId == messageId
    ensures r.authKeyId == 0 && r.messageLength == 0 && r.magic == ResPqMagic
    ensures r.serverNonce == ServerNonce && r.serverPublicKeyFingerprints == [Fingerprint]
  {
    ResPq(0, messageId, 0, ResPqMagic, nonce, ServerNonce, pq, [Fingerprint])
  }

  /** How a client reads a `resPQ`: the fixed prefix, TL `bytes`, then the vector, with nothing left over. */
  function DecodeResPq(s: seq<byte>): (r: Option<ResPq>)
  {
    if |s| < 56 then None
    else match DecodeBytes(s[56..])
      case None => None
      case Some((pq, n)) =>
        match DecodeVector(s[56 + n..])
        case None => None
        case Some((fingerprints, m)) =>
          if 56 + n + m != |s| then None
          else Some(ResPq(DecodeInt64(s[0..8]), DecodeInt64(s[8..16]), DecodeUInt32(s[16..20]), DecodeUInt32(s[20..24]),
                          s[24..40], s[40..56], pq, fingerprints))
  }

  /** The reply is read back field for field, as long as `pq` and the vector fit their length fields. */
  lemma ResPqRoundTrip(r: ResPq)
    requires |r.pq| < 0x100_0000 && |r.serverPublicKeyFingerprints| < 0x8000_0000
    ensures DecodeResPq(r.Wire()) == Some(r)
  {
    var s := r.Wire();
    WireLayout(r);
    var pqBytes, vector := EncodeBytes(r.pq), EncodeVector(r.serverPublicKeyFingerprints);
    BytesRoundTrip(r.pq, vector);
    assert s[56 + |pqBytes|..] == vector + [];
    VectorRoundTrip(r.serverPublicKeyFingerprints, []);
    Int64RoundTrip(r.authKeyId);
    Int64RoundTrip(r.messageId);
    UInt32RoundTrip(r.messageLength);
    UInt32RoundTrip(r.magic);
  }

  /** `SERVER_NONCE` is `0x1337u128.to_le_bytes()`. */
  lemma ServerNonceBytes()
    ensures ServerNonce == LittleEndian(0x1337, 16)
  {
    LittleEndianTwoBytes(0x1337, 14);
  }

  /** The `pq` is `0x17ED48941A08F981u64.to_le_bytes()`. */
  lemma PqBytes()
    ensures Pq == LittleEndian(0x17ED48941A08F981, 8)
  {
  }

  /** The fingerprint is serialised as the bytes of 0xd09d1d85de64fd85, least significant first. */
  lemma FingerprintBytes()
    ensures EncodeInt64(Fingerprint) == [0x85, 0xfd, 0x64, 0xde, 0x85, 0x1d, 0x9d, 0xd0]
  {
    assert Fingerprint as int % 0x1_0000_0000_0000_0000 == 0xd09d1d85de64fd85;
    LittleEndianCons(0x85, 0xd09d1d85de64fd, 7);
    LittleEndianCons(0xfd, 0xd09d1d85de64, 6);
    LittleEndianCons(0x64, 0xd09d1d85de, 5);
    LittleEndianCons(0xde, 0xd09d1d85, 4);
    LittleEndianCons(0x85, 0xd09d1d, 3);
    LittleEndianCons(0x1d, 0xd09d, 2);
    LittleEndianTwoBytes(0xd09d, 0);
  }

  /** The `resPQ` tag in wire order. */
  lemma MagicBytes()
    ensures EncodeUInt32(ResPqMagic) == [0x63, 0x24, 0x16, 0x05]
  {
  }

  /** The eight-byte `pq` as TL `bytes`: its length, the data and three bytes of padding. */
  lemma PqEncoding()
    ensures EncodeBytes(Pq) == [8, 0x81, 0xf9, 0x08, 0x1a, 0x94, 0x48, 0xed, 0x17, 0, 0, 0]
  {
  }

  /**
   * The reply the server builds for a nonce: 84 bytes, with the `resPQ` tag
   * at 20..24, the echoed nonce at 24..40, the server nonce at 40..56, the
   * eight-byte `pq` in a 12-byte TL `bytes` at 56..68 and the one-element
   * fingerprint vector at 68..84.
   */
  lemma GeneratedReply(nonce: Int128, messageId: Int64)
    ensures var s := Generate(nonce, Pq, messageId).Wire();
      && |s| == 84
      && s[20..24] == [0x63, 0x24, 0x16, 0x05]
      && s[24..40] == nonce && s[40..56] == ServerNonce
      && s[56..68] == [8, 0x81, 0xf9, 0x08, 0x1a, 0x94, 0x48, 0xed, 0x17, 0, 0, 0]
      && s[68..] == EncodeVector([Fingerprint])
  {
    var r := Generate(nonce, Pq, messageId);
    WireLayout(r);
    MagicBytes();
    PqEncoding();
    var s := r.Wire();
    assert s[56..][..12] == EncodeBytes(Pq) && s[56..][12..] == EncodeVector([Fingerprint]);
  }
}
