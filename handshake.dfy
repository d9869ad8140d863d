/**
 * `handle_connection`: one pass of the obfuscated-transport bootstrap over a
 * connection's inbound bytes, ending in the encrypted `resPQ` reply or in an
 * error. The block cipher is the parameter `ks`, the clock the parameter
 * `messageId`.
 */
module Handshake {
  import opened Bytes
  import opened Wrappers
  import opened Tl
  import opened Keystream
  import opened Obfuscation
  import opened Framing
  import opened Messages

  datatype ConnectionError = ReadEof | Deserialize(error: DeserializeError)

  /** Byte offset of the length byte in the inbound stream, and of the request after it. */
  const LengthOffset: nat := 64
  const PacketOffset: nat := 65

  function Min(a: nat, b: nat): (r: nat)
  {
    if a <= b then a else b
  }

  /**
   * The connection's inbound bytes behind a buffered reader. Every read is
   * assumed to deliver all the bytes it asks for that the peer has sent.
   */
  class Connection {
    const data: seq<byte>
    var pos: nat

    ghost predicate Valid()
      reads this
    {
      pos <= |data|
    }

    constructor (data: seq<byte>)
      ensures Valid() && this.data == data && pos == 0
    {
      this.data := data;
      pos := 0;
    }

    /**
     * `Read::read` into `buf`, limited to `limit` bytes (`take(limit)`): copies
     * what is available to the front of `buf` and leaves the rest of it alone.
     */
    method Read(buf: array<byte>, limit: nat) returns (n: nat)
      requires Valid()
      modifies this, buf
      ensures Valid()
      ensures n == Min(Min(limit, buf.Length), |data| - old(pos)) && pos == old(pos) + n
      ensures buf[..n] == data[old(pos)..pos] && buf[n..] == old(buf[n..])
    {
      var start := pos;
      n := Min(Min(limit, buf.Length), |data| - start);
      var i := 0;
      while i < n
        invariant 0 <= i <= n && pos == start
        invariant buf[..i] == data[start..start + i]
        invariant buf[n..] == old(buf[n..])
      {
        buf[i] := data[start + i];
        i := i + 1;
        assert buf[..i] == buf[..i - 1] + [buf[i - 1]];
      }
      pos := pos + n;
    }

    /**
     * `Read::read_exact`: fills `buf` completely, or fails at the end of the
     * stream having consumed what was left.
     */
    method ReadExact(buf: array<byte>) returns (ok: bool)
      requires Valid()
      modifies this, buf
      ensures Valid()
      ensures ok <==> old(pos) + buf.Length <= |data|
      ensures ok ==> buf[..] == data[old(pos)..old(pos) + buf.Length] && pos == old(pos) + buf.Length
      ensures !ok ==> buf[..] == old(buf[..]) && pos == |data|
    {
      if pos + buf.Length > |data| {
        pos := |data|;
        return false;
      }
      var n := Read(buf, buf.Length);
      ok := true;
    }
  }

  /**
   * What a read into a zeroed buffer of `length` bytes leaves in it: the bytes
   * available, then zeros where the peer sent nothing.
   */
  function ReceivedPacket(available: seq<byte>, length: nat): (p: seq<byte>)
    ensures |p| == length
    ensures |available| >= length ==> p == available[..length]
    ensures forall i :: |available| <= i < length ==> p[i] == 0
  {
    if |available| >= length then available[..length] else available + Zeros(length - |available|)
  }

  /**
   * `packet_len[0] as usize * 4`: the length byte, decrypted at keystream
   * position 64, counts the request in 4-byte words.
   */
  function PayloadLength(ks: Keystream, init: seq<byte>, lengthByte: byte): (n: nat)
    requires |init| == HeaderLength
    ensures n % 4 == 0 && n <= 4 * 255
    ensures n == 4 * (Xor(lengthByte, ks(EncryptKey(init), EncryptIv(init), LengthOffset)) as nat)
  {
    Apply(ks, EncryptKey(init), EncryptIv(init), LengthOffset, [lengthByte])[0] as nat * 4
  }

  /** The request as the server decrypts it: keystream positions 65 onwards. */
  function InboundPacket(ks: Keystream, input: seq<byte>): (packet: seq<byte>)
    requires |input| >= PacketOffset
    ensures |packet| == PayloadLength(ks, ReceivedHeader(input), input[LengthOffset])
  {
    var init := ReceivedHeader(input);
    var n := PayloadLength(ks, init, input[LengthOffset]);
    Apply(ks, EncryptKey(init), EncryptIv(init), PacketOffset, ReceivedPacket(input[PacketOffset..], n))
  }

  /**
   * The bytes written back: the abridged frame of the serialised reply
   * without the connection tag, encrypted with the reverse key and IV from
   * keystream position 0.
   */
  function Response(ks: Keystream, init: seq<byte>, reply: ResPq): (out: seq<byte>)
    requires |init| == HeaderLength
    ensures |out| == |Frame(reply.Wire())|
    ensures Apply(ks, DecryptKey(init), DecryptIv(init), 0, out) == Frame(reply.Wire())
  {
    ApplyInvolution(ks, DecryptKey(init), DecryptIv(init), 0, Frame(reply.Wire()));
    Apply(ks, DecryptKey(init), DecryptIv(init), 0, Frame(reply.Wire()))
  }

  /** The outcome of one connection whose inbound bytes are `input`. */
  function Handshake(ks: Keystream, input: seq<byte>, messageId: Int64): (r: Result<seq<byte>, ConnectionError>)
    ensures r.Failure? ==> r.error == ReadEof || r.error == Deserialize(UnexpectedEof)
    ensures r.Failure? && r.error == ReadEof <==> |input| < PacketOffset
  {
    if |input| < PacketOffset then Failure(ReadEof)
    else
      match ParseReqPqMulti(InboundPacket(ks, input))
      case Failure(e) => Failure(Deserialize(e))
      case Success(request) => Success(Response(ks, ReceivedHeader(input), Generate(request.nonce, Pq, messageId)))
  }

  /** `handle_connection`, on a connection that delivers `input` and accepts every byte written. */
  method HandleConnection(ks: Keystream, input: seq<byte>, messageId: Int64) returns (r: Result<seq<byte>, ConnectionError>)
    ensures r == Handshake(ks, input, messageId)
  {
    var stream := new Connection(input);
    var inbound := ReadRequest(ks, stream);
    if inbound.Failure? {
      return Failure(inbound.error);
    }
    var (header, packet) := inbound.value;
    var cur := new Cursor.FromSlice(packet);
    var parsed := Parse(cur);
    if parsed.Failure? {
      return Failure(Deserialize(parsed.error));
    }
    var outbound := Reply(ks, header, Generate(parsed.value.nonce, Pq, messageId));
    r := Success(outbound);
  }

  /**
   * The reads and the inbound decryption: the 56 header bytes, the 8 ignored
   * ones, the length byte and the request, with the header and the decrypted
   * request as the result.
   */
  method ReadRequest(ks: Keystream, stream: Connection) returns (r: Result<(seq<byte>, seq<byte>), ConnectionError>)
    requires stream.Valid() && stream.pos == 0
    modifies stream
    ensures |stream.data| < PacketOffset ==> r == Failure(ReadEof)
    ensures |stream.data| >= PacketOffset ==>
      r == Success((ReceivedHeader(stream.data), InboundPacket(ks, stream.data)))
    ensures stream.Valid()
    ensures |stream.data| < PacketOffset ==> stream.pos == |stream.data|
    ensures |stream.data| >= PacketOffset ==>
      stream.pos == PacketOffset +
        Min(PayloadLength(ks, ReceivedHeader(stream.data), stream.data[LengthOffset]), |stream.data| - PacketOffset)
  {
    var input := stream.data;
    var init := new byte[HeaderLength](_ => 0);
    var ok := ReadHeader(stream, init);
    if !ok {
      return Failure(ReadEof);
    }
    var packetLen := new byte[1](_ => 0);
    ok := stream.ReadExact(packetLen);
    if !ok {
      return Failure(ReadEof);
    }
    var header := init[..];
    assert packetLen[..] == [input[LengthOffset]];
    var cipher, packetLength := DecryptLength(ks, init, packetLen);
    var packet := ReadPacket(stream, cipher, packetLength);
    r := Success((header, packet));
  }

  /**
   * The forward cipher, keyed from `init`, run over `init` and then over the
   * length byte: the announced request length, and the cipher at position 65.
   */
  method DecryptLength(ks: Keystream, init: array<byte>, packetLen: array<byte>) returns (cipher: Ctr, length: nat)
    requires init.Length == HeaderLength && packetLen.Length == 1
    modifies init, packetLen
    ensures fresh(cipher)
    ensures cipher.ks == ks && cipher.key == EncryptKey(old(init[..])) && cipher.iv == EncryptIv(old(init[..]))
    ensures cipher.pos == PacketOffset
    ensures init[..] == Apply(ks, EncryptKey(old(init[..])), EncryptIv(old(init[..])), 0, old(init[..]))
    ensures packetLen[..] == Apply(ks, EncryptKey(old(init[..])), EncryptIv(old(init[..])), LengthOffset, old(packetLen[..]))
    ensures length == PayloadLength(ks, old(init[..]), old(packetLen[0]))
  {
    ghost var header := init[..];
    ghost var lengthByte := packetLen[0];
    var key, iv := EncryptKey(init[..]), EncryptIv(init[..]);
    cipher := new Ctr(ks, key, iv);
    cipher.ApplyKeystream(init);
    cipher.ApplyKeystream(packetLen);
    DecryptedLength(ks, header, lengthByte, packetLen[..]);
    length := packetLen[0] as nat * 4;
  }

  lemma DecryptedLength(ks: Keystream, init: seq<byte>, lengthByte: byte, decrypted: seq<byte>)
    requires |init| == HeaderLength
    requires decrypted == Apply(ks, EncryptKey(init), EncryptIv(init), LengthOffset, [lengthByte])
    ensures |decrypted| == 1 && decrypted[0] as nat * 4 == PayloadLength(ks, init, lengthByte)
  {
  }

  /**
   * The request: a full read into a zeroed buffer of `length` bytes, then
   * decrypted where the inbound keystream stands.
   */
  method ReadPacket(stream: Connection, cipher: Ctr, length: nat) returns (packet: seq<byte>)
    requires stream.Valid()
    modifies stream, cipher
    ensures packet == Apply(cipher.ks, cipher.key, cipher.iv, old(cipher.pos), ReceivedPacket(stream.data[old(stream.pos)..], length))
    ensures stream.Valid() && stream.pos == old(stream.pos) + Min(length, |stream.data| - old(stream.pos))
    ensures cipher.pos == old(cipher.pos) + length
  {
    var buf := new byte[length](_ => 0);
    ghost var zeroed := buf[..];
    ghost var available := stream.data[stream.pos..];
    var received := stream.Read(buf, length);
    FilledPrefix(buf[..], zeroed, available, received);
    FilledIsReceived(available, length, received);
    cipher.ApplyKeystream(buf);
    packet := buf[..];
  }

  /** What a full read leaves in a zeroed buffer is ReceivedPacket. */
  lemma FilledIsReceived(available: seq<byte>, length: nat, received: nat)
    requires received == Min(length, |available|)
    ensures available[..received] + Zeros(length - received) == ReceivedPacket(available, length)
  {
    if |available| >= length {
      assert available[..received] + Zeros(0) == available[..length];
    } else {
      assert available[..received] == available;
    }
  }

  /** The first two reads: `take(56)` into the zeroed `init`, then the 8 bytes after it. */
  method ReadHeader(stream: Connection, init: array<byte>) returns (ok: bool)
    requires stream.Valid() && stream.pos == 0
    requires init.Length == HeaderLength && forall i :: 0 <= i < init.Length ==> init[i] == 0
    modifies stream, init
    ensures stream.Valid()
    ensures init[..] == ReceivedHeader(stream.data)
    ensures ok <==> |stream.data| >= HeaderLength
    ensures ok ==> stream.pos == HeaderLength
    ensures !ok ==> stream.pos == |stream.data|
  {
    ghost var zeroedInit := init[..];
    var initRead := stream.Read(init, 56);
    FilledPrefix(init[..], zeroedInit, stream.data, initRead);
    var encryptedInit := new byte[8](_ => 0);
    ok := stream.ReadExact(encryptedInit);
  }

  /**
   * The response path: serialise the reply, pack it as the first abridged
   * packet, drop the connection tag and encrypt the rest from keystream
   * position 0 with the reverse key and IV.
   */
  method Reply(ks: Keystream, header: seq<byte>, resPq: ResPq) returns (outbound: seq<byte>)
    requires |header| == HeaderLength
    ensures outbound == Response(ks, header, resPq)
  {
    var ser := resPq.Ser();
    var abridged := new Abridged();
    var mtproto := abridged.Pack(ser, []);
    assert mtproto[1..] == Frame(ser);
    mtproto := mtproto[1..];
    var buf := new byte[|mtproto|](i requires 0 <= i < |mtproto| => mtproto[i]);
    var encryptor := new Ctr(ks, DecryptKey(header), DecryptIv(header));
    encryptor.ApplyKeystream(buf);
    outbound := buf[..];
  }

  /**
   * A buffer that started out zeroed and had its first `k` bytes filled from
   * `source` holds those bytes followed by zeros.
   */
  lemma FilledPrefix(buf: seq<byte>, zeroed: seq<byte>, source: seq<byte>, k: nat)
    requires |buf| == |zeroed| && k <= |buf| && k <= |source|
    requires forall i :: 0 <= i < |zeroed| ==> zeroed[i] == 0
    requires buf[..k] == source[..k] && buf[k..] == zeroed[k..]
    ensures buf == source[..k] + Zeros(|buf| - k)
  {
    var expected := source[..k] + Zeros(|buf| - k);
    forall i | 0 <= i < |buf|
      ensures buf[i] == expected[i]
    {
      if i < k {
        assert buf[i] == buf[..k][i];
      } else {
        assert buf[i] == buf[k..][i - k] == zeroed[i];
      }
    }
  }

  /**
   * The connection fails exactly when the stream ends before the length byte
   * (a read error) or the announced request is shorter than the 40 bytes
   * `ReqPqMulti::parse` reads (a deserialisation error).
   */
  lemma HandshakeFailure(ks: Keystream, input: seq<byte>, messageId: Int64)
    ensures Handshake(ks, input, messageId).Failure? <==>
      |input| < PacketOffset || PayloadLength(ks, ReceivedHeader(input), input[LengthOffset]) < ReqPqMultiLength
    ensures |input| < PacketOffset ==> Handshake(ks, input, messageId) == Failure(ReadEof)
    ensures |input| >= PacketOffset && PayloadLength(ks, ReceivedHeader(input), input[LengthOffset]) < ReqPqMultiLength ==>
      Handshake(ks, input, messageId) == Failure(Deserialize(UnexpectedEof))
  {
    if |input| >= PacketOffset {
      assert |InboundPacket(ks, input)| == PayloadLength(ks, ReceivedHeader(input), input[LengthOffset]);
    }
  }

  /**
   * A successful connection writes 85 bytes; decrypted with the reverse key
   * they are one abridged length byte (21 words) and the 84-byte `resPQ`
   * carrying the nonce from bytes 24..40 of the decrypted request.
   */
  lemma HandshakeReply(ks: Keystream, input: seq<byte>, messageId: Int64)
    requires Handshake(ks, input, messageId).Success?
    ensures |input| >= PacketOffset && |InboundPacket(ks, input)| >= ReqPqMultiLength
    ensures var init := ReceivedHeader(input);
      var out := Handshake(ks, input, messageId).value;
      && |out| == 85
      && Apply(ks, DecryptKey(init), DecryptIv(init), 0, out) ==
         [21] + Generate(InboundPacket(ks, input)[24..40], Pq, messageId).Wire()
  {
    var init := ReceivedHeader(input);
    var packet := InboundPacket(ks, input);
    assert |packet| >= ReqPqMultiLength;
    var wire := Generate(packet[24..40], Pq, messageId).Wire();
    GeneratedReply(packet[24..40], messageId);
    ShortFrame(wire);
    assert Frame(wire) == [21] + wire by {
      assert Frame(wire) == [Frame(wire)[0]] + Frame(wire)[1..];
    }
    ApplyInvolution(ks, DecryptKey(init), DecryptIv(init), 0, Frame(wire));
  }

  /**
   * The bytes a client sends: the first 56 bytes of its header in clear, then
   * its whole stream (header, length byte, request) encrypted from keystream
   * position 0 with the forward key and IV, from byte 56 on.
   */
  function ClientStream(ks: Keystream, header: seq<byte>, payload: seq<byte>): (s: seq<byte>)
    requires |header| == HeaderLength && |payload| % 4 == 0 && |payload| <= 4 * 255
    ensures |s| == PacketOffset + |payload|
  {
    var sent := Apply(ks, EncryptKey(header), EncryptIv(header), 0, header + [(|payload| / 4) as byte] + payload);
    header[..56] + sent[56..]
  }

  /**
   * End to end: a client that announces its length in one byte and sends a
   * `req_pq_multi` followed by any word padding, and possibly more bytes
   * after it, gets back the reply to its own nonce, encrypted with the key
   * and IV it derives for the reverse direction.
   */
  lemma ClientHandshake(ks: Keystream, header: seq<byte>, request: ReqPqMulti, padding: seq<byte>, later: seq<byte>, messageId: Int64)
    requires |header| == HeaderLength && |padding| % 4 == 0 && ReqPqMultiLength + |padding| <= 4 * 255
    ensures var input := ClientStream(ks, header, EncodeReqPqMulti(request) + padding) + later;
      Handshake(ks, input, messageId) ==
        Success(Apply(ks, DecryptKey(header), DecryptIv(header), 0, Frame(Generate(request.nonce, Pq, messageId).Wire())))
  {
    var payload := EncodeReqPqMulti(request) + padding;
    var input := ClientStream(ks, header, payload) + later;
    ClientPacket(ks, header, payload, later);
    ReceivedHeaderDerivesClientKeys(header, input);
    RequestRoundTrip(request, padding);
  }

  /** The server decrypts exactly the request the client encrypted. */
  lemma ClientPacket(ks: Keystream, header: seq<byte>, payload: seq<byte>, later: seq<byte>)
    requires |header| == HeaderLength && |payload| % 4 == 0 && |payload| <= 4 * 255
    ensures var input := ClientStream(ks, header, payload) + later;
      |input| >= PacketOffset && ReceivedHeader(input)[..56] == header[..56] && InboundPacket(ks, input) == payload
  {
    var input := ClientStream(ks, header, payload) + later;
    var key, iv := EncryptKey(header), EncryptIv(header);
    var lengthByte := (|payload| / 4) as byte;
    ClientStreamLayout(ks, header, payload, later);
    ReceivedHeaderDerivesClientKeys(header, input);
    var init := ReceivedHeader(input);
    XorTwice(lengthByte, ks(key, iv, LengthOffset));
    assert PayloadLength(ks, init, input[LengthOffset]) == |payload|;
    assert ReceivedPacket(input[PacketOffset..], |payload|) == Apply(ks, key, iv, PacketOffset, payload);
    ApplyInvolution(ks, key, iv, PacketOffset, payload);
  }

  /** Where the length byte and the request sit in a client's stream. */
  lemma ClientStreamLayout(ks: Keystream, header: seq<byte>, payload: seq<byte>, later: seq<byte>)
    requires |header| == HeaderLength && |payload| % 4 == 0 && |payload| <= 4 * 255
    ensures var input := ClientStream(ks, header, payload) + later;
      var key, iv := EncryptKey(header), EncryptIv(header);
      && input[..56] == header[..56]
      && input[LengthOffset] == Xor((|payload| / 4) as byte, ks(key, iv, LengthOffset))
      && input[PacketOffset..][..|payload|] == Apply(ks, key, iv, PacketOffset, payload)
  {
    var key, iv := EncryptKey(header), EncryptIv(header);
    var lengthByte := Apply(ks, key, iv, LengthOffset, [(|payload| / 4) as byte]);
    var packet := Apply(ks, key, iv, PacketOffset, payload);
    var stream := ClientStream(ks, header, payload);
    ClientStreamTail(ks, header, payload);
    TailOfConcat(stream, later, lengthByte + packet);
  }

  lemma TailOfConcat(stream: seq<byte>, later: seq<byte>, tail: seq<byte>)
    requires |stream| >= LengthOffset && stream[LengthOffset..] == tail && |tail| >= 1
    ensures (stream + later)[..56] == stream[..56]
    ensures (stream + later)[LengthOffset] == tail[0]
    ensures (stream + later)[PacketOffset..][..|tail| - 1] == tail[1..]
  {
    assert (stream + later)[LengthOffset] == stream[LengthOffset..][0];
    assert (stream + later)[PacketOffset..][..|tail| - 1] == stream[PacketOffset..] == tail[1..];
  }

  /** The client's stream is its clear 56 bytes, 8 encrypted header bytes, then the encrypted length byte and request. */
  lemma ClientStreamTail(ks: Keystream, header: seq<byte>, payload: seq<byte>)
    requires |header| == HeaderLength && |payload| % 4 == 0 && |payload| <= 4 * 255
    ensures var stream, key, iv := ClientStream(ks, header, payload), EncryptKey(header), EncryptIv(header);
      && stream[..56] == header[..56]
      && stream[LengthOffset..] ==
         Apply(ks, key, iv, LengthOffset, [(|payload| / 4) as byte]) + Apply(ks, key, iv, PacketOffset, payload)
  {
    var key, iv := EncryptKey(header), EncryptIv(header);
    var lengthByte := [(|payload| / 4) as byte];
    KeystreamPieces(ks, key, iv, header, lengthByte, payload);
    EncryptedTail(header, Apply(ks, key, iv, 0, header),
      Apply(ks, key, iv, LengthOffset, lengthByte) + Apply(ks, key, iv, PacketOffset, payload));
  }

  lemma EncryptedTail(header: seq<byte>, head: seq<byte>, tail: seq<byte>)
    requires |header| == HeaderLength && |head| == HeaderLength
    ensures (header[..56] + (head + tail)[56..])[..56] == header[..56]
    ensures (header[..56] + (head + tail)[56..])[LengthOffset..] == tail
  {
  }

  /**
   * One keystream over consecutive positions: applying it to the header at
   * 0..64, the length byte at 64 and the request from 65 on is applying it
   * once to the three joined together.
   */
  lemma KeystreamPieces(ks: Keystream, key: seq<byte>, iv: seq<byte>, header: seq<byte>, lengthByte: seq<byte>, payload: seq<byte>)
    requires |header| == HeaderLength && |lengthByte| == 1
    ensures Apply(ks, key, iv, 0, header + lengthByte + payload) ==
      Apply(ks, key, iv, 0, header) + (Apply(ks, key, iv, LengthOffset, lengthByte) + Apply(ks, key, iv, PacketOffset, payload))
  {
    ApplySplit(ks, key, iv, 0, header, lengthByte + payload);
    ApplySplit(ks, key, iv, LengthOffset, lengthByte, payload);
    assert header + lengthByte + payload == header + (lengthByte + payload);
  }

  /**
   * The client decrypting what the server wrote reads one abridged packet
   * holding a `resPQ` that decodes to the server's reply to its nonce.
   */
  lemma ClientReadsReply(ks: Keystream, header: seq<byte>, request: ReqPqMulti, padding: seq<byte>, later: seq<byte>, messageId: Int64)
    requires |header| == HeaderLength && |padding| % 4 == 0 && ReqPqMultiLength + |padding| <= 4 * 255
    ensures var input := ClientStream(ks, header, EncodeReqPqMulti(request) + padding) + later;
      var out := Handshake(ks, input, messageId);
      var reply := Generate(request.nonce, Pq, messageId);
      && out.Success?
      && Unframe(Apply(ks, DecryptKey(header), DecryptIv(header), 0, out.value)) == Some((reply.Wire(), 85))
      && DecodeResPq(reply.Wire()) == Some(reply)
      && reply.nonce == request.nonce
  {
    var reply := Generate(request.nonce, Pq, messageId);
    ClientHandshake(ks, header, request, padding, later, messageId);
    ApplyInvolution(ks, DecryptKey(header), DecryptIv(header), 0, Frame(reply.Wire()));
    GeneratedReply(request.nonce, messageId);
    FrameRoundTrip(reply.Wire(), []);
    assert Frame(reply.Wire()) + [] == Frame(reply.Wire());
    ResPqRoundTrip(reply);
  }
}
