# MTProto obfuscated-transport bootstrap, modelled in Dafny

This project models the server side of the first exchange on an MTProto
connection that uses transport obfuscation and the abridged transport:

- The client sends a 64-byte `init` header, but only its first 56 bytes are in clear.
- The server derives a forward key and IV from `init` (`init[8..40]` and `init[40..56]`). It derives a reverse key and IV by the same `skip`/`take` over the header read backwards, which gives `init[24..56]` reversed and `init[8..24]` reversed.
- With the forward keystream it decrypts a length byte and a `req_pq_multi` request.
- It answers with a `resPQ`. The reply echoes the client's nonce and carries a fixed server nonce, `pq` and key fingerprint.
- The reply is framed as the first abridged packet, with the 0xef connection tag stripped, and encrypted with the reverse keystream from position 0.

Modules, one per file:

| module | file | contents |
|---|---|---|
| `Bytes` | `bytes.dfy` | bytes, XOR, little-endian integers, `rev`/`skip`/`take` |
| `Wrappers` | `wrappers.dfy` | `Result` and `Option` |
| `Tl` | `tl.dfy` | TL serialisation of `long`, `int`, `int128`, `bytes` and `Vector<long>`, each with a decoder, plus the forward `Cursor` |
| `Keystream` | `keystream.dfy` | the counter-mode keystream and the `Ctr` cipher object |
| `Obfuscation` | `obfuscation.dfy` | key and IV derivation |
| `Framing` | `framing.dfy` | abridged framing and the `Abridged` packer |
| `Messages` | `messages.dfy` | `ReqPqMulti::parse`, `ResPq::generate`, `ResPq::ser` |
| `Handshake` | `handshake.dfy` | `handle_connection`, as a method over the connection's inbound bytes, and the end-to-end lemmas |

Parameters stand in for what the model does not compute:

- `ks: (key, iv, position) -> byte` is the AES-256-CTR keystream. Encryption XORs it byte-wise, and every lemma holds for every keystream.
- `messageId` stands in for the clock.
- Reads are full reads. `read` copies every byte asked for that the peer has sent, and `read_exact` fails only when the stream ends first.

With these, a connection fails in exactly two cases:

- a read error when fewer than 65 bytes arrive;
- a deserialisation error when the decrypted length byte announces fewer than 40 bytes.

Otherwise it writes 85 bytes.

## Model

| member | source | states |
|---|---|---|
| `Obfuscation.ReceivedHeader` | src/main.rs:35-38 | `init` is 64 bytes; when at least 56 bytes arrive it is those 56 followed by eight zeros, because `take(56)` never fills the tail |
| `Obfuscation.EncryptKey` | src/main.rs:45 | `skip(8).take(32)` of `init` is the slice `init[8..40]` |
| `Obfuscation.EncryptIv` | src/main.rs:46 | `skip(40).take(16)` of `init` is `init[40..56]` |
| `Obfuscation.DecryptKey` | src/main.rs:50 | `rev().skip(8).take(32)` is `init[24..56]` reversed |
| `Obfuscation.DecryptIv` | src/main.rs:51 | `rev().skip(40).take(16)` is `init[8..24]` reversed |
| `Obfuscation.DerivedSizes` | src/main.rs:55-56 | the four derived values are 32, 16, 32 and 16 bytes, the sizes `Ctr64BE<Aes256>::new` needs |
| `Obfuscation.DerivationIgnoresOuterBytes` | src/main.rs:45-51 | headers that agree on bytes 8..56 derive the same keys and IVs; bytes 0..8 and 56..64 play no part |
| `Obfuscation.ReceivedHeaderDerivesClientKeys` | src/main.rs:35-51 | the zero-padded 56 bytes the server keeps derive the same keys and IVs as the client's full 64-byte header |
| `Obfuscation.KeysCoincideWhenMirrored` | src/main.rs:45-51 | the forward and reverse key are equal if and only if `init[8..40]` is `init[24..56]` reversed; the same holds for the IVs |
| `Obfuscation.ZeroHeaderKeysCoincide` | src/main.rs:45-51 | on the all-zero header the forward and reverse keys and IVs are equal |
| `Bytes.Skip` | src/main.rs:45-51 | `skip(n)` yields the elements after the first `n`, in order, or nothing when there are fewer |
| `Bytes.Take` | src/main.rs:45-51 | `take(m)` yields the first `m` elements, or all of them when there are fewer |
| `Bytes.Reversed` | src/main.rs:50-51 | `rev()` yields the same number of elements, element `i` being element `len-1-i` of the original |
| `Bytes.ReversedTwice` | src/main.rs:50-51 | reversing twice gives the original back |
| `Bytes.SkipTakeSlice` | src/main.rs:45-46 | `skip(n).take(m)` of a long enough sequence is the slice `[n..n+m]` |
| `Bytes.SkipTakeReversed` | src/main.rs:50-51 | `rev().skip(n).take(m)` is the reversal of the slice `[len-n-m..len-n]` |
| `Bytes.LittleEndian` | src/main.rs:15 | `to_le_bytes` of a `width`-byte integer yields `width` bytes |
| `Bytes.LittleEndianRoundTrip` | src/main.rs:77 | reading back the `to_le_bytes` of a value that fits gives the value |
| `Bytes.FromLittleEndianRoundTrip` | src/main.rs:115-118 | re-encoding the little-endian value of a byte string at its width gives the string back |
| `Bytes.XorTwice` | src/main.rs:57 | XORing a byte twice with the same keystream byte restores it |
| `Keystream.Apply` | src/main.rs:57 | the keystream application keeps the length and XORs byte `i` with the keystream at position `start + i` |
| `Keystream.ApplyInvolution` | src/main.rs:57 | applying the same keystream twice from the same position is the identity |
| `Keystream.ApplySplit` | src/main.rs:57-67 | applying the keystream to `a` and then to `b` from where `a` ended equals applying it once to `a + b` |
| `Keystream.Ctr.constructor` | src/main.rs:55-56 | a new cipher needs a 32-byte key and a 16-byte IV, and starts at keystream position 0 |
| `Keystream.Ctr.ApplyKeystream` | src/main.rs:57 | the buffer becomes the keystream application of its old contents from the old position, and the position advances by its length |
| `Handshake.KeystreamPieces` | src/main.rs:55-67 | the three inbound applications, to `init` at 0..64, the length byte at 64 and the packet from 65, equal one application to their concatenation |
| `Handshake.Connection.constructor` | src/main.rs:34 | a new reader over the connection starts before its first byte |
| `Handshake.Connection.Read` | src/main.rs:38 | a read copies min(limit, buffer size, bytes left) bytes to the front of the buffer, leaves the rest of the buffer unchanged and advances by that count |
| `Handshake.Connection.ReadExact` | src/main.rs:39-40 | `read_exact` fills the whole buffer and advances by its size, or fails exactly when too few bytes are left |
| `Handshake.ReadHeader` | src/main.rs:35-39 | after the first two reads `init` is the received header; they fail exactly when fewer than 64 bytes arrive, having consumed the whole stream, and otherwise stand at byte 64 |
| `Handshake.DecryptLength` | src/main.rs:55-63 | a fresh cipher keyed with the forward key and IV of `init` decrypts `init` in place from position 0 and the length byte at position 64; it then stands at position 65 and yields the announced request length |
| `Handshake.DecryptedLength` | src/main.rs:61-63 | the length byte decrypted at position 64, times four, is `PayloadLength` |
| `Handshake.PayloadLength` | src/main.rs:61-63 | the request length is four times the decrypted length byte, so it is a multiple of 4 and at most 1020 |
| `Handshake.ReceivedPacket` | src/main.rs:65-66 | the packet buffer holds the bytes that arrived, then zeros |
| `Handshake.FilledIsReceived` | src/main.rs:65-66 | a full read into a zeroed buffer leaves exactly `ReceivedPacket` |
| `Handshake.ReadPacket` | src/main.rs:65-67 | the packet the server parses is what arrived, zero-filled, then decrypted from the cipher's position; the reader advances by the bytes it copied and the cipher by the packet length |
| `Handshake.ReadRequest` | src/main.rs:34-67 | the reads and inbound decryption fail with a read error on fewer than 65 bytes, leaving the stream consumed; otherwise they yield the received header and the decrypted request, and the reader stands after the bytes of the request that arrived |
| `Handshake.InboundPacket` | src/main.rs:61-67 | the decrypted request is as long as the decrypted length byte announces |
| `Tl.Cursor.FromSlice` | src/main.rs:70 | a cursor over the packet starts at its first byte |
| `Tl.Cursor.ReadExact` | src/main.rs:115-119 | a cursor read returns the next `n` bytes and advances past them, or fails with `UnexpectedEof` without advancing |
| `Tl.Cursor.ReadInt64` | src/main.rs:115-116 | reads the next 8 bytes as a little-endian two's-complement `i64` |
| `Tl.Cursor.ReadUInt32` | src/main.rs:117-118 | reads the next 4 bytes as a little-endian `u32` |
| `Tl.Cursor.ReadInt128` | src/main.rs:119 | reads the next 16 bytes verbatim |
| `Messages.ParseReqPqMulti` | src/main.rs:113-121 | parsing succeeds exactly when at least 40 bytes are present; otherwise it fails with `UnexpectedEof` |
| `Messages.Parse` | src/main.rs:113-121 | parsing through a cursor gives the same result as `ParseReqPqMulti` on the remaining bytes, and advances by 40 on success |
| `Messages.RequestRoundTrip` | src/main.rs:113-121 | encoding five fields and parsing them back gives the same fields, whatever bytes follow |
| `Messages.RequestBytesRoundTrip` | src/main.rs:113-121 | re-encoding a parsed request gives back its first 40 bytes, so trailing bytes are ignored |
| `Tl.EncodeInt64` | src/main.rs:156-157 | `i64::serialize` writes 8 bytes |
| `Tl.DecodeInt64` | src/main.rs:115-116 | `i64::deserialize` reads 8 bytes as the two's-complement value congruent to their little-endian reading modulo 2^64 |
| `Tl.EncodeUInt32` | src/main.rs:158-159 | `u32::serialize` writes 4 bytes |
| `Tl.DecodeUInt32` | src/main.rs:117-118 | `u32::deserialize` reads 4 bytes as their little-endian value |
| `Tl.Int64RoundTrip` | src/main.rs:115-116 | decoding an encoded `i64` gives it back, negative values included |
| `Tl.Int64BytesRoundTrip` | src/main.rs:115-116 | encoding a decoded 8-byte string gives it back |
| `Tl.UInt32RoundTrip` | src/main.rs:117-118 | decoding an encoded `u32` gives it back |
| `Tl.UInt32BytesRoundTrip` | src/main.rs:117-118 | encoding a decoded 4-byte string gives it back |
| `Messages.Generate` | src/main.rs:138-151 | the reply echoes the nonce, `pq` and message id; it has `auth_key_id` 0, `message_length` 0, magic 0x05162463, the server nonce and the single fingerprint |
| `Messages.ServerNonceBytes` | src/main.rs:15 | `SERVER_NONCE` is 0x1337 as 16 little-endian bytes |
| `Messages.PqBytes` | src/main.rs:77 | the `pq` sent is 0x17ED48941A08F981 as 8 little-endian bytes |
| `Messages.FingerprintBytes` | src/main.rs:150 | the fingerprint literal wraps to a negative `i64` that serialises as the bytes of 0xd09d1d85de64fd85, least significant first |
| `Messages.MagicBytes` | src/main.rs:146 | the `resPQ` magic serialises as 63 24 16 05 |
| `Messages.ResPq.Wire` | src/main.rs:154-165 | the serialisation is 56 bytes plus the `pq` encoding and the vector encoding, a whole number of 4-byte words |
| `Messages.ResPq.Ser` | src/main.rs:154-165 | appending the eight fields step by step yields `Wire` |
| `Messages.WireLayout` | src/main.rs:154-165 | the fields sit at offsets 0, 8, 16, 20, 24..40 and 40..56; after them come the `pq` bytes encoding and the fingerprint vector |
| `Messages.ResPqRoundTrip` | src/main.rs:154-165 | a client decoding the serialisation gets the reply back |
| `Messages.PqEncoding` | src/main.rs:162 | the 8-byte `pq` is encoded as length 8, the data and three zero bytes of padding |
| `Messages.GeneratedReply` | src/main.rs:138-165 | the generated reply serialises to 84 bytes with the magic at 20..24, the client nonce at 24..40, the server nonce at 40..56, the `pq` encoding at 56..68 and the fingerprint vector after it |
| `Tl.EncodeBytes` | src/main.rs:162 | a TL `bytes` encoding is a whole number of 4-byte words |
| `Tl.BytesRoundTrip` | src/main.rs:162 | TL `bytes` shorter than 2^24 decode back, with the number of bytes consumed, whatever follows |
| `Tl.EncodeVector` | src/main.rs:163 | a `Vector<long>` encoding is 8 bytes of header (tag and count) plus 8 bytes per element |
| `Tl.Int64sRoundTrip` | src/main.rs:163 | a run of encoded `i64`s decodes back |
| `Tl.VectorRoundTrip` | src/main.rs:163 | a `Vector<long>` decodes back, with the number of bytes consumed, whatever follows |
| `Framing.Frame` | src/main.rs:81 | an abridged frame is one length byte or four (0x7f and a 3-byte word count), then the payload |
| `Framing.FrameRoundTrip` | src/main.rs:81 | reading a frame back gives the payload and the frame's length |
| `Framing.ShortFrame` | src/main.rs:81-82 | below 127 words the frame is the word count as one byte, then the payload |
| `Framing.Abridged.constructor` | src/main.rs:81 | a new packer has not sent the connection tag |
| `Framing.Abridged.Pack` | src/main.rs:81 | the first pack appends 0xef and the frame, later packs the frame alone; after it the tag counts as sent |
| `Handshake.Reply` | src/main.rs:80-89 | the bytes written are the frame of `ser()` after the tag is dropped, encrypted with the reverse key and IV from position 0 |
| `Handshake.Response` | src/main.rs:80-89 | the written bytes are as long as the frame and decrypt to it under the reverse keystream |
| `Handshake.Handshake` | src/main.rs:32-100 | a connection fails only with a read error or `UnexpectedEof`, and with a read error exactly when fewer than 65 bytes arrive |
| `Handshake.HandleConnection` | src/main.rs:32-100 | the imperative driver computes `Handshake` of its input |
| `Handshake.HandshakeFailure` | src/main.rs:38-71 | a connection fails if and only if fewer than 65 bytes arrive or the announced request is shorter than 40 bytes, and each case gives its own error |
| `Handshake.HandshakeReply` | src/main.rs:71-89 | a successful connection writes 85 bytes; they decrypt to the word count 21 followed by the reply built from bytes 24..40 of the decrypted request |
| `Handshake.ClientStreamLayout` | src/main.rs:38-66 | in a client's stream the first 56 bytes are in clear, byte 64 is the encrypted word count, and the request follows encrypted from position 65 |
| `Handshake.ClientPacket` | src/main.rs:55-67 | the server decrypts exactly the request the client encrypted |
| `Handshake.ClientHandshake` | src/main.rs:32-100 | a client that announces its request length in one byte and sends the request, padded to whole words, gets back the encrypted frame of the reply to its own nonce, whatever else it sent |
| `Handshake.ClientReadsReply` | src/main.rs:75-89 | the client's decryption of the server's bytes unframes to the serialised reply, which decodes back to the reply carrying the client's nonce |

## Left out

- `Handshake.Connection.ReadExact`: on failure the model leaves the buffer unchanged. The standard library may have copied some bytes into it, and calls its contents unspecified. The driver returns at once, so nothing reads it.
- A request of 127 words or more, which an abridged client announces as 0x7f followed by a 3-byte count, is not modelled as such. The code reads a single length byte (src/main.rs:37, 63), so the model, like the code, takes 0x7f as 127 words. The client lemmas describe a client that announces its length in one byte.
- The accept loop, logging and printing of the error chain (src/main.rs:17-29, 41-43, 47-48, 52-53, 58, 62, 68, 72, 83-84) produce no value the handshake depends on.
- `write_all` can fail, and the model does not capture that. The written bytes are the method's result.
- AES-256 and the counter-mode construction are the keystream parameter `ks`. The 64-bit big-endian counter of `Ctr64BE` and its wrap-around are not modelled.
- The `SystemTime` message id is the parameter `messageId`. The clock, and the cast of nanoseconds to `i64`, are not modelled.
- Short reads are not modelled. On a TCP stream `read` may return fewer bytes than are on the way. The model delivers all of them (`Handshake.Connection.Read`), and `read_exact` that runs out consumes what was left.
- TL serialisation and the abridged packer live in libraries that are not part of this model. They are written here as reference definitions following the MTProto TL and abridged-transport descriptions, each with a decoder as its partner. `Framing.Abridged.Pack` requires the payload to be a whole number of words; the packer panics otherwise.
- `Messages.Parse`: the cursor position after a failed `ReqPqMulti::parse` is not stated. The code never uses the cursor after a failure.
- The request's `auth_key_id`, `message_length` and magic are not checked, and bytes after the first 40 are ignored, as in the code.
- The commented-out `ReqDHParams` step (src/main.rs:91-97) is not modelled.
- The message length field of the reply is 0 as written. MTProto expects the body length there. The model keeps the code's value.
- That the two directions always use different keys is not a property of the code. `Obfuscation.ZeroHeaderKeysCoincide` exhibits a header for which they coincide.
