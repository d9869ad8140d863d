/**
 * The MTProto "abridged" transport framing: a connection starts with the tag
 * byte 0xef, and each packet is its length in 4-byte words (one byte below
 * 127, otherwise 0x7f and three little-endian bytes) followed by the payload.
 */
module Framing {
  import opened Bytes
  import opened Wrappers

  const ConnectionTag: byte := 0xef

  /** One packet as the abridged transport frames it, without the connection tag. */
  function Frame(payload: seq<byte>): (f: seq<byte>)
    requires |payload| % 4 == 0
    ensures |f| == (if |payload| / 4 < 127 then 1 else 4) + |payload|
  {
    var words := |payload| / 4;
    if words < 127 then [words as byte] + payload else [0x7f] + LittleEndian(words, 3) + payload
  }

  /** How the receiving side reads one packet: its payload and the bytes consumed. */
  function Unframe(s: seq<byte>): (r: Option<(seq<byte>, nat)>)
  {
    if |s| == 0 || s[0] > 0x7f || (s[0] == 0x7f && |s| < 4) then None
    else
      var headerLength: nat := if s[0] == 0x7f then 4 else 1;
      var length: nat := 4 * (if s[0] == 0x7f then FromLittleEndian(s[1..4]) else s[0] as nat);
      if |s| < headerLength + length then None
      else Some((s[headerLength..headerLength + length], headerLength + length))
  }

  /** A payload of fewer than 2^24 words is read back from its frame, whatever follows it. */
  lemma FrameRoundTrip(payload: seq<byte>, rest: seq<byte>)
    requires |payload| % 4 == 0 && |payload| / 4 < 0x100_0000
    ensures Unframe(Frame(payload) + rest) == Some((payload, |Frame(payload)|))
  {
    var words := |payload| / 4;
    var s := Frame(payload) + rest;
    assert 4 * words == |payload|;
    if words < 127 {
      assert s[0] as nat == words;
      assert s[1..1 + |payload|] == payload;
    } else {
      Pow256Values();
      LittleEndianRoundTrip(words, 3);
      assert s[1..4] == LittleEndian(words, 3);
      assert s[4..4 + |payload|] == payload;
    }
  }

  /**
   * For a payload shorter than 127 words the frame is one length byte, in
   * words, and then the payload: the byte times four is the payload length.
   */
  lemma ShortFrame(payload: seq<byte>)
    requires |payload| % 4 == 0 && |payload| < 4 * 127
    ensures |Frame(payload)| == 1 + |payload|
    ensures Frame(payload)[0] as nat * 4 == |payload| && Frame(payload)[1..] == payload
  {
  }

  /** `grammers_mtproto::transport::Abridged`: remembers whether the tag has been sent. */
  class Abridged {
    var init: bool

    constructor ()
      ensures !init
    {
      init := false;
    }

    /**
     * `Transport::pack`: appends the tag on the first call only, then the
     * framed packet. The payload must be a whole number of words.
     */
    method Pack(input: seq<byte>, output: seq<byte>) returns (out: seq<byte>)
      requires |input| % 4 == 0
      modifies this
      ensures init
      ensures out == output + (if old(init) then [] else [ConnectionTag]) + Frame(input)
    {
      out := output;
      if !init {
        out := out + [ConnectionTag];
        init := true;
      }
      var words := |input| / 4;
      if words < 127 {
        out := out + [words as byte] + input;
      } else {
        out := out + [0x7f] + LittleEndian(words, 3) + input;
      }
    }
  }
}
