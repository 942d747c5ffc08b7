/** The WebSocket framing of comprehensivetests.py: masked client frames, a decoder for frames of
    either side, and the loops that collect messages from a growing buffer. */
module WebSocket {
  import opened Bits
  import opened Bytes
  import opened Option
  import opened Words

  // ---- Masking --------------------------------------------------------------------------------

  type MaskKey = k: seq<Byte> | |k| == 4 witness [0, 0, 0, 0]

  function XorByte(a: Byte, b: Byte): Byte {
    ByteRange(); Combine(Differ, a, b, 8)
  }

  lemma ByteRange()
    ensures Pow2(8) == 256
  {
    assert Pow2(4) == 16;
    Pow2Sum(4, 4);
  }

  lemma {:induction false} DifferTwice(a: nat, b: nat, n: nat)
    requires a < Pow2(n)
    ensures Combine(Differ, Combine(Differ, a, b, n), b, n) == a
    decreases n
  {
    if n > 0 { DifferTwice(a / 2, b / 2, n - 1); }
  }

  function Masked(payload: seq<Byte>, key: MaskKey): (r: seq<Byte>)
    ensures |r| == |payload|
  {
    seq(|payload|, i requires 0 <= i < |payload| => XorByte(payload[i], key[i % 4]))
  }

  /** Masking is its own inverse. */
  lemma MaskedTwice(payload: seq<Byte>, key: MaskKey)
    ensures Masked(Masked(payload, key), key) == payload
  {
    ByteRange();
    forall i | 0 <= i < |payload|
      ensures Masked(Masked(payload, key), key)[i] == payload[i]
    {
      DifferTwice(payload[i], key[i % 4], 8);
    }
  }

  // ---- Encoding -------------------------------------------------------------------------------

  /** The length field of a text frame; None where struct.pack('!Q') fails. */
  function TextLength(n: nat): Option<seq<Byte>> {
    if n < 126 then Some([0x80 + n])
    else if n < 65536 then Some([0x80 + 126] + BigEndian(n, 2))
    else if n < 0x1_0000_0000_0000_0000 then Some([0x80 + 127] + BigEndian(n, 8))
    else None
  }

  /** A text frame with FIN set and opcode 1. */
  function TextFrame(payload: seq<Byte>, key: MaskKey): Option<seq<Byte>> {
    match TextLength(|payload|)
    case None => None
    case Some(length) => Some([0x81] + length + key + Masked(payload, key))
  }

  /** 0x80 | n for any length. */
  function WithMaskBit(n: nat): nat {
    if n % 256 < 128 then n + 128 else n
  }

  /** A close frame; None where packing the code or appending the length byte fails. */
  function CloseFrame(code: nat, reason: seq<Byte>, key: MaskKey): Option<seq<Byte>> {
    if code >= 65536 then None
    else
      var payload := BigEndian(code, 2) + reason;
      if WithMaskBit(|payload|) >= 256 then None
      else Some([0x88, WithMaskBit(|payload|)] + key + Masked(payload, key))
  }

  // ---- Decoding -------------------------------------------------------------------------------

  datatype Frame = Frame(opcode: nat, payload: seq<Byte>, consumed: nat)

  /** The part of ws_decode_frame after the payload length is known. */
  function DecodeBody(data: seq<Byte>, opcode: nat, masked: bool, length: nat, offset: nat): Option<Frame> {
    var start := if masked then offset + 4 else offset;
    if |data| < start + length then None
    else
      var payload := data[start..start + length];
      Some(Frame(opcode, if masked then Masked(payload, data[offset..start]) else payload, start + length))
  }

  function DecodeFrame(data: seq<Byte>): (r: Option<Frame>)
    ensures r.Some? ==> 2 <= r.value.consumed <= |data|
  {
    if |data| < 2 then None
    else
      var opcode, masked, length := data[0] % 16, data[1] / 128 == 1, data[1] % 128;
      if length == 126 then
        if |data| < 4 then None else DecodeBody(data, opcode, masked, FromBigEndian(data[2..4]), 4)
      else if length == 127 then
        if |data| < 10 then None else DecodeBody(data, opcode, masked, FromBigEndian(data[2..10]), 10)
      else DecodeBody(data, opcode, masked, length, 2)
  }

  /** Trailing bytes never change a result. */
  lemma TrailingBytes(data: seq<Byte>, more: seq<Byte>)
    requires DecodeFrame(data).Some?
    ensures DecodeFrame(data + more) == DecodeFrame(data)
  {
    var all, n := data + more, DecodeFrame(data).value.consumed;
    assert |data| >= 4 ==> all[2..4] == data[2..4];
    assert |data| >= 10 ==> all[2..10] == data[2..10];
    assert forall i, j :: 0 <= i <= j <= |data| ==> all[i..j] == data[i..j];
  }

  /** A proper prefix of a frame is no frame yet. */
  lemma ProperPrefix(data: seq<Byte>, k: nat)
    requires DecodeFrame(data).Some? && k < DecodeFrame(data).value.consumed
    ensures DecodeFrame(data[..k]) == None
  {
    assert data[..k] + data[k..] == data;
    if DecodeFrame(data[..k]).Some? {
      TrailingBytes(data[..k], data[k..]);
    }
  }

  // ---- Round trips ----------------------------------------------------------------------------

  lemma MaskedBody(header: seq<Byte>, key: MaskKey, payload: seq<Byte>, rest: seq<Byte>, opcode: nat)
    ensures DecodeBody(header + key + Masked(payload, key) + rest, opcode, true, |payload|, |header|)
         == Some(Frame(opcode, payload, |header| + 4 + |payload|))
  {
    var data, start := header + key + Masked(payload, key) + rest, |header| + 4;
    assert data[|header|..start] == key;
    assert data[start..start + |payload|] == Masked(payload, key);
    MaskedTwice(payload, key);
  }

  lemma LengthFits(n: nat, count: nat)
    requires (count == 2 && n < 65536) || (count == 8 && n < 0x1_0000_0000_0000_0000)
    ensures FromBigEndian(BigEndian(n, count)) == n
  {
    assert Pow256(2) == 65536;
    assert Pow256(4) == 65536 * Pow256(2);
    assert Pow256(6) == 65536 * Pow256(4);
    assert Pow256(8) == 65536 * Pow256(6);
    BigEndianRoundTrip(n, count);
  }

  /** Every text frame decodes to its payload, whatever follows it. */
  lemma TextRoundTrip(payload: seq<Byte>, key: MaskKey, rest: seq<Byte>)
    requires TextFrame(payload, key).Some?
    ensures var frame := TextFrame(payload, key).value;
            DecodeFrame(frame + rest) == Some(Frame(1, payload, |frame|))
  {
    hide DecodeBody, Masked, FromBigEndian, BigEndian;
    var header := [0x81] + TextLength(|payload|).value;
    var frame := TextFrame(payload, key).value;
    MaskedBody(header, key, payload, rest, 1);
    assert frame + rest == header + key + Masked(payload, key) + rest;
    if |payload| >= 65536 {
      LengthFits(|payload|, 8);
      assert (frame + rest)[2..10] == BigEndian(|payload|, 8);
    } else if |payload| >= 126 {
      LengthFits(|payload|, 2);
      assert (frame + rest)[2..4] == BigEndian(|payload|, 2);
    }
  }

  /** A close frame decodes to its payload exactly when the payload has at most 125 bytes; a longer
      one is sent with a length byte that means something else. */
  lemma CloseRoundTrip(code: nat, reason: seq<Byte>, key: MaskKey, rest: seq<Byte>)
    requires CloseFrame(code, reason, key).Some?
    ensures var frame, payload := CloseFrame(code, reason, key).value, BigEndian(code, 2) + reason;
            DecodeFrame(frame + rest) == Some(Frame(8, payload, |frame|)) <==> |payload| <= 125
  {
    hide Masked, FromBigEndian, BigEndian;
    var payload, frame := BigEndian(code, 2) + reason, CloseFrame(code, reason, key).value;
    if |payload| <= 125 {
      var header := [0x88, 0x80 + |payload|];
      MaskedBody(header, key, payload, rest, 8);
      assert frame + rest == header + key + Masked(payload, key) + rest;
    }
  }

  /** When encoding a close frame fails. */
  lemma CloseFrameFails(code: nat, reason: seq<Byte>, key: MaskKey)
    ensures CloseFrame(code, reason, key).None? <==> code >= 65536 || |reason| >= 254
  {
  }

  // ---- Collecting messages --------------------------------------------------------------------

  datatype Message = Message(opcode: nat, payload: seq<Byte>)

  datatype Drained = Drained(messages: seq<Message>, rest: seq<Byte>)

  /** All complete frames at the front of a buffer, and what is left of it. */
  function Drain(data: seq<Byte>): Drained
    decreases |data|
  {
    match DecodeFrame(data)
    case None => Drained([], data)
    case Some(f) =>
      var tail := Drain(data[f.consumed..]);
      Drained([Message(f.opcode, f.payload)] + tail.messages, tail.rest)
  }

  /** Draining early and appending later gives the same messages. */
  lemma {:induction false} DrainSplit(a: seq<Byte>, b: seq<Byte>)
    ensures var first := Drain(a);
            var second := Drain(first.rest + b);
            Drain(a + b) == Drained(first.messages + second.messages, second.rest)
    decreases |a|
  {
    hide *;
    DrainStep(a);
    if DecodeFrame(a).Some? {
      var Frame(opcode, payload, n) := DecodeFrame(a).value;
      DecodeConsumes(a);
      TrailingBytes(a, b);
      DrainStep(a + b);
      assert (a + b)[n..] == a[n..] + b;
      DrainSplit(a[n..], b);
      MessagesJoin(Message(opcode, payload), Drain(a[n..]).messages, Drain(Drain(a[n..]).rest + b).messages);
    } else {
      assert Drain(a).messages + Drain(a + b).messages == Drain(a + b).messages;
    }
  }

  lemma DrainStep(data: seq<Byte>)
    ensures match DecodeFrame(data)
            case None => Drain(data) == Drained([], data)
            case Some(f) =>
              && f.consumed <= |data|
              && Drain(data) == Drained([Message(f.opcode, f.payload)] + Drain(data[f.consumed..]).messages,
                                        Drain(data[f.consumed..]).rest)
  {
    hide DecodeFrame;
    if DecodeFrame(data).Some? { DecodeConsumes(data); }
  }

  lemma MessagesJoin(m: Message, a: seq<Message>, b: seq<Message>)
    ensures [m] + (a + b) == [m] + a + b
  {
  }

  lemma DecodeConsumes(data: seq<Byte>)
    requires DecodeFrame(data).Some?
    ensures 2 <= DecodeFrame(data).value.consumed <= |data|
  {
  }

  function Concat(parts: seq<seq<Byte>>): seq<Byte> {
    if parts == [] then [] else Concat(parts[..|parts| - 1]) + parts[|parts| - 1]
  }

  /** A buffer fed with arrivals and drained after each of them. */
  function Receive(arrivals: seq<seq<Byte>>): Drained {
    if arrivals == [] then Drained([], [])
    else
      var before := Receive(arrivals[..|arrivals| - 1]);
      var now := Drain(before.rest + arrivals[|arrivals| - 1]);
      Drained(before.messages + now.messages, now.rest)
  }

  /** How the stream is cut into arrivals makes no difference. */
  lemma {:induction false} ReceiveIsDrain(arrivals: seq<seq<Byte>>)
    ensures Receive(arrivals) == Drain(Concat(arrivals))
    decreases |arrivals|
  {
    if arrivals != [] {
      var n := |arrivals| - 1;
      ReceiveIsDrain(arrivals[..n]);
      DrainSplit(Concat(arrivals[..n]), arrivals[n]);
    }
  }

  /** Bytes that are exactly one frame with this message. */
  ghost predicate IsFrame(bytes: seq<Byte>, m: Message) {
    DecodeFrame(bytes) == Some(Frame(m.opcode, m.payload, |bytes|))
  }

  lemma {:induction false} DrainFrames(frames: seq<seq<Byte>>, messages: seq<Message>, partial: seq<Byte>)
    requires |frames| == |messages| && forall i :: 0 <= i < |frames| ==> IsFrame(frames[i], messages[i])
    requires DecodeFrame(partial).None?
    ensures Drain(Concat(frames) + partial) == Drained(messages, partial)
    decreases |frames|
  {
    hide DecodeFrame;
    if frames == [] {
      assert Concat(frames) + partial == partial;
    } else {
      var n := |frames| - 1;
      var front, last := Concat(frames[..n]), frames[n];
      DrainEmpty();
      DrainFrames(frames[..n], messages[..n], []);
      assert front + [] == front;
      TrailingBytes(last, partial);
      assert IsFrame(frames[n], messages[n]);
      assert (last + partial)[|last|..] == partial;
      assert Concat(frames) + partial == front + (last + partial);
      assert [] + (last + partial) == last + partial;
      DrainSplit(front, last + partial);
      assert messages == messages[..n] + [messages[n]];
    }
  }

  lemma DrainEmpty()
    ensures DecodeFrame([]).None?
  {
  }

  /** Reassembly: frames cut into arrivals anywhere, the last one possibly incomplete, give exactly
      their messages in order, and the incomplete one stays in the buffer. */
  lemma Reassembly(frames: seq<seq<Byte>>, messages: seq<Message>, partial: seq<Byte>, arrivals: seq<seq<Byte>>)
    requires |frames| == |messages| && forall i :: 0 <= i < |frames| ==> IsFrame(frames[i], messages[i])
    requires DecodeFrame(partial).None? && Concat(arrivals) == Concat(frames) + partial
    ensures Receive(arrivals) == Drained(messages, partial)
  {
    ReceiveIsDrain(arrivals);
    DrainFrames(frames, messages, partial);
  }

  /** What the encoders make is a frame in this sense. */
  lemma EncodedAreFrames(payload: seq<Byte>, code: nat, reason: seq<Byte>, key: MaskKey)
    ensures TextFrame(payload, key).Some? ==> IsFrame(TextFrame(payload, key).value, Message(1, payload))
    ensures CloseFrame(code, reason, key).Some? ==>
              (IsFrame(CloseFrame(code, reason, key).value, Message(8, BigEndian(code, 2) + reason)) <==> |reason| <= 123)
  {
    hide DecodeFrame, TextFrame, CloseFrame;
    if TextFrame(payload, key).Some? {
      TextRoundTrip(payload, key, []);
      assert TextFrame(payload, key).value + [] == TextFrame(payload, key).value;
    }
    if CloseFrame(code, reason, key).Some? {
      CloseRoundTrip(code, reason, key, []);
      assert CloseFrame(code, reason, key).value + [] == CloseFrame(code, reason, key).value;
    }
  }

  // ---- The loops ------------------------------------------------------------------------------

  /** ws_encode_text; the payload is the UTF-8 text and the key is random. */
  method EncodeText(payload: seq<Byte>, maskKey: MaskKey) returns (r: Option<seq<Byte>>)
    ensures r == TextFrame(payload, maskKey)
  {
    var frame: seq<Byte> := [0x81];
    var plen := |payload|;
    if plen < 126 {
      frame := frame + [0x80 + plen];
    } else if plen < 65536 {
      frame := frame + [0x80 + 126] + BigEndian(plen, 2);
    } else if plen < 0x1_0000_0000_0000_0000 {
      frame := frame + [0x80 + 127] + BigEndian(plen, 8);
    } else {
      return None;
    }
    assert frame == [0x81] + TextLength(plen).value;
    frame := frame + maskKey;
    frame := AppendMasked(frame, payload, maskKey);
    r := Some(frame);
  }

  /** ws_encode_close. */
  method EncodeClose(code: nat, reason: seq<Byte>, maskKey: MaskKey) returns (r: Option<seq<Byte>>)
    ensures r == CloseFrame(code, reason, maskKey)
  {
    if code >= 65536 {
      return None;
    }
    var payload := BigEndian(code, 2) + reason;
    var length := WithMaskBit(|payload|);
    if length >= 256 {
      return None;
    }
    var frame: seq<Byte> := [0x88];
    frame := frame + [length];
    frame := frame + maskKey;
    frame := AppendMasked(frame, payload, maskKey);
    assert frame == [0x88, length] + maskKey + Masked(payload, maskKey);
    r := Some(frame);
  }

  /** The masking loop of both encoders. */
  method AppendMasked(start: seq<Byte>, payload: seq<Byte>, maskKey: MaskKey) returns (frame: seq<Byte>)
    ensures frame == start + Masked(payload, maskKey)
  {
    frame := start;
    for i := 0 to |payload|
      invariant frame == start + Masked(payload, maskKey)[..i]
    {
      frame := frame + [XorByte(payload[i], maskKey[i % 4])];
    }
  }

  /** A tunnel's receive buffer, with the loops of receive_ws_messages and collect_ws_messages. */
  class Tunnel {
    var tunnelData: seq<Byte>
    ghost var arrivals: seq<seq<Byte>>
    ghost var collected: seq<Message>

    ghost predicate Valid()
      reads this
    {
      Receive(arrivals) == Drained(collected, tunnelData)
    }

    constructor ()
      ensures Valid() && arrivals == [] && collected == []
    {
      tunnelData, arrivals, collected := [], [], [];
    }

    method CollectMessages() returns (messages: seq<Message>)
      modifies `tunnelData
      ensures Drained(messages, tunnelData) == Drain(old(tunnelData))
    {
      messages := [];
      while true
        invariant var d := Drain(tunnelData); Drain(old(tunnelData)) == Drained(messages + d.messages, d.rest)
        decreases |tunnelData|
      {
        var result := DecodeFrame(tunnelData);
        if result.None? {
          break;
        }
        var Frame(opcode, payload, consumed) := result.value;
        tunnelData := tunnelData[consumed..];
        messages := messages + [Message(opcode, payload)];
      }
    }

    /** One arrival: extend the buffer, then take out the complete frames. */
    method OnData(data: seq<Byte>) returns (messages: seq<Message>)
      requires Valid()
      modifies this
      ensures Valid() && arrivals == old(arrivals) + [data] && collected == old(collected) + messages
    {
      tunnelData := tunnelData + data;
      messages := CollectMessages();
      arrivals := arrivals + [data];
      collected := collected + messages;
      assert arrivals[..|arrivals| - 1] == old(arrivals);
    }
  }
}
