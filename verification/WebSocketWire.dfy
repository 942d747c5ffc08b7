/** The frames of section 5.2 of RFC 6455 as they stand on the wire, whoever sends them, and what the
    codec of WebSocket makes of them. */
module WebSocketWire {
  import Bits
  import opened Bytes
  import opened Option
  import opened WebSocket
  import opened Words

  // ---- Wire format ------------------------------------------------------------------------------

  /** The payload length takes 7 bits, or 16 or 64 bits after the values 126 and 127. */
  datatype LengthForm = Short | Medium | Long

  ghost predicate Fits(form: LengthForm, n: nat) {
    match form
    case Short => n < 126
    case Medium => n < 65536
    case Long => n < 0x1_0000_0000_0000_0000
  }

  ghost function Header(first: Byte, masked: bool, form: LengthForm, n: nat): seq<Byte>
    requires Fits(form, n)
  {
    var maskBit := if masked then 128 else 0;
    match form
    case Short => [first, maskBit + n]
    case Medium => [first, maskBit + 126] + BigEndian(n, 2)
    case Long => [first, maskBit + 127] + BigEndian(n, 8)
  }

  /** A frame: header, key if it is masked, and the payload as it is sent. */
  ghost function Wire(first: Byte, key: Option<MaskKey>, form: LengthForm, sent: seq<Byte>): seq<Byte>
    requires Fits(form, |sent|)
  {
    Header(first, key.Some?, form, |sent|) + (if key.Some? then key.value else []) + sent
  }

  /** The payload that was meant. */
  ghost function Plain(key: Option<MaskKey>, sent: seq<Byte>): seq<Byte> {
    if key.Some? then Masked(sent, key.value) else sent
  }

  /** The form with the fewest bytes. */
  ghost function Least(n: nat): LengthForm {
    if n < 126 then Short else if n < 65536 then Medium else Long
  }

  // ---- Masking ------------------------------------------------------------------------------------

  /** Section 5.3: every bit of every byte is inverted where the key's byte has that bit. */
  lemma MaskedBits(payload: seq<Byte>, key: MaskKey, i: nat, k: nat)
    requires i < |payload| && k < 8
    ensures Bits.Bit(Masked(payload, key)[i], k) == (Bits.Bit(payload[i], k) != Bits.Bit(key[i % 4], k))
  {
    hide Combine, Bits.Bit;
    CombineBit(Differ, payload[i], key[i % 4], 8, k);
  }

  // ---- Decoding -----------------------------------------------------------------------------------

  lemma BodyOf(head: seq<Byte>, key: Option<MaskKey>, sent: seq<Byte>, rest: seq<Byte>, opcode: nat)
    ensures var middle := if key.Some? then key.value else [];
            DecodeBody(head + middle + sent + rest, opcode, key.Some?, |sent|, |head|) ==
            Some(Frame(opcode, Plain(key, sent), |head| + |middle| + |sent|))
  {
    hide Masked;
    var middle := if key.Some? then key.value else [];
    var data, start := head + middle + sent + rest, |head| + |middle|;
    assert data[start..start + |sent|] == sent;
    assert data[|head|..start] == middle;
  }

  /** Every frame, masked or not, in any form that fits its length, decodes to its opcode and payload,
      whatever follows it. */
  lemma DecodeWire(first: Byte, key: Option<MaskKey>, form: LengthForm, sent: seq<Byte>, rest: seq<Byte>)
    requires Fits(form, |sent|)
    ensures var frame := Wire(first, key, form, sent);
            DecodeFrame(frame + rest) == Some(Frame(first % 16, Plain(key, sent), |frame|))
  {
    hide DecodeBody, Plain, BigEndian, FromBigEndian;
    var n, middle := |sent|, if key.Some? then key.value else [];
    var head, frame := Header(first, key.Some?, form, n), Wire(first, key, form, sent);
    var data := frame + rest;
    BodyOf(head, key, sent, rest, first % 16);
    assert data == head + middle + sent + rest;
    assert |head| >= 2 && data[0] == first && data[1] == head[1];
    match form
    case Short =>
    case Medium =>
      LengthFits(n, 2);
      assert data[2..4] == BigEndian(n, 2);
    case Long =>
      LengthFits(n, 8);
      assert data[2..10] == BigEndian(n, 8);
  }

  /** The header that the decoder has read. */
  lemma HeaderRead(data: seq<Byte>) returns (form: LengthForm, n: nat, offset: nat)
    requires DecodeFrame(data).Some?
    ensures Fits(form, n) && |data| >= 2 && offset <= |data|
    ensures data[..offset] == Header(data[0], data[1] >= 128, form, n)
    ensures DecodeFrame(data) == DecodeBody(data, data[0] % 16, data[1] >= 128, n, offset)
  {
    hide BigEndian, FromBigEndian, DecodeBody;
    var seven := data[1] % 128;
    assert data[1] >= 128 <==> data[1] / 128 == 1;
    if seven == 126 {
      form, n, offset := Medium, FromBigEndian(data[2..4]), 4;
      BytesBack(data[2..4], 2);
      assert data[..4] == [data[0], data[1]] + data[2..4];
    } else if seven == 127 {
      form, n, offset := Long, FromBigEndian(data[2..10]), 10;
      BytesBack(data[2..10], 8);
      assert data[..10] == [data[0], data[1]] + data[2..10];
    } else {
      form, n, offset := Short, seven, 2;
    }
  }

  /** And nothing else is taken for a frame: what was decoded stands at the front of the data. */
  lemma DecodedIsWire(data: seq<Byte>) returns (key: Option<MaskKey>, form: LengthForm, sent: seq<Byte>)
    requires DecodeFrame(data).Some?
    ensures Fits(form, |sent|)
    ensures var f := DecodeFrame(data).value;
            && data[..f.consumed] == Wire(data[0], key, form, sent)
            && f == Frame(data[0] % 16, Plain(key, sent), |Wire(data[0], key, form, sent)|)
  {
    hide DecodeFrame, Header, Masked;
    var n, offset;
    form, n, offset := HeaderRead(data);
    var start := if data[1] >= 128 then offset + 4 else offset;
    key, sent := None, data[start..start + n];
    if data[1] >= 128 {
      var k: MaskKey := data[offset..start];
      key := Some(k);
    }
    ThreeParts(data, offset, start, start + n);
  }

  lemma ThreeParts(data: seq<Byte>, a: nat, b: nat, c: nat)
    requires a <= b <= c <= |data|
    ensures data[..c] == data[..a] + data[a..b] + data[b..c]
    ensures a == b ==> data[a..b] == []
  {
  }

  /** Bytes are the big-endian form of the number they denote. */
  lemma BytesBack(b: seq<Byte>, count: nat)
    requires |b| == count && (count == 2 || count == 8)
    ensures BigEndian(FromBigEndian(b), count) == b
    ensures FromBigEndian(b) < if count == 2 then 65536 else 0x1_0000_0000_0000_0000
  {
    Pow256Values();
    BigEndianOfBytes(b);
  }

  lemma Pow256Values()
    ensures Pow256(2) == 65536 && Pow256(8) == 0x1_0000_0000_0000_0000
  {
    assert Pow256(4) == 65536 * Pow256(2);
    assert Pow256(6) == 65536 * Pow256(4);
    assert Pow256(8) == 65536 * Pow256(6);
  }

  // ---- A server's frames --------------------------------------------------------------------------

  /** The final, unmasked frame with this opcode and payload. */
  ghost function ServerFrame(m: Message): seq<Byte>
    requires m.opcode < 16 && |m.payload| < 0x1_0000_0000_0000_0000
  {
    Wire(128 + m.opcode, None, Least(|m.payload|), m.payload)
  }

  lemma ServerFrameIs(m: Message)
    requires m.opcode < 16 && |m.payload| < 0x1_0000_0000_0000_0000
    ensures IsFrame(ServerFrame(m), m)
  {
    hide Wire, DecodeFrame;
    DecodeWire(128 + m.opcode, None, Least(|m.payload|), m.payload, []);
    assert ServerFrame(m) + [] == ServerFrame(m);
  }

  /** What a server sends arrives as sent, in order, however the stream is cut. */
  lemma ServerMessages(messages: seq<Message>, frames: seq<seq<Byte>>, partial: seq<Byte>, arrivals: seq<seq<Byte>>)
    requires |frames| == |messages| && DecodeFrame(partial).None?
    requires forall i :: 0 <= i < |messages| ==>
               messages[i].opcode < 16 && |messages[i].payload| < 0x1_0000_0000_0000_0000
               && frames[i] == ServerFrame(messages[i])
    requires Concat(arrivals) == Concat(frames) + partial
    ensures Receive(arrivals) == Drained(messages, partial)
  {
    hide DecodeFrame, ServerFrame;
    forall i | 0 <= i < |messages|
      ensures IsFrame(frames[i], messages[i])
    {
      ServerFrameIs(messages[i]);
    }
    Reassembly(frames, messages, partial, arrivals);
  }

  // ---- The client's frames --------------------------------------------------------------------------

  /** A text frame is final, has opcode 1, the mask bit, the shortest length form, the key and the
      masked payload; there is none only for payloads of 2^64 bytes and more. */
  lemma TextIsWire(payload: seq<Byte>, key: MaskKey)
    ensures if |payload| >= 0x1_0000_0000_0000_0000 then TextFrame(payload, key).None?
            else TextFrame(payload, key) == Some(Wire(128 + 1, Some(key), Least(|payload|), Masked(payload, key)))
  {
    hide Masked, BigEndian;
    var n := |payload|;
    if n < 0x1_0000_0000_0000_0000 {
      assert [0x81] + TextLength(n).value == Header(0x81, true, Least(n), n);
    }
  }

  /** A close frame is final and has opcode 8; its second byte has the mask bit and the payload length
      modulo 128, which is the length only up to 125 bytes. */
  lemma CloseIsWire(code: nat, reason: seq<Byte>, key: MaskKey)
    requires CloseFrame(code, reason, key).Some?
    ensures var frame, payload := CloseFrame(code, reason, key).value, BigEndian(code, 2) + reason;
            && |frame| == 6 + |payload| && frame[0] == 128 + 8 && frame[1] >= 128 && frame[1] % 128 == |payload| % 128
            && frame[2..6] == key && frame[6..] == Masked(payload, key)
            && (|payload| < 126 ==> frame == Wire(128 + 8, Some(key), Short, Masked(payload, key)))
  {
    hide Masked, BigEndian;
  }

  /** The status code is sent high byte first. */
  lemma CloseCode(code: nat)
    requires code < 65536
    ensures BigEndian(code, 2) == [code / 256, code % 256]
  {
    BigEndianLast(code, 2);
    BigEndianLast(code / 256, 1);
  }
}
