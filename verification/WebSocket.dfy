/** The hand-written WebSocket codecs: the unmasking decoders of three servers, their encoder, and the
    encoder and incremental decoder of the test client, measured against RFC 6455. Payloads are bytes. */
module WebSocket {
  import opened Bytes
  import opened Options
  import opened Rfc6455

  /** What a decoder returns: no message, an exception from a Buffer read, or the payload. */
  datatype Decoded = Null | Threw | Message(payload: seq<byte>)

  /** Buffer.slice clamps its bounds to the buffer. */
  function Slice(b: seq<byte>, from: nat, to: nat): (s: seq<byte>)
    requires from <= to
    ensures |s| <= to - from
  {
    var hi := if to < |b| then to else |b|;
    if from < hi then b[from..hi] else []
  }

  /** The second byte; a missing one reads as undefined, whose bits are all zero. */
  function SecondByte(b: seq<byte>): nat { if |b| > 1 then b[1] as int else 0 }

  /** `decodeFrame` of the signaling server and of the proxy backend. */
  function RelayDecode(b: seq<byte>): Decoded {
    var code := SecondByte(b) % 128;
    if code == 126 && |b| < 4 then Threw
    else if code == 127 then Null
    else
      var n, offset := if code == 126 then UInt16(b[2..4]) else code, if code == 126 then 4 else 2;
      var key, payload := Slice(b, offset, offset + 4), Slice(b, offset + 4, offset + 4 + n);
      Message(Masked(payload, key))
  }

  /** `decodeFrame` of the echo server, which also insists on the mask bit. */
  function EchoDecode(b: seq<byte>): Decoded {
    var isMasked, code := SecondByte(b) >= 128, SecondByte(b) % 128;
    if code == 126 && |b| < 4 then Threw
    else if code == 127 || !isMasked then Null
    else
      var n := if code == 126 then UInt16(b[2..4]) else code;
      var keyAt := if code == 126 then 4 else 2;
      Message(Masked(Slice(b, keyAt + 4, keyAt + 4 + n), Slice(b, keyAt, keyAt + 4)))
  }

  /** On any buffer at all the echo server answers as the other two servers do, except that it returns
      null when the mask bit is not set. */
  lemma DecodersCompared(b: seq<byte>)
    ensures EchoDecode(b)
            == if SecondByte(b) >= 128 || RelayDecode(b).Threw? then RelayDecode(b) else Null
  {
  }

  /** Every complete masked frame with a 7-bit or 16-bit length is read as section 5.2 says, by all three
      servers, whatever its opcode and whatever follows it. */
  lemma {:induction false} DecodeIsRfc(b: seq<byte>, p: Parsed)
    requires Parse(b) == Some(p) && p.frame.mask.Some? && p.code != 127
    ensures RelayDecode(b) == Message(p.frame.payload)
    ensures EchoDecode(b) == Message(p.frame.payload)
  {
    var code := b[1] as int % 128;
    var keyAt := 2 + ExtendedSize(code);
    var n := AnnouncedLength(b);
    assert Slice(b, keyAt, keyAt + 4) == b[keyAt..keyAt + 4];
    assert Slice(b, keyAt + 4, keyAt + 4 + n) == b[keyAt + 4..keyAt + 4 + n];
  }

  /** The frame a client sends for a text message. */
  ghost function MaskedText(payload: seq<byte>, mask: seq<byte>): Frame {
    Frame(true, 0, TEXT, Some(mask), payload)
  }

  /** Masked round trip, up to 65535 bytes. */
  lemma {:induction false} MaskedRoundTrip(payload: seq<byte>, mask: seq<byte>, rest: seq<byte>)
    requires |payload| < 0x1_0000 && |mask| == 4
    ensures var b := Serialize(MaskedText(payload, mask)) + rest;
            RelayDecode(b) == Message(payload) && EchoDecode(b) == Message(payload)
  {
    var f := MaskedText(payload, mask);
    ParseSerialize(f, rest);
    DecodeIsRfc(Serialize(f) + rest, Parsed(f, LengthCode(|payload|), |Serialize(f)|));
  }

  /** The frames of section 5.7: the masked one is read as "Hello" by all three servers, whatever follows it, and is
      what the test client makes; the unmasked one is what the servers make, and the test client reads it. */
  lemma {:induction false} HelloExchanged(data: seq<byte>, key: seq<byte>, rest: seq<byte>)
    requires data == HELLO && key == HELLO_KEY
    ensures RelayDecode([0x81, 0x85] + key + HELLO_MASKED + rest) == Message(data)
    ensures EchoDecode([0x81, 0x85] + key + HELLO_MASKED + rest) == Message(data)
    ensures ClientFrame(data, key) == [0x81, 0x85] + key + HELLO_MASKED
    ensures Serialize(PlainText(data)) == [0x81, 0x05] + data
    ensures DecodeServerFrame([0x81, 0x05] + data + rest) == Message(data)
  {
    HelloFrames(data, key);
    MaskedHello(data, key);
    MaskedRoundTrip(data, key, rest);
    ServerFrameIncremental(data, Serialize(PlainText(data)) + rest);
  }

  /** What the decoders do with any buffer at all: nothing for the 64-bit length form (and, in the echo server,
      without the mask bit), an exception where the 16-bit length is not there to be read, and else a message. */
  lemma DecodeOutcomes(b: seq<byte>)
    ensures var code := if |b| >= 2 then b[1] as int % 128 else 0;
            var masked := |b| >= 2 && b[1] as int >= 128;
            && (RelayDecode(b).Threw? <==> code == 126 && |b| < 4)
            && (EchoDecode(b).Threw? <==> code == 126 && |b| < 4)
            && (RelayDecode(b).Null? <==> code == 127)
            && (EchoDecode(b).Null? <==> code == 127 || (!masked && !(code == 126 && |b| < 4)))
  {
  }

  lemma MaskedPart(payload: seq<byte>, mask: seq<byte>, n: nat)
    requires |mask| == 4 && n <= |payload|
    ensures Masked(Masked(payload, mask)[..n], mask) == payload[..n]
  {
    var back := Masked(Masked(payload, mask)[..n], mask);
    forall i | 0 <= i < n ensures back[i] == payload[i] {
      XorTwice(payload[i], mask[i % 4]);
    }
  }

  /** A masked frame that is cut on its way is taken for a shorter message: what is there of it. */
  lemma {:induction false} TruncatedFrame(payload: seq<byte>, mask: seq<byte>, n: nat)
    requires |payload| < 0x1_0000 && |mask| == 4 && n <= |payload|
    ensures var whole := Serialize(MaskedText(payload, mask));
            var part := whole[..|whole| - |payload| + n];
            RelayDecode(part) == Message(payload[..n]) && EchoDecode(part) == Message(payload[..n])
  {
    var f := MaskedText(payload, mask);
    var head, ext, masked := Head(f), ExtendedLength(|payload|), Masked(payload, mask);
    var part := head + ext + mask + masked[..n];
    assert Serialize(f) == head + ext + mask + masked;
    assert Serialize(f)[..|Serialize(f)| - |payload| + n] == part;
    HeadFields(f);
    CutFrame(head, ext, mask, masked, n);
    MaskedPart(payload, mask, n);
  }

  lemma CutFrame(head: seq<byte>, ext: seq<byte>, mask: seq<byte>, masked: seq<byte>, n: nat)
    requires |head| == 2 && |mask| == 4 && n <= |masked|
    ensures var part, at := head + ext + mask + masked[..n], 2 + |ext|;
            && |part| == at + 4 + n && part[1] == head[1] && part[2..at] == ext
            && Slice(part, at, at + 4) == mask && Slice(part, at + 4, at + 4 + |masked|) == masked[..n]
  {
    var part, at := head + ext + mask + masked[..n], 2 + |ext|;
    assert part[at..at + 4] == mask && part[at + 4..] == masked[..n];
  }

  /** The decoding loop: unmask each byte into a new buffer. */
  method Unmask(payload: seq<byte>, key: seq<byte>) returns (decoded: seq<byte>)
    requires payload != [] ==> |key| == 4
    ensures decoded == Masked(payload, key)
  {
    var buffer := new byte[|payload|](_ => 0);
    for i := 0 to |payload|
      invariant forall j :: 0 <= j < i ==> buffer[j] == Masked(payload, key)[j]
    {
      buffer[i] := Xor(payload[i], key[i % 4]);
    }
    decoded := buffer[..];
  }

  method RelayDecodeFrame(buffer: seq<byte>) returns (r: Decoded)
    ensures r == RelayDecode(buffer)
  {
    var payloadLength := SecondByte(buffer) % 128;
    var offset := 2;
    if payloadLength == 126 {
      if |buffer| < offset + 2 { return Threw; }
      payloadLength := UInt16(buffer[offset..offset + 2]);
      offset := offset + 2;
    } else if payloadLength == 127 {
      return Null;
    }
    var maskKey := Slice(buffer, offset, offset + 4);
    offset := offset + 4;
    var payload := Slice(buffer, offset, offset + payloadLength);
    var decoded := Unmask(payload, maskKey);
    return Message(decoded);
  }

  method EchoDecodeFrame(buffer: seq<byte>) returns (r: Decoded)
    ensures r == EchoDecode(buffer)
  {
    var isMasked := SecondByte(buffer) >= 128;
    var payloadLength := SecondByte(buffer) % 128;
    var offset := 2;
    if payloadLength == 126 {
      if |buffer| < offset + 2 { return Threw; }
      payloadLength := UInt16(buffer[offset..offset + 2]);
      offset := offset + 2;
    } else if payloadLength == 127 {
      return Null;
    }
    if !isMasked { return Null; }
    var maskKey := Slice(buffer, offset, offset + 4);
    offset := offset + 4;
    var payload := Slice(buffer, offset, offset + payloadLength);
    var decoded := Unmask(payload, maskKey);
    return Message(decoded);
  }

  /** The frame a server sends for a text message. */
  ghost function PlainText(payload: seq<byte>): Frame {
    Frame(true, 0, TEXT, None, payload)
  }

  /** `encodeFrame` of the three servers: the minimal RFC 6455 frame for every payload that a 16-bit length
      can describe, and an exception from writeUInt16BE for every other. */
  method EncodeFrame(payload: seq<byte>) returns (frame: Option<seq<byte>>)
    ensures frame.Some? <==> |payload| < 0x1_0000
    ensures frame.Some? ==> frame.value == Serialize(PlainText(payload))
  {
    var header: array<byte>;
    if |payload| < 126 {
      header := new byte[] [0x81, |payload| as byte];
      assert header[..] == [0x81, |payload| as byte];
    } else {
      header := new byte[4](_ => 0);
      header[0] := 0x81;
      header[1] := 126;
      if |payload| >= 0x1_0000 { return None; }
      var field := UInt16Bytes(|payload|);
      header[2], header[3] := field[0], field[1];
      assert header[..] == [0x81, 126] + UInt16Bytes(|payload|);
    }
    return Some(header[..] + payload);
  }

  /** `encodeFrame` of the test client: one length byte, `0x80 | length` cut to eight bits. */
  function ClientFrame(payload: seq<byte>, mask: seq<byte>): seq<byte>
    requires |mask| == 4
  {
    [0x81, (128 + |payload| % 128) as byte] + mask + Masked(payload, mask)
  }

  method ClientEncodeFrame(payload: seq<byte>, mask: seq<byte>) returns (frame: seq<byte>)
    requires |mask| == 4
    ensures frame == ClientFrame(payload, mask)
  {
    var masked := new byte[|payload|](_ => 0);
    for i := 0 to |payload|
      invariant forall j :: 0 <= j < i ==> masked[j] == Masked(payload, mask)[j]
    {
      masked[i] := Xor(payload[i], mask[i % 4]);
    }
    assert masked[..] == Masked(payload, mask);
    frame := [0x81, (128 + |payload| % 128) as byte] + mask + masked[..];
  }

  /** The test client's frame is the RFC 6455 frame, and reaches the servers intact, exactly for payloads of
      at most 125 bytes. */
  lemma {:induction false} ClientFrameExact(payload: seq<byte>, mask: seq<byte>)
    requires |mask| == 4
    ensures |payload| <= 125 ==> ClientFrame(payload, mask) == Serialize(MaskedText(payload, mask))
    ensures RelayDecode(ClientFrame(payload, mask)) == Message(payload) <==> |payload| <= 125
    ensures EchoDecode(ClientFrame(payload, mask)) == Message(payload) <==> |payload| <= 125
  {
    if |payload| <= 125 {
      assert ClientFrame(payload, mask) == Serialize(MaskedText(payload, mask));
      MaskedRoundTrip(payload, mask, []);
      assert Serialize(MaskedText(payload, mask)) + [] == Serialize(MaskedText(payload, mask));
    } else {
      ClientFrameCut(payload, mask);
    }
  }

  /** A longer payload cannot come back: at least one byte of it is out of the decoder's reach. */
  lemma ClientFrameCut(payload: seq<byte>, mask: seq<byte>)
    requires |mask| == 4 && |payload| > 125
    ensures var r := RelayDecode(ClientFrame(payload, mask)); r.Message? ==> |r.payload| < |payload|
  {
    var b := ClientFrame(payload, mask);
    assert b[1] as int % 128 == |payload| % 128;
    assert |b| == 6 + |payload|;
  }

  /** `decodeServerFrame` of the test client. */
  function DecodeServerFrame(b: seq<byte>): Decoded {
    if |b| < 2 then Null
    else
      var n := b[1] as int % 128;
      var payload := Slice(b, 2, 2 + n);
      if |payload| < n then Null else Message(payload)
  }

  /** With a payload of at most 125 bytes the client waits on every strict prefix of the server's frame and
      then reads the payload, whatever bytes follow. */
  lemma {:induction false} ServerFrameIncremental(payload: seq<byte>, received: seq<byte>)
    requires |payload| <= 125
    ensures var frame := Serialize(PlainText(payload));
            && (received < frame ==> DecodeServerFrame(received) == Null)
            && (frame <= received ==> DecodeServerFrame(received) == Message(payload))
  {
    var frame := Serialize(PlainText(payload));
    assert |frame| == 2 + |payload| && frame[1] as int % 128 == |payload|;
    if frame <= received {
      assert received[2..2 + |payload|] == frame[2..] == payload;
    }
  }

  /** The one long payload that the client reads correctly by accident. */
  predicate SelfSimilar(payload: seq<byte>) {
    |payload| == 126 && forall i :: 0 <= i < 126 ==> payload[i] == if i % 2 == 0 then 0 else 126
  }

  /** The client ignores extended lengths, so of the frames that the servers can send it reads exactly those
      of at most 125 bytes, and the one of 126 bytes that equals its own length field followed by itself. */
  lemma {:induction false} ServerFrameExact(payload: seq<byte>)
    requires |payload| < 0x1_0000
    ensures DecodeServerFrame(Serialize(PlainText(payload))) == Message(payload)
            <==> |payload| <= 125 || SelfSimilar(payload)
  {
    if |payload| <= 125 {
      ServerFrameIncremental(payload, Serialize(PlainText(payload)));
    } else {
      var frame := Serialize(PlainText(payload));
      assert frame == [0x81, 126] + UInt16Bytes(|payload|) + payload;
      var seen := UInt16Bytes(|payload|) + payload[..124];
      assert Slice(frame, 2, 128) == seen;
      assert DecodeServerFrame(frame) == Message(seen);
      if seen == payload {
        SeenIsSelfSimilar(payload);
      }
    }
  }

  lemma SeenIsSelfSimilar(payload: seq<byte>)
    requires 126 <= |payload| < 0x1_0000 && UInt16Bytes(|payload|) + payload[..124] == payload
    ensures SelfSimilar(payload)
  {
    assert |payload| == 126;
    assert UInt16Bytes(126) == [0, 126];
    Alternates(payload, 126);
  }

  lemma {:induction false} Alternates(payload: seq<byte>, m: nat)
    requires |payload| == 126 && m <= 126
    requires [0, 126] + payload[..124] == payload
    ensures forall i :: 0 <= i < m ==> payload[i] == if i % 2 == 0 then 0 else 126
  {
    if m == 0 {
    } else {
      Alternates(payload, m - 1);
      var i := m - 1;
      assert payload[i] == ([0, 126] + payload[..124])[i];
    }
  }

  /** The backend's answer to what it reads as one frame: the message behind its label and count. */
  ghost function BackendAnswer(b: seq<byte>, prefix: seq<byte>): Option<seq<byte>> {
    match RelayDecode(b)
    case Message(payload) =>
      if |prefix + payload| < 0x1_0000 then Some(Serialize(PlainText(prefix + payload))) else None
    case _ => None
  }

  /** The proxy demo end to end: a message of at most 125 bytes reaches the backend, and the client, however
      the answer is cut on its way, reads label and message together just when they fit in 125 bytes too
      (or are the one accident above). */
  lemma {:induction false} EchoRoundTrip(payload: seq<byte>, mask: seq<byte>, prefix: seq<byte>, arrived: seq<byte>)
    requires |payload| <= 125 && |mask| == 4 && |prefix| < 0xFF00
    ensures var answer := BackendAnswer(ClientFrame(payload, mask), prefix);
            && answer.Some?
            && (DecodeServerFrame(answer.value) == Message(prefix + payload)
                <==> |prefix + payload| <= 125 || SelfSimilar(prefix + payload))
            && (|prefix + payload| <= 125 ==>
                  && (arrived < answer.value ==> DecodeServerFrame(arrived) == Null)
                  && (answer.value <= arrived ==> DecodeServerFrame(arrived) == Message(prefix + payload)))
  {
    ClientFrameExact(payload, mask);
    ServerFrameExact(prefix + payload);
    if |prefix + payload| <= 125 {
      ServerFrameIncremental(prefix + payload, arrived);
    }
  }
}
