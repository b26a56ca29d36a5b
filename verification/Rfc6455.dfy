/** The base framing of RFC 6455, sections 5.2 and 5.3, as the reference the hand-written codecs are
    measured against. */
module Rfc6455 {
  import opened Bytes
  import opened Options

  const TEXT: nat := 1

  /** A frame; `mask` is the masking key, and `payload` the application data without masking. */
  datatype Frame = Frame(fin: bool, rsv: nat, opcode: nat, mask: Option<seq<byte>>, payload: seq<byte>)

  ghost predicate WellFormed(f: Frame) {
    f.rsv < 8 && f.opcode < 16 && (f.mask.Some? ==> |f.mask.value| == 4) && |f.payload| < 0x8000_0000_0000_0000
  }

  /** Section 5.3: byte i is combined with byte i mod 4 of the key. */
  function Masked(data: seq<byte>, key: seq<byte>): (r: seq<byte>)
    requires data != [] ==> |key| == 4
    ensures |r| == |data|
  {
    seq(|data|, i requires 0 <= i < |data| => Xor(data[i], key[i % 4]))
  }

  /** The minimal length code, and the extended length that goes with it. */
  function LengthCode(n: nat): nat { if n < 126 then n else if n < 0x1_0000 then 126 else 127 }

  function ExtendedLength(n: nat): seq<byte>
    requires n < 0x8000_0000_0000_0000
  {
    if n < 126 then []
    else if n < 0x1_0000 then UInt16Bytes(n)
    else UInt32Bytes(n / 0x1_0000_0000) + UInt32Bytes(n % 0x1_0000_0000)
  }

  /** The two bytes that every header has. */
  ghost function Head(f: Frame): (b: seq<byte>)
    requires WellFormed(f)
    ensures |b| == 2
  {
    [((if f.fin then 128 else 0) + f.rsv * 16 + f.opcode) as byte,
     ((if f.mask.Some? then 128 else 0) + LengthCode(|f.payload|)) as byte]
  }

  /** The application data as it travels, behind its masking key. */
  function Body(f: Frame): seq<byte>
    requires f.mask.Some? ==> |f.mask.value| == 4
  {
    if f.mask.Some? then f.mask.value + Masked(f.payload, f.mask.value) else f.payload
  }

  ghost function Serialize(f: Frame): seq<byte>
    requires WellFormed(f)
  {
    Head(f) + ExtendedLength(|f.payload|) + Body(f)
  }

  function ExtendedSize(code: nat): nat { if code < 126 then 0 else if code == 126 then 2 else 8 }

  /** The payload length that a header announces. */
  function AnnouncedLength(b: seq<byte>): nat
    requires |b| >= 2 && |b| >= 2 + ExtendedSize(b[1] as int % 128)
  {
    var code := b[1] as int % 128;
    if code < 126 then code
    else if code == 126 then UInt16(b[2..4])
    else UInt32(b[2..6]) * 0x1_0000_0000 + UInt32(b[6..10])
  }

  /** A frame at the start of the bytes, with its length code and the number of bytes it takes. */
  datatype Parsed = Parsed(frame: Frame, code: nat, size: nat)

  function Parse(b: seq<byte>): Option<Parsed> {
    if |b| < 2 || |b| < 2 + ExtendedSize(b[1] as int % 128) then None
    else
      var code := b[1] as int % 128;
      var n, at := AnnouncedLength(b), 2 + ExtendedSize(code);
      if b[1] < 128 then
        if |b| < at + n then None else Some(Parsed(FrameWith(b[0], None, b[at..at + n]), code, at + n))
      else if |b| < at + 4 + n then None
      else
        var key := b[at..at + 4];
        Some(Parsed(FrameWith(b[0], Some(key), Masked(b[at + 4..at + 4 + n], key)), code, at + 4 + n))
  }

  /** A frame with the fields of the first byte. */
  function FrameWith(first: byte, mask: Option<seq<byte>>, payload: seq<byte>): Frame {
    Frame(first as int >= 128, first as int / 16 % 8, first as int % 16, mask, payload)
  }

  /** In binary digits: digit `k` of byte `i` is that of the data and that of the key's byte, added without carry. */
  lemma {:induction false} MaskedBits(data: seq<byte>, key: seq<byte>, i: nat, k: nat)
    requires |key| == 4 && i < |data|
    ensures Bit(Masked(data, key)[i] as int, k) == (Bit(data[i] as int, k) + Bit(key[i % 4] as int, k)) % 2
  {
    XorBits(data[i], key[i % 4], k);
  }

  lemma MaskedTwice(data: seq<byte>, key: seq<byte>)
    requires |key| == 4
    ensures Masked(Masked(data, key), key) == data
  {
    forall i | 0 <= i < |data| ensures Masked(Masked(data, key), key)[i] == data[i] {
      XorTwice(data[i], key[i % 4]);
    }
  }

  lemma FirstFields(fin: bool, rsv: nat, opcode: nat)
    requires rsv < 8 && opcode < 16
    ensures var x := (if fin then 128 else 0) + rsv * 16 + opcode;
            x < 256 && (x >= 128) == fin && x / 16 % 8 == rsv && x % 16 == opcode
  {
  }

  lemma SecondFields(masked: bool, code: nat)
    requires code < 128
    ensures var x := (if masked then 128 else 0) + code;
            x < 256 && (x >= 128) == masked && x % 128 == code
  {
  }

  lemma {:induction false} HeadFields(f: Frame)
    requires WellFormed(f)
    ensures var b := Head(f);
            && (b[0] as int >= 128) == f.fin && b[0] as int / 16 % 8 == f.rsv && b[0] as int % 16 == f.opcode
            && (b[1] as int >= 128) == f.mask.Some? && b[1] as int % 128 == LengthCode(|f.payload|)
  {
    FirstFields(f.fin, f.rsv, f.opcode);
    SecondFields(f.mask.Some?, LengthCode(|f.payload|));
  }

  /** The parts of a text of four parts. */
  lemma Layout(head: seq<byte>, ext: seq<byte>, body: seq<byte>, rest: seq<byte>)
    requires |head| == 2
    ensures var b := head + ext + body + rest;
            && b[0] == head[0] && b[1] == head[1]
            && b[2..2 + |ext|] == ext && b[2 + |ext|..] == body + rest
  {
  }

  /** The minimal length form announces the length it was made for. */
  lemma {:induction false} Announced(b: seq<byte>, n: nat)
    requires n < 0x8000_0000_0000_0000
    requires |b| >= 2 + |ExtendedLength(n)| && b[1] as int % 128 == LengthCode(n)
    requires b[2..2 + |ExtendedLength(n)|] == ExtendedLength(n)
    ensures |ExtendedLength(n)| == ExtendedSize(LengthCode(n)) && AnnouncedLength(b) == n
  {
    var ext := ExtendedLength(n);
    if LengthCode(n) == 127 {
      assert b[2..6] == b[2..10][..4] && b[6..10] == b[2..10][4..];
      assert ext[..4] == UInt32Bytes(n / 0x1_0000_0000) && ext[4..] == UInt32Bytes(n % 0x1_0000_0000);
    }
  }

  lemma CutBody(b: seq<byte>, at: nat, key: seq<byte>, data: seq<byte>, rest: seq<byte>)
    requires at <= |b| && b[at..] == key + data + rest
    ensures |b| >= at + |key| + |data|
    ensures b[at..at + |key|] == key && b[at + |key|..at + |key| + |data|] == data
  {
    assert b[at..at + |key|] == b[at..][..|key|];
    assert b[at + |key|..at + |key| + |data|] == b[at..][|key|..|key| + |data|];
  }

  /** What the parser makes of the parts of a frame. */
  lemma {:induction false} ParsedMasked(b: seq<byte>, code: nat, key: seq<byte>, data: seq<byte>)
    requires |b| >= 2 && b[1] as int >= 128 && b[1] as int % 128 == code && |key| == 4
    requires var keyAt := 2 + ExtendedSize(code);
             && |b| >= keyAt + 4 + |data| && b[keyAt..keyAt + 4] == key && b[keyAt + 4..keyAt + 4 + |data|] == data
             && AnnouncedLength(b) == |data|
    ensures Parse(b)
            == Some(Parsed(FrameWith(b[0], Some(key), Masked(data, key)), code, 2 + ExtendedSize(code) + 4 + |data|))
  {
  }

  lemma {:induction false} ParsedPlain(b: seq<byte>, code: nat, data: seq<byte>)
    requires |b| >= 2 && b[1] as int < 128 && b[1] as int % 128 == code
    requires var dataAt := 2 + ExtendedSize(code);
             && |b| >= dataAt + |data| && b[dataAt..dataAt + |data|] == data && AnnouncedLength(b) == |data|
    ensures Parse(b) == Some(Parsed(FrameWith(b[0], None, data), code, 2 + ExtendedSize(code) + |data|))
  {
  }

  /** The reference is consistent: parsing what was serialized gives the frame back, in its minimal
      length form, whatever bytes follow. */
  lemma {:induction false} ParseSerialize(f: Frame, rest: seq<byte>)
    requires WellFormed(f)
    ensures Parse(Serialize(f) + rest) == Some(Parsed(f, LengthCode(|f.payload|), |Serialize(f)|))
  {
    var b, code, keyAt := Serialize(f) + rest, LengthCode(|f.payload|), 2 + |ExtendedLength(|f.payload|)|;
    HeadFields(f);
    Layout(Head(f), ExtendedLength(|f.payload|), Body(f), rest);
    Announced(b, |f.payload|);
    if f.mask.Some? {
      var data := Masked(f.payload, f.mask.value);
      MaskedTwice(f.payload, f.mask.value);
      CutBody(b, keyAt, f.mask.value, data, rest);
      ParsedMasked(b, code, f.mask.value, data);
    } else {
      assert [] + f.payload == f.payload;
      CutBody(b, keyAt, [], f.payload, rest);
      ParsedPlain(b, code, f.payload);
    }
  }

  /** The examples of section 5.7: the word "Hello", its masking key, and its masked bytes. */
  const HELLO: seq<byte> := [0x48, 0x65, 0x6c, 0x6c, 0x6f]
  const HELLO_KEY: seq<byte> := [0x37, 0xfa, 0x21, 0x3d]
  const HELLO_MASKED: seq<byte> := [0x7f, 0x9f, 0x4d, 0x51, 0x58]

  lemma HelloBytes()
    ensures HELLO == AsciiBytes("Hello")
  {
  }

  lemma {:induction false} MaskedH(a: byte, k: byte)
    requires a == 0x48 && k == 0x37
    ensures Xor(a, k) == 0x7f
  {
    XorDigit(1, 0, 1);
    XorDigit(2, 1, 3);
    XorDigit(4, 3, 7);
    XorDigit(9, 6, 15);
    XorDigit(18, 13, 31);
    XorDigit(36, 27, 63);
    XorDigit(72, 55, 127);
  }

  lemma {:induction false} MaskedE(a: byte, k: byte)
    requires a == 0x65 && k == 0xfa
    ensures Xor(a, k) == 0x9f
  {
    XorDigit(0, 1, 1);
    XorDigit(1, 3, 2);
    XorDigit(3, 7, 4);
    XorDigit(6, 15, 9);
    XorDigit(12, 31, 19);
    XorDigit(25, 62, 39);
    XorDigit(50, 125, 79);
    XorDigit(101, 250, 159);
  }

  lemma {:induction false} MaskedL(a: byte, k: byte)
    requires a == 0x6c && k == 0x21
    ensures Xor(a, k) == 0x4d
  {
    XorDigit(1, 0, 1);
    XorDigit(3, 1, 2);
    XorDigit(6, 2, 4);
    XorDigit(13, 4, 9);
    XorDigit(27, 8, 19);
    XorDigit(54, 16, 38);
    XorDigit(108, 33, 77);
  }

  lemma {:induction false} MaskedSecondL(a: byte, k: byte)
    requires a == 0x6c && k == 0x3d
    ensures Xor(a, k) == 0x51
  {
    XorDigit(1, 0, 1);
    XorDigit(3, 1, 2);
    XorDigit(6, 3, 5);
    XorDigit(13, 7, 10);
    XorDigit(27, 15, 20);
    XorDigit(54, 30, 40);
    XorDigit(108, 61, 81);
  }

  lemma {:induction false} MaskedO(a: byte, k: byte)
    requires a == 0x6f && k == 0x37
    ensures Xor(a, k) == 0x58
  {
    XorDigit(1, 0, 1);
    XorDigit(3, 1, 2);
    XorDigit(6, 3, 5);
    XorDigit(13, 6, 11);
    XorDigit(27, 13, 22);
    XorDigit(55, 27, 44);
    XorDigit(111, 55, 88);
  }

  lemma {:induction false} MaskedHello(data: seq<byte>, key: seq<byte>)
    requires data == HELLO && key == HELLO_KEY
    ensures Masked(data, key) == HELLO_MASKED
  {
    var masked := Masked(data, key);
    MaskedH(data[0], key[0]);
    MaskedE(data[1], key[1]);
    MaskedL(data[2], key[2]);
    MaskedSecondL(data[3], key[3]);
    MaskedO(data[4], key[0]);
    assert masked[4] == Xor(data[4], key[0]);
  }

  /** A single-frame unmasked text message, and a masked one. */
  lemma {:induction false} HelloFrames(data: seq<byte>, key: seq<byte>)
    requires data == HELLO && key == HELLO_KEY
    ensures Serialize(Frame(true, 0, 1, None, data)) == [0x81, 0x05] + data
    ensures Serialize(Frame(true, 0, 1, Some(key), data)) == [0x81, 0x85] + key + HELLO_MASKED
  {
    MaskedHello(data, key);
  }

  /** A fragmented unmasked text message: "Hel" and "lo". */
  lemma {:induction false} FragmentFrames()
    ensures Serialize(Frame(false, 0, 1, None, HELLO[..3])) == [0x01, 0x03, 0x48, 0x65, 0x6c]
    ensures Serialize(Frame(true, 0, 0, None, HELLO[3..])) == [0x80, 0x02, 0x6c, 0x6f]
  {
  }

  /** 256 bytes and 64 KiB of binary data in a single unmasked frame. */
  lemma {:induction false} LongFrames(data: seq<byte>)
    ensures |data| == 256 ==> Serialize(Frame(true, 0, 2, None, data)) == [0x82, 0x7E, 0x01, 0x00] + data
    ensures |data| == 65536 ==>
              Serialize(Frame(true, 0, 2, None, data)) == [0x82, 0x7F, 0, 0, 0, 0, 0, 1, 0, 0] + data
  {
    if |data| == 65536 {
      assert ExtendedLength(65536) == [0, 0, 0, 0, 0, 1, 0, 0];
    }
  }
}
