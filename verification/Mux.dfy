/** Several channels on one byte stream: the client tags each message with a channel byte and a four-byte
    length, the server takes complete frames out of whatever bytes have arrived. */
module Mux {
  import opened Bytes
  import opened Sequences

  const HEADER: nat := 5
  const MAX_LENGTH: nat := 0x1_0000_0000

  datatype Frame = Frame(channel: byte, payload: seq<byte>)

  predicate Sendable(f: Frame) { |f.payload| < MAX_LENGTH }

  function Encode(f: Frame): seq<byte>
    requires Sendable(f)
  {
    [f.channel] + UInt32Bytes(|f.payload|) + f.payload
  }

  function EncodeAll(fs: seq<Frame>): seq<byte>
    requires forall f :: f in fs ==> Sendable(f)
  {
    if fs == [] then [] else Encode(fs[0]) + EncodeAll(fs[1..])
  }

  /** On the wire: the channel, the length with its most significant byte first, the payload. */
  lemma {:induction false} WireFormat(f: Frame)
    requires Sendable(f)
    ensures var b := Encode(f);
            && |b| == 5 + |f.payload|
            && b[0] == f.channel
            && |f.payload| == b[1] as int * 16777216 + b[2] as int * 65536 + b[3] as int * 256 + b[4] as int
            && b[5..] == f.payload
  {
    BigEndian(UInt32Bytes(|f.payload|));
  }

  /** The length of the first frame, once its header is there. */
  function FrameLength(b: seq<byte>): nat
    requires |b| >= HEADER
  {
    HEADER + UInt32(b[1..5])
  }

  predicate Complete(b: seq<byte>) { |b| >= HEADER && |b| >= FrameLength(b) }

  function Head(b: seq<byte>): (f: Frame)
    requires Complete(b)
    ensures Sendable(f)
  {
    Frame(b[0], b[HEADER..FrameLength(b)])
  }

  /** The frames the server takes out of a buffer, and what it leaves there. */
  function Decode(b: seq<byte>): (fs: seq<Frame>)
    ensures forall f :: f in fs ==> Sendable(f)
    decreases |b|
  {
    if Complete(b) then [Head(b)] + Decode(b[FrameLength(b)..]) else []
  }

  function Leftover(b: seq<byte>): seq<byte>
    decreases |b|
  {
    if Complete(b) then Leftover(b[FrameLength(b)..]) else b
  }

  lemma {:induction false} DecodeStep(b: seq<byte>)
    requires Complete(b)
    ensures Decode(b) == [Head(b)] + Decode(b[FrameLength(b)..])
    ensures Leftover(b) == Leftover(b[FrameLength(b)..])
  {
  }

  /** A complete first frame stays the first frame when bytes are appended. */
  lemma {:induction false} HeadAppend(b: seq<byte>, c: seq<byte>)
    requires Complete(b)
    ensures Complete(b + c) && FrameLength(b + c) == FrameLength(b) && Head(b + c) == Head(b)
    ensures (b + c)[FrameLength(b)..] == b[FrameLength(b)..] + c
  {
    assert (b + c)[1..5] == b[1..5];
    assert (b + c)[HEADER..FrameLength(b)] == b[HEADER..FrameLength(b)];
  }

  /** One `data` event: decoding a buffer and then more bytes is decoding all the bytes. */
  lemma {:induction false} DecodeAppend(b: seq<byte>, c: seq<byte>)
    ensures Decode(b + c) == Decode(b) + Decode(Leftover(b) + c)
    ensures Leftover(b + c) == Leftover(Leftover(b) + c)
    decreases |b|
  {
    if Complete(b) {
      var b' := b[FrameLength(b)..];
      HeadAppend(b, c);
      DecodeStep(b);
      DecodeStep(b + c);
      DecodeAppend(b', c);
      Regroup([Head(b)], Decode(b'), Decode(Leftover(b') + c));
    } else {
      assert Decode(b) == [] && Leftover(b) == b;
    }
  }

  /** The bytes of a complete frame are the encoding of what is read from it. */
  lemma {:induction false} EncodeHead(b: seq<byte>)
    requires Complete(b)
    ensures b[..FrameLength(b)] == Encode(Head(b))
    ensures b == Encode(Head(b)) + b[FrameLength(b)..]
  {
    UInt32Injective(b[1..5], UInt32Bytes(|Head(b).payload|));
    assert b[..FrameLength(b)] == [b[0]] + b[1..5] + b[HEADER..FrameLength(b)];
  }

  lemma {:induction false} EncodeAllCons(f: Frame, fs: seq<Frame>, r: seq<byte>)
    requires Sendable(f) && forall g :: g in fs ==> Sendable(g)
    ensures EncodeAll([f] + fs) + r == Encode(f) + (EncodeAll(fs) + r)
  {
    assert ([f] + fs)[1..] == fs;
  }

  /** Nothing is lost or left behind: the frames and the leftover are exactly the bytes received, and the
      leftover holds no complete frame. */
  lemma {:induction false} DecodeLossless(b: seq<byte>)
    ensures EncodeAll(Decode(b)) + Leftover(b) == b
    ensures !Complete(Leftover(b))
    decreases |b|
  {
    if !Complete(b) {
    } else {
      var b' := b[FrameLength(b)..];
      DecodeStep(b);
      DecodeLossless(b');
      EncodeHead(b);
      EncodeAllCons(Head(b), Decode(b'), Leftover(b'));
    }
  }

  lemma {:induction false} DecodeFirst(f: Frame, r: seq<byte>)
    requires Sendable(f)
    ensures Complete(Encode(f) + r) && Head(Encode(f) + r) == f
    ensures (Encode(f) + r)[FrameLength(Encode(f) + r)..] == r
  {
    var b := Encode(f) + r;
    assert b[1..5] == UInt32Bytes(|f.payload|);
    assert b[HEADER..HEADER + |f.payload|] == f.payload;
  }

  /** Only one reading: any frames and incomplete remainder that make up the bytes are the ones decoded. */
  lemma {:induction false} DecodeUnique(fs: seq<Frame>, r: seq<byte>)
    requires forall f :: f in fs ==> Sendable(f)
    requires !Complete(r)
    ensures Decode(EncodeAll(fs) + r) == fs && Leftover(EncodeAll(fs) + r) == r
  {
    if fs == [] {
      assert EncodeAll(fs) + r == r;
    } else {
      var b := EncodeAll(fs[1..]) + r;
      assert fs == [fs[0]] + fs[1..];
      EncodeAllCons(fs[0], fs[1..], r);
      DecodeFirst(fs[0], b);
      DecodeStep(Encode(fs[0]) + b);
      DecodeUnique(fs[1..], r);
    }
  }

  /** Whatever part of the stream has arrived, the frames handled so far are the first ones sent; when all
      of it has, they are all of them and the buffer is empty. */
  lemma {:induction false} DemuxUndoesMux(sent: seq<Frame>, received: seq<byte>)
    requires forall f :: f in sent ==> Sendable(f)
    requires received <= EncodeAll(sent)
    ensures Decode(received) <= sent
    ensures received == EncodeAll(sent) ==> Decode(received) == sent && Leftover(received) == []
  {
    var rest := EncodeAll(sent)[|received|..];
    assert EncodeAll(sent) == received + rest;
    assert EncodeAll(sent) + [] == EncodeAll(sent);
    DecodeUnique(sent, []);
    DecodeAppend(received, rest);
  }

  /** The messages of one channel, in order. */
  function OnChannel(fs: seq<Frame>, channel: byte): seq<seq<byte>> {
    if fs == [] then []
    else (if fs[0].channel == channel then [fs[0].payload] else []) + OnChannel(fs[1..], channel)
  }

  lemma {:induction false} OnChannelAppend(a: seq<Frame>, b: seq<Frame>, channel: byte)
    ensures OnChannel(a + b, channel) == OnChannel(a, channel) + OnChannel(b, channel)
  {
    if a == [] {
      assert a + b == b;
    } else {
      OnChannelAppend(a[1..], b, channel);
      assert (a + b)[1..] == a[1..] + b;
      var first := if a[0].channel == channel then [a[0].payload] else [];
      Regroup(first, OnChannel(a[1..], channel), OnChannel(b, channel));
    }
  }

  ghost predicate OnIt(fs: seq<Frame>, channel: byte, i: nat) { i < |fs| && fs[i].channel == channel }

  /** Those are the payloads of exactly the frames with that channel, in order. */
  lemma {:induction false} OnChannelExact(fs: seq<Frame>, channel: byte) returns (at: seq<nat>)
    ensures Picks(at, |fs|, (i: nat) => OnIt(fs, channel, i))
    ensures |OnChannel(fs, channel)| == |at|
    ensures forall k :: 0 <= k < |at| ==> CarriesAt(fs, at[k], OnChannel(fs, channel)[k])
  {
    if fs == [] {
      at := [];
    } else {
      var m := |fs| - 1;
      var before := OnChannelExact(fs[..m], channel);
      at := PicksMore(before, m, (i: nat) => OnIt(fs[..m], channel, i), (i: nat) => OnIt(fs, channel, i));
      OnChannelLast(fs, channel);
      CarriesMore(fs, before, OnChannel(fs[..m], channel), OnIt(fs, channel, m));
    }
  }

  ghost predicate CarriesAt(fs: seq<Frame>, i: nat, payload: seq<byte>) { i < |fs| && fs[i].payload == payload }

  lemma CarriesMore(fs: seq<Frame>, at: seq<nat>, payloads: seq<seq<byte>>, more: bool)
    requires fs != [] && |at| == |payloads|
    requires forall k :: 0 <= k < |at| ==> CarriesAt(fs[..|fs| - 1], at[k], payloads[k])
    ensures if more
            then var at', payloads' := at + [|fs| - 1], payloads + [fs[|fs| - 1].payload];
                 forall k :: 0 <= k < |at'| ==> CarriesAt(fs, at'[k], payloads'[k])
            else forall k :: 0 <= k < |at| ==> CarriesAt(fs, at[k], payloads[k])
  {
    forall k | 0 <= k < |at| ensures CarriesAt(fs, at[k], payloads[k]) {
      assert CarriesAt(fs[..|fs| - 1], at[k], payloads[k]);
    }
  }

  lemma {:induction false} OnChannelLast(fs: seq<Frame>, channel: byte)
    requires fs != []
    ensures var m := |fs| - 1;
            OnChannel(fs, channel)
            == if OnIt(fs, channel, m) then OnChannel(fs[..m], channel) + [fs[m].payload]
               else OnChannel(fs[..m], channel)
  {
    var m := |fs| - 1;
    assert fs == fs[..m] + [fs[m]];
    OnChannelAppend(fs[..m], [fs[m]], channel);
    assert OnChannel([fs[m]], channel) == if OnIt(fs, channel, m) then [fs[m].payload] else [];
  }

  /** A list of sends that interleaves one message list per channel. */
  ghost predicate Interleaves(sent: seq<Frame>, lists: map<byte, seq<seq<byte>>>) {
    forall c: byte :: OnChannel(sent, c) == if c in lists then lists[c] else []
  }

  /** Every list of sends does, of one list for each channel number. */
  lemma AlwaysInterleaves(sent: seq<Frame>)
    ensures Interleaves(sent, map c: byte | 0 <= c <= 255 :: OnChannel(sent, c))
  {
  }

  /** What has been handled and what is buffered after a list of `data` events. */
  function Handled(chunks: seq<seq<byte>>): seq<Frame> {
    if chunks == [] then []
    else
      var m := |chunks| - 1;
      Handled(chunks[..m]) + Decode(Buffered(chunks[..m]) + chunks[m])
  }

  function Buffered(chunks: seq<seq<byte>>): seq<byte> {
    if chunks == [] then []
    else
      var m := |chunks| - 1;
      Leftover(Buffered(chunks[..m]) + chunks[m])
  }

  /** The result does not depend on how the bytes were cut. */
  lemma {:induction false} ChunkInvariance(chunks: seq<seq<byte>>)
    ensures Handled(chunks) == Decode(Concat(chunks)) && Buffered(chunks) == Leftover(Concat(chunks))
  {
    if chunks == [] {
    } else {
      var m := |chunks| - 1;
      ChunkInvariance(chunks[..m]);
      DecodeAppend(Concat(chunks[..m]), chunks[m]);
    }
  }

  /** Every channel's messages come out in order, however they were interleaved and however the bytes were
      cut: of a part of the stream the first ones, of all of it all, and then the buffer is empty. */
  lemma {:induction false} ChannelsRecovered(sent: seq<Frame>, lists: map<byte, seq<seq<byte>>>, chunks: seq<seq<byte>>,
                                             channel: byte)
    requires forall f :: f in sent ==> Sendable(f)
    requires Interleaves(sent, lists)
    requires Concat(chunks) <= EncodeAll(sent)
    ensures var list := if channel in lists then lists[channel] else [];
            && OnChannel(Handled(chunks), channel) <= list
            && (Concat(chunks) == EncodeAll(sent) ==>
                  OnChannel(Handled(chunks), channel) == list && Buffered(chunks) == [])
  {
    ChunkInvariance(chunks);
    DemuxUndoesMux(sent, Concat(chunks));
    var handled := Handled(chunks);
    assert sent == handled + sent[|handled|..];
    OnChannelAppend(handled, sent[|handled|..], channel);
  }

  class Client {
    var stream: seq<byte>        // the bytes written to the socket
    ghost var sent: seq<Frame>

    ghost predicate Valid()
      reads this
    {
      (forall f :: f in sent ==> Sendable(f)) && stream == EncodeAll(sent)
    }

    constructor ()
      ensures Valid() && sent == []
    {
      stream, sent := [], [];
    }

    /** `sendFrame`. A channel id or a length that does not fit its field makes the Buffer write throw. */
    method SendFrame(channelId: int, payload: seq<byte>) returns (threw: bool)
      requires Valid()
      modifies this
      ensures Valid()
      ensures threw <==> !(0 <= channelId < 0x100 && |payload| < MAX_LENGTH)
      ensures sent == if threw then old(sent) else old(sent) + [Frame(channelId as byte, payload)]
      ensures forall f :: f in sent ==> Sendable(f)
      ensures stream == EncodeAll(sent)
    {
      var header := new byte[HEADER];
      if !(0 <= channelId < 0x100) { return true; }
      header[0] := channelId as byte;
      if |payload| >= MAX_LENGTH { return true; }
      var field := UInt32Bytes(|payload|);
      header[1], header[2], header[3], header[4] := field[0], field[1], field[2], field[3];
      ghost var frame := Frame(channelId as byte, payload);
      assert header[..] + payload == Encode(frame);
      stream := stream + (header[..] + payload);
      EncodeAllSnoc(sent, frame);
      sent := sent + [frame];
      return false;
    }
  }

  lemma {:induction false} EncodeAllSnoc(fs: seq<Frame>, f: Frame)
    requires Sendable(f) && forall g :: g in fs ==> Sendable(g)
    ensures forall g :: g in fs + [f] ==> Sendable(g)
    ensures EncodeAll(fs + [f]) == EncodeAll(fs) + Encode(f)
  {
    if fs == [] {
      assert fs + [f] == [f];
      assert Encode(f) + [] == Encode(f);
    } else {
      EncodeAllSnoc(fs[1..], f);
      assert fs == [fs[0]] + fs[1..];
      assert fs + [f] == [fs[0]] + (fs[1..] + [f]);
      EncodeAllCons(fs[0], fs[1..], Encode(f));
      EncodeAllCons(fs[0], fs[1..] + [f], []);
    }
  }

  class Server {
    var buffer: seq<byte>
    var handled: seq<Frame>          // the calls of handleFrame, in order
    ghost var received: seq<byte>    // all bytes of all `data` events

    ghost predicate Valid()
      reads this
    {
      buffer == Leftover(received) && handled == Decode(received)
    }

    constructor ()
      ensures Valid() && received == []
    {
      buffer, handled, received := [], [], [];
    }

    method OnData(chunk: seq<byte>)
      requires Valid()
      modifies this
      ensures Valid() && received == old(received) + chunk
      ensures buffer == Leftover(received) && handled == Decode(received)
    {
      DecodeAppend(received, chunk);
      buffer := buffer + chunk;
      received := received + chunk;
      while |buffer| >= HEADER
        invariant handled + Decode(buffer) == Decode(received)
        invariant Leftover(buffer) == Leftover(received)
        invariant received == old(received) + chunk
        decreases |buffer|
      {
        var channelId := buffer[0];
        var length := UInt32(buffer[1..5]);
        var frameTotalLength := HEADER + length;
        if |buffer| < frameTotalLength { break; }
        DecodeStep(buffer);
        Regroup(handled, [Head(buffer)], Decode(buffer[frameTotalLength..]));
        handled := handled + [Frame(channelId, buffer[HEADER..frameTotalLength])];
        buffer := buffer[frameTotalLength..];
      }
      assert !Complete(buffer) && Decode(buffer) == [];
      assert handled + [] == handled;
    }
  }
}
