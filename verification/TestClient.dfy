/** The proxy demo's test client over all cuts of what it receives. It takes any chunk with the words of the
    status line in it for the end of the handshake, greets, and reads frame bytes from the next chunk on. */
module TestClient {
  import opened Arith
  import opened Bytes
  import opened Options
  import opened Rfc6455
  import opened Sequences
  import opened WebSocket

  const WORDS: seq<byte> := AsciiBytes("101 Switching Protocols")

  predicate HoldsAt(b: seq<byte>, words: seq<byte>, i: int) {
    0 <= i <= |b| - |words| && b[i..i + |words|] == words
  }

  /** String.prototype.includes for an ASCII text, on the bytes: decoding neither makes nor breaks one. */
  predicate Includes(b: seq<byte>, words: seq<byte>) {
    exists i | 0 <= i <= |b| - |words| :: HoldsAt(b, words, i)
  }

  predicate EndsHandshake(chunk: seq<byte>) { Includes(chunk, WORDS) }

  /** The client's variables; it exits when it shows a message. */
  datatype View = View(handshakeDone: bool, buffer: seq<byte>, shown: Option<seq<byte>>)

  function MessageIn(b: seq<byte>): Option<seq<byte>> {
    var r := DecodeServerFrame(b);
    if r.Message? then Some(r.payload) else None
  }

  /** The `data` handler; nothing is handled after the exit. */
  function Data(v: View, chunk: seq<byte>): View {
    if v.shown.Some? then v
    else if !v.handshakeDone then v.(handshakeDone := EndsHandshake(chunk))
    else v.(buffer := v.buffer + chunk, shown := MessageIn(v.buffer + chunk))
  }

  function After(chunks: seq<seq<byte>>): View {
    if chunks == [] then View(false, [], None) else Data(After(chunks[..|chunks| - 1]), chunks[|chunks| - 1])
  }

  /** The number of the first chunk that passes a test; the number of chunks if none does. */
  function First(chunks: seq<seq<byte>>, test: seq<byte> -> bool): (k: nat)
    ensures k <= |chunks|
  {
    if chunks == [] then 0
    else
      var m := |chunks| - 1;
      var k := First(chunks[..m], test);
      if k < m || test(chunks[m]) then k else |chunks|
  }

  /** All bytes after the chunk of that number. */
  function BytesAfter(chunks: seq<seq<byte>>, k: nat): seq<byte> {
    if k < |chunks| then Concat(chunks[k + 1..]) else []
  }

  lemma {:induction false} FirstIs(chunks: seq<seq<byte>>, test: seq<byte> -> bool)
    ensures var k := First(chunks, test);
            && (k < |chunks| ==> test(chunks[k]))
            && forall i :: 0 <= i < k ==> !test(chunks[i])
  {
    if chunks == [] {
    } else {
      var m := |chunks| - 1;
      FirstIs(chunks[..m], test);
      assert forall i :: 0 <= i < m ==> chunks[..m][i] == chunks[i];
    }
  }

  lemma {:induction false} BytesAfterSnoc(chunks: seq<seq<byte>>, test: seq<byte> -> bool)
    requires chunks != []
    ensures var m := |chunks| - 1;
            var k := First(chunks[..m], test);
            && (First(chunks, test) < |chunks| <==> k < m || test(chunks[m]))
            && BytesAfter(chunks, First(chunks, test))
               == if k < m then BytesAfter(chunks[..m], k) + chunks[m] else []
  {
    var m := |chunks| - 1;
    var k := First(chunks[..m], test);
    if k < m {
      assert chunks[k + 1..][..m - k - 1] == chunks[..m][k + 1..];
    } else {
      assert chunks[m + 1..] == [];
    }
  }

  /** More bytes do not change a message that is complete. */
  lemma MessageStays(b: seq<byte>, c: seq<byte>)
    requires MessageIn(b).Some?
    ensures MessageIn(b + c) == MessageIn(b)
  {
    var n := b[1] as int % 128;
    assert (b + c)[2..2 + n] == b[2..2 + n];
  }

  /** What came after the first chunk with the words. */
  function FrameBytes(chunks: seq<seq<byte>>): seq<byte> { BytesAfter(chunks, First(chunks, EndsHandshake)) }

  /** The client's state by all that it has received. */
  lemma {:induction false} AfterIs(chunks: seq<seq<byte>>)
    ensures var v := After(chunks);
            && v.handshakeDone == (First(chunks, EndsHandshake) < |chunks|)
            && v.shown == MessageIn(FrameBytes(chunks))
            && (v.shown.None? ==> v.buffer == FrameBytes(chunks))
  {
    if chunks == [] {
    } else {
      var m := |chunks| - 1;
      AfterIs(chunks[..m]);
      BytesAfterSnoc(chunks, EndsHandshake);
      if After(chunks[..m]).shown.Some? {
        MessageStays(FrameBytes(chunks[..m]), chunks[m]);
      }
    }
  }

  /** A tail of the response header that happens to make the client read the payload all the same: what it
      takes for the length byte is right, and the payload goes round in what follows. */
  ghost predicate Accident(tail: seq<byte>, payload: seq<byte>)
    requires |payload| <= 125
  {
    && tail != []
    && var x := tail + [0x81, |payload| as byte];
       x[1] as int % 128 == |payload| && forall i :: 0 <= i < |payload| ==> payload[i] == x[2 + i % |tail|]
  }

  lemma {:induction false} FrameOf(payload: seq<byte>)
    requires |payload| <= 125
    ensures Serialize(PlainText(payload)) == [0x81, |payload| as byte] + payload
  {
  }

  /** A text that equals itself behind a lead goes round in the lead. */
  lemma {:induction false} GoesRound(lead: seq<byte>, payload: seq<byte>)
    requires lead != []
    ensures (lead + payload)[..|payload|] == payload
            <==> forall i :: 0 <= i < |payload| ==> payload[i] == lead[i % |lead|]
  {
    var p := |lead|;
    forall i | 0 <= i < |payload|
      ensures (lead + payload)[i] == if i < p then lead[i % p] else payload[i - p]
      ensures i >= p ==> i % p == (i - p) % p
    {
      if i < p { DivModUnique(i, p, 0, i); } else { AddModulus(i - p, p); }
    }
    if (lead + payload)[..|payload|] == payload {
      forall i | 0 <= i < |payload| ensures payload[i] == lead[i % p] {
        Round(lead, payload, i);
      }
    } else {
      var i :| 0 <= i < |payload| && (lead + payload)[i] != payload[i];
      assert payload[i] != lead[i % p] || (i >= p && payload[i - p] != lead[(i - p) % p]);
    }
  }

  lemma {:induction false} Round(lead: seq<byte>, payload: seq<byte>, i: nat)
    requires lead != [] && (lead + payload)[..|payload|] == payload && i < |payload|
    ensures payload[i] == lead[i % |lead|]
  {
    var p := |lead|;
    assert payload[i] == (lead + payload)[i];
    if i < p {
      DivModUnique(i, p, 0, i);
    } else {
      Round(lead, payload, i - p);
      AddModulus(i - p, p);
    }
  }

  lemma MessageBehind(x: seq<byte>, payload: seq<byte>)
    requires |x| >= 2
    ensures MessageIn(x + payload) == Some(payload)
            <==> x[1] as int % 128 == |payload| && (x[2..] + payload)[..|payload|] == payload
  {
    var b := x + payload;
    assert b[1] == x[1];
    assert b[2..2 + |payload|] == (x[2..] + payload)[..|payload|];
  }

  /** What the client makes of a short frame behind some left-over header bytes. */
  lemma {:induction false} TailExact(tail: seq<byte>, payload: seq<byte>)
    requires |payload| <= 125
    ensures MessageIn(tail + Serialize(PlainText(payload))) == Some(payload) <==> tail == [] || Accident(tail, payload)
  {
    FrameOf(payload);
    if tail == [] {
      assert tail + Serialize(PlainText(payload)) == Serialize(PlainText(payload));
      ServerFrameIncremental(payload, Serialize(PlainText(payload)));
    } else {
      var x := tail + [0x81, |payload| as byte];
      Regroup(tail, [0x81, |payload| as byte], payload);
      MessageBehind(x, payload);
      GoesRound(x[2..], payload);
      assert forall i :: 0 <= i < |payload| ==> x[2..][i % |tail|] == x[2 + i % |tail|];
    }
  }

  /** And of any rest of the answer: too little of the frame is never the payload. */
  lemma {:induction false} RestExact(head: seq<byte>, payload: seq<byte>, cut: nat)
    requires |payload| <= 125 && cut <= |head + Serialize(PlainText(payload))|
    ensures MessageIn((head + Serialize(PlainText(payload)))[cut..]) == Some(payload)
            <==> cut == |head| || (cut < |head| && Accident(head[cut..], payload))
  {
    FrameOf(payload);
    if cut <= |head| {
      var frame := Serialize(PlainText(payload));
      assert (head + frame)[cut..] == head[cut..] + frame;
      TailExact(head[cut..], payload);
    }
  }

  /** The whole answer, header and frame, however it is cut: the client shows the payload exactly when some
      chunk holds the words and the first that does ends with the header, or cuts it off at an accident. */
  lemma {:induction false} ShownExact(chunks: seq<seq<byte>>, head: seq<byte>, payload: seq<byte>)
    requires |payload| <= 125 && Concat(chunks) == head + Serialize(PlainText(payload))
    ensures var k := First(chunks, EndsHandshake);
            After(chunks).shown == Some(payload)
            <==> k < |chunks|
                 && var cut := |Concat(chunks[..k + 1])|;
                    cut == |head| || (cut < |head| && Accident(head[cut..], payload))
  {
    var k := First(chunks, EndsHandshake);
    AfterIs(chunks);
    if k < |chunks| {
      ConcatSplit(chunks, k + 1);
      RestExact(head, payload, |Concat(chunks[..k + 1])|);
    }
  }

  const BRACKET: byte := 91

  /** The backend's messages start with a bracket, and its header holds none; so for them there is no
      accident: the answer is shown exactly when the chunk with the words ends with the header. */
  lemma {:induction false} BackendShownExact(chunks: seq<seq<byte>>, head: seq<byte>, payload: seq<byte>)
    requires |payload| <= 125 && Concat(chunks) == head + Serialize(PlainText(payload))
    requires payload != [] && payload[0] == BRACKET && BRACKET !in head
    ensures var k := First(chunks, EndsHandshake);
            After(chunks).shown == Some(payload) <==> k < |chunks| && |Concat(chunks[..k + 1])| == |head|
  {
    ShownExact(chunks, head, payload);
    var k := First(chunks, EndsHandshake);
    if k < |chunks| && |Concat(chunks[..k + 1])| < |head| {
      NoAccident(head[|Concat(chunks[..k + 1])|..], payload);
    }
  }

  lemma NoAccident(tail: seq<byte>, payload: seq<byte>)
    requires 0 < |payload| <= 125 && payload[0] == BRACKET && BRACKET !in tail
    ensures !Accident(tail, payload)
  {
    if tail != [] {
      var x := tail + [0x81, |payload| as byte];
      DivModUnique(0, |tail|, 0, 0);
      assert x[1] as int % 128 == |payload| ==> x[2] != BRACKET;
      assert x[2 + 0 % |tail|] == x[2];
    }
  }

  /** In between: once the header has ended with the chunk that holds the words, nothing is shown before the
      last byte of the answer, and then its payload, whatever follows. */
  lemma {:induction false} ShownWhen(chunks: seq<seq<byte>>, head: seq<byte>, payload: seq<byte>)
    requires |payload| <= 125
    requires var k := First(chunks, EndsHandshake); k < |chunks| && Concat(chunks[..k + 1]) == head
    ensures var answer := head + Serialize(PlainText(payload));
            && (Concat(chunks) < answer ==> After(chunks).shown == None)
            && (answer <= Concat(chunks) ==> After(chunks).shown == Some(payload))
  {
    AfterIs(chunks);
    SplitAtHead(chunks);
    AnswerBehind(head, FrameBytes(chunks), payload);
  }

  lemma {:induction false} SplitAtHead(chunks: seq<seq<byte>>)
    requires First(chunks, EndsHandshake) < |chunks|
    ensures Concat(chunks) == Concat(chunks[..First(chunks, EndsHandshake) + 1]) + FrameBytes(chunks)
  {
    ConcatSplit(chunks, First(chunks, EndsHandshake) + 1);
  }

  lemma {:induction false} AnswerBehind(head: seq<byte>, rest: seq<byte>, payload: seq<byte>)
    requires |payload| <= 125
    ensures var answer := head + Serialize(PlainText(payload));
            && (head + rest < answer ==> MessageIn(rest) == None)
            && (answer <= head + rest ==> MessageIn(rest) == Some(payload))
  {
    BehindHead(head, rest, Serialize(PlainText(payload)));
    ServerFrameIncremental(payload, rest);
  }

  lemma BehindHead(head: seq<byte>, rest: seq<byte>, frame: seq<byte>)
    ensures head + rest < head + frame ==> rest < frame
    ensures head + frame <= head + rest ==> frame <= rest
  {
    assert (head + rest)[|head|..] == rest && (head + frame)[|head|..] == frame;
    if head + frame <= head + rest {
      assert (head + rest)[..|head + frame|] == head + frame;
      assert rest[..|frame|] == (head + rest)[..|head + frame|][|head|..];
    }
    if head + rest < head + frame {
      assert (head + frame)[..|head + rest|] == head + rest;
      assert frame[..|rest|] == (head + frame)[..|head + rest|][|head|..];
    }
  }

  /** Round trip over the proxy: the backend's answer to the greeting, behind its header and cut in any way, is
      shown exactly when the first chunk with the words ends with the header. */
  lemma {:induction false} ProxyRoundTrip(greeting: seq<byte>, mask: seq<byte>, prefix: seq<byte>, head: seq<byte>,
                       chunks: seq<seq<byte>>)
    requires |mask| == 4 && |prefix + greeting| <= 125
    requires prefix != [] && prefix[0] == BRACKET && BRACKET !in head
    requires var answer := BackendAnswer(ClientFrame(greeting, mask), prefix);
             answer.Some? && Concat(chunks) == head + answer.value
    ensures var k := First(chunks, EndsHandshake);
            After(chunks).shown == Some(prefix + greeting) <==> k < |chunks| && |Concat(chunks[..k + 1])| == |head|
  {
    ClientFrameExact(greeting, mask);
    BackendShownExact(chunks, head, prefix + greeting);
  }

  /** The words never come in one chunk: the client waits for ever, and has not even greeted. */
  lemma {:induction false} NeverGreets(chunks: seq<seq<byte>>)
    requires forall i :: 0 <= i < |chunks| ==> !EndsHandshake(chunks[i])
    ensures After(chunks) == View(false, [], None)
  {
    FirstIs(chunks, EndsHandshake);
    AfterIs(chunks);
  }

  const CRLF: seq<byte> := AsciiBytes("\r\n")

  /** The backend's handshake answer: its first line, and the rest of the header. */
  function StatusLine(): seq<byte> { AsciiBytes("HTTP/1.1 ") + WORDS + CRLF }

  function HeaderFields(): seq<byte> {
    AsciiBytes("Upgrade: websocket") + CRLF + AsciiBytes("Connection: Upgrade") + CRLF
    + AsciiBytes("Sec-WebSocket-Accept: ")
  }

  function HeaderRest(acceptKey: seq<byte>): seq<byte> { HeaderFields() + acceptKey + CRLF + CRLF }

  lemma HeaderRestIs(acceptKey: seq<byte>)
    requires |acceptKey| == 28
    ensures var b := HeaderRest(acceptKey); |b| == 95 && b[1] == 112 && b[2] == 103
  {
    var first := AsciiBytes("Upgrade: websocket");
    assert first[1] as int == 'p' as int && first[2] as int == 'g' as int;
    assert HeaderRest(acceptKey)[1] == first[1] && HeaderRest(acceptKey)[2] == first[2];
  }

  /** The header in letters, and the bracket. */
  lemma HeaderText(acceptKey: seq<byte>)
    ensures StatusLine() == AsciiBytes("HTTP/1.1 ") + AsciiBytes("101 Switching Protocols") + [13, 10]
    ensures HeaderRest(acceptKey)
            == AsciiBytes("Upgrade: websocket") + [13, 10] + AsciiBytes("Connection: Upgrade") + [13, 10]
               + AsciiBytes("Sec-WebSocket-Accept: ") + acceptKey + [13, 10] + [13, 10]
    ensures AsciiBytes("[") == [BRACKET]
  {
    assert CRLF == [13, 10];
  }

  lemma StatusLineGreets()
    ensures EndsHandshake(StatusLine())
  {
    var lead := AsciiBytes("HTTP/1.1 ");
    assert StatusLine()[9..9 + |WORDS|] == WORDS;
    assert HoldsAt(StatusLine(), WORDS, 9);
  }

  /** What the client reads when the header's first line is a chunk of its own. */
  lemma AfterStatusLine(rest: seq<byte>, frame: seq<byte>)
    ensures FrameBytes([StatusLine(), rest, frame]) == rest + frame
  {
    var chunks := [StatusLine(), rest, frame];
    StatusLineGreets();
    FirstIs(chunks, EndsHandshake);
    assert chunks[0] == StatusLine() && chunks[1..] == [rest, frame];
    assert [rest, frame][..1] == [rest] && [rest][..0] == [];
    assert Concat([rest, frame]) == Concat([rest]) + frame && Concat([rest]) == [] + rest;
  }

  /** It does happen: the header is cut behind its first line. The client takes the rest of it for frame bytes,
      reads a length of 112, and shows header text or, of a very short answer, nothing at all. */
  lemma {:induction false} HeaderCut(acceptKey: seq<byte>, payload: seq<byte>)
    requires |acceptKey| == 28
    requires 0 < |payload| <= 125 && payload[0] == BRACKET
    ensures var rest := HeaderRest(acceptKey);
            var shown := After([StatusLine(), rest, Serialize(PlainText(payload))]).shown;
            && shown != Some(payload)
            && (shown.Some? <==> |payload| >= 17)
            && (shown.Some? ==> |shown.value| == 112 && rest[2..] <= shown.value)
  {
    var rest, frame := HeaderRest(acceptKey), Serialize(PlainText(payload));
    AfterIs([StatusLine(), rest, frame]);
    AfterStatusLine(rest, frame);
    HeaderRestIs(acceptKey);
    FrameOf(payload);
    ReadsHeader(rest, frame);
  }

  lemma ReadsHeader(rest: seq<byte>, frame: seq<byte>)
    requires |rest| == 95 && rest[1] == 112
    ensures var shown := MessageIn(rest + frame);
            && (shown.Some? <==> |frame| >= 19)
            && (shown.Some? ==> |shown.value| == 112 && rest[2..] <= shown.value)
  {
    var b := rest + frame;
    assert b[1] == rest[1];
    if |frame| >= 19 {
      assert b[2..114][..93] == rest[2..];
    }
  }

  class Client {
    const greeting: seq<byte>
    var handshakeDone: bool
    var buffer: seq<byte>
    var shown: Option<seq<byte>>      // the message it printed before it exited
    var written: seq<seq<byte>>
    ghost var chunks: seq<seq<byte>>  // all that it has received

    ghost predicate Valid()
      reads this
    {
      View(handshakeDone, buffer, shown) == After(chunks)
      && |written| == if handshakeDone then 1 else 0
    }

    constructor (greeting: seq<byte>)
      ensures Valid() && chunks == [] && written == [] && this.greeting == greeting
    {
      this.greeting := greeting;
      handshakeDone, buffer, written, shown, chunks := false, [], [], None, [];
    }

    /** The `data` handler. `mask` is the key that a greeting is sent with. */
    method OnData(chunk: seq<byte>, mask: seq<byte>)
      requires Valid() && shown.None? && |mask| == 4
      modifies this
      ensures Valid() && chunks == old(chunks) + [chunk]
      ensures View(handshakeDone, buffer, shown) == After(chunks)
      ensures written == if handshakeDone && !old(handshakeDone) then [ClientFrame(greeting, mask)] else old(written)
    {
      assert (chunks + [chunk])[..|chunks|] == chunks;
      chunks := chunks + [chunk];
      if !handshakeDone {
        if Includes(chunk, WORDS) {
          handshakeDone := true;
          var frame := ClientEncodeFrame(greeting, mask);
          written := [frame];
        }
        return;
      }
      buffer := buffer + chunk;
      var message := DecodeServerFrame(buffer);
      if message.Message? {
        shown := Some(message.payload);
      }
    }
  }
}
