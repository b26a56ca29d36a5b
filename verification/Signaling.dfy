/** The signaling server: rooms of sockets that relay to each other. Every connection's handlers hold on to
    the Set object that its room had when it joined, so the rooms work only while that object and the one in
    the room table are the same. The invariants are stated on a value that names the Set objects (`P`), the
    table and closures that refer to them, and what each holds; the class does it on the heap. */
module Signaling {
  import opened Bytes
  import opened JsText
  import opened Options
  import opened Rfc6455
  import opened Sequences
  import opened Unicode
  import opened WebSocket

  const DEFAULT_ROOM: Text := [100, 101, 102, 97, 117, 108, 116]

  lemma Literal()
    ensures DEFAULT_ROOM == Ascii("default")
  {
  }

  /** What the handlers of a connection captured. */
  datatype Seat<P> = Seat(room: Text, peers: P)

  datatype Signal<Json> = PeerJoined | Relayed(message: Json)

  /** `seats` has an entry for every connection there ever was, `outbox` what was sent to each; `open` are
      the connections that have not been cleaned up. */
  datatype State<S, P, Json> = State(rooms: map<Text, P>, members: map<P, seq<S>>, seats: map<S, Seat<P>>,
                                     outbox: map<S, seq<Signal<Json>>>, open: set<S>)

  /** A server nobody has connected to. */
  ghost function NobodyYet<S, P, J>(): State<S, P, J> {
    State(map[], map[], map[], map[], {})
  }

  /** An open connection's Set is the one its room has in the table, and holds the connection. */
  ghost predicate Seated<S, P, J>(st: State<S, P, J>, s: S) {
    && s in st.seats
    && var seat := st.seats[s];
       seat.room in st.rooms && st.rooms[seat.room] == seat.peers
       && seat.peers in st.members && s in st.members[seat.peers]
  }

  /** A mapped Set is not empty and holds open connections of its room only, once each. */
  ghost predicate RoomInv<S, P, J>(st: State<S, P, J>, r: Text) {
    && r in st.rooms && st.rooms[r] in st.members
    && var q := st.members[st.rooms[r]];
       q != [] && Distinct(q) && forall s :: s in q ==> InRoom(st, s, r)
  }

  /** A Set that a handler still holds is mapped under the handler's room, or is empty. */
  ghost predicate SeatInv<S, P, J>(st: State<S, P, J>, s: S) {
    && s in st.seats && st.seats[s].peers in st.members
    && var seat := st.seats[s];
       st.members[seat.peers] == [] || (seat.room in st.rooms && st.rooms[seat.room] == seat.peers)
  }

  ghost predicate InRoom<S, P, J>(st: State<S, P, J>, s: S, r: Text) {
    s in st.open && s in st.seats && st.seats[s].room == r
  }

  ghost predicate Coherent<S, P, J>(st: State<S, P, J>) {
    && st.outbox.Keys == st.seats.Keys && st.open <= st.seats.Keys
    && (forall s {:trigger Seated(st, s)} :: s in st.open ==> Seated(st, s))
    && (forall r {:trigger RoomInv(st, r)} :: r in st.rooms ==> RoomInv(st, r))
    && (forall s {:trigger SeatInv(st, s)} :: s in st.seats ==> SeatInv(st, s))
  }

  /** The mapped Set of a room is exactly the set of its open connections. */
  lemma RoomsAreRelation<S, P, J>(st: State<S, P, J>, r: Text, s: S)
    requires Coherent(st)
    ensures InRoom(st, s, r) <==> r in st.rooms && st.rooms[r] in st.members && s in st.members[st.rooms[r]]
  {
    if r in st.rooms { assert RoomInv(st, r); }
    if s in st.open { assert Seated(st, s); }
  }

  /** Different rooms have different Set objects with no member in common. */
  lemma RoomsDisjoint<S, P, J>(st: State<S, P, J>, r: Text, r': Text)
    requires Coherent(st) && r in st.rooms && r' in st.rooms && r != r'
    ensures st.rooms[r] != st.rooms[r'] && st.rooms[r] in st.members && st.rooms[r'] in st.members
    ensures forall s :: s in st.members[st.rooms[r]] ==> s !in st.members[st.rooms[r']]
  {
    assert RoomInv(st, r) && RoomInv(st, r');
    assert st.members[st.rooms[r]][0] in st.members[st.rooms[r]];
  }

  /** A connection joins a room, and the one that was alone there is told. `newSet` is the Set object that is
      made if the room has none. */
  ghost function Enter<S, P, J>(st: State<S, P, J>, socket: S, room: Text, newSet: P): State<S, P, J> {
    var peers := if room in st.rooms then st.rooms[room] else newSet;
    var q := if room in st.rooms && peers in st.members then st.members[peers] else [];
    st.(rooms := st.rooms[room := peers],
        members := st.members[peers := q + [socket]],
        seats := st.seats[socket := Seat(room, peers)],
        outbox := Greeted(st.outbox, q)[socket := []],
        open := st.open + {socket})
  }

  ghost function Greeted<S, J>(outbox: map<S, seq<Signal<J>>>, q: seq<S>): map<S, seq<Signal<J>>> {
    if |q| == 1 && q[0] in outbox then outbox[q[0] := outbox[q[0]] + [PeerJoined]] else outbox
  }

  lemma EnterCoherent<S, P, J>(st: State<S, P, J>, socket: S, room: Text, newSet: P)
    requires Coherent(st) && socket !in st.seats && (room !in st.rooms ==> newSet !in st.members)
    ensures Coherent(Enter(st, socket, room, newSet))
  {
    var st' := Enter(st, socket, room, newSet);
    assert room in st.rooms ==> RoomInv(st, room);
    forall s | s in st'.open ensures Seated(st', s) {
      assert s != socket ==> Seated(st, s);
    }
    forall r | r in st'.rooms ensures RoomInv(st', r) {
      EnterRoom(st, socket, room, newSet, r);
    }
    forall s | s in st'.seats ensures SeatInv(st', s) {
      if s != socket {
        assert SeatInv(st, s);
      }
    }
  }

  lemma EnterRoom<S, P, J>(st: State<S, P, J>, socket: S, room: Text, newSet: P, r: Text)
    requires Coherent(st) && socket !in st.seats && (room !in st.rooms ==> newSet !in st.members)
    requires r in st.rooms || r == room
    ensures RoomInv(Enter(st, socket, room, newSet), r)
  {
    if r in st.rooms {
      assert RoomInv(st, r);
      if r != room {
        if room in st.rooms { RoomsDisjoint(st, r, room); }
      } else {
        assert !InRoom(st, socket, r);
      }
    }
  }

  /** The one told of a newcomer is the one that was alone in the room; nobody else is. */
  lemma EnterExact<S, P, J>(st: State<S, P, J>, socket: S, room: Text, newSet: P, s: S)
    requires Coherent(st) && socket !in st.seats && s in st.outbox
    ensures s in Enter(st, socket, room, newSet).outbox
    ensures Enter(st, socket, room, newSet).outbox[s]
            == if InRoom(st, s, room) && (forall t :: t in st.open && InRoom(st, t, room) ==> t == s)
               then st.outbox[s] + [PeerJoined] else st.outbox[s]
  {
    forall t | t in st.open
      ensures InRoom(st, t, room)
              <==> room in st.rooms && st.rooms[room] in st.members && t in st.members[st.rooms[room]]
    {
      RoomsAreRelation(st, room, t);
    }
    if room in st.rooms {
      assert RoomInv(st, room);
      var q := st.members[st.rooms[room]];
      assert q[0] in q && InRoom(st, q[0], room);
      if |q| > 1 { assert q[1] in q && InRoom(st, q[1], room); }
    }
  }

  /** A message goes to every other member of the Set that the sender's handler holds. */
  ghost function Relay<S, P, J>(st: State<S, P, J>, socket: S, message: J): State<S, P, J>
    requires socket in st.seats && st.seats[socket].peers in st.members
  {
    var q := st.members[st.seats[socket].peers];
    st.(outbox := ToOthers(st.outbox, q, socket, message))
  }

  ghost function ToOthers<S, J>(outbox: map<S, seq<Signal<J>>>, q: seq<S>, socket: S, message: J)
    : map<S, seq<Signal<J>>>
  {
    map s | s in outbox :: if s in q && s != socket then outbox[s] + [Relayed(message)] else outbox[s]
  }

  /** The same for the first `i` members, of a message that may be impossible to send. */
  ghost function ToSome<S, J>(outbox: map<S, seq<Signal<J>>>, q: seq<S>, i: nat, socket: S, sent: Option<J>)
    : map<S, seq<Signal<J>>>
    requires i <= |q|
  {
    match sent
    case None => outbox
    case Some(message) => ToOthers(outbox, q[..i], socket, message)
  }

  lemma ToSomeStart<S, J>(outbox: map<S, seq<Signal<J>>>, q: seq<S>, socket: S, sent: Option<J>)
    ensures ToSome(outbox, q, 0, socket, sent) == outbox
  {
  }

  /** Sending to the next member is the next step, because no member comes twice. */
  lemma ToSomeStep<S, J>(outbox: map<S, seq<Signal<J>>>, q: seq<S>, i: nat, socket: S, sent: Option<J>)
    requires i < |q| && Distinct(q) && q[i] in outbox
    ensures var now := ToSome(outbox, q, i, socket, sent);
            q[i] in now
            && ToSome(outbox, q, i + 1, socket, sent)
               == if sent.None? || q[i] == socket then now else now[q[i] := now[q[i]] + [Relayed(sent.value)]]
  {
    assert forall s :: s in q[..i + 1] <==> s in q[..i] || s == q[i];
    assert q[i] !in q[..i];
  }

  lemma ToSomeEnd<S, J>(outbox: map<S, seq<Signal<J>>>, q: seq<S>, socket: S, message: J)
    ensures ToSome(outbox, q, |q|, socket, Some(message)) == ToOthers(outbox, q, socket, message)
  {
    assert q[..|q|] == q;
  }

  /** In a coherent state that is every other open connection of the sender's room, once, and nobody else. */
  lemma RelayExact<S, P, J>(st: State<S, P, J>, socket: S, message: J, s: S)
    requires Coherent(st) && socket in st.open && s in st.outbox
    ensures SeatInv(st, socket) && Coherent(Relay(st, socket, message))
    ensures Relay(st, socket, message).outbox[s]
            == if s != socket && InRoom(st, s, st.seats[socket].room)
               then st.outbox[s] + [Relayed(message)] else st.outbox[s]
  {
    assert Seated(st, socket) && SeatInv(st, socket);
    RoomsAreRelation(st, st.seats[socket].room, s);
    var st' := Relay(st, socket, message);
    forall s | s in st'.open ensures Seated(st', s) { assert Seated(st, s); }
    forall r | r in st'.rooms ensures RoomInv(st', r) { assert RoomInv(st, r); }
    forall s | s in st'.seats ensures SeatInv(st', s) { assert SeatInv(st, s); }
  }

  /** What the handler is given to read and write messages with: the text of a payload, JSON.parse and
      JSON.stringify. */
  datatype Codec<!Json> = Codec(text: seq<byte> -> Text, parse: Text -> Option<Json>, stringify: Json -> Text)

  const MAX_PAYLOAD := 0x1_0000

  /** What is sent for a message: it is parsed and serialized again, and both that and framing can throw. */
  function Rewritten<Json>(codec: Codec<Json>, message: Text): Option<Text> {
    match codec.parse(message)
    case None => None
    case Some(json) =>
      if |Utf8(codec.stringify(json))| < MAX_PAYLOAD then Some(codec.stringify(json)) else None
  }

  /** The handler throws at the first other member it cannot send to. */
  ghost predicate Fails<S(!new), P, Json>(codec: Codec<Json>, st: State<S, P, Text>, socket: S, message: Text)
    requires socket in st.seats && st.seats[socket].peers in st.members
  {
    Rewritten(codec, message) == None && exists s :: s in st.members[st.seats[socket].peers] && s != socket
  }

  ghost function Heard<S, P, Json>(codec: Codec<Json>, st: State<S, P, Text>, socket: S, message: Text)
    : State<S, P, Text>
    requires socket in st.seats && st.seats[socket].peers in st.members
  {
    match Rewritten(codec, message)
    case None => st
    case Some(text) => Relay(st, socket, text)
  }

  /** All or nobody: every other open connection of the room is sent the same rewritten text, or the handler
      throws before anyone is sent anything; it throws exactly when there is someone to send to and the message
      is no JSON or grows beyond what a frame can hold. */
  lemma HeardExact<S(!new), P, Json>(codec: Codec<Json>, st: State<S, P, Text>, socket: S, message: Text, s: S)
    requires Coherent(st) && socket in st.open && s in st.outbox
    ensures SeatInv(st, socket) && Coherent(Heard(codec, st, socket, message))
    ensures var room, sent := st.seats[socket].room, Rewritten(codec, message);
            && Heard(codec, st, socket, message).outbox[s]
               == (if sent.Some? && s != socket && InRoom(st, s, room)
                   then st.outbox[s] + [Relayed(sent.value)] else st.outbox[s])
            && (Fails(codec, st, socket, message) <==> sent == None && exists t :: t != socket && InRoom(st, t, room))
            && (sent == None <==> match codec.parse(message)
                                  case None => true
                                  case Some(json) => |Utf8(codec.stringify(json))| >= 65536)
            && (sent.Some? ==> sent.value == codec.stringify(codec.parse(message).value))
  {
    assert Seated(st, socket) && SeatInv(st, socket);
    var room := st.seats[socket].room;
    if Rewritten(codec, message).Some? { RelayExact(st, socket, Rewritten(codec, message).value, s); }
    forall t ensures t in st.members[st.seats[socket].peers] <==> InRoom(st, t, room) {
      RoomsAreRelation(st, room, t);
    }
  }

  /** A message that is JSON as `stringify` writes it, and fits in a frame. */
  predicate Canonical<Json>(codec: Codec<Json>, message: Text) {
    && codec.parse(message).Some?
    && |Utf8(message)| < MAX_PAYLOAD
    && codec.stringify(codec.parse(message).value) == message
  }

  /** Verbatim: another member of the room is sent the message as it was received exactly when the message is
      canonical. */
  lemma VerbatimExact<S(!new), P, Json>(codec: Codec<Json>, st: State<S, P, Text>, socket: S, message: Text, s: S)
    requires Coherent(st) && socket in st.open && s in st.outbox
    requires s != socket && InRoom(st, s, st.seats[socket].room)
    ensures SeatInv(st, socket)
    ensures Heard(codec, st, socket, message).outbox[s] == st.outbox[s] + [Relayed(message)]
            <==> Canonical(codec, message)
  {
    HeardExact(codec, st, socket, message, s);
    var was, sent := st.outbox[s], Rewritten(codec, message);
    assert sent.Some? ==> (was + [Relayed(sent.value)])[|was|] == Relayed(sent.value);
    assert (was + [Relayed(message)])[|was|] == Relayed(message);
  }

  /** It does happen: JSON allows a blank between two brackets (section 2 of RFC 8259), and JSON.stringify
      writes none. */
  lemma BlankIsLost<S(!new), P, Json>(codec: Codec<Json>, st: State<S, P, Text>, socket: S, s: S, empty: Json)
    requires Coherent(st) && socket in st.open && s in st.outbox
    requires s != socket && InRoom(st, s, st.seats[socket].room)
    requires codec.parse(Ascii("[ ]")) == Some(empty) && codec.stringify(empty) == Ascii("[]")
    ensures SeatInv(st, socket)
    ensures Heard(codec, st, socket, Ascii("[ ]")).outbox[s] == st.outbox[s] + [Relayed(Ascii("[]"))]
    ensures Ascii("[]") != Ascii("[ ]")
  {
    Utf8Length(Ascii("[]"));
    HeardExact(codec, st, socket, Ascii("[ ]"), s);
    assert |Ascii("[]")| != |Ascii("[ ]")|;
  }

  const PEER_JOINED: Text := Ascii("{\"type\":\"peer-joined\"}")

  lemma PeerJoinedFits()
    ensures |Utf8(PEER_JOINED)| < MAX_PAYLOAD
  {
    assert IsAscii(PEER_JOINED);
    Utf8Length(PEER_JOINED);
  }

  /** The text of a signal, and the frame it is written in. */
  function TextOf(signal: Signal<Text>): Text { if signal.PeerJoined? then PEER_JOINED else signal.message }

  ghost function FrameOf(signal: Signal<Text>): seq<byte> {
    var payload := Utf8(TextOf(signal));
    if |payload| < MAX_PAYLOAD then Serialize(PlainText(payload)) else []
  }

  /** The text that a lone peer is told of a newcomer with, and its frame. */
  lemma {:induction false} PeerJoinedFrame(b: seq<byte>)
    requires b == AsciiBytes("{\"type\":\"peer-joined\"}")
    ensures FrameOf(PeerJoined) == [0x81, 22] + b
  {
    Utf8OfAscii(PEER_JOINED, b);
    ShortFrame(b);
  }

  lemma {:induction false} ShortFrame(b: seq<byte>)
    requires |b| < 126
    ensures Serialize(PlainText(b)) == [0x81, |b| as byte] + b
  {
  }

  ghost function FramesOf(signals: seq<Signal<Text>>): seq<seq<byte>> {
    seq(|signals|, i requires 0 <= i < |signals| => FrameOf(signals[i]))
  }

  lemma {:induction false} FramesSnoc(signals: seq<Signal<Text>>, signal: Signal<Text>)
    ensures FramesOf(signals + [signal]) == FramesOf(signals) + [FrameOf(signal)]
  {
  }

  /** On bytes: a masked frame in, whatever follows it, becomes on every other connection of the room the minimal
      frame of the rewritten text, and an RFC 6455 reader gets the UTF-8 bytes of that text out of it. */
  lemma {:induction false} RelayedFrame<S(!new), P, Json>(codec: Codec<Json>, st: State<S, P, Text>, socket: S, s: S,
                                       payload: seq<byte>, mask: seq<byte>, rest: seq<byte>)
    requires Coherent(st) && socket in st.open && s in st.outbox
    requires s != socket && InRoom(st, s, st.seats[socket].room)
    requires |payload| < MAX_PAYLOAD && |mask| == 4
    requires Rewritten(codec, codec.text(payload)).Some?
    ensures RelayDecode(Serialize(MaskedText(payload, mask)) + rest) == Message(payload)
    ensures SeatInv(st, socket)
    ensures var sent := Utf8(Rewritten(codec, codec.text(payload)).value);
            var frame := Serialize(PlainText(sent));
            && FramesOf(Heard(codec, st, socket, codec.text(payload)).outbox[s]) == FramesOf(st.outbox[s]) + [frame]
            && Parse(frame) == Some(Parsed(PlainText(sent), LengthCode(|sent|), |frame|))
  {
    var text := Rewritten(codec, codec.text(payload)).value;
    MaskedRoundTrip(payload, mask, rest);
    HeardExact(codec, st, socket, codec.text(payload), s);
    FramesSnoc(st.outbox[s], Relayed(text));
    ParseSerialize(PlainText(Utf8(text)), []);
    assert Serialize(PlainText(Utf8(text))) + [] == Serialize(PlainText(Utf8(text)));
  }

  /** `cleanup`: leave the captured Set, and drop the captured room from the table if that Set is empty. */
  ghost function Cleanup<S(!new), P, J>(st: State<S, P, J>, socket: S): State<S, P, J>
    requires socket in st.seats && st.seats[socket].peers in st.members
  {
    var seat := st.seats[socket];
    var q := Remove(st.members[seat.peers], socket);
    st.(members := st.members[seat.peers := q],
        rooms := if q == [] then st.rooms - {seat.room} else st.rooms,
        open := st.open - {socket})
  }

  /** The captured Set is a leftover: it is empty, and the room has another one by now. */
  ghost predicate Stale<S, P, J>(st: State<S, P, J>, socket: S) {
    && socket in st.seats && st.seats[socket].peers in st.members
    && st.members[st.seats[socket].peers] == []
    && st.seats[socket].room in st.rooms
  }

  /** Cleaning up, even for the second time, keeps the rooms coherent exactly when the captured Set is not
      stale; for an open connection it never is. */
  lemma CleanupExact<S(!new), P, J>(st: State<S, P, J>, socket: S)
    requires Coherent(st) && socket in st.seats
    ensures SeatInv(st, socket)
    ensures Coherent(Cleanup(st, socket)) <==> !Stale(st, socket)
    ensures Stale(st, socket) ==> socket !in st.open
    ensures socket !in st.open && !Stale(st, socket) ==> Cleanup(st, socket) == st
  {
    assert SeatInv(st, socket);
    if socket in st.open {
      assert Seated(st, socket);
      LeaveCoherent(st, socket);
    } else {
      var seat := st.seats[socket];
      if st.members[seat.peers] != [] {
        assert RoomInv(st, seat.room);
        assert socket !in st.members[seat.peers];
      }
      assert st.members[seat.peers := st.members[seat.peers]] == st.members;
      if Stale(st, socket) {
        StaleBreaks(st, socket);
      } else {
        assert st.open - {socket} == st.open;
        assert seat.room !in st.rooms ==> st.rooms - {seat.room} == st.rooms;
        assert Cleanup(st, socket) == st;
      }
    }
  }

  /** A stale cleanup takes a live room out of the table: its members lose their seat. */
  lemma StaleBreaks<S(!new), P, J>(st: State<S, P, J>, socket: S)
    requires Coherent(st) && Stale(st, socket)
    ensures !Coherent(Cleanup(st, socket))
  {
    var st' := Cleanup(st, socket);
    var room := st.seats[socket].room;
    assert RoomInv(st, room);
    var other := st.members[st.rooms[room]][0];
    assert other in st.members[st.rooms[room]];
    assert socket in st.open ==> Seated(st, socket);
    assert !Seated(st', other);
  }

  /** It does happen: `a` fails, `b` joins the same room before `a` closes, and the close of `a` takes the
      room of `b` out of the table. */
  lemma StaleHappens<S(!new), P, J>(a: S, b: S, room: Text, first: P, second: P)
    requires a != b && first != second
    ensures var joined := Enter(NobodyYet<S, P, J>(), a, room, first);
            && a in joined.seats && joined.seats[a].peers in joined.members
            && var again := Enter(Cleanup(joined, a), b, room, second);
            && Coherent(again) && Stale(again, a)
            && var lost := Cleanup(again, a);
               InRoom(lost, b, room) && room !in lost.rooms && !Coherent(lost)
  {
    var empty := NobodyYet<S, P, J>();
    EnterCoherent(empty, a, room, first);
    var joined := Enter(empty, a, room, first);
    CleanupExact(joined, a);
    assert Remove([a], a) == [];
    EnterCoherent(Cleanup(joined, a), b, room, second);
    CleanupExact(Enter(Cleanup(joined, a), b, room, second), a);
  }

  /** A connection that has just been cleaned up is not stale, and only a later join of its own room can make
      it so: a join of another room, a message, or a cleanup of another connection cannot. */
  lemma FreshlyCleaned<S(!new), P, J>(st: State<S, P, J>, s: S)
    requires Coherent(st) && s in st.open
    ensures SeatInv(st, s) && !Stale(Cleanup(st, s), s)
  {
    assert Seated(st, s) && SeatInv(st, s);
  }

  lemma JoinElsewhere<S(!new), P, J>(st: State<S, P, J>, s: S, other: S, room: Text, newSet: P)
    requires Coherent(st) && s in st.seats && s !in st.open && !Stale(st, s)
    requires other !in st.seats && room != st.seats[s].room && (room !in st.rooms ==> newSet !in st.members)
    ensures !Stale(Enter(st, other, room, newSet), s)
  {
    assert SeatInv(st, s);
    if room in st.rooms { assert RoomInv(st, room); }
    if st.seats[s].room in st.rooms { assert RoomInv(st, st.seats[s].room); }
    if room in st.rooms && st.seats[s].room in st.rooms {
      RoomsDisjoint(st, room, st.seats[s].room);
    }
  }

  lemma CleanupElsewhere<S(!new), P, J>(st: State<S, P, J>, s: S, other: S)
    requires Coherent(st) && s in st.seats && s !in st.open && !Stale(st, s) && other in st.open
    ensures SeatInv(st, other) && !Stale(Cleanup(st, other), s)
  {
    assert SeatInv(st, s);
    assert Seated(st, other) && SeatInv(st, other);
    assert RoomInv(st, st.seats[other].room);
    if st.seats[s].room in st.rooms {
      assert RoomInv(st, st.seats[s].room);
      if st.seats[other].room != st.seats[s].room {
        RoomsDisjoint(st, st.seats[other].room, st.seats[s].room);
      }
    }
  }

  lemma LeaveCoherent<S(!new), P, J>(st: State<S, P, J>, socket: S)
    requires Coherent(st) && socket in st.open
    requires Seated(st, socket) && SeatInv(st, socket)
    ensures Coherent(Cleanup(st, socket)) && !Stale(st, socket)
  {
    var st' := Cleanup(st, socket);
    var seat := st.seats[socket];
    assert RoomInv(st, seat.room);
    forall s | s in st'.open ensures Seated(st', s) {
      assert Seated(st, s);
      if st.seats[s].room != seat.room { RoomsDisjoint(st, st.seats[s].room, seat.room); }
    }
    forall r | r in st'.rooms ensures RoomInv(st', r) {
      assert RoomInv(st, r);
      if r != seat.room { RoomsDisjoint(st, r, seat.room); }
    }
    forall s | s in st'.seats ensures SeatInv(st', s) {
      assert SeatInv(st, s);
    }
  }

  lemma RelayNeeds<S, P, J>(st: State<S, P, J>, socket: S)
    requires Coherent(st) && socket in st.open
    ensures SeatInv(st, socket) && Distinct(st.members[st.seats[socket].peers])
    ensures forall s :: s in st.members[st.seats[socket].peers] ==> s in st.outbox
  {
    assert SeatInv(st, socket) && Seated(st, socket);
    assert RoomInv(st, st.seats[socket].room);
  }

  lemma MappedSet<S, P, J>(st: State<S, P, J>, room: Text)
    requires Coherent(st)
    ensures room in st.rooms ==>
              st.rooms[room] in st.members
              && forall s :: s in st.members[st.rooms[room]] ==> s in st.outbox
  {
    assert room in st.rooms ==> RoomInv(st, room);
  }
}
