/** The signaling server on the heap: the Set objects that the handlers of a room's connections share. */
module SignalingServer {
  import opened Bytes
  import opened JsText
  import opened Options
  import opened Sequences
  import opened Signaling
  import opened SignalingRuns
  import opened Unicode
  import opened WebSocket

  /** A JavaScript Set of sockets: an object, in insertion order. */
  class PeerSet<Socket> {
    var members: seq<Socket>

    constructor ()
      ensures members == []
    {
      members := [];
    }
  }

  /** What is written on each connection, as frames. */
  ghost function Wire<S>(outbox: map<S, seq<Signal<Text>>>): map<S, seq<seq<byte>>> {
    map s | s in outbox :: FramesOf(outbox[s])
  }

  lemma {:induction false} WireSend<S>(outbox: map<S, seq<Signal<Text>>>, s: S, signal: Signal<Text>)
    requires s in outbox
    ensures Wire(outbox[s := outbox[s] + [signal]]) == Wire(outbox)[s := Wire(outbox)[s] + [FrameOf(signal)]]
  {
    FramesSnoc(outbox[s], signal);
  }

  lemma {:induction false} WireNew<S>(outbox: map<S, seq<Signal<Text>>>, s: S)
    ensures Wire(outbox[s := []]) == Wire(outbox)[s := []]
  {
    assert FramesOf([]) == [];
  }

  /** The table with the room in it. */
  ghost function Mapped<S, P>(st: State<S, P, Text>, room: Text, made: P): State<S, P, Text> {
    if room in st.rooms then st else st.(rooms := st.rooms[room := made], members := st.members[made := []])
  }

  lemma EnterMapped<S, P>(st: State<S, P, Text>, socket: S, room: Text, made: P)
    requires room in st.rooms ==> st.rooms[room] in st.members
    ensures Enter(Mapped(st, room, made), socket, room, made) == Enter(st, socket, room, made)
  {
  }

  class Server<Socket(==, !new), Json> {
    const codec: Codec<Json>
    var rooms: map<Text, PeerSet<Socket>>
    var seats: map<Socket, Seat<PeerSet<Socket>>>
    var written: map<Socket, seq<seq<byte>>>            // the frames written to each connection
    ghost var outbox: map<Socket, seq<Signal<Text>>>    // and what they say
    ghost var open: set<Socket>
    ghost var held: map<PeerSet<Socket>, seq<Socket>>   // every Set object made so far, and its members
    ghost var run: seq<Event<Socket, PeerSet<Socket>>>

    ghost function Value(): State<Socket, PeerSet<Socket>, Text>
      reads this
    {
      State(rooms, held, seats, outbox, open)
    }

    ghost predicate Valid()
      reads this, held.Keys
    {
      Coherent(Value()) && Follows()
    }

    /** The objects and variables are those of the run. */
    ghost predicate Follows()
      reads this, held.Keys
    {
      Current() && written == Wire(outbox) && Possible(codec, run) && Value() == Run(codec, run)
    }

    ghost predicate Current()
      reads this, held.Keys
    {
      forall p {:trigger p.members} {:trigger held[p]} :: p in held ==> p.members == held[p]
    }

    constructor (codec: Codec<Json>)
      ensures Valid() && Value() == NobodyYet() && run == [] && this.codec == codec
    {
      this.codec := codec;
      rooms, seats, written, outbox, open, held, run := map[], map[], map[], map[], {}, map[], [];
    }

    /** The `upgrade` handler, after the handshake: `query.room || "default"`. */
    method Upgrade(socket: Socket, queryRoom: Option<Text>)
      requires Valid() && socket !in seats
      modifies this, held.Keys
      ensures var room := if queryRoom.Some? && queryRoom.value != [] then queryRoom.value else DEFAULT_ROOM;
              && room in rooms && (room !in old(rooms) ==> fresh(rooms[room]))
              && run == old(run) + [Join(socket, room, rooms[room])]
      ensures Valid()
    {
      var room := if queryRoom.Some? && queryRoom.value != [] then queryRoom.value else DEFAULT_ROOM;
      MappedSet(Value(), room);
      TakeSeat(socket, room);
      EnterCoherent(old(Value()), socket, room, rooms[room]);
      Extend(codec, run, Join(socket, room, rooms[room]));
      run := run + [Join(socket, room, rooms[room])];
    }

    method TakeSeat(socket: Socket, room: Text)
      requires Current() && written == Wire(outbox) && (room in rooms ==> rooms[room] in held)
      requires room in rooms ==> forall s :: s in held[rooms[room]] ==> s in outbox
      modifies this, held.Keys
      ensures room in rooms && (room !in old(rooms) ==> fresh(rooms[room]) && rooms[room] !in old(held))
      ensures Current() && written == Wire(outbox) && run == old(run)
      ensures Value() == Enter(old(Value()), socket, room, rooms[room])
    {
      ghost var st := Value();
      var peers := SetOf(room);
      EnterMapped(st, socket, room, peers);
      JoinRoom(socket, room, peers);
    }

    /** The Set of a room, made if there is none. */
    method SetOf(room: Text) returns (peers: PeerSet<Socket>)
      requires Current() && (room in rooms ==> rooms[room] in held)
      modifies this`rooms, this`held
      ensures Current() && Value() == Mapped(old(Value()), room, peers)
      ensures room in rooms && peers == rooms[room] && peers in held
      ensures room !in old(rooms) ==> fresh(peers) && peers !in old(held) && held[peers] == []
    {
      if room !in rooms {
        var empty := new PeerSet<Socket>();
        rooms := rooms[room := empty];
        held := held[empty := []];
      }
      peers := rooms[room];
    }

    method JoinRoom(socket: Socket, room: Text, peers: PeerSet<Socket>)
      requires Current() && written == Wire(outbox) && room in rooms && rooms[room] == peers && peers in held
      requires forall s :: s in held[peers] ==> s in outbox
      modifies this`held, this`seats, this`outbox, this`written, this`open, peers
      ensures Current() && written == Wire(outbox)
      ensures Value() == Enter(old(Value()), socket, room, peers)
    {
      ghost var st := Value();
      Greet(peers);
      AddMember(socket, room, peers);
      assert st.rooms[room := peers] == st.rooms;
    }

    method Greet(peers: PeerSet<Socket>)
      requires Current() && written == Wire(outbox) && forall s :: s in peers.members ==> s in outbox
      modifies this`outbox, this`written
      ensures Current() && written == Wire(outbox) && outbox == Greeted(old(outbox), peers.members)
    {
      if |peers.members| == 1 {
        PeerJoinedFits();
        var ok := Send(peers.members[0], PeerJoined);
      }
    }

    method AddMember(socket: Socket, room: Text, peers: PeerSet<Socket>)
      requires Current() && peers in held && written == Wire(outbox)
      modifies this`held, this`seats, this`outbox, this`written, this`open, peers
      ensures Current() && written == Wire(outbox)
      ensures held == old(held)[peers := old(held)[peers] + [socket]]
      ensures seats == old(seats)[socket := Seat(room, peers)]
      ensures outbox == old(outbox)[socket := []] && open == old(open) + {socket}
    {
      peers.members := peers.members + [socket];
      held := held[peers := peers.members];
      seats := seats[socket := Seat(room, peers)];
      WireNew(outbox, socket);
      written := written[socket := []];
      outbox := outbox[socket := []];
      open := open + {socket};
    }

    /** The `data` handler, for one chunk. */
    method OnData(socket: Socket, buffer: seq<byte>) returns (threw: bool)
      requires Valid() && socket in open
      modifies this`outbox, this`written, this`run
      ensures Valid() && SeatInv(old(Value()), socket)
      ensures match RelayDecode(buffer)
              case Null => !threw && Value() == old(Value()) && run == old(run)
              case Threw => threw && Value() == old(Value()) && run == old(run)
              case Message(payload) =>
                && threw == Fails(codec, old(Value()), socket, codec.text(payload))
                && run == old(run) + [Say(socket, codec.text(payload))]
    {
      RelayNeeds(Value(), socket);
      var decoded := RelayDecodeFrame(buffer);
      match decoded {
        case Null => threw := false;
        case Threw => threw := true;
        case Message(payload) => threw := OnMessage(socket, codec.text(payload));
      }
    }

    method OnMessage(socket: Socket, message: Text) returns (threw: bool)
      requires Valid() && socket in open
      modifies this`outbox, this`written, this`run
      ensures Valid() && SeatInv(old(Value()), socket)
      ensures threw == Fails(codec, old(Value()), socket, message) && run == old(run) + [Say(socket, message)]
    {
      SayFollows(codec, run, socket, message);
      threw := Hear(socket, message);
      run := run + [Say(socket, message)];
    }

    method Hear(socket: Socket, message: Text) returns (threw: bool)
      requires Current() && written == Wire(outbox) && socket in seats && seats[socket].peers in held
      requires Distinct(held[seats[socket].peers]) && forall s :: s in held[seats[socket].peers] ==> s in outbox
      modifies this`outbox, this`written
      ensures Value() == Heard(codec, old(Value()), socket, message) && written == Wire(outbox)
      ensures threw == Fails(codec, old(Value()), socket, message)
    {
      ghost var st := Value();
      var peers := seats[socket].peers;
      ghost var sent := Rewritten(codec, message);
      threw := SendToOthers(socket, peers.members, message);
      if sent.Some? { ToSomeEnd(st.outbox, peers.members, socket, sent.value); }
    }

    /** The loop over the captured Set; it ends at the first other member that cannot be sent to. */
    method SendToOthers(socket: Socket, q: seq<Socket>, message: Text) returns (threw: bool)
      requires written == Wire(outbox) && Distinct(q) && forall s :: s in q ==> s in outbox
      modifies this`outbox, this`written
      ensures outbox == ToSome(old(outbox), q, |q|, socket, Rewritten(codec, message)) && written == Wire(outbox)
      ensures threw <==> Rewritten(codec, message) == None && exists s :: s in q && s != socket
    {
      ghost var before, sent := outbox, Rewritten(codec, message);
      ToSomeStart(before, q, socket, sent);
      for i := 0 to |q|
        invariant written == Wire(outbox) && outbox == ToSome(before, q, i, socket, sent)
        invariant sent.None? ==> forall j :: 0 <= j < i ==> q[j] == socket
      {
        var other := q[i];
        ToSomeStep(before, q, i, socket, sent);
        if other != socket {
          var ok := SendJson(other, message);
          if !ok {
            assert other in q && other != socket;
            return true;
          }
        }
      }
      threw := false;
    }

    /** `send(other, JSON.parse(message))`. */
    method SendJson(other: Socket, message: Text) returns (ok: bool)
      requires other in outbox && written == Wire(outbox)
      modifies this`outbox, this`written
      ensures written == Wire(outbox) && ok == Rewritten(codec, message).Some?
      ensures outbox == if ok then old(outbox)[other := old(outbox)[other] + [Relayed(Rewritten(codec, message).value)]]
                        else old(outbox)
    {
      var json := codec.parse(message);
      if json.None? { return false; }
      var text := codec.stringify(json.value);
      ok := Send(other, Relayed(text));
    }

    /** `error`: the connection has failed, and its `close` is still to come. */
    method OnError(socket: Socket)
      requires Valid() && socket in open
      modifies this, held.Keys
      ensures Valid() && run == old(run) + [Error(socket)]
    {
      CleanupExact(Value(), socket);
      LeaveSeat(socket);
      Extend(codec, run, Error(socket));
      run := run + [Error(socket)];
    }

    /** `close`, which cleans up for the second time if there was an `error`. */
    method OnClose(socket: Socket)
      requires Valid() && socket in seats && Close(socket) !in run
      modifies this, held.Keys
      ensures Follows() && run == old(run) + [Close(socket)]
      ensures Valid() <==> !Stale(old(Value()), socket)
    {
      CleanupExact(Value(), socket);
      LeaveSeat(socket);
      Extend(codec, run, Close(socket));
      run := run + [Close(socket)];
    }

    /** `cleanup`. */
    method LeaveSeat(socket: Socket)
      requires Current() && socket in seats && seats[socket].peers in held
      modifies this, held.Keys
      ensures Current() && Value() == Cleanup(old(Value()), socket)
      ensures written == old(written) && run == old(run)
    {
      var peers := seats[socket].peers;
      peers.members := Remove(peers.members, socket);
      held := held[peers := peers.members];
      if peers.members == [] {
        rooms := rooms - {seats[socket].room};
      }
      open := open - {socket};
    }

    /** `send`; framing throws when the text is too long. */
    method Send(socket: Socket, signal: Signal<Text>) returns (ok: bool)
      requires socket in outbox && written == Wire(outbox)
      modifies this`outbox, this`written
      ensures written == Wire(outbox) && ok == (|Utf8(TextOf(signal))| < MAX_PAYLOAD)
      ensures outbox == if ok then old(outbox)[socket := old(outbox)[socket] + [signal]] else old(outbox)
    {
      var frame := EncodeFrame(Utf8(TextOf(signal)));
      if frame.None? { return false; }
      WireSend(outbox, socket, signal);
      written := written[socket := written[socket] + [frame.value]];
      outbox := outbox[socket := outbox[socket] + [signal]];
      return true;
    }

    /** In every state that is reached without a disturbance a connection has been written exactly what it was
        due: the frames of its signals, by the history of the run alone. */
    lemma {:induction false} WrittenExact(socket: Socket)
      requires Follows() && Undisturbed(codec, run) && socket in seats
      ensures socket in written && written[socket] == FramesOf(Due(codec, run, socket))
    {
      UndisturbedSent(codec, run, socket);
    }
  }
}
