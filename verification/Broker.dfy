/** The broker program over all runs: connections, chunks of text, and closings, with the line parser of
    each connection feeding the tables. */
module Broker {
  import opened JsText
  import opened Framing
  import opened Options
  import opened PubSubText
  import opened Sequences
  import opened Subscriber
  import opened Topics

  /** The broker as a value; `open` are the sockets that have not closed. */
  datatype State<S> = State(desk: Desk<S>, buffers: map<S, Text>, received: map<S, Text>,
                            history: seq<Event<S>>, open: set<S>)

  /** The buffer of a socket is its unfinished line, and its commands are those of its finished lines. */
  ghost predicate FramedAt<S>(buffers: map<S, Text>, received: map<S, Text>, h: seq<Event<S>>, s: S) {
    && s in buffers && s in received && buffers[s] == Rest(received[s], NL)
    && CommandsOf(h, s) == Commands(Frames(received[s], NL))
  }

  ghost predicate FramedInv<S>(buffers: map<S, Text>, received: map<S, Text>, h: seq<Event<S>>) {
    forall s {:trigger FramedAt(buffers, received, h, s)} :: s in received ==> FramedAt(buffers, received, h, s)
  }

  /** Only open sockets are in a topic's set. */
  ghost predicate OpenInv<S(!new)>(h: seq<Event<S>>, open: set<S>) {
    forall s, t :: Subscribed(h, s, t) ==> s in open
  }

  ghost predicate EventsInv<S>(h: seq<Event<S>>, known: set<S>) {
    forall i :: 0 <= i < |h| ==>
      && h[i].socket in known
      && (h[i].Did? && h[i].command.Publish? ==> WellFormed(Delivery(h[i].command.topic, h[i].command.message)))
  }

  ghost predicate Inv<S(!new)>(st: State<S>) {
    && Refines(st.desk, st.history)
    && st.buffers.Keys == st.received.Keys == st.desk.written.Keys && st.open <= st.received.Keys
    && FramedInv(st.buffers, st.received, st.history)
    && OpenInv(st.history, st.open)
    && EventsInv(st.history, st.received.Keys)
  }

  function Connected<S(==)>(st: State<S>, s: S): State<S> {
    st.(desk := st.desk.(written := st.desk.written[s := []]), buffers := st.buffers[s := []],
        received := st.received[s := []], open := st.open + {s})
  }

  function Data<S(==, !new)>(st: State<S>, s: S, chunk: Text): State<S>
    requires s in st.buffers && s in st.received
  {
    var whole := st.buffers[s] + chunk;
    var cs := Commands(Frames(whole, NL));
    st.(desk := ActAll(st.desk, s, cs), buffers := st.buffers[s := Rest(whole, NL)],
        received := st.received[s := st.received[s] + chunk], history := st.history + EventsOf(s, cs))
  }

  function Closed<S(==, !new)>(st: State<S>, s: S): State<S> {
    st.(desk := Gone(st.desk, s), history := st.history + [Left(s)], open := st.open - {s})
  }

  lemma {:induction false} Unheard<S>(h: seq<Event<S>>, s: S)
    requires forall i :: 0 <= i < |h| ==> h[i].socket != s
    ensures CommandsOf(h, s) == [] && Deliveries(h, s) == [] && forall t :: !Subscribed(h, s, t)
  {
    if h == [] {
    } else {
      Unheard(h[..|h| - 1], s);
    }
  }

  lemma ConnectedInv<S(!new)>(st: State<S>, s: S)
    requires Inv(st) && s !in st.received
    ensures Inv(Connected(st, s))
  {
    ConnectedDesk(st, s);
    ConnectedText(st, s);
    ConnectedKeys(st, s);
    assert OpenInv(st.history, Connected(st, s).open);
  }

  lemma ConnectedDesk<S(!new)>(st: State<S>, s: S)
    requires Inv(st) && s !in st.received
    ensures Refines(Connected(st, s).desk, st.history)
  {
    ConnectedRefines(st.desk, st.history, st.received.Keys, s);
  }

  lemma ConnectedText<S(!new)>(st: State<S>, s: S)
    requires Inv(st) && s !in st.received
    ensures FramedInv(Connected(st, s).buffers, Connected(st, s).received, st.history)
  {
    ConnectedFramed(st.buffers, st.received, st.history, s);
  }

  lemma ConnectedKeys<S(!new)>(st: State<S>, s: S)
    requires Inv(st) && s !in st.received
    ensures var st' := Connected(st, s);
            && st'.buffers.Keys == st'.received.Keys == st'.desk.written.Keys && st'.open <= st'.received.Keys
            && EventsInv(st.history, st'.received.Keys)
  {
  }

  lemma ConnectedFramed<S>(buffers: map<S, Text>, received: map<S, Text>, h: seq<Event<S>>, s: S)
    requires FramedInv(buffers, received, h) && EventsInv(h, received.Keys) && s !in received
    ensures FramedInv(buffers[s := []], received[s := []], h)
  {
    Unheard(h, s);
    assert Frames([], NL) == [] && Rest([], NL) == [];
    var buffers', received' := buffers[s := []], received[s := []];
    forall s' | s' in received' ensures FramedAt(buffers', received', h, s') {
      assert s' != s ==> FramedAt(buffers, received, h, s');
    }
  }

  lemma ConnectedRefines<S(!new)>(d: Desk<S>, h: seq<Event<S>>, known: set<S>, s: S)
    requires Refines(d, h) && EventsInv(h, known) && s !in known && s !in d.written
    ensures Refines(d.(written := d.written[s := []]), h)
  {
    Unheard(h, s);
  }

  lemma {:induction false} NoneIgnored(lines: seq<Text>)
    ensures Ignored !in Commands(lines)
  {
    if lines == [] {
    } else {
      NoneIgnored(lines[1..]);
    }
  }

  lemma CommandsClean(lines: seq<Text>)
    requires forall l :: l in lines ==> NEWLINE !in l
    ensures forall c :: c in Commands(lines) && c.Publish? ==> WellFormed(Delivery(c.topic, c.message))
  {
    CommandsDeliverable(lines);
  }

  lemma DataInv<S(!new)>(st: State<S>, s: S, chunk: Text)
    requires Inv(st) && s in st.open
    ensures Inv(Data(st, s, chunk))
  {
    var lines := Frames(st.buffers[s] + chunk, NL);
    NoneIgnored(lines);
    ActAllRefines(st.desk, st.history, s, Commands(lines));
    DataFramed(st.buffers, st.received, st.history, s, chunk);
    forall s', t | s' != s
      ensures Subscribed(st.history + EventsOf(s, Commands(lines)), s', t) <==> Subscribed(st.history, s', t)
    {
      EventsSubscribed(st.history, s, Commands(lines), s', t);
    }
    FramesFree(st.buffers[s] + chunk, NEWLINE);
    CommandsClean(lines);
    DataEvents(st.history, st.received.Keys, s, Commands(lines));
  }

  lemma DataFramed<S>(buffers: map<S, Text>, received: map<S, Text>, h: seq<Event<S>>, s: S, chunk: Text)
    requires FramedInv(buffers, received, h) && s in received && s in buffers
    ensures var whole := buffers[s] + chunk;
            FramedInv(buffers[s := Rest(whole, NL)], received[s := received[s] + chunk],
                      h + EventsOf(s, Commands(Frames(whole, NL))))
  {
    var whole := buffers[s] + chunk;
    var cs := Commands(Frames(whole, NL));
    var buffers', received' := buffers[s := Rest(whole, NL)], received[s := received[s] + chunk];
    forall s' | s' in received' ensures FramedAt(buffers', received', h + EventsOf(s, cs), s') {
      assert FramedAt(buffers, received, h, s');
      EventsCommands(h, s, cs, s');
      if s' == s {
        CollectData(received[s], chunk, NL, CommandOf);
      }
    }
  }

  lemma {:induction false} DataEvents<S>(h: seq<Event<S>>, known: set<S>, s: S, cs: seq<Command>)
    requires EventsInv(h, known) && s in known
    requires forall c :: c in cs && c.Publish? ==> WellFormed(Delivery(c.topic, c.message))
    ensures EventsInv(h + EventsOf(s, cs), known)
  {
    if cs == [] {
      assert h + [] == h;
    } else {
      DataEvents(h, known, s, cs[..|cs| - 1]);
      EventsSnoc(h, s, cs);
    }
  }

  lemma ClosedInv<S(!new)>(st: State<S>, s: S)
    requires Inv(st) && s in st.open
    ensures Inv(Closed(st, s))
  {
    LeaveRefines(st.desk, st.history, s);
    ClosedFramed(st.buffers, st.received, st.history, s);
    ClosedOpen(st.history, st.open, s);
  }

  lemma ClosedFramed<S>(buffers: map<S, Text>, received: map<S, Text>, h: seq<Event<S>>, s: S)
    requires FramedInv(buffers, received, h)
    ensures FramedInv(buffers, received, h + [Left(s)])
  {
    forall s' | s' in received ensures FramedAt(buffers, received, h + [Left(s)], s') {
      assert FramedAt(buffers, received, h, s');
      CommandsSnoc(h, Left(s), s');
    }
  }

  lemma ClosedOpen<S(!new)>(h: seq<Event<S>>, open: set<S>, s: S)
    requires OpenInv(h, open)
    ensures OpenInv(h + [Left(s)], open - {s})
  {
    forall s', t | Subscribed(h + [Left(s)], s', t) ensures s' in open - {s} {
      SubscribedSnoc(h, Left(s), s', t);
    }
  }

  /** A closed socket is in no topic's set. */
  lemma ClosedNowhere<S(!new)>(st: State<S>, s: S, t: Topic)
    requires Inv(st) && s in st.received && s !in st.open
    ensures !Listens(st.desk, s, t)
  {
    assert Listens(st.desk, s, t) <==> Subscribed(st.history, s, t);
  }

  lemma {:induction false} DeliveriesClean<S>(h: seq<Event<S>>, s: S)
    requires forall i :: 0 <= i < |h| && h[i].Did? && h[i].command.Publish? ==>
               WellFormed(Delivery(h[i].command.topic, h[i].command.message))
    ensures forall i :: 0 <= i < |Deliveries(h, s)| ==> WellFormed(Deliveries(h, s)[i])
  {
    if h == [] {
    } else {
      DeliveriesClean(h[..|h| - 1], s);
    }
  }

  /** End to end, over every run and every chunking of both hops. The one line of a publisher is the one
      publish in the history exactly as it was given, just when it is deliverable; and a subscriber that has
      received some of the text written to its socket `s` has printed a first part of the publishes made
      while `s` was subscribed, in order, once each, and unchanged. */
  lemma {:induction false} EndToEnd<S(!new)>(st: State<S>, p: S, topic: Text, message: Text, s: S, arrived: Text)
    requires Inv(st) && p in st.received && s in st.received
    requires st.received[p] == PublishBody(topic, message) + NL
    requires arrived <= st.desk.written[s]
    ensures CommandsOf(st.history, p) == [Publish(Some(topic), message)] <==> Deliverable(topic, message)
    ensures Shown(Frames(arrived, NL)) <= Faithful(Deliveries(st.history, s))
    ensures arrived == st.desk.written[s] ==> Shown(Frames(arrived, NL)) == Faithful(Deliveries(st.history, s))
  {
    assert FramedAt(st.buffers, st.received, st.history, p);
    PublishExact(topic, message);
    DeliveriesClean(st.history, s);
    PrintsDeliveries(Deliveries(st.history, s), arrived);
  }

  lemma {:induction false} NoCommand<S>(h: seq<Event<S>>, p: S)
    requires CommandsOf(h, p) == []
    ensures forall j :: 0 <= j < |h| ==> !(h[j].Did? && h[j].socket == p)
  {
    if h == [] {
    } else {
      var m := |h| - 1;
      NoCommand(h[..m], p);
      assert forall j :: 0 <= j < m ==> h[..m][j] == h[j];
    }
  }

  /** The only command of a socket has its one place in the history. */
  lemma {:induction false} OnlyCommand<S>(h: seq<Event<S>>, p: S, c: Command) returns (i: nat)
    requires CommandsOf(h, p) == [c]
    ensures i < |h| && h[i] == Did(p, c)
    ensures forall j :: 0 <= j < |h| && h[j].Did? && h[j].socket == p ==> j == i
  {
    var m := |h| - 1;
    if h[m].Did? && h[m].socket == p {
      i := m;
      assert CommandsOf(h, p)[|CommandsOf(h[..m], p)|] == h[m].command;
      NoCommand(h[..m], p);
    } else {
      i := OnlyCommand(h[..m], p, c);
    }
    assert forall j :: 0 <= j < m ==> h[..m][j] == h[j];
  }

  /** Deliveries are never taken back. */
  lemma {:induction false} DeliveriesGrow<S>(h: seq<Event<S>>, s: S, j: nat)
    requires j <= |h|
    ensures Deliveries(h[..j], s) <= Deliveries(h, s)
  {
    if j < |h| {
      DeliveriesGrow(h[..|h| - 1], s, j);
      assert h[..|h| - 1][..j] == h[..j];
    } else {
      assert h[..j] == h;
    }
  }

  lemma FaithfulGrow(a: seq<Delivery>, b: seq<Delivery>)
    requires a <= b
    ensures Faithful(a) <= Faithful(b)
  {
  }

  lemma FaithfulAppend(a: seq<Delivery>, b: seq<Delivery>)
    ensures Faithful(a + b) == Faithful(a) + Faithful(b)
  {
  }

  lemma DeliveriesTo<S>(h: seq<Event<S>>, s: S, i: nat)
    requires i < |h|
    ensures Deliveries(h[..i + 1], s) == Deliveries(h[..i], s) + DeliveryOf(h[..i], h[i], s)
  {
    assert h[..i + 1][..i] == h[..i];
  }

  /** The delivery of one publish, for one socket. */
  lemma {:induction false} DeliveredAt<S>(h: seq<Event<S>>, s: S, i: nat)
    requires i < |h|
    ensures Faithful(Deliveries(h[..i], s)) + Faithful(DeliveryOf(h[..i], h[i], s)) <= Faithful(Deliveries(h, s))
  {
    DeliveriesGrow(h, s, i + 1);
    DeliveriesTo(h, s, i);
    FaithfulGrow(Deliveries(h[..i + 1], s), Deliveries(h, s));
    FaithfulAppend(Deliveries(h[..i], s), DeliveryOf(h[..i], h[i], s));
  }

  /** Round trip, publisher to broker to subscriber. What a publisher was given on its command line, if it is
      deliverable, is one publish at one place `i` of the history; and a subscriber prints, behind all that its
      socket was due before `i`, exactly that topic and message if it was subscribed at `i`, and otherwise
      nothing for it. */
  lemma RoundTrip<S(!new)>(st: State<S>, p: S, args: seq<Text>, s: S) returns (i: nat)
    requires Inv(st) && p in st.received && s in st.received
    requires PublisherLine(args) == Some(st.received[p])
    requires Deliverable(args[0], Join(args[1..], SPACE))
    ensures var topic, message := args[0], Join(args[1..], SPACE);
            && i < |st.history| && st.history[i] == Did(p, Publish(Some(topic), message))
            && (forall j :: 0 <= j < |st.history| && st.history[j].Did? && st.history[j].socket == p ==> j == i)
            && Faithful(Deliveries(st.history[..i], s))
               + (if Subscribed(st.history[..i], s, Some(topic)) then [Printed(topic, message)] else [])
               <= Shown(Frames(st.desk.written[s], NL))
  {
    var topic, message := args[0], Join(args[1..], SPACE);
    EndToEnd(st, p, topic, message, s, st.desk.written[s]);
    i := OnlyCommand(st.history, p, Publish(Some(topic), message));
    DeliveredAt(st.history, s, i);
    assert Faithful([Delivery(Some(topic), message)]) == [Printed(topic, message)];
  }

  class Server<S(==, !new)> {
    var subscribers: map<Topic, seq<S>>
    var buffers: map<S, Text>
    var written: map<S, Text>
    ghost var received: map<S, Text>
    ghost var history: seq<Event<S>>
    ghost var open: set<S>

    ghost function Value(): State<S>
      reads this
    {
      State(Desk(subscribers, written), buffers, received, history, open)
    }

    ghost predicate Valid()
      reads this
    {
      Inv(Value())
    }

    constructor ()
      ensures Valid() && Value() == State(Desk(map[], map[]), map[], map[], [], {})
    {
      subscribers, buffers, written, received, history, open := map[], map[], map[], map[], [], {};
    }

    method Subscribe(socket: S, topic: Topic)
      modifies this`subscribers
      ensures Desk(subscribers, written) == Joined(old(Desk(subscribers, written)), socket, topic)
    {
      if topic !in subscribers {
        subscribers := subscribers[topic := []];
      }
      subscribers := subscribers[topic := Add(subscribers[topic], socket)];
    }

    method UnsubscribeAll(socket: S)
      modifies this`subscribers
      ensures subscribers == Without(old(subscribers), socket)
    {
      var topics := subscribers.Keys;
      while topics != {}
        invariant topics <= subscribers.Keys == old(subscribers).Keys
        invariant forall t :: t in subscribers ==>
          subscribers[t] == if t in topics then old(subscribers)[t] else Remove(old(subscribers)[t], socket)
        decreases topics
      {
        var topic :| topic in topics;
        subscribers := subscribers[topic := Remove(subscribers[topic], socket)];
        topics := topics - {topic};
      }
    }

    method Publish(topic: Topic, message: Text)
      requires topic in subscribers ==> Distinct(subscribers[topic])
      requires topic in subscribers ==> forall s :: s in subscribers[topic] ==> s in written
      modifies this`written
      ensures Desk(subscribers, written) == Published(old(Desk(subscribers, written)), topic, message)
    {
      var sockets := if topic in subscribers then subscribers[topic] else [];
      var line := MsgBody(Delivery(topic, message)) + NL;
      for i := 0 to |sockets|
        invariant written.Keys == old(written).Keys
        invariant forall s :: s in written ==>
          written[s] == if s in sockets[..i] then old(written)[s] + line else old(written)[s]
      {
        var socket := sockets[i];
        assert socket !in sockets[..i];
        written := written[socket := written[socket] + line];
      }
      assert sockets[..|sockets|] == sockets;
    }

    method OnConnection(s: S)
      requires Valid() && s !in received
      modifies this
      ensures Valid() && Value() == Connected(old(Value()), s)
      ensures received == old(received)[s := []] && open == old(open) + {s} && history == old(history)
    {
      ghost var after := Connected(Value(), s);
      ConnectedInv(Value(), s);
      written := written[s := []];
      buffers := buffers[s := []];
      received := received[s := []];
      open := open + {s};
      assert Value() == after;
    }

    method OnData(s: S, chunk: Text)
      requires Valid() && s in open
      modifies this
      ensures Valid() && Value() == Data(old(Value()), s, chunk)
      ensures received == old(received)[s := old(received)[s] + chunk] && open == old(open)
    {
      ghost var after := Data(Value(), s, chunk);
      DataInv(Value(), s, chunk);
      HandleLines(s, buffers[s] + chunk);
      received := received[s := received[s] + chunk];
      assert Value() == after;
    }

    method Obey(s: S, command: Command)
      requires s in written && SetsInv(Desk(subscribers, written))
      modifies this`subscribers, this`written
      ensures Desk(subscribers, written) == Act(old(Desk(subscribers, written)), s, command)
      ensures s in written && SetsInv(Desk(subscribers, written))
    {
      match command {
        case Subscribe(topic) =>
          SetsStep(Desk(subscribers, written), s, topic, []);
          Subscribe(s, topic);
        case Publish(topic, message) =>
          SetsStep(Desk(subscribers, written), s, topic, message);
          Publish(topic, message);
        case Ignored =>
      }
    }

    /** One round of the loop. */
    method HandleLine(s: S, raw: Text)
      requires s in written && SetsInv(Desk(subscribers, written))
      modifies this`subscribers, this`written, this`history
      ensures Desk(subscribers, written) == ActAll(old(Desk(subscribers, written)), s, CommandOf(raw))
      ensures history == old(history) + EventsOf(s, CommandOf(raw))
      ensures s in written && SetsInv(Desk(subscribers, written))
    {
      var command := ParseLine(raw);
      if command.Ignored? { return; }
      Obey(s, command);
      history := history + [Did(s, command)];
    }

    /** The loop of the `data` handler: obey line after line. */
    method HandleLines(s: S, whole: Text)
      requires s in written && SetsInv(Desk(subscribers, written))
      modifies this`subscribers, this`written, this`buffers, this`history
      ensures var cs := Commands(Frames(whole, NL));
              && Desk(subscribers, written) == ActAll(old(Desk(subscribers, written)), s, cs)
              && history == old(history) + EventsOf(s, cs)
      ensures buffers == old(buffers)[s := Rest(whole, NL)]
    {
      var buffer := whole;
      ghost var cs := [];
      assert history == history + EventsOf(s, []);
      var newlineIndex := IndexOf(buffer, NL);
      while newlineIndex != -1
        invariant newlineIndex == IndexOf(buffer, NL) && buffers == old(buffers)
        invariant Rest(whole, NL) == Rest(buffer, NL)
        invariant Commands(Frames(whole, NL)) == cs + Commands(Frames(buffer, NL))
        invariant Desk(subscribers, written) == ActAll(old(Desk(subscribers, written)), s, cs)
        invariant history == old(history) + EventsOf(s, cs)
        invariant s in written && SetsInv(Desk(subscribers, written))
        decreases |buffer|
      {
        CollectStep(buffer, NL, newlineIndex, CommandOf, cs);
        var raw := buffer[..newlineIndex];
        ActOneMore(old(Desk(subscribers, written)), old(history), s, cs, CommandOf(raw));
        buffer := buffer[newlineIndex + 1..];
        newlineIndex := IndexOf(buffer, NL);
        HandleLine(s, raw);
        cs := cs + CommandOf(raw);
      }
      assert Commands(Frames(buffer, NL)) == [] && cs + [] == cs;
      buffers := buffers[s := buffer];
    }

    method OnClose(s: S)
      requires Valid() && s in open
      modifies this
      ensures Valid() && Value() == Closed(old(Value()), s)
      ensures received == old(received) && open == old(open) - {s} && history == old(history) + [Left(s)]
    {
      ghost var after := Closed(Value(), s);
      ClosedInv(Value(), s);
      UnsubscribeAll(s);
      history := history + [Left(s)];
      open := open - {s};
      assert Value() == after;
    }
  }
}
