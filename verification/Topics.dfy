/** The pub/sub broker: a map from topics to sets of sockets, and a line parser for each connection,
    measured against the plain history of what each socket did. */
module Topics {
  import opened JsText
  import opened Options
  import opened PubSubText
  import opened Sequences
  import opened Subscriber

  /** The reference: what happened, in order. */
  datatype Event<S> = Did(socket: S, command: Command) | Left(socket: S)

  ghost predicate Subscribed<S>(h: seq<Event<S>>, s: S, t: Topic) {
    if h == [] then false
    else
      var m := |h| - 1;
      if h[m] == Did(s, Subscribe(t)) then true
      else if h[m] == Left(s) then false
      else Subscribed(h[..m], s, t)
  }

  /** The publishes made while `s` was subscribed to their topic, in order. */
  ghost function Deliveries<S>(h: seq<Event<S>>, s: S): seq<Delivery> {
    if h == [] then []
    else
      var m := |h| - 1;
      Deliveries(h[..m], s) + DeliveryOf(h[..m], h[m], s)
  }

  ghost function DeliveryOf<S>(h: seq<Event<S>>, e: Event<S>, s: S): seq<Delivery> {
    if e.Did? && e.command.Publish? && Subscribed(h, s, e.command.topic)
    then [Delivery(e.command.topic, e.command.message)] else []
  }

  ghost function CommandsOf<S>(h: seq<Event<S>>, s: S): seq<Command> {
    if h == [] then []
    else
      var m := |h| - 1;
      CommandsOf(h[..m], s) + (if h[m].Did? && h[m].socket == s then [h[m].command] else [])
  }

  /** Event number `i` is a subscription that still holds at the end. */
  ghost predicate Standing<S>(h: seq<Event<S>>, s: S, t: Topic, i: nat) {
    && i < |h| && h[i] == Did(s, Subscribe(t))
    && forall j :: i < j < |h| ==> h[j] != Left(s)
  }

  /** Being subscribed: having asked for the topic and not having left since. */
  lemma {:induction false} SubscribedMeans<S>(h: seq<Event<S>>, s: S, t: Topic)
    ensures Subscribed(h, s, t) <==> exists i :: Standing(h, s, t, i)
  {
    if h == [] {
    } else {
      var m := |h| - 1;
      SubscribedMeans(h[..m], s, t);
      assert Standing(h, s, t, m) <==> h[m] == Did(s, Subscribe(t));
      forall i: nat | i < m ensures Standing(h, s, t, i) <==> Standing(h[..m], s, t, i) && h[m] != Left(s) {
        StandingStep(h, s, t, i);
      }
    }
  }

  lemma StandingStep<S>(h: seq<Event<S>>, s: S, t: Topic, i: nat)
    requires i < |h| - 1
    ensures Standing(h, s, t, i) <==> Standing(h[..|h| - 1], s, t, i) && h[|h| - 1] != Left(s)
  {
    var m := |h| - 1;
    assert forall j :: i < j < m ==> h[..m][j] == h[j];
  }

  /** Event number `i` is a publish to a topic that `s` has a standing subscription to. */
  ghost predicate IsDue<S>(h: seq<Event<S>>, s: S, i: nat) {
    i < |h| && h[i].Did? && h[i].command.Publish? && exists j :: Standing(h[..i], s, h[i].command.topic, j)
  }

  /** Event number `i` is the publish that `d` is. */
  ghost predicate Delivers<S>(h: seq<Event<S>>, i: nat, d: Delivery) {
    i < |h| && h[i].Did? && h[i].command == Publish(d.topic, d.message)
  }

  /** The deliveries are exactly those publishes, in order. */
  lemma {:induction false} DeliveriesExact<S>(h: seq<Event<S>>, s: S) returns (at: seq<nat>)
    ensures Picks(at, |h|, (i: nat) => IsDue(h, s, i))
    ensures |Deliveries(h, s)| == |at|
    ensures forall k :: 0 <= k < |at| ==> Delivers(h, at[k], Deliveries(h, s)[k])
  {
    if h == [] {
      at := [];
    } else {
      var m := |h| - 1;
      var before := DeliveriesExact(h[..m], s);
      at := DueMore(h, s, before);
      DueLast(h, s);
      DeliversMore(h, before, Deliveries(h[..m], s), IsDue(h, s, m));
    }
  }

  lemma DeliversMore<S>(h: seq<Event<S>>, at: seq<nat>, ds: seq<Delivery>, more: bool)
    requires h != [] && |at| == |ds| && (more ==> h[|h| - 1].Did? && h[|h| - 1].command.Publish?)
    requires forall k :: 0 <= k < |at| ==> Delivers(h[..|h| - 1], at[k], ds[k])
    ensures if more
            then var last := h[|h| - 1].command;
                 var at', ds' := at + [|h| - 1], ds + [Delivery(last.topic, last.message)];
                 forall k :: 0 <= k < |at'| ==> Delivers(h, at'[k], ds'[k])
            else forall k :: 0 <= k < |at| ==> Delivers(h, at[k], ds[k])
  {
    forall k | 0 <= k < |at| ensures Delivers(h, at[k], ds[k]) {
      assert Delivers(h[..|h| - 1], at[k], ds[k]);
    }
  }

  lemma DueMore<S>(h: seq<Event<S>>, s: S, before: seq<nat>) returns (at: seq<nat>)
    requires h != [] && Picks(before, |h| - 1, (i: nat) => IsDue(h[..|h| - 1], s, i))
    ensures at == if IsDue(h, s, |h| - 1) then before + [|h| - 1] else before
    ensures Picks(at, |h|, (i: nat) => IsDue(h, s, i))
  {
    var m := |h| - 1;
    forall i: nat | i < m ensures IsDue(h[..m], s, i) == IsDue(h, s, i) {
      DueBefore(h, s, i);
    }
    at := PicksMore(before, m, (i: nat) => IsDue(h[..m], s, i), (i: nat) => IsDue(h, s, i));
  }

  lemma DueBefore<S>(h: seq<Event<S>>, s: S, i: nat)
    requires i < |h| - 1
    ensures IsDue(h[..|h| - 1], s, i) == IsDue(h, s, i)
  {
    assert h[..|h| - 1][..i] == h[..i];
  }

  lemma {:induction false} DueLast<S>(h: seq<Event<S>>, s: S)
    requires h != []
    ensures var m := |h| - 1;
            if IsDue(h, s, m)
            then Deliveries(h, s) == Deliveries(h[..m], s) + [Delivery(h[m].command.topic, h[m].command.message)]
            else Deliveries(h, s) == Deliveries(h[..m], s)
  {
    var m := |h| - 1;
    if h[m].Did? && h[m].command.Publish? { SubscribedMeans(h[..m], s, h[m].command.topic); }
  }

  /** The broker's tables: the sockets of each topic in the order in which they joined, and the text
      written to each socket. */
  datatype Desk<S> = Desk(subscribers: map<Topic, seq<S>>, written: map<S, Text>)

  predicate Listens<S(==, !new)>(d: Desk<S>, s: S, t: Topic) { t in d.subscribers && s in d.subscribers[t] }

  /** Set.add on an insertion-ordered set. */
  function Add<S(==, !new)>(q: seq<S>, s: S): (r: seq<S>)
    ensures Distinct(q) ==> Distinct(r)
    ensures forall x :: x in r <==> x in q || x == s
  {
    if s in q then q else q + [s]
  }

  function Joined<S(==, !new)>(d: Desk<S>, s: S, t: Topic): Desk<S> {
    d.(subscribers := d.subscribers[t := Add(if t in d.subscribers then d.subscribers[t] else [], s)])
  }

  function Published<S(==, !new)>(d: Desk<S>, t: Topic, message: Text): Desk<S> {
    d.(written := map s | s in d.written ::
         if Listens(d, s, t) then d.written[s] + (MsgBody(Delivery(t, message)) + NL) else d.written[s])
  }

  function Gone<S(==, !new)>(d: Desk<S>, s: S): Desk<S> {
    d.(subscribers := Without(d.subscribers, s))
  }

  function Without<S(==, !new)>(subscribers: map<Topic, seq<S>>, s: S): map<Topic, seq<S>> {
    map t | t in subscribers :: Remove(subscribers[t], s)
  }

  function Act<S(==, !new)>(d: Desk<S>, s: S, c: Command): Desk<S> {
    match c
    case Subscribe(t) => Joined(d, s, t)
    case Publish(t, m) => Published(d, t, m)
    case Ignored => d
  }

  /** Topic sets hold known sockets, once each. */
  ghost predicate SetsInv<S>(d: Desk<S>) {
    && (forall t :: t in d.subscribers ==> Distinct(d.subscribers[t]))
    && (forall t, s :: t in d.subscribers && s in d.subscribers[t] ==> s in d.written)
  }

  /** The topic sets are the subscription relation. */
  ghost predicate ListenInv<S(!new)>(d: Desk<S>, h: seq<Event<S>>) {
    forall s, t :: Listens(d, s, t) <==> Subscribed(h, s, t)
  }

  /** Every socket has been written exactly its deliveries. */
  ghost predicate WrittenInv<S>(written: map<S, Text>, h: seq<Event<S>>) {
    forall s {:trigger Deliveries(h, s)} :: s in written ==> written[s] == Wire(Deliveries(h, s))
  }

  /** The tables follow the history. */
  ghost predicate Refines<S(!new)>(d: Desk<S>, h: seq<Event<S>>) {
    SetsInv(d) && ListenInv(d, h) && WrittenInv(d.written, h)
  }

  /** One more event. */
  lemma {:induction false} SubscribedSnoc<S>(h: seq<Event<S>>, e: Event<S>, s: S, t: Topic)
    ensures Subscribed(h + [e], s, t) <==> e == Did(s, Subscribe(t)) || (e != Left(s) && Subscribed(h, s, t))
  {
    assert (h + [e])[..|h|] == h;
  }

  lemma {:induction false} DeliveriesSnoc<S>(h: seq<Event<S>>, e: Event<S>, s: S)
    ensures Deliveries(h + [e], s) == Deliveries(h, s) + DeliveryOf(h, e, s)
  {
    assert (h + [e])[..|h|] == h;
  }

  lemma {:induction false} CommandsSnoc<S>(h: seq<Event<S>>, e: Event<S>, s: S)
    ensures CommandsOf(h + [e], s)
            == if e.Did? && e.socket == s then CommandsOf(h, s) + [e.command] else CommandsOf(h, s)
  {
    assert (h + [e])[..|h|] == h;
    assert CommandsOf(h, s) + [] == CommandsOf(h, s);
  }

  lemma {:induction false} WireDelivery(ds: seq<Delivery>, d: Delivery)
    ensures Wire(ds + [d]) == Wire(ds) + (MsgBody(d) + NL)
  {
    assert (ds + [d])[..|ds|] == ds;
  }

  /** Nothing is written but on a publish. */
  lemma WrittenSame<S>(written: map<S, Text>, h: seq<Event<S>>, e: Event<S>)
    requires WrittenInv(written, h) && !(e.Did? && e.command.Publish?)
    ensures WrittenInv(written, h + [e])
  {
    forall s | s in written ensures Deliveries(h + [e], s) == Deliveries(h, s) {
      DeliveriesSnoc(h, e, s);
    }
  }

  lemma WrittenPublish<S(!new)>(d: Desk<S>, h: seq<Event<S>>, s: S, t: Topic, message: Text)
    requires ListenInv(d, h) && WrittenInv(d.written, h)
    ensures WrittenInv(Published(d, t, message).written, h + [Did(s, Publish(t, message))])
  {
    var e := Did(s, Publish(t, message));
    forall s' | s' in d.written
      ensures Wire(Deliveries(h + [e], s'))
              == if Listens(d, s', t) then d.written[s'] + (MsgBody(Delivery(t, message)) + NL) else d.written[s']
    {
      DeliveriesSnoc(h, e, s');
      WireDelivery(Deliveries(h, s'), Delivery(t, message));
      assert Listens(d, s', t) <==> Subscribed(h, s', t);
      assert Deliveries(h, s') + [] == Deliveries(h, s');
    }
  }

  lemma ListenJoin<S(!new)>(d: Desk<S>, h: seq<Event<S>>, s: S, t: Topic)
    requires ListenInv(d, h)
    ensures ListenInv(Joined(d, s, t), h + [Did(s, Subscribe(t))])
  {
    var e := Did(s, Subscribe(t));
    forall s', t' ensures Listens(Joined(d, s, t), s', t') <==> Subscribed(h + [e], s', t') {
      SubscribedSnoc(h, e, s', t');
      assert Listens(d, s', t') <==> Subscribed(h, s', t');
    }
  }

  lemma ListenPublish<S(!new)>(d: Desk<S>, h: seq<Event<S>>, s: S, t: Topic, message: Text)
    requires ListenInv(d, h)
    ensures ListenInv(Published(d, t, message), h + [Did(s, Publish(t, message))])
  {
    var e := Did(s, Publish(t, message));
    forall s', t' ensures Listens(Published(d, t, message), s', t') <==> Subscribed(h + [e], s', t') {
      SubscribedSnoc(h, e, s', t');
      assert Listens(d, s', t') <==> Subscribed(h, s', t');
    }
  }

  lemma ListenLeave<S(!new)>(d: Desk<S>, h: seq<Event<S>>, s: S)
    requires ListenInv(d, h)
    ensures ListenInv(Gone(d, s), h + [Left(s)])
  {
    forall s', t' ensures Listens(Gone(d, s), s', t') <==> Subscribed(h + [Left(s)], s', t') {
      SubscribedSnoc(h, Left(s), s', t');
      assert Listens(d, s', t') <==> Subscribed(h, s', t');
    }
  }

  lemma SetsStep<S(!new)>(d: Desk<S>, s: S, t: Topic, message: Text)
    requires SetsInv(d) && s in d.written
    ensures SetsInv(Joined(d, s, t)) && SetsInv(Published(d, t, message)) && SetsInv(Gone(d, s))
  {
  }

  /** A subscription, even a repeated one, joins the topic once; a publish is written once to every
      subscriber and to nobody else; a socket that closes is in no set any more. */
  lemma JoinRefines<S(!new)>(d: Desk<S>, h: seq<Event<S>>, s: S, t: Topic)
    requires Refines(d, h) && s in d.written
    ensures Refines(Joined(d, s, t), h + [Did(s, Subscribe(t))])
  {
    SetsStep(d, s, t, []);
    ListenJoin(d, h, s, t);
    WrittenSame(d.written, h, Did(s, Subscribe(t)));
  }

  lemma PublishRefines<S(!new)>(d: Desk<S>, h: seq<Event<S>>, s: S, t: Topic, message: Text)
    requires Refines(d, h) && s in d.written
    ensures Refines(Published(d, t, message), h + [Did(s, Publish(t, message))])
  {
    SetsStep(d, s, t, message);
    ListenPublish(d, h, s, t, message);
    WrittenPublish(d, h, s, t, message);
  }

  lemma LeaveRefines<S(!new)>(d: Desk<S>, h: seq<Event<S>>, s: S)
    requires Refines(d, h) && s in d.written
    ensures Refines(Gone(d, s), h + [Left(s)])
  {
    SetsStep(d, s, None, []);
    ListenLeave(d, h, s);
    WrittenSame(d.written, h, Left(s));
  }

  /** A list of commands of one socket: their effect, and the events they are. */
  function ActAll<S(==, !new)>(d: Desk<S>, s: S, cs: seq<Command>): Desk<S> {
    if cs == [] then d
    else
      var m := |cs| - 1;
      Act(ActAll(d, s, cs[..m]), s, cs[m])
  }

  function EventsOf<S>(s: S, cs: seq<Command>): seq<Event<S>> {
    if cs == [] then []
    else
      var m := |cs| - 1;
      EventsOf(s, cs[..m]) + [Did(s, cs[m])]
  }

  lemma {:induction false} EventsSnoc<S>(h: seq<Event<S>>, s: S, cs: seq<Command>)
    requires cs != []
    ensures var m := |cs| - 1;
            h + EventsOf(s, cs) == h + EventsOf(s, cs[..m]) + [Did(s, cs[m])]
  {
  }

  /** The commands of one more line, of which there is at most one. */
  lemma {:induction false} ActOneMore<S(!new)>(d: Desk<S>, h: seq<Event<S>>, s: S, cs: seq<Command>, one: seq<Command>)
    requires |one| <= 1
    ensures ActAll(d, s, cs + one) == ActAll(ActAll(d, s, cs), s, one)
    ensures h + EventsOf(s, cs + one) == h + EventsOf(s, cs) + EventsOf(s, one)
  {
    if one == [] {
      assert cs + one == cs;
    } else {
      assert (cs + one)[..|cs|] == cs;
      EventsSnoc(h, s, cs + one);
      assert EventsOf(s, one) == [Did(s, one[0])];
    }
  }

  lemma ActRefines<S(!new)>(d: Desk<S>, h: seq<Event<S>>, s: S, c: Command)
    requires Refines(d, h) && s in d.written && !c.Ignored?
    ensures Refines(Act(d, s, c), h + [Did(s, c)]) && Act(d, s, c).written.Keys == d.written.Keys
  {
    match c
    case Subscribe(t) => JoinRefines(d, h, s, t);
    case Publish(t, m) => PublishRefines(d, h, s, t, m);
  }

  lemma {:induction false} ActAllRefines<S(!new)>(d: Desk<S>, h: seq<Event<S>>, s: S, cs: seq<Command>)
    requires Refines(d, h) && s in d.written && Ignored !in cs
    ensures Refines(ActAll(d, s, cs), h + EventsOf(s, cs))
    ensures ActAll(d, s, cs).written.Keys == d.written.Keys
  {
    if cs == [] {
      assert h + [] == h;
    } else {
      var m := |cs| - 1;
      ActAllRefines(d, h, s, cs[..m]);
      EventsSnoc(h, s, cs);
      ActRefines(ActAll(d, s, cs[..m]), h + EventsOf(s, cs[..m]), s, cs[m]);
    }
  }

  /** The events of one socket are its commands, and they touch no other socket's. */
  lemma {:induction false} EventsCommands<S>(h: seq<Event<S>>, s: S, cs: seq<Command>, s': S)
    ensures CommandsOf(h + EventsOf(s, cs), s') == if s == s' then CommandsOf(h, s') + cs else CommandsOf(h, s')
  {
    if cs == [] {
      assert h + [] == h;
      assert CommandsOf(h, s') + [] == CommandsOf(h, s');
    } else {
      var m := |cs| - 1;
      EventsCommands(h, s, cs[..m], s');
      EventsSnoc(h, s, cs);
      CommandsSnoc(h + EventsOf(s, cs[..m]), Did(s, cs[m]), s');
      AppendLast(CommandsOf(h, s'), cs);
    }
  }

  lemma {:induction false} EventsSubscribed<S>(h: seq<Event<S>>, s: S, cs: seq<Command>, s': S, t: Topic)
    requires s != s'
    ensures Subscribed(h + EventsOf(s, cs), s', t) <==> Subscribed(h, s', t)
  {
    if cs == [] {
      assert h + [] == h;
    } else {
      var m := |cs| - 1;
      EventsSubscribed(h, s, cs[..m], s', t);
      EventsSnoc(h, s, cs);
      SubscribedSnoc(h + EventsOf(s, cs[..m]), Did(s, cs[m]), s', t);
    }
  }
}
