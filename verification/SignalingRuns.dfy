/** Whole runs of the signaling server: joins, messages, and each connection's `error`, if it has one, and then
    its `close`; both run the cleanup. */
module SignalingRuns {
  import opened JsText
  import opened Sequences
  import opened Signaling

  /** `made` is the Set object that a join makes if the room has none. */
  datatype Event<S, P> =
    | Join(socket: S, room: Text, made: P)
    | Say(socket: S, message: Text)
    | Error(socket: S)
    | Close(socket: S)

  ghost predicate CanClean<S, P>(st: State<S, P, Text>, s: S) {
    s in st.seats && st.seats[s].peers in st.members
  }

  ghost function Next<S(!new), P, Json>(codec: Codec<Json>, st: State<S, P, Text>, e: Event<S, P>): State<S, P, Text> {
    match e
    case Join(s, room, made) => Enter(st, s, room, made)
    case Say(s, message) => if CanClean(st, s) then Heard(codec, st, s, message) else st
    case Error(s) => if CanClean(st, s) then Cleanup(st, s) else st
    case Close(s) => if CanClean(st, s) then Cleanup(st, s) else st
  }

  ghost function Run<S(!new), P, Json>(codec: Codec<Json>, run: seq<Event<S, P>>): State<S, P, Text> {
    if run == [] then NobodyYet() else Next(codec, Run(codec, run[..|run| - 1]), run[|run| - 1])
  }

  /** A connection joins once, fails at most once, and closes at most once, which is its last event. */
  ghost predicate Enabled<S(!new), P, Json>(codec: Codec<Json>, before: seq<Event<S, P>>, e: Event<S, P>) {
    var st := Run(codec, before);
    match e
    case Join(s, room, made) => s !in st.seats && (room !in st.rooms ==> made !in st.members)
    case Say(s, _) => s in st.open
    case Error(s) => s in st.open
    case Close(s) => s in st.seats && Close(s) !in before
  }

  ghost predicate Possible<S(!new), P, Json>(codec: Codec<Json>, run: seq<Event<S, P>>) {
    run != [] ==> Possible(codec, run[..|run| - 1]) && Enabled(codec, run[..|run| - 1], run[|run| - 1])
  }

  /** The connections between their `error` and their `close`. */
  ghost function Failing<S, P>(run: seq<Event<S, P>>): set<S> {
    if run == [] then {}
    else
      var e, before := run[|run| - 1], Failing(run[..|run| - 1]);
      if e.Error? then before + {e.socket} else if e.Close? then before - {e.socket} else before
  }

  ghost predicate FailedAt<S, P>(run: seq<Event<S, P>>, s: S, i: nat) {
    i < |run| && run[i] == Error(s) && forall c :: i < c < |run| ==> run[c] != Close(s)
  }

  lemma {:induction false} FailingMeans<S, P>(run: seq<Event<S, P>>, s: S)
    ensures s in Failing(run) <==> exists i :: FailedAt(run, s, i)
  {
    if run == [] {
    } else {
      var m := |run| - 1;
      FailingMeans(run[..m], s);
      forall i: nat | i < m ensures FailedAt(run, s, i) <==> FailedAt(run[..m], s, i) && run[m] != Close(s) {
        assert forall c :: i < c < m ==> run[..m][c] == run[c];
      }
      assert FailedAt(run, s, m) <==> run[m] == Error(s);
    }
  }

  /** Another joins the room of `s`, which is between its `error` and its `close`. */
  ghost predicate DisturbedBy<S(!new), P, Json>(codec: Codec<Json>, before: seq<Event<S, P>>, e: Event<S, P>, s: S) {
    e.Join? && s in Failing(before) && s in Run(codec, before).seats && Run(codec, before).seats[s].room == e.room
  }

  ghost predicate Calm<S(!new), P, Json>(codec: Codec<Json>, before: seq<Event<S, P>>, e: Event<S, P>) {
    forall s :: !DisturbedBy(codec, before, e, s)
  }

  /** No connection is between its `error` and its `close` when another joins its room. */
  ghost predicate Undisturbed<S(!new), P, Json>(codec: Codec<Json>, run: seq<Event<S, P>>) {
    run != [] ==> Undisturbed(codec, run[..|run| - 1]) && Calm(codec, run[..|run| - 1], run[|run| - 1])
  }

  /** Somebody joins, at `k`, the room that `s` joined at `i`, between the `error` of `s` at `j` and its `close`. */
  ghost predicate Disturbs<S, P>(run: seq<Event<S, P>>, s: S, i: nat, j: nat, k: nat) {
    && i < k && j < k < |run|
    && run[i].Join? && run[i].socket == s && run[k].Join? && run[k].room == run[i].room
    && run[j] == Error(s) && forall c :: j < c < k ==> run[c] != Close(s)
  }

  ghost predicate JoinedAt<S, P>(run: seq<Event<S, P>>, s: S, i: nat, room: Text) {
    i < |run| && run[i].Join? && run[i].socket == s && run[i].room == room
  }

  /** A connection's room is the one of its join. */
  lemma {:induction false} SeatIs<S(!new), P, Json>(codec: Codec<Json>, run: seq<Event<S, P>>, s: S, room: Text)
    requires Possible(codec, run)
    ensures s in Run(codec, run).seats && Run(codec, run).seats[s].room == room
            <==> exists i :: JoinedAt(run, s, i, room)
  {
    if run == [] {
    } else {
      var m := |run| - 1;
      SeatIs(codec, run[..m], s, room);
      forall i: nat | i < m ensures JoinedAt(run, s, i, room) <==> JoinedAt(run[..m], s, i, room) {
      }
      assert JoinedAt(run, s, m, room) <==> run[m].Join? && run[m].socket == s && run[m].room == room;
      SeatNext(codec, Run(codec, run[..m]), run[m], s);
    }
  }

  lemma SeatNext<S(!new), P, Json>(codec: Codec<Json>, st: State<S, P, Text>, e: Event<S, P>, s: S)
    ensures var seats := Next(codec, st, e).seats;
            if e.Join? && e.socket == s then s in seats && seats[s].room == e.room
            else (s in seats <==> s in st.seats) && (s in seats ==> seats[s] == st.seats[s])
  {
  }

  ghost predicate DisturbedAt<S, P>(run: seq<Event<S, P>>, s: S, k: nat) { exists i, j :: Disturbs(run, s, i, j, k) }

  lemma {:induction false} DisturbedNow<S(!new), P, Json>(codec: Codec<Json>, run: seq<Event<S, P>>, s: S)
    requires run != [] && Possible(codec, run)
    ensures DisturbedBy(codec, run[..|run| - 1], run[|run| - 1], s) <==> DisturbedAt(run, s, |run| - 1)
  {
    var m := |run| - 1;
    var before := run[..m];
    if run[m].Join? {
      FailingMeans(before, s);
      SeatIs(codec, before, s, run[m].room);
      if DisturbedBy(codec, before, run[m], s) {
        var j :| FailedAt(before, s, j);
        var i :| JoinedAt(before, s, i, run[m].room);
        assert Disturbs(run, s, i, j, m);
      }
      forall i, j | Disturbs(run, s, i, j, m) ensures DisturbedBy(codec, before, run[m], s) {
        assert FailedAt(before, s, j) && JoinedAt(before, s, i, run[m].room);
      }
    }
  }

  lemma DisturbedBefore<S, P>(run: seq<Event<S, P>>, s: S, k: nat)
    requires k < |run| - 1
    ensures DisturbedAt(run, s, k) <==> DisturbedAt(run[..|run| - 1], s, k)
  {
    var before := run[..|run| - 1];
    if DisturbedAt(run, s, k) {
      var i, j :| Disturbs(run, s, i, j, k);
      assert Disturbs(before, s, i, j, k);
    }
    if DisturbedAt(before, s, k) {
      var i, j :| Disturbs(before, s, i, j, k);
      assert Disturbs(run, s, i, j, k);
    }
  }

  /** A run is disturbed exactly when some join in it does that. */
  lemma {:induction false} UndisturbedMeans<S(!new), P, Json>(codec: Codec<Json>, run: seq<Event<S, P>>)
    requires Possible(codec, run)
    ensures Undisturbed(codec, run) <==> forall s, k: nat :: !DisturbedAt(run, s, k)
  {
    if run == [] {
    } else {
      var m := |run| - 1;
      UndisturbedMeans(codec, run[..m]);
      forall s, k: nat | k < m ensures DisturbedAt(run, s, k) <==> DisturbedAt(run[..m], s, k) {
        DisturbedBefore(run, s, k);
      }
      forall s ensures DisturbedBy(codec, run[..m], run[m], s) <==> DisturbedAt(run, s, m) {
        DisturbedNow(codec, run, s);
      }
      assert forall s, k: nat :: DisturbedAt(run[..m], s, k) ==> k < m;
    }
  }

  /** Every cleanup finds a Set that is not stale. */
  ghost predicate NeverStale<S(!new), P, Json>(codec: Codec<Json>, run: seq<Event<S, P>>) {
    run != [] ==>
      && NeverStale(codec, run[..|run| - 1])
      && var e, st := run[|run| - 1], Run(codec, run[..|run| - 1]);
         e.Error? || e.Close? ==> !Stale(st, e.socket)
  }

  ghost predicate AlwaysCoherent<S(!new), P, Json>(codec: Codec<Json>, run: seq<Event<S, P>>) {
    Coherent(Run(codec, run)) && (run != [] ==> AlwaysCoherent(codec, run[..|run| - 1]))
  }

  lemma {:induction false} NextCoherent<S(!new), P, Json>(codec: Codec<Json>, before: seq<Event<S, P>>, e: Event<S, P>)
    requires Coherent(Run(codec, before)) && Enabled(codec, before, e)
    ensures Coherent(Next(codec, Run(codec, before), e))
            <==> ((e.Error? || e.Close?) ==> !Stale(Run(codec, before), e.socket))
  {
    var st := Run(codec, before);
    match e
    case Join(s, room, made) => EnterCoherent(st, s, room, made);
    case Say(s, message) => HeardExact(codec, st, s, message, s);
    case Error(s) => CleanupExact(st, s);
    case Close(s) => CleanupExact(st, s);
  }

  /** The rooms are coherent all along exactly when every cleanup finds a Set that is not stale. */
  lemma {:induction false} CoherentExact<S(!new), P, Json>(codec: Codec<Json>, run: seq<Event<S, P>>)
    requires Possible(codec, run)
    ensures AlwaysCoherent(codec, run) <==> NeverStale(codec, run)
  {
    if run == [] {
    } else {
      var m := |run| - 1;
      CoherentExact(codec, run[..m]);
      if AlwaysCoherent(codec, run[..m]) {
        NextCoherent(codec, run[..m], run[m]);
      }
    }
  }

  /** Who is failing has left, and its Set is not stale. */
  ghost predicate FailingInv<S(!new), P>(st: State<S, P, Text>, failing: set<S>) {
    forall s {:trigger Stale(st, s)} :: s in failing ==> s in st.seats && s !in st.open && !Stale(st, s)
  }

  /** A cleanup, of a connection that is open or of one that is failing, makes no other failing one stale. */
  lemma CleanFailing<S(!new), P>(st: State<S, P, Text>, s: S, other: S)
    requires Coherent(st) && s in st.seats && s !in st.open && !Stale(st, s)
    requires other in st.seats && (other !in st.open ==> !Stale(st, other))
    ensures CanClean(st, other) && !Stale(Cleanup(st, other), s) && s !in Cleanup(st, other).open
  {
    CleanupExact(st, other);
    if other in st.open { CleanupElsewhere(st, s, other); }
  }

  lemma NextFailing<S(!new), P, Json>(codec: Codec<Json>, st: State<S, P, Text>, e: Event<S, P>, s: S)
    requires Coherent(st) && s in st.seats && s !in st.open && !Stale(st, s)
    requires match e
             case Join(other, room, made) =>
               other !in st.seats && room != st.seats[s].room && (room !in st.rooms ==> made !in st.members)
             case Say(other, _) => other in st.open
             case Error(other) => other in st.open
             case Close(other) => other in st.seats && (other !in st.open ==> !Stale(st, other))
    ensures s in Next(codec, st, e).seats && s !in Next(codec, st, e).open && !Stale(Next(codec, st, e), s)
  {
    match e
    case Join(other, room, made) => JoinElsewhere(st, s, other, room, made);
    case Say(other, _) => assert SeatInv(st, other);
    case Error(other) => CleanFailing(st, s, other);
    case Close(other) => CleanFailing(st, s, other);
  }

  /** A connection that is neither open nor failing has closed. */
  lemma {:induction false} OpenFailingOrClosed<S(!new), P, Json>(codec: Codec<Json>, run: seq<Event<S, P>>, s: S)
    requires Possible(codec, run) && s in Run(codec, run).seats
    ensures s in Run(codec, run).open || s in Failing(run) || Close(s) in run
  {
    var m := |run| - 1;
    assert run[m] in run && (Close(s) in run[..m] ==> Close(s) in run);
    if s in Run(codec, run[..m]).seats {
      OpenFailingOrClosed(codec, run[..m], s);
    }
  }

  lemma {:induction false} NotStaleNow<S(!new), P, Json>(codec: Codec<Json>, before: seq<Event<S, P>>, e: Event<S, P>)
    requires Possible(codec, before) && Enabled(codec, before, e) && (e.Error? || e.Close?)
    requires Coherent(Run(codec, before)) && FailingInv(Run(codec, before), Failing(before))
    ensures e.socket in Run(codec, before).seats && !Stale(Run(codec, before), e.socket)
  {
    if e.socket in Run(codec, before).open {
      CleanupExact(Run(codec, before), e.socket);
    } else {
      OpenFailingOrClosed(codec, before, e.socket);
    }
  }

  lemma {:induction false} FailingKept<S(!new), P, Json>(codec: Codec<Json>, run: seq<Event<S, P>>)
    requires Possible(codec, run) && Undisturbed(codec, run)
    ensures Coherent(Run(codec, run)) && FailingInv(Run(codec, run), Failing(run)) && AlwaysCoherent(codec, run)
  {
    if run == [] {
    } else {
      var m := |run| - 1;
      var before, e := run[..m], run[m];
      FailingKept(codec, before);
      if e.Error? || e.Close? { NotStaleNow(codec, before, e); }
      NextCoherent(codec, before, e);
      forall s | s in Failing(run)
        ensures s in Run(codec, run).seats && s !in Run(codec, run).open && !Stale(Run(codec, run), s)
      {
        if e == Error(s) {
          FreshlyCleaned(Run(codec, before), s);
        } else {
          assert !Stale(Run(codec, before), s);
          assert !DisturbedBy(codec, before, e, s);
          NextFailing(codec, Run(codec, before), e, s);
        }
      }
    }
  }

  /** The heap invariant over whole runs: as long as nobody joins a room while a connection of that room is
      between its `error` and its `close`, the rooms are coherent for good. */
  lemma {:induction false} UndisturbedIsCoherent<S(!new), P, Json>(codec: Codec<Json>, run: seq<Event<S, P>>)
    requires Possible(codec, run) && Undisturbed(codec, run)
    ensures AlwaysCoherent(codec, run) && NeverStale(codec, run)
  {
    FailingKept(codec, run);
    CoherentExact(codec, run);
  }

  /** The reference, by the history alone: `s` has joined this room, and neither failed nor closed since. */
  ghost predicate Present<S, P>(run: seq<Event<S, P>>, s: S, room: Text) {
    run != []
    && var e, before := run[|run| - 1], run[..|run| - 1];
       if e.socket == s && !e.Say? then e.Join? && e.room == room else Present(before, s, room)
  }

  ghost predicate Together<S, P>(run: seq<Event<S, P>>, s: S, t: S) {
    exists room :: Present(run, s, room) && Present(run, t, room)
  }

  ghost predicate Alone<S(!new), P>(run: seq<Event<S, P>>, s: S, room: Text) {
    Present(run, s, room) && forall t :: Present(run, t, room) ==> t == s
  }

  /** What `s` is due: a `peer-joined` for a newcomer to the room it is alone in, and the rewritten messages of
      the others in its room. */
  ghost function Due<S(!new), P, Json>(codec: Codec<Json>, run: seq<Event<S, P>>, s: S): seq<Signal<Text>> {
    if run == [] then []
    else
      var e, before := run[|run| - 1], run[..|run| - 1];
      Due(codec, before, s) + DueNow(codec, before, e, s)
  }

  ghost function DueNow<S(!new), P, Json>(codec: Codec<Json>, before: seq<Event<S, P>>, e: Event<S, P>, s: S)
    : seq<Signal<Text>>
  {
    if e.socket == s then []
    else if e.Join? && Alone(before, s, e.room) then [PeerJoined]
    else if e.Say? && Together(before, e.socket, s) && Rewritten(codec, e.message).Some? then
      [Relayed(Rewritten(codec, e.message).value)]
    else []
  }

  /** Along a coherent run presence is being open in the room. */
  lemma {:induction false} PresentIs<S(!new), P, Json>(codec: Codec<Json>, run: seq<Event<S, P>>, s: S, room: Text)
    requires Possible(codec, run) && AlwaysCoherent(codec, run)
    ensures Present(run, s, room) <==> InRoom(Run(codec, run), s, room)
  {
    if run == [] {
    } else {
      var m := |run| - 1;
      PresentIs(codec, run[..m], s, room);
      PresentNext(codec, Run(codec, run[..m]), run[m], s, room);
    }
  }

  lemma PresentNext<S(!new), P, Json>(codec: Codec<Json>, st: State<S, P, Text>, e: Event<S, P>, s: S, room: Text)
    requires Coherent(st) && (e.Join? ==> e.socket !in st.seats) && (!e.Join? ==> e.socket in st.seats)
    ensures InRoom(Next(codec, st, e), s, room)
            <==> if e.socket == s && !e.Say? then e.Join? && e.room == room else InRoom(st, s, room)
  {
    assert e.socket in st.seats ==> SeatInv(st, e.socket);
  }

  lemma {:induction false} AloneIs<S(!new), P, Json>(codec: Codec<Json>, run: seq<Event<S, P>>, s: S, room: Text)
    requires Possible(codec, run) && AlwaysCoherent(codec, run)
    ensures var st := Run(codec, run);
            Alone(run, s, room)
            <==> InRoom(st, s, room) && forall t :: t in st.open && InRoom(st, t, room) ==> t == s
  {
    forall t ensures Present(run, t, room) <==> InRoom(Run(codec, run), t, room) {
      PresentIs(codec, run, t, room);
    }
  }

  lemma {:induction false} TogetherIs<S(!new), P, Json>(codec: Codec<Json>, run: seq<Event<S, P>>, s: S, t: S)
    requires Possible(codec, run) && AlwaysCoherent(codec, run) && s in Run(codec, run).open
    ensures s in Run(codec, run).seats
    ensures Together(run, s, t) <==> InRoom(Run(codec, run), t, Run(codec, run).seats[s].room)
  {
    var st := Run(codec, run);
    assert Seated(st, s);
    forall room ensures Present(run, s, room) <==> room == st.seats[s].room {
      PresentIs(codec, run, s, room);
    }
    PresentIs(codec, run, t, st.seats[s].room);
  }

  /** One event more, and `s` is sent what is due to it now. */
  ghost predicate SentNow<S(!new), P, Json>(codec: Codec<Json>, before: seq<Event<S, P>>, e: Event<S, P>, s: S) {
    var was, now := Run(codec, before).outbox, Next(codec, Run(codec, before), e).outbox;
    && (s in now <==> s in was || (e.Join? && e.socket == s))
    && (s in was ==> s in now && now[s] == was[s] + DueNow(codec, before, e, s))
    && (s !in was ==> DueNow(codec, before, e, s) == [] && (s in now ==> now[s] == []))
  }

  lemma {:induction false} SentJoin<S(!new), P, Json>(codec: Codec<Json>, before: seq<Event<S, P>>, e: Event<S, P>,
                                                      s: S)
    requires Possible(codec, before) && AlwaysCoherent(codec, before) && Enabled(codec, before, e) && e.Join?
    ensures SentNow(codec, before, e, s)
  {
    var st := Run(codec, before);
    if e.socket != s {
      AloneIs(codec, before, s, e.room);
      if s in st.outbox { EnterExact(st, e.socket, e.room, e.made, s); }
    }
    assert e.room in st.rooms ==> RoomInv(st, e.room);
  }

  lemma {:induction false} SentSay<S(!new), P, Json>(codec: Codec<Json>, before: seq<Event<S, P>>, e: Event<S, P>, s: S)
    requires Possible(codec, before) && AlwaysCoherent(codec, before) && Enabled(codec, before, e) && e.Say?
    ensures SentNow(codec, before, e, s)
  {
    var st := Run(codec, before);
    TogetherIs(codec, before, e.socket, s);
    HeardExact(codec, st, e.socket, e.message, e.socket);
    if s in st.outbox { HeardExact(codec, st, e.socket, e.message, s); }
  }

  lemma SentClean<S(!new), P, Json>(codec: Codec<Json>, before: seq<Event<S, P>>, e: Event<S, P>, s: S)
    requires e.Error? || e.Close?
    ensures SentNow(codec, before, e, s)
  {
    assert s in Run(codec, before).outbox ==>
             Run(codec, before).outbox[s] + [] == Run(codec, before).outbox[s];
  }

  /** Along a coherent run every connection has been sent exactly what it was due. */
  lemma {:induction false} SentIs<S(!new), P, Json>(codec: Codec<Json>, run: seq<Event<S, P>>, s: S)
    requires Possible(codec, run) && AlwaysCoherent(codec, run)
    ensures var outbox := Run(codec, run).outbox;
            if s in outbox then outbox[s] == Due(codec, run, s) else Due(codec, run, s) == []
  {
    if run == [] {
    } else {
      var m := |run| - 1;
      SentIs(codec, run[..m], s);
      match run[m]
      case Join(_, _, _) => SentJoin(codec, run[..m], run[m], s);
      case Say(_, _) => SentSay(codec, run[..m], run[m], s);
      case _ => SentClean(codec, run[..m], run[m], s);
    }
  }

  /** Delivery over whole runs: if nobody joins a room while a connection of that room is between its `error` and
      its `close`, every connection has been sent exactly its `peer-joined` signals and the rewritten messages
      of the others in its room while it was there, in order. */
  lemma {:induction false} UndisturbedSent<S(!new), P, Json>(codec: Codec<Json>, run: seq<Event<S, P>>, s: S)
    requires Possible(codec, run) && Undisturbed(codec, run) && s in Run(codec, run).seats
    ensures s in Run(codec, run).outbox && Run(codec, run).outbox[s] == Due(codec, run, s)
  {
    UndisturbedIsCoherent(codec, run);
    SentIs(codec, run, s);
  }

  lemma {:induction false} Extend<S(!new), P, Json>(codec: Codec<Json>, before: seq<Event<S, P>>, e: Event<S, P>)
    requires Possible(codec, before) && Enabled(codec, before, e)
    ensures Possible(codec, before + [e]) && Run(codec, before + [e]) == Next(codec, Run(codec, before), e)
    ensures e.Error? ==> e.socket in Failing(before + [e])
  {
    assert (before + [e])[..|before|] == before;
  }

  /** What a message handler needs, and where it leads. */
  lemma {:induction false} SayFollows<S(!new), P, Json>(codec: Codec<Json>, run: seq<Event<S, P>>, s: S, message: Text)
    requires Possible(codec, run) && Coherent(Run(codec, run)) && s in Run(codec, run).open
    ensures var st := Run(codec, run);
            && SeatInv(st, s) && Distinct(st.members[st.seats[s].peers])
            && (forall t :: t in st.members[st.seats[s].peers] ==> t in st.outbox)
            && Coherent(Heard(codec, st, s, message))
            && Possible(codec, run + [Say(s, message)])
            && Run(codec, run + [Say(s, message)]) == Heard(codec, st, s, message)
  {
    RelayNeeds(Run(codec, run), s);
    HeardExact(codec, Run(codec, run), s, message, s);
    Extend(codec, run, Say(s, message));
  }

  lemma {:induction false} NotUndisturbed<S(!new), P, Json>(codec: Codec<Json>, before: seq<Event<S, P>>,
                                                            e: Event<S, P>, last: Event<S, P>, s: S)
    requires e.Join? && s in Failing(before)
    requires s in Run(codec, before).seats && Run(codec, before).seats[s].room == e.room
    ensures !Undisturbed(codec, before + [e] + [last])
  {
    assert (before + [e])[..|before|] == before;
    assert (before + [e] + [last])[..|before| + 1] == before + [e];
    assert DisturbedBy(codec, before, e, s);
  }

  /** And a disturbed run can break them: `a` fails, `b` joins, `a` closes. */
  lemma {:induction false} DisturbedBreaks<S(!new), P, Json>(codec: Codec<Json>, a: S, b: S, room: Text,
                                                             first: P, second: P)
    requires a != b && first != second
    ensures var run: seq<Event<S, P>> := [Join(a, room, first), Error(a), Join(b, room, second)] + [Close(a)];
            && Possible(codec, run) && !Undisturbed(codec, run) && !Coherent(Run(codec, run))
            && InRoom(Run(codec, run), b, room) && room !in Run(codec, run).rooms
  {
    var run0: seq<Event<S, P>> := [];
    var run1 := run0 + [Join(a, room, first)];
    var run2 := run1 + [Error(a)];
    var run3 := run2 + [Join(b, room, second)];
    Extend(codec, run0, Join(a, room, first));
    Extend(codec, run1, Error(a));
    assert Remove([a], a) == [];
    Extend(codec, run2, Join(b, room, second));
    Extend(codec, run3, Close(a));
    NotUndisturbed(codec, run2, Join(b, room, second), Close(a), a);
    StaleHappens<S, P, Text>(a, b, room, first, second);
    assert run3 == [Join(a, room, first), Error(a), Join(b, room, second)];
  }
}
