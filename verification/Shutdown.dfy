/** The server that shuts down gracefully: it stops accepting, lets what is in flight finish, and closes by
    force what is left after a grace period. A run is a list of events on a clock in milliseconds; timers are
    ideal (they fire when due, in any order among those due together), and `destroy` and its `close` event
    are one step. */
module Shutdown {
  import opened Options

  const WORK := 2000
  const GRACE := 5000

  /** When a connection ended, and whether the server closed it by force. */
  datatype End = End(at: nat, forced: bool)

  datatype Arrival<S> = Arrival(socket: S, at: nat)

  /** The program's variables and timers, then the record of what happened: when connections connected and
      ended, when requests arrived and were answered, and when the first signal came. */
  datatype State<S, R> = State(now: nat, listening: bool, shuttingDown: bool, exited: bool, sockets: set<S>,
                               responses: map<R, nat>, grace: Option<nat>,
                               connected: map<S, nat>, ended: map<S, End>, arrived: map<R, Arrival<S>>,
                               answered: map<R, nat>, stopped: Option<nat>)

  datatype Event<S, R> =
    | Connect(socket: S)
    | Close(socket: S)
    | Request(socket: S, request: R)
    | Respond(request: R)
    | Signal
    | GraceOver
    | Drained
    | Pass(to: nat)

  function Listening<S, R>(): State<S, R> {
    State(0, true, false, false, {}, map[], None, map[], map[], map[], map[], None)
  }

  /** What can happen: a connection only while the server listens, a timer only when it is due, the callback
      of `server.close` only once no connection is open, and time passes no timer that is due. */
  ghost predicate Enabled<S, R>(st: State<S, R>, e: Event<S, R>) {
    && !st.exited
    && match e
       case Connect(s) => st.listening && s !in st.connected
       case Close(s) => IsOpen(st, s)
       case Request(s, r) => IsOpen(st, s) && r !in st.arrived
       case Respond(r) => r in st.responses && r in st.arrived && st.now == st.responses[r]
       case Signal => true
       case GraceOver => st.grace == Some(st.now)
       case Drained => st.shuttingDown && st.connected.Keys <= st.ended.Keys
       case Pass(to) => st.now <= to && (st.grace.Some? ==> to <= st.grace.value)
                        && forall r :: r in st.responses ==> to <= st.responses[r]
  }

  ghost predicate IsOpen<S, R>(st: State<S, R>, s: S) { s in st.connected && s !in st.ended }

  ghost function Next<S, R>(st: State<S, R>, e: Event<S, R>): State<S, R>
    requires Enabled(st, e)
  {
    match e
    case Connect(s) => st.(sockets := st.sockets + {s}, connected := st.connected[s := st.now])
    case Close(s) => st.(sockets := st.sockets - {s}, ended := st.ended[s := End(st.now, false)])
    case Request(s, r) =>
      st.(responses := st.responses[r := st.now + WORK], arrived := st.arrived[r := Arrival(s, st.now)])
    case Respond(r) =>
      st.(responses := st.responses - {r},
          answered := if IsOpen(st, st.arrived[r].socket) then st.answered[r := st.now] else st.answered)
    case Signal =>
      if st.shuttingDown then st
      else st.(shuttingDown := true, listening := false, grace := Some(st.now + GRACE), stopped := Some(st.now))
    case GraceOver => st.(grace := None, sockets := {}, ended := Forced(st.ended, st.sockets, st.now))
    case Drained => st.(exited := true)
    case Pass(to) => st.(now := to)
  }

  /** The force-close of every tracked socket. */
  ghost function Forced<S>(ended: map<S, End>, sockets: set<S>, now: nat): map<S, End> {
    map s | s in ended.Keys + sockets :: if s in sockets then End(now, true) else ended[s]
  }

  ghost predicate Possible<S, R>(run: seq<Event<S, R>>)
    decreases |run|, 0
  {
    run != [] ==> Possible(run[..|run| - 1]) && Enabled(Run(run[..|run| - 1]), run[|run| - 1])
  }

  ghost function Run<S, R>(run: seq<Event<S, R>>): State<S, R>
    requires Possible(run)
    decreases |run|, 1
  {
    if run == [] then Listening() else Next(Run(run[..|run| - 1]), run[|run| - 1])
  }

  ghost predicate PhaseInv<S, R>(st: State<S, R>) {
    match st.stopped
    case None => st.listening && !st.shuttingDown && !st.exited && st.grace == None
    case Some(t) =>
      && !st.listening && st.shuttingDown && t <= st.now
      && (st.grace == Some(t + GRACE) || (st.grace == None && t + GRACE <= st.now && st.sockets == {}))
      && (st.grace.Some? ==> st.now <= st.grace.value)
      && (st.exited ==> st.sockets == {})
  }

  ghost predicate SocketInv<S, R>(st: State<S, R>, s: S) {
    && s in st.connected && st.connected[s] <= st.now
    && (st.stopped.Some? ==> st.connected[s] <= st.stopped.value)
    && (s in st.ended ==>
          && st.connected[s] <= st.ended[s].at <= st.now
          && (st.ended[s].forced ==>
                st.stopped.Some? && st.grace == None && st.ended[s].at == st.stopped.value + GRACE))
  }

  ghost predicate RequestInv<S, R>(st: State<S, R>, r: R) {
    && r in st.arrived && st.arrived[r].socket in st.connected && st.arrived[r].at <= st.now
    && var Arrival(s, at) := st.arrived[r];
       && (r in st.responses ==> st.responses[r] == at + WORK && st.now <= at + WORK && r !in st.answered)
       && (r in st.answered ==>
             st.answered[r] == at + WORK <= st.now && (s in st.ended ==> at + WORK <= st.ended[s].at))
       && (r !in st.responses && r !in st.answered ==> s in st.ended && st.ended[s].at <= at + WORK)
       && (s in st.ended ==> at <= st.ended[s].at)
  }

  /** The tracked sockets are exactly the open connections. */
  ghost predicate Books<S, R>(st: State<S, R>) {
    && st.ended.Keys <= st.connected.Keys && st.sockets == st.connected.Keys - st.ended.Keys
    && st.responses.Keys <= st.arrived.Keys && st.answered.Keys <= st.arrived.Keys
  }

  ghost predicate Inv<S, R>(st: State<S, R>) {
    && Books(st) && PhaseInv(st)
    && (forall s {:trigger SocketInv(st, s)} :: s in st.connected ==> SocketInv(st, s))
    && (forall r {:trigger RequestInv(st, r)} :: r in st.arrived ==> RequestInv(st, r))
  }

  lemma NextBooks<S, R>(st: State<S, R>, e: Event<S, R>)
    requires Books(st) && PhaseInv(st) && Enabled(st, e)
    ensures Books(Next(st, e))
  {
  }

  lemma NextPhase<S, R>(st: State<S, R>, e: Event<S, R>)
    requires Books(st) && PhaseInv(st) && Enabled(st, e)
    ensures PhaseInv(Next(st, e))
  {
  }

  lemma NextSocket<S, R>(st: State<S, R>, e: Event<S, R>, s: S)
    requires Books(st) && PhaseInv(st) && Enabled(st, e)
    requires s in Next(st, e).connected && (s in st.connected ==> SocketInv(st, s))
    ensures SocketInv(Next(st, e), s)
  {
  }

  lemma RequestAtEnd<S, R>(st: State<S, R>, e: Event<S, R>, r: R)
    requires Books(st) && PhaseInv(st) && Enabled(st, e)
    requires r in Next(st, e).arrived
    requires r in st.arrived ==> RequestInv(st, r) && SocketInv(st, st.arrived[r].socket)
    requires e.Close? || e.GraceOver?
    ensures RequestInv(Next(st, e), r)
  {
  }

  lemma RequestAtWork<S, R>(st: State<S, R>, e: Event<S, R>, r: R)
    requires Books(st) && PhaseInv(st) && Enabled(st, e)
    requires r in Next(st, e).arrived
    requires r in st.arrived ==> RequestInv(st, r) && SocketInv(st, st.arrived[r].socket)
    requires e.Request? || e.Respond?
    ensures RequestInv(Next(st, e), r)
  {
  }

  lemma NextRequest<S, R>(st: State<S, R>, e: Event<S, R>, r: R)
    requires Books(st) && PhaseInv(st) && Enabled(st, e)
    requires r in Next(st, e).arrived
    requires r in st.arrived ==> RequestInv(st, r) && SocketInv(st, st.arrived[r].socket)
    ensures RequestInv(Next(st, e), r)
  {
    match e
    case Close(_) => RequestAtEnd(st, e, r);
    case GraceOver => RequestAtEnd(st, e, r);
    case Request(_, _) => RequestAtWork(st, e, r);
    case Respond(_) => RequestAtWork(st, e, r);
    case _ =>
  }

  lemma NextInv<S, R>(st: State<S, R>, e: Event<S, R>)
    requires Inv(st) && Enabled(st, e)
    ensures Inv(Next(st, e))
  {
    var st' := Next(st, e);
    NextBooks(st, e);
    NextPhase(st, e);
    forall s | s in st'.connected ensures SocketInv(st', s) {
      assert s in st.connected ==> SocketInv(st, s);
      NextSocket(st, e, s);
    }
    forall r | r in st'.arrived ensures RequestInv(st', r) {
      assert r in st.arrived ==> RequestInv(st, r) && SocketInv(st, st.arrived[r].socket);
      NextRequest(st, e, r);
    }
  }

  lemma {:induction false} RunInv<S, R>(run: seq<Event<S, R>>)
    requires Possible(run)
    ensures Inv(Run(run))
  {
    if run == [] {
    } else {
      RunInv(run[..|run| - 1]);
      NextInv(Run(run[..|run| - 1]), run[|run| - 1]);
    }
  }

  /** The time after a run. */
  ghost function Clock<S, R>(run: seq<Event<S, R>>): nat {
    if run == [] then 0
    else if run[|run| - 1].Pass? then run[|run| - 1].to
    else Clock(run[..|run| - 1])
  }

  /** What the record says of an event: that it happened, and when. */
  ghost predicate Recorded<S, R>(st: State<S, R>, e: Event<S, R>, at: nat) {
    match e
    case Connect(s) => s in st.connected && st.connected[s] == at
    case Close(s) => s in st.ended && st.ended[s] == End(at, false)
    case Request(s, r) => r in st.arrived && st.arrived[r] == Arrival(s, at)
    case Respond(r) => r !in st.responses && (r in st.answered ==> st.answered[r] == at)
    case Signal => st.shuttingDown && !st.listening && st.stopped.Some? && st.stopped.value <= at
    case GraceOver => st.grace == None
    case Drained => st.exited
    case Pass(to) => true
  }

  lemma RecordNow<S, R>(st: State<S, R>, e: Event<S, R>)
    requires Inv(st) && Enabled(st, e)
    ensures Recorded(Next(st, e), e, st.now)
  {
    if e.Respond? { assert RequestInv(st, e.request); }
  }

  lemma RecordStays<S, R>(st: State<S, R>, e: Event<S, R>, was: Event<S, R>, at: nat)
    requires Inv(st) && Enabled(st, e) && Recorded(st, was, at)
    requires was.Respond? ==> was.request in st.arrived
    requires was.GraceOver? ==> st.shuttingDown
    ensures Recorded(Next(st, e), was, at)
  {
  }

  /** The record is of the events of the run: each is recorded, at its time. */
  lemma {:induction false} RecordIs<S, R>(run: seq<Event<S, R>>, i: nat)
    requires Possible(run) && i < |run|
    ensures Recorded(Run(run), run[i], Clock(run[..i])) && Run(run).now == Clock(run)
    ensures run[i].Respond? ==> run[i].request in Run(run).arrived
    ensures run[i].GraceOver? ==> Run(run).shuttingDown
  {
    var m := |run| - 1;
    RunInv(run[..m]);
    NowIs(run[..m]);
    NowIs(run);
    if i == m {
      RecordNow(Run(run[..m]), run[m]);
    } else {
      RecordIs(run[..m], i);
      assert run[..m][..i] == run[..i];
      RecordStays(Run(run[..m]), run[m], run[i], Clock(run[..i]));
    }
  }

  lemma {:induction false} NowIs<S, R>(run: seq<Event<S, R>>)
    requires Possible(run)
    ensures Run(run).now == Clock(run)
  {
    if run == [] {
    } else {
      NowIs(run[..|run| - 1]);
      NextNow(Run(run[..|run| - 1]), run[|run| - 1]);
    }
  }

  lemma NextNow<S, R>(st: State<S, R>, e: Event<S, R>)
    requires Enabled(st, e)
    ensures Next(st, e).now == if e.Pass? then e.to else st.now
  {
  }

  /** `stopped` is the time of the first signal. */
  lemma {:induction false} FirstSignal<S, R>(run: seq<Event<S, R>>) returns (i: nat)
    requires Possible(run) && Signal in run
    ensures i < |run| && run[i] == Signal && Signal !in run[..i]
    ensures Run(run).stopped == Some(Clock(run[..i]))
  {
    var m := |run| - 1;
    assert run == run[..m] + [run[m]];
    RunInv(run[..m]);
    StopsOnce(Run(run[..m]), run[m]);
    if Signal in run[..m] {
      i := FirstSignal(run[..m]);
      assert run[..m][..i] == run[..i];
    } else {
      i := m;
      NowIs(run[..m]);
      NeverStopped(run[..m]);
    }
  }

  lemma StopsOnce<S, R>(st: State<S, R>, e: Event<S, R>)
    requires Enabled(st, e)
    ensures st.stopped.Some? && st.shuttingDown ==> Next(st, e).stopped == st.stopped
    ensures e != Signal ==> Next(st, e).stopped == st.stopped && Next(st, e).shuttingDown == st.shuttingDown
    ensures e == Signal && !st.shuttingDown ==> Next(st, e).stopped == Some(st.now)
  {
  }

  lemma {:induction false} NeverStopped<S, R>(run: seq<Event<S, R>>)
    requires Possible(run) && Signal !in run
    ensures Run(run).stopped == None && !Run(run).shuttingDown
  {
    if run == [] {
    } else {
      var m := |run| - 1;
      assert run == run[..m] + [run[m]];
      NeverStopped(run[..m]);
      StopsOnce(Run(run[..m]), run[m]);
    }
  }

  /** What one event adds to the record. */
  lemma AddsOnly<S, R>(st: State<S, R>, e: Event<S, R>, s: S, r: R)
    requires Books(st) && Enabled(st, e)
    ensures var st' := Next(st, e);
            && (s in st'.connected <==> s in st.connected || e == Connect(s))
            && (s in st'.ended && (s !in st.ended || st'.ended[s] != st.ended[s]) ==>
                  e == Close(s) || (e == GraceOver && st'.ended[s].forced))
            && (r in st'.arrived && (r !in st.arrived || st'.arrived[r] != st.arrived[r]) ==>
                  e == Request(st'.arrived[r].socket, r))
            && (r in st'.answered ==> r in st.answered || e == Respond(r))
            && (st'.stopped.Some? <==> st.stopped.Some? || (e == Signal && !st.shuttingDown))
            && (st'.exited <==> st.exited || e == Drained)
  {
  }

  ghost predicate Accounted<S, R>(run: seq<Event<S, R>>, st: State<S, R>, s: S, r: R) {
    && (s in st.connected <==> Connect(s) in run)
    && (s in st.ended ==> Close(s) in run || (GraceOver in run && st.ended[s].forced))
    && (r in st.arrived ==> Request(st.arrived[r].socket, r) in run)
    && (r in st.answered ==> Respond(r) in run)
    && (st.stopped.Some? <==> Signal in run)
    && (st.exited <==> Drained in run)
  }

  lemma AccountedMore<S, R>(run: seq<Event<S, R>>, st: State<S, R>, e: Event<S, R>, s: S, r: R)
    requires Books(st) && Enabled(st, e) && Accounted(run, st, s, r)
    requires st.shuttingDown ==> st.stopped.Some?
    ensures Accounted(run + [e], Next(st, e), s, r)
  {
    AddsOnly(st, e, s, r);
    forall x ensures x in run + [e] <==> x in run || x == e {
    }
  }

  /** And nothing else is recorded. */
  lemma {:induction false} OnlyEvents<S, R>(run: seq<Event<S, R>>, s: S, r: R)
    requires Possible(run)
    ensures Accounted(run, Run(run), s, r)
  {
    if run == [] {
    } else {
      var m := |run| - 1;
      OnlyEvents(run[..m], s, r);
      RunInv(run[..m]);
      AccountedMore(run[..m], Run(run[..m]), run[m], s, r);
      assert run == run[..m] + [run[m]];
    }
  }

  /** `sockets` is the set of open connections; none of them was opened after the first signal; and the
      process is gone only when there is none. */
  lemma {:induction false} Tracked<S, R>(run: seq<Event<S, R>>, s: S)
    requires Possible(run)
    ensures var st := Run(run);
            && (s in st.sockets <==> IsOpen(st, s))
            && (s in st.connected && st.stopped.Some? ==> st.connected[s] <= st.stopped.value)
            && (st.exited ==> !IsOpen(st, s))
  {
    RunInv(run);
    if s in Run(run).connected { assert SocketInv(Run(run), s); }
  }

  /** Nothing is open later than the grace period after the first signal, nor at its end once the grace timer
      has fired; until it has, it can fire. */
  lemma {:induction false} GoneAfterGrace<S, R>(run: seq<Event<S, R>>, s: S)
    requires Possible(run) && Run(run).stopped.Some?
    ensures var st := Run(run);
            var deadline := st.stopped.value + 5000;
            && (st.now > deadline || (st.now == deadline && st.grace == None) ==> !IsOpen(st, s))
            && (st.now == deadline && IsOpen(st, s) ==> Enabled(st, GraceOver) && !IsOpen(Next(st, GraceOver), s))
  {
    RunInv(run);
    GraceCloses(Run(run), s);
  }

  /** From then on, if not before, the callback of `server.close` can run, and then the process is gone. */
  lemma {:induction false} CanExit<S, R>(run: seq<Event<S, R>>)
    requires Possible(run) && Run(run).stopped.Some? && !Run(run).exited
    ensures var st := Run(run);
            && (Enabled(st, Drained) <==> forall s :: !IsOpen(st, s))
            && (st.now >= st.stopped.value + 5000 && st.grace == None ==> Enabled(st, Drained))
            && (Enabled(st, Drained) ==> Next(st, Drained).exited)
  {
    RunInv(run);
    AllGone(Run(run));
  }

  lemma AllGone<S, R>(st: State<S, R>)
    requires Inv(st) && st.stopped.Some?
    ensures (st.connected.Keys <= st.ended.Keys) <==> forall s :: !IsOpen(st, s)
    ensures st.now >= st.stopped.value + 5000 && st.grace == None ==> st.connected.Keys <= st.ended.Keys
  {
    forall s ensures IsOpen(st, s) <==> s in st.sockets {
    }
    if st.sockets == {} {
      forall s | s in st.connected.Keys ensures s in st.ended.Keys {
        assert s !in st.sockets;
      }
    }
  }

  lemma GraceCloses<S, R>(st: State<S, R>, s: S)
    requires Inv(st) && st.stopped.Some?
    ensures var deadline := st.stopped.value + 5000;
            && (st.now > deadline || (st.now == deadline && st.grace == None) ==> !IsOpen(st, s))
            && (st.now == deadline && IsOpen(st, s) ==> Enabled(st, GraceOver) && !IsOpen(Next(st, GraceOver), s))
  {
    assert s in st.sockets <==> IsOpen(st, s);
  }

  /** A request on a connection that the client keeps open is answered exactly 2000 ms after it arrived,
      unless its connection is closed by force before that. */
  lemma {:induction false} AnsweredInTime<S, R>(run: seq<Event<S, R>>, r: R)
    requires Possible(run) && r in Run(run).arrived
    ensures var st := Run(run);
            var Arrival(s, at) := st.arrived[r];
            && (r in st.answered ==> st.answered[r] == at + 2000)
            && (IsOpen(st, s) && st.now > at + 2000 ==> r in st.answered)
  {
    RunInv(run);
    assert RequestInv(Run(run), r);
  }

  /** Who the force-close cuts off: a request that arrived less than 3000 ms after the signal has been
      answered before it, and one that arrived later than that never is. */
  lemma {:induction false} ForceCloseExact<S, R>(run: seq<Event<S, R>>, r: R)
    requires Possible(run) && r in Run(run).arrived
    requires var st := Run(run); var s := st.arrived[r].socket; s in st.ended && st.ended[s].forced
    ensures var st := Run(run);
            var at := st.arrived[r].at;
            && st.stopped.Some?
            && (at < st.stopped.value + 3000 ==>
                  r in st.answered && st.answered[r] < st.ended[st.arrived[r].socket].at)
            && (at > st.stopped.value + 3000 ==> r !in st.answered)
  {
    RunInv(run);
    var st := Run(run);
    assert RequestInv(st, r);
    assert SocketInv(st, st.arrived[r].socket);
  }

  /** A signal after the first changes nothing, whatever happens before and after it. */
  lemma {:induction false} RepeatedSignal<S, R>(before: seq<Event<S, R>>, after: seq<Event<S, R>>)
    requires Possible(before) && Run(before).shuttingDown && !Run(before).exited
    ensures Possible(before + [Signal] + after) <==> Possible(before + after)
    ensures Possible(before + after) ==> Run(before + [Signal] + after) == Run(before + after)
  {
    if after == [] {
      assert before + after == before && before + [Signal] + after == before + [Signal];
      assert (before + [Signal])[..|before|] == before;
    } else {
      var n := |after| - 1;
      RepeatedSignal(before, after[..n]);
      assert (before + after)[..|before + after| - 1] == before + after[..n];
      assert (before + [Signal] + after)[..|before + [Signal] + after| - 1] == before + [Signal] + after[..n];
    }
  }

  /** Ideal timers never stop the clock: if time cannot pass, a timer is due. */
  lemma {:induction false} ClockRuns<S, R>(run: seq<Event<S, R>>)
    requires Possible(run) && !Run(run).exited
    ensures var st := Run(run);
            Enabled(st, Pass(st.now + 1)) || Enabled(st, GraceOver) || exists r :: Enabled(st, Respond(r))
  {
    RunInv(run);
    SomethingDue(Run(run));
  }

  lemma SomethingDue<S, R>(st: State<S, R>)
    requires Inv(st) && !st.exited
    ensures Enabled(st, Pass(st.now + 1)) || Enabled(st, GraceOver) || exists r :: Enabled(st, Respond(r))
  {
    if !Enabled(st, Pass(st.now + 1)) && !Enabled(st, GraceOver) {
      var r :| r in st.responses && st.now + 1 > st.responses[r];
      assert RequestInv(st, r);
      assert Enabled(st, Respond(r));
    }
  }

  lemma {:induction false} Extend<S, R>(run: seq<Event<S, R>>, e: Event<S, R>)
    requires Possible(run) && Enabled(Run(run), e)
    ensures Possible(run + [e]) && Run(run + [e]) == Next(Run(run), e)
  {
    assert (run + [e])[..|run|] == run;
  }

  /** A request that arrives `late` milliseconds after the signal, and the clock when the grace timer is due. */
  function LateRequest<S, R>(s: S, r: R, late: nat): seq<Event<S, R>> {
    [Connect(s), Signal, Pass(late), Request(s, r), Pass(GRACE)]
  }

  lemma LateRequestRuns<S, R>(s: S, r: R, late: nat)
    requires GRACE - WORK <= late <= GRACE
    ensures var run := LateRequest(s, r, late);
            && Possible(run)
            && var st := Run(run);
               && st.now == GRACE && st.stopped == Some(0) && st.grace == Some(GRACE) && !st.exited
               && st.sockets == {s} && IsOpen(st, s) && st.responses == map[r := late + WORK]
               && st.arrived == map[r := Arrival(s, late)] && st.answered == map[]
  {
    var run0: seq<Event<S, R>> := [];
    var run1 := run0 + [Connect(s)];
    var run2 := run1 + [Signal];
    var run3 := run2 + [Pass(late)];
    var run4 := run3 + [Request(s, r)];
    Extend(run0, Connect(s));
    Extend(run1, Signal);
    Extend(run2, Pass(late));
    Extend(run3, Request(s, r));
    Extend(run4, Pass(GRACE));
    assert run4 + [Pass(GRACE)] == LateRequest(s, r, late);
  }

  /** It does happen: a request that arrives 3000 ms after the signal or later is accepted, worked on, and cut
      off by the force-close without an answer. */
  lemma LateRequestCut<S, R>(s: S, r: R, late: nat)
    requires 3000 <= late <= 5000
    ensures var run := LateRequest(s, r, late) + [GraceOver];
            && Possible(run) && r in Run(run).arrived && r !in Run(run).answered
            && s in Run(run).ended && Run(run).ended[s] == End(5000, true)
  {
    LateRequestRuns(s, r, late);
    Extend(LateRequest(s, r, late), GraceOver);
  }

  /** At exactly 3000 ms either timer may be first: there is a run with the answer, too. */
  lemma TieAnswered<S, R>(s: S, r: R)
    ensures var run := LateRequest(s, r, 3000) + [Respond(r)] + [GraceOver];
            && Possible(run) && r in Run(run).answered
            && s in Run(run).ended && Run(run).ended[s] == End(5000, true)
  {
    var run := LateRequest(s, r, GRACE - WORK);
    LateRequestRuns(s, r, GRACE - WORK);
    Extend(run, Respond(r));
    Extend(run + [Respond(r)], GraceOver);
  }

  /** The program's variables and timers after a run. */
  class GracefulServer<Socket(==, !new), Req(==, !new)> {
    var sockets: set<Socket>
    var shuttingDown: bool
    var listening: bool
    var exited: bool
    var responses: map<Req, nat>
    var grace: Option<nat>
    ghost var run: seq<Event<Socket, Req>>

    ghost predicate Valid()
      reads this
    {
      Possible(run) && Holds(Run(run))
    }

    ghost predicate Holds(st: State<Socket, Req>)
      reads this
    {
      && sockets == st.sockets && shuttingDown == st.shuttingDown && listening == st.listening
      && exited == st.exited && responses == st.responses && grace == st.grace
    }

    constructor ()
      ensures Valid() && run == []
    {
      sockets, shuttingDown, listening, exited, responses, grace, run := {}, false, true, false, map[], None, [];
    }

    method OnConnection(socket: Socket)
      requires Valid() && Enabled(Run(run), Connect(socket))
      modifies this
      ensures Valid() && run == old(run) + [Connect(socket)]
    {
      Extend(run, Connect(socket));
      run := run + [Connect(socket)];
      sockets := sockets + {socket};
    }

    method OnClose(socket: Socket)
      requires Valid() && Enabled(Run(run), Close(socket))
      modifies this
      ensures Valid() && run == old(run) + [Close(socket)]
    {
      Extend(run, Close(socket));
      run := run + [Close(socket)];
      sockets := sockets - {socket};
    }

    /** The request handler sets the timer that will answer; `clock` is the time of the call. */
    method OnRequest(socket: Socket, request: Req, clock: nat)
      requires Valid() && Enabled(Run(run), Request(socket, request)) && clock == Run(run).now
      modifies this
      ensures Valid() && run == old(run) + [Request(socket, request)]
    {
      Extend(run, Request(socket, request));
      run := run + [Request(socket, request)];
      responses := responses[request := clock + WORK];
    }

    method OnResponseTimer(request: Req)
      requires Valid() && Enabled(Run(run), Respond(request))
      modifies this
      ensures Valid() && run == old(run) + [Respond(request)]
    {
      Extend(run, Respond(request));
      run := run + [Respond(request)];
      responses := responses - {request};
    }

    method Shutdown(clock: nat)
      requires Valid() && !exited && clock == Run(run).now
      modifies this
      ensures Valid() && run == old(run) + [Signal]
    {
      Extend(run, Signal);
      run := run + [Signal];
      if shuttingDown { return; }
      shuttingDown := true;
      listening := false;
      grace := Some(clock + GRACE);
    }

    /** The grace timer: destroy every socket that is left, one by one. */
    method OnGraceOver()
      requires Valid() && Enabled(Run(run), GraceOver)
      modifies this
      ensures Valid() && run == old(run) + [GraceOver]
    {
      Extend(run, GraceOver);
      run := run + [GraceOver];
      grace := None;
      if |sockets| > 0 {
        DestroyAll();
      }
    }

    method DestroyAll()
      modifies this`sockets
      ensures sockets == {}
    {
      var left := sockets;
      while left != {}
        invariant sockets == left
      {
        var socket :| socket in left;
        left := left - {socket};
        sockets := sockets - {socket};
      }
    }

    /** The callback of `server.close`. */
    method OnDrained()
      requires Valid() && Enabled(Run(run), Drained)
      modifies this
      ensures Valid() && run == old(run) + [Drained] && sockets == {}
    {
      RunInv(run);
      Extend(run, Drained);
      run := run + [Drained];
      exited := true;
    }
  }
}
