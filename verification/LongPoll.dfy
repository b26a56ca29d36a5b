/** The long-polling server: requests for the order status are parked until the order ships or their timer
    fires. `res.end` and the `finish` handler that clears the timer are one step. */
module LongPoll {
  import opened JsText
  import opened Sequences

  datatype Status = Processing | Shipped

  datatype Answer = NotFound | OrderStatus(status: Status, timedOut: bool)

  datatype Sent<R> = Sent(res: R, answer: Answer)

  /** `timers` holds the armed timers and when each is due. `requests` says of each request whether it asked
      for the status, `parked` is what was held open, in order of arrival, `sent` everything answered, in order. */
  datatype State<R> = State(orderStatus: Status, waiting: seq<R>, timers: map<R, nat>,
                            requests: map<R, bool>, parked: seq<R>, sent: seq<Sent<R>>, now: nat)

  const TIMEOUT := 10000

  predicate AsksStatus(url: Text) { url == Ascii("/order-status") }

  /** Array.prototype.filter, keeping what is not in `drop`. */
  function Filter<R(==)>(q: seq<R>, drop: set<R>): seq<R> {
    if q == [] then []
    else Filter(q[..|q| - 1], drop) + if q[|q| - 1] in drop then [] else [q[|q| - 1]]
  }

  function Elements<R(!new)>(q: seq<R>): set<R> { set r | r in q }

  function Answered<R(!new)>(sent: seq<Sent<R>>): set<R> { set a | a in sent :: a.res }

  ghost predicate OnceEach<R>(sent: seq<Sent<R>>) {
    forall i, j :: 0 <= i < j < |sent| ==> sent[i].res != sent[j].res
  }

  lemma {:induction false} FilterMore<R>(q: seq<R>, x: R, drop: set<R>)
    ensures Filter(q + [x], drop) == Filter(q, drop) + if x in drop then [] else [x]
  {
    assert (q + [x])[..|q|] == q;
  }

  lemma {:induction false} FilterOne<R>(x: R, drop: set<R>)
    ensures Filter([x], drop) == if x in drop then [] else [x]
  {
    FilterMore([], x, drop);
    assert [] + [x] == [x];
  }

  lemma {:induction false} FilterTwice<R>(q: seq<R>, a: set<R>, b: set<R>)
    ensures Filter(Filter(q, a), b) == Filter(q, a + b)
  {
    if q == [] {
    } else {
      var m := |q| - 1;
      FilterTwice(q[..m], a, b);
      FilterMore(Filter(q[..m], a), q[m], b);
      assert q[m] in a ==> Filter(q, a) == Filter(q[..m], a);
    }
  }

  lemma {:induction false} FilterElements<R(!new)>(q: seq<R>, drop: set<R>)
    ensures Elements(Filter(q, drop)) == Elements(q) - drop
  {
    if q == [] {
    } else {
      var m := |q| - 1;
      FilterElements(q[..m], drop);
      ElementsMore(q[..m], q[m]);
      ElementsMore(Filter(q[..m], drop), q[m]);
      assert q[..m] + [q[m]] == q;
      assert q[m] in drop ==> Filter(q, drop) == Filter(q[..m], drop);
    }
  }

  lemma ElementsMore<R(!new)>(q: seq<R>, x: R)
    ensures Elements(q + [x]) == Elements(q) + {x}
  {
  }

  lemma {:induction false} FilterNothing<R(!new)>(q: seq<R>, drop: set<R>)
    requires Elements(q) !! drop
    ensures Filter(q, drop) == q
  {
    if q == [] {
    } else {
      var m := |q| - 1;
      assert q == q[..m] + [q[m]];
      ElementsMore(q[..m], q[m]);
      FilterNothing(q[..m], drop);
    }
  }

  lemma {:induction false} FilterDistinct<R(!new)>(q: seq<R>, drop: set<R>)
    requires Distinct(q)
    ensures Distinct(Filter(q, drop))
  {
    if q == [] {
    } else {
      var m := |q| - 1;
      FilterDistinct(q[..m], drop);
      FilterElements(q[..m], drop);
      assert q[m] !in Elements(q[..m]);
      assert q[m] !in Elements(Filter(q[..m], drop));
    }
  }

  lemma AnsweredMore<R(!new)>(sent: seq<Sent<R>>, a: Sent<R>)
    ensures Answered(sent + [a]) == Answered(sent) + {a.res}
    ensures OnceEach(sent) && a.res !in Answered(sent) ==> OnceEach(sent + [a])
  {
    forall i | 0 <= i < |sent| ensures sent[i].res in Answered(sent) {
      assert sent[i] in sent;
    }
    assert a in sent + [a];
  }

  /** The answer suits its request: the status for the status path and nothing else, and "processing" exactly
      when it is a timeout. */
  predicate Suits(a: Answer, asks: bool) {
    (a.OrderStatus? <==> asks) && (a.OrderStatus? ==> (a.status == Processing <==> a.timedOut))
  }

  /** Exactly the parked and unanswered responses wait, in order of arrival; no response is answered twice. */
  ghost predicate Ordered<R(!new)>(parked: seq<R>, waiting: seq<R>, sent: seq<Sent<R>>) {
    waiting == Filter(parked, Answered(sent)) && Distinct(parked) && OnceEach(sent)
  }

  /** Exactly those that wait have an armed timer, and every request waits or is answered. */
  ghost predicate Counted<R(!new)>(st: State<R>) {
    && st.timers.Keys == Elements(st.waiting)
    && st.requests.Keys == Elements(st.waiting) + Answered(st.sent)
    && Elements(st.parked) <= st.requests.Keys
  }

  ghost predicate Queued<R(!new)>(st: State<R>) { Ordered(st.parked, st.waiting, st.sent) && Counted(st) }

  /** Only status requests wait, and every answer suits its request. */
  ghost predicate Suited<R(!new)>(requests: map<R, bool>, waiting: seq<R>, sent: seq<Sent<R>>) {
    && (forall i {:trigger sent[i]} :: 0 <= i < |sent| ==> SentInv(requests, sent[i]))
    && (forall r {:trigger requests[r]} :: r in waiting ==> r in requests && requests[r])
  }

  ghost predicate SentInv<R>(requests: map<R, bool>, a: Sent<R>) {
    a.res in requests && Suits(a.answer, requests[a.res])
  }

  ghost predicate Core<R(!new)>(st: State<R>) {
    Queued(st) && Suited(st.requests, st.waiting, st.sent)
  }

  /** And nobody waits once the order has shipped, nor is told so before. */
  ghost predicate Inv<R(!new)>(st: State<R>) {
    && Core(st)
    && (st.orderStatus == Shipped ==> st.waiting == [])
    && (st.orderStatus == Processing ==> NotYet(st.sent))
  }

  ghost predicate NotYet<R>(sent: seq<Sent<R>>) {
    forall i {:trigger sent[i]} :: 0 <= i < |sent| ==> sent[i].answer != OrderStatus(Shipped, false)
  }

  /** `res.end` with the `finish` handler. */
  function End<R(!new)>(st: State<R>, res: R, answer: Answer): State<R> {
    st.(sent := st.sent + [Sent(res, answer)], timers := st.timers - {res})
  }

  function Request<R(!new)>(st: State<R>, url: Text, res: R): State<R> { Take(st, AsksStatus(url), res) }

  function Take<R(!new)>(st: State<R>, asks: bool, res: R): State<R> {
    var st := st.(requests := st.requests[res := asks]);
    if !asks then End(st, res, NotFound)
    else if st.orderStatus == Shipped then End(st, res, OrderStatus(Shipped, false))
    else st.(waiting := st.waiting + [res], parked := st.parked + [res], timers := st.timers[res := st.now + TIMEOUT])
  }

  function Ship<R(!new)>(st: State<R>): State<R> {
    Notified(st.(orderStatus := Shipped, waiting := []), st.waiting)
  }

  function Notified<R(!new)>(st: State<R>, toNotify: seq<R>): State<R>
    decreases |toNotify|
  {
    if toNotify == [] then st
    else Notified(End(st, toNotify[0], OrderStatus(Shipped, false)), toNotify[1..])
  }

  /** The timer of `res` fires. */
  function Timeout<R(!new)>(st: State<R>, res: R): State<R> {
    var st := st.(waiting := Filter(st.waiting, {res}), timers := st.timers - {res});
    End(st, res, OrderStatus(st.orderStatus, true))
  }

  /** Answering a new request, or one that waits, keeps the bookkeeping. */
  lemma EndCore<R(!new)>(st: State<R>, asks: bool, res: R, answer: Answer)
    requires Core(st) && Suits(answer, asks)
    requires res in st.requests ==> res in st.waiting && st.requests[res] == asks
    ensures Core(End(st.(waiting := Filter(st.waiting, {res}), requests := st.requests[res := asks]), res, answer))
  {
    EndQueued(st, asks, res, answer);
    EndSuited(st.requests, st.waiting, st.sent, asks, res, answer);
  }

  lemma {:induction false} EndOrdered<R(!new)>(parked: seq<R>, waiting: seq<R>, sent: seq<Sent<R>>, a: Sent<R>)
    requires Ordered(parked, waiting, sent) && a.res !in Answered(sent)
    ensures Ordered(parked, Filter(waiting, {a.res}), sent + [a])
  {
    AnsweredMore(sent, a);
    FilterTwice(parked, Answered(sent), {a.res});
  }

  lemma EndCounted<R(!new)>(st: State<R>, asks: bool, res: R, answer: Answer)
    requires Counted(st)
    ensures Counted(End(st.(waiting := Filter(st.waiting, {res}), requests := st.requests[res := asks]), res, answer))
  {
    AnsweredMore(st.sent, Sent(res, answer));
    FilterElements(st.waiting, {res});
  }

  lemma NotAnswered<R(!new)>(st: State<R>, res: R)
    requires Queued(st) && (res in st.requests ==> res in st.waiting)
    ensures res !in Answered(st.sent)
  {
    FilterElements(st.parked, Answered(st.sent));
    assert res in st.waiting ==> res in Elements(st.waiting);
  }

  lemma EndQueued<R(!new)>(st: State<R>, asks: bool, res: R, answer: Answer)
    requires Queued(st) && (res in st.requests ==> res in st.waiting)
    ensures Queued(End(st.(waiting := Filter(st.waiting, {res}), requests := st.requests[res := asks]), res, answer))
  {
    NotAnswered(st, res);
    EndOrdered(st.parked, st.waiting, st.sent, Sent(res, answer));
    EndCounted(st, asks, res, answer);
  }

  lemma {:induction false} EndSuited<R(!new)>(requests: map<R, bool>, waiting: seq<R>, sent: seq<Sent<R>>,
                                              asks: bool, res: R, answer: Answer)
    requires Suited(requests, waiting, sent) && Suits(answer, asks)
    requires res in requests ==> requests[res] == asks
    ensures Suited(requests[res := asks], Filter(waiting, {res}), sent + [Sent(res, answer)])
  {
    FilterElements(waiting, {res});
    forall r | r in Filter(waiting, {res}) ensures r in waiting && r != res {
      assert r in Elements(Filter(waiting, {res}));
    }
  }

  lemma ParkCore<R(!new)>(st: State<R>, res: R)
    requires Core(st) && res !in st.requests
    ensures Core(st.(requests := st.requests[res := true], waiting := st.waiting + [res], parked := st.parked + [res],
                     timers := st.timers[res := st.now + TIMEOUT]))
  {
    ParkQueued(st, res);
    ParkSuited(st.requests, st.waiting, st.sent, res);
  }

  lemma ParkOrdered<R(!new)>(parked: seq<R>, waiting: seq<R>, sent: seq<Sent<R>>, res: R)
    requires Ordered(parked, waiting, sent) && res !in Answered(sent) && res !in Elements(parked)
    ensures Ordered(parked + [res], waiting + [res], sent)
  {
    FilterMore(parked, res, Answered(sent));
    DistinctMore(parked, res);
  }

  lemma ParkCounted<R(!new)>(st: State<R>, res: R)
    requires Counted(st)
    ensures Counted(st.(requests := st.requests[res := true], waiting := st.waiting + [res],
                        parked := st.parked + [res], timers := st.timers[res := st.now + TIMEOUT]))
  {
    ElementsMore(st.parked, res);
    ElementsMore(st.waiting, res);
  }

  lemma ParkQueued<R(!new)>(st: State<R>, res: R)
    requires Queued(st) && res !in st.requests
    ensures Queued(st.(requests := st.requests[res := true], waiting := st.waiting + [res], parked := st.parked + [res],
                       timers := st.timers[res := st.now + TIMEOUT]))
  {
    ParkOrdered(st.parked, st.waiting, st.sent, res);
    ParkCounted(st, res);
  }

  lemma DistinctMore<R(!new)>(q: seq<R>, x: R)
    requires Distinct(q) && x !in Elements(q)
    ensures Distinct(q + [x])
  {
  }

  lemma ParkSuited<R(!new)>(requests: map<R, bool>, waiting: seq<R>, sent: seq<Sent<R>>, res: R)
    requires Suited(requests, waiting, sent) && res !in requests
    ensures Suited(requests[res := true], waiting + [res], sent)
  {
  }

  lemma EndNew<R(!new)>(st: State<R>, asks: bool, res: R, answer: Answer)
    requires Core(st) && Suits(answer, asks) && res !in st.requests
    ensures Core(End(st.(requests := st.requests[res := asks]), res, answer))
  {
    EndCore(st, asks, res, answer);
    FilterNothing(st.waiting, {res});
  }

  /** An answer given at once neither lets anyone wait nor says "shipped" too early. */
  lemma AnswerAtOnce<R(!new)>(st: State<R>, asks: bool, res: R)
    requires Inv(st) && res !in st.requests && (asks ==> st.orderStatus == Shipped)
    ensures Inv(Take(st, asks, res))
  {
    EndNew(st, asks, res, if asks then OrderStatus(Shipped, false) else NotFound);
  }

  lemma ParkIs<R(!new)>(st: State<R>, res: R)
    requires st.orderStatus == Processing
    ensures Take(st, true, res)
            == st.(requests := st.requests[res := true], waiting := st.waiting + [res], parked := st.parked + [res],
                   timers := st.timers[res := st.now + TIMEOUT])
  {
  }

  lemma Park<R(!new)>(st: State<R>, res: R)
    requires Inv(st) && res !in st.requests && st.orderStatus == Processing
    ensures Inv(Take(st, true, res))
  {
    ParkIs(st, res);
    ParkCore(st, res);
  }

  lemma RequestInv<R(!new)>(st: State<R>, url: Text, res: R)
    requires Inv(st) && res !in st.requests
    ensures Inv(Request(st, url, res))
  {
    if AsksStatus(url) && st.orderStatus == Processing {
      Park(st, res);
    } else {
      AnswerAtOnce(st, AsksStatus(url), res);
    }
  }

  /** Answering one that waits. */
  lemma EndWaiting<R(!new)>(st: State<R>, res: R, answer: Answer)
    requires Core(st) && res in st.waiting && Suits(answer, true)
    ensures Core(End(st.(waiting := Filter(st.waiting, {res})), res, answer))
  {
    EndCore(st, true, res, answer);
    assert st.requests[res := true] == st.requests;
  }

  lemma TimersWait<R(!new)>(st: State<R>, res: R)
    requires Queued(st) && res in st.timers
    ensures res in st.waiting
  {
    assert res in Elements(st.waiting);
  }

  lemma TimeoutIs<R(!new)>(st: State<R>, res: R)
    ensures Timeout(st, res) == End(st.(waiting := Filter(st.waiting, {res})), res, OrderStatus(st.orderStatus, true))
  {
    assert st.timers - {res} - {res} == st.timers - {res};
  }

  lemma TimeoutInv<R(!new)>(st: State<R>, res: R)
    requires Inv(st) && res in st.timers
    ensures Inv(Timeout(st, res))
  {
    TimersWait(st, res);
    TimeoutIs(st, res);
    EndWaiting(st, res, OrderStatus(st.orderStatus, true));
  }

  /** The notification loop answers everyone in the list, in order, and disarms their timers. */
  lemma {:induction false} NotifiedExact<R(!new)>(st: State<R>, q: seq<R>)
    ensures Notified(st, q) == st.(sent := st.sent + Notices(q), timers := st.timers - Elements(q))
    decreases |q|
  {
    if q == [] {
    } else {
      var next := End(st, q[0], OrderStatus(Shipped, false));
      NotifiedExact(next, q[1..]);
      assert next.sent + Notices(q[1..]) == st.sent + Notices(q);
      assert Elements(q) == {q[0]} + Elements(q[1..]) by { assert q == [q[0]] + q[1..]; }
    }
  }

  function Notices<R>(q: seq<R>): seq<Sent<R>> {
    seq(|q|, i requires 0 <= i < |q| => Sent(q[i], OrderStatus(Shipped, false)))
  }

  lemma {:induction false} FilterHead<R(!new)>(q: seq<R>)
    requires q != [] && Distinct(q)
    ensures Filter(q, {q[0]}) == q[1..]
  {
    FilterAppend([q[0]], q[1..], {q[0]});
    assert q == [q[0]] + q[1..];
    FilterOne(q[0], {q[0]});
    FilterNothing(q[1..], {q[0]});
  }

  lemma {:induction false} FilterAppend<R>(a: seq<R>, b: seq<R>, drop: set<R>)
    ensures Filter(a + b, drop) == Filter(a, drop) + Filter(b, drop)
  {
    if b == [] {
      assert a + b == a;
    } else {
      var m := |b| - 1;
      FilterAppend(a, b[..m], drop);
      assert a + b == (a + b[..m]) + [b[m]];
      FilterMore(a + b[..m], b[m], drop);
    }
  }

  lemma FilterFirst<R(!new)>(st: State<R>)
    requires Queued(st) && st.waiting != []
    ensures Filter(st.waiting, {st.waiting[0]}) == st.waiting[1..]
  {
    FilterDistinct(st.parked, Answered(st.sent));
    FilterHead(st.waiting);
  }

  lemma NotifyOne<R(!new)>(st: State<R>, answer: Answer)
    requires Core(st) && st.waiting != [] && answer == OrderStatus(Shipped, false)
    ensures Core(End(st, st.waiting[0], answer).(waiting := st.waiting[1..]))
  {
    FilterFirst(st);
    EndWaiting(st, st.waiting[0], answer);
  }

  /** When all that wait are notified, nobody waits. */
  lemma {:induction false} NotifiedCore<R(!new)>(st: State<R>)
    requires Core(st)
    ensures Core(Notified(st, st.waiting).(waiting := []))
    decreases |st.waiting|
  {
    var q := st.waiting;
    if q == [] {
    } else {
      var answer := OrderStatus(Shipped, false);
      var next := End(st, q[0], answer);
      NotifyOne(st, answer);
      NotifiedCore(next.(waiting := q[1..]));
      NotifiedExact(next.(waiting := q[1..]), q[1..]);
      NotifiedExact(next, q[1..]);
    }
  }

  /** Shipping tells everyone that waits, in order of arrival, and leaves no timer and no request open. */
  lemma ShipInv<R(!new)>(st: State<R>)
    requires Inv(st)
    ensures Inv(Ship(st)) && Ship(st).waiting == [] && Ship(st).timers == map[]
    ensures Ship(st).orderStatus == Shipped && Ship(st).now == st.now && Ship(st).requests == st.requests
    ensures Ship(st).sent == st.sent + Notices(st.waiting)
    ensures Answered(Ship(st).sent) == st.requests.Keys
  {
    var shipped := st.(orderStatus := Shipped);
    NotifiedCore(shipped);
    NotifiedExact(shipped, st.waiting);
    NotifiedExact(shipped.(waiting := []), st.waiting);
    assert Ship(st) == Notified(shipped, st.waiting).(waiting := []);
  }

  /** Once the order has shipped every request has had its one answer. */
  lemma AllAnswered<R(!new)>(st: State<R>, r: R)
    requires Inv(st) && st.orderStatus == Shipped && r in st.requests
    ensures exists i :: 0 <= i < |st.sent| && st.sent[i].res == r
                        && forall j :: 0 <= j < |st.sent| && st.sent[j].res == r ==> j == i
  {
    var i := AnsweredAt(st.sent, r);
  }

  lemma AnsweredAt<R(!new)>(sent: seq<Sent<R>>, r: R) returns (i: nat)
    requires r in Answered(sent)
    ensures i < |sent| && sent[i].res == r
  {
    var a :| a in sent && a.res == r;
    i :| 0 <= i < |sent| && sent[i] == a;
  }

  /** A run with ideal timers: a timer fires when it is due, and time passes none that is. */
  datatype Event<R> = Ask(url: Text, res: R) | ShipDue | TimerDue(res: R) | Pass(to: nat)

  function Started<R>(): State<R> { State(Processing, [], map[], map[], [], [], 0) }

  /** What can happen when the order is to ship at `shipAt`. */
  ghost predicate Enabled<R(!new)>(st: State<R>, e: Event<R>, shipAt: nat) {
    match e
    case Ask(_, res) => res !in st.requests
    case ShipDue => st.orderStatus == Processing && st.now == shipAt
    case TimerDue(res) => res in st.timers && st.now == st.timers[res]
    case Pass(to) => st.now <= to && (st.orderStatus == Processing ==> to <= shipAt)
                     && forall r :: r in st.timers ==> to <= st.timers[r]
  }

  ghost function Next<R(!new)>(st: State<R>, e: Event<R>): State<R> {
    match e
    case Ask(url, res) => Request(st, url, res)
    case ShipDue => Ship(st)
    case TimerDue(res) => Timeout(st, res)
    case Pass(to) => st.(now := to)
  }

  ghost function Run<R(!new)>(run: seq<Event<R>>): State<R> {
    if run == [] then Started() else Next(Run(run[..|run| - 1]), run[|run| - 1])
  }

  ghost predicate Possible<R(!new)>(run: seq<Event<R>>, shipAt: nat) {
    run != [] ==> Possible(run[..|run| - 1], shipAt) && Enabled(Run(run[..|run| - 1]), run[|run| - 1], shipAt)
  }

  /** The time after a run. */
  ghost function Clock<R>(run: seq<Event<R>>): nat {
    if run == [] then 0
    else if run[|run| - 1].Pass? then run[|run| - 1].to
    else Clock(run[..|run| - 1])
  }

  /** Event number `i` is a request for the order status before the order has shipped: it is held open. */
  ghost predicate HeldAt<R(!new)>(run: seq<Event<R>>, i: nat) {
    i < |run| && run[i].Ask? && run[i].url == Ascii("/order-status") && ShipDue !in run[..i]
  }

  ghost predicate IsAsk<R>(run: seq<Event<R>>, i: nat, res: R) { i < |run| && run[i].Ask? && run[i].res == res }

  /** What one event does to what was asked, held and shipped. */
  lemma NextRecord<R(!new)>(st: State<R>, e: Event<R>)
    ensures Next(st, e).requests
            == if e.Ask? then st.requests[e.res := (e.url == Ascii("/order-status"))] else st.requests
    ensures Next(st, e).parked
            == if e.Ask? && e.url == Ascii("/order-status") && st.orderStatus == Processing
               then st.parked + [e.res] else st.parked
    ensures Next(st, e).orderStatus == if e.ShipDue? then Shipped else st.orderStatus
    ensures Next(st, e).now == if e.Pass? then e.to else st.now
  {
    if e.ShipDue? { NotifiedExact(st.(orderStatus := Shipped, waiting := []), st.waiting); }
  }

  /** The record by the events: the time, whether the order has shipped, and who asked for what. */
  lemma {:induction false} RecordIs<R(!new)>(run: seq<Event<R>>, shipAt: nat, r: R)
    requires Possible(run, shipAt)
    ensures Run(run).now == Clock(run) && (Run(run).orderStatus == Shipped <==> ShipDue in run)
    ensures r in Run(run).requests <==> exists url :: Ask(url, r) in run
    ensures forall url :: Ask(url, r) in run ==>
              r in Run(run).requests && Run(run).requests[r] == (url == Ascii("/order-status"))
  {
    if run == [] {
    } else {
      var m := |run| - 1;
      RecordIs(run[..m], shipAt, r);
      NextRecord(Run(run[..m]), run[m]);
      forall e ensures e in run <==> e in run[..m] || e == run[m] {
        assert run == run[..m] + [run[m]];
      }
    }
  }

  /** Who was held open: exactly those that asked for the status before the order had shipped, in that order. */
  lemma {:induction false} ParkedIs<R(!new)>(run: seq<Event<R>>, shipAt: nat) returns (at: seq<nat>)
    requires Possible(run, shipAt)
    ensures Picks(at, |run|, (i: nat) => HeldAt(run, i))
    ensures |Run(run).parked| == |at|
    ensures forall k :: 0 <= k < |at| ==> IsAsk(run, at[k], Run(run).parked[k])
  {
    if run == [] {
      at := [];
    } else {
      var m := |run| - 1;
      var before := ParkedIs(run[..m], shipAt);
      at := HeldMore(run, before);
      HeldLast(run, shipAt);
      AsksMore(run, before, Run(run[..m]).parked, HeldAt(run, m));
    }
  }

  lemma AsksMore<R(!new)>(run: seq<Event<R>>, at: seq<nat>, held: seq<R>, more: bool)
    requires run != [] && |at| == |held| && (more ==> run[|run| - 1].Ask?)
    requires forall k :: 0 <= k < |at| ==> IsAsk(run[..|run| - 1], at[k], held[k])
    ensures if more
            then var at', held' := at + [|run| - 1], held + [run[|run| - 1].res];
                 forall k :: 0 <= k < |at'| ==> IsAsk(run, at'[k], held'[k])
            else forall k :: 0 <= k < |at| ==> IsAsk(run, at[k], held[k])
  {
    forall k | 0 <= k < |at| ensures IsAsk(run, at[k], held[k]) {
      assert IsAsk(run[..|run| - 1], at[k], held[k]);
    }
  }

  lemma HeldMore<R(!new)>(run: seq<Event<R>>, before: seq<nat>) returns (at: seq<nat>)
    requires run != [] && Picks(before, |run| - 1, (i: nat) => HeldAt(run[..|run| - 1], i))
    ensures at == if HeldAt(run, |run| - 1) then before + [|run| - 1] else before
    ensures Picks(at, |run|, (i: nat) => HeldAt(run, i))
  {
    var m := |run| - 1;
    forall i: nat | i < m ensures HeldAt(run[..m], i) == HeldAt(run, i) {
      assert run[..m][..i] == run[..i];
    }
    at := PicksMore(before, m, (i: nat) => HeldAt(run[..m], i), (i: nat) => HeldAt(run, i));
  }

  lemma {:induction false} HeldLast<R(!new)>(run: seq<Event<R>>, shipAt: nat)
    requires run != [] && Possible(run, shipAt)
    ensures var m := |run| - 1;
            if HeldAt(run, m) then Run(run).parked == Run(run[..m]).parked + [run[m].res]
            else Run(run).parked == Run(run[..m]).parked
  {
    var m := |run| - 1;
    NextRecord(Run(run[..m]), run[m]);
    if run[m].Ask? { RecordIs(run[..m], shipAt, run[m].res); }
  }

  /** Nothing is overdue, and nobody has been told of a timeout. */
  ghost predicate OnTime<R(!new)>(st: State<R>, shipAt: nat) {
    && (st.orderStatus == Processing ==> st.now <= shipAt)
    && (forall r :: r in st.timers ==> st.now <= st.timers[r] && TIMEOUT <= st.timers[r])
    && Timely(st.sent)
  }

  ghost predicate Timely<R>(sent: seq<Sent<R>>) {
    forall i {:trigger sent[i]} :: 0 <= i < |sent| ==> !(sent[i].answer.OrderStatus? && sent[i].answer.timedOut)
  }

  /** No timer is ever due: the order ships first, and then there is none left. */
  lemma NotDue<R(!new)>(st: State<R>, shipAt: nat, res: R)
    requires Inv(st) && OnTime(st, shipAt) && shipAt < TIMEOUT
    ensures res in st.timers ==> st.now < st.timers[res]
  {
    assert res in st.timers ==> res in Elements(st.waiting);
  }

  lemma TakeOnTime<R(!new)>(st: State<R>, shipAt: nat, asks: bool, res: R)
    requires OnTime(st, shipAt)
    ensures OnTime(Take(st, asks, res), shipAt)
  {
  }

  lemma NextInv<R(!new)>(st: State<R>, e: Event<R>, shipAt: nat)
    requires Inv(st) && Enabled(st, e, shipAt)
    ensures Inv(Next(st, e))
  {
    match e
    case Ask(url, res) => RequestInv(st, url, res);
    case ShipDue => ShipInv(st);
    case TimerDue(res) => TimeoutInv(st, res);
    case Pass(_) =>
  }

  lemma NoticesTimely<R>(sent: seq<Sent<R>>, q: seq<R>)
    requires Timely(sent)
    ensures Timely(sent + Notices(q))
  {
  }

  lemma ShipOnTime<R(!new)>(st: State<R>, shipAt: nat)
    requires Inv(st) && OnTime(st, shipAt)
    ensures OnTime(Ship(st), shipAt)
  {
    NoticesTimely(st.sent, st.waiting);
    ShipInv(st);
  }

  lemma NextOnTime<R(!new)>(st: State<R>, e: Event<R>, shipAt: nat)
    requires Inv(st) && OnTime(st, shipAt) && Enabled(st, e, shipAt) && shipAt < TIMEOUT
    ensures OnTime(Next(st, e), shipAt) && !e.TimerDue?
  {
    match e
    case Ask(url, res) => TakeOnTime(st, shipAt, AsksStatus(url), res);
    case ShipDue => ShipOnTime(st, shipAt);
    case TimerDue(res) => NotDue(st, shipAt, res);
    case Pass(_) =>
  }

  lemma {:induction false} RunInv<R(!new)>(run: seq<Event<R>>, shipAt: nat)
    requires Possible(run, shipAt)
    ensures Inv(Run(run))
  {
    if run == [] {
    } else {
      var m := |run| - 1;
      RunInv(run[..m], shipAt);
      NextInv(Run(run[..m]), run[m], shipAt);
    }
  }

  lemma {:induction false} RunOnTime<R(!new)>(run: seq<Event<R>>, shipAt: nat)
    requires Possible(run, shipAt) && shipAt < TIMEOUT
    ensures OnTime(Run(run), shipAt)
  {
    if run == [] {
    } else {
      var m := |run| - 1;
      RunOnTime(run[..m], shipAt);
      RunInv(run[..m], shipAt);
      NextOnTime(Run(run[..m]), run[m], shipAt);
    }
  }

  lemma {:induction false} NoTimerDue<R(!new)>(run: seq<Event<R>>, shipAt: nat)
    requires Possible(run, shipAt) && shipAt < TIMEOUT
    ensures forall i :: 0 <= i < |run| ==> !run[i].TimerDue?
  {
    if run == [] {
    } else {
      var m := |run| - 1;
      NoTimerDue(run[..m], shipAt);
      RunInv(run[..m], shipAt);
      RunOnTime(run[..m], shipAt);
      NextOnTime(Run(run[..m]), run[m], shipAt);
      assert forall i :: 0 <= i < m ==> run[i] == run[..m][i];
    }
  }

  /** In no run with ideal timers does a timeout fire or an answer say so; and once the time of shipping is
      over every request has its answer, one that came before or after. */
  lemma {:induction false} NeverTimesOut<R(!new)>(run: seq<Event<R>>, shipAt: nat)
    requires Possible(run, shipAt) && shipAt < 6000
    ensures forall i :: 0 <= i < |run| ==> !run[i].TimerDue?
    ensures Timely(Run(run).sent)
    ensures Run(run).now > shipAt ==> Answered(Run(run).sent) == Run(run).requests.Keys
  {
    NoTimerDue(run, shipAt);
    RunInv(run, shipAt);
    RunOnTime(run, shipAt);
  }

  lemma {:induction false} Extend<R(!new)>(run: seq<Event<R>>, e: Event<R>, shipAt: nat)
    requires Possible(run, shipAt) && Enabled(Run(run), e, shipAt)
    ensures Possible(run + [e], shipAt) && Run(run + [e]) == Next(Run(run), e)
  {
    assert (run + [e])[..|run|] == run;
  }

  lemma FirstHeld<R(!new)>(url: Text, r: R)
    requires AsksStatus(url)
    ensures Request(Started<R>(), url, r) == State(Processing, [r], map[r := 10000], map[r := true], [r], [], 0)
  {
  }

  lemma {:induction false} Asked<R(!new)>(url: Text, r: R, shipAt: nat)
    requires AsksStatus(url)
    ensures Possible([Ask(url, r)], shipAt)
    ensures Run([Ask(url, r)]) == State(Processing, [r], map[r := 10000], map[r := true], [r], [], 0)
  {
    var run0: seq<Event<R>> := [];
    Extend(run0, Ask(url, r), shipAt);
    FirstHeld(url, r);
    assert run0 + [Ask(url, r)] == [Ask(url, r)];
  }

  /** A request for the status that is held open for a while. */
  lemma {:induction false} HeldOpen<R(!new)>(r: R, shipAt: nat, to: nat)
    requires to <= shipAt && to <= 10000
    ensures var run := [Ask(Ascii("/order-status"), r), Pass(to)];
            && Possible(run, shipAt)
            && Run(run) == State(Processing, [r], map[r := 10000], map[r := true], [r], [], to)
  {
    var ask := Ask(Ascii("/order-status"), r);
    Asked(ask.url, r, shipAt);
    Extend([ask], Pass(to), shipAt);
    assert [ask] + [Pass(to)] == [ask, Pass(to)];
  }

  /** An order that ships in time, and one that does not. */
  lemma {:induction false} ToldWhenShipped<R(!new)>(r: R, shipAt: nat)
    requires shipAt <= 10000
    ensures var run := [Ask(Ascii("/order-status"), r), Pass(shipAt)] + [ShipDue];
            Possible(run, shipAt) && Run(run).sent == [Sent(r, OrderStatus(Shipped, false))]
  {
    var run := [Ask(Ascii("/order-status"), r), Pass(shipAt)];
    HeldOpen(r, shipAt, shipAt);
    Extend(run, ShipDue, shipAt);
    RunInv(run, shipAt);
    ShipInv(Run(run));
  }

  lemma {:induction false} ToldOfTimeout<R(!new)>(r: R, shipAt: nat)
    requires shipAt >= 10000
    ensures var run := [Ask(Ascii("/order-status"), r), Pass(10000)] + [TimerDue(r)];
            Possible(run, shipAt) && Run(run).sent == [Sent(r, OrderStatus(Processing, true))]
  {
    HeldOpen(r, shipAt, 10000);
    Extend([Ask(Ascii("/order-status"), r), Pass(10000)], TimerDue(r), shipAt);
  }

  ghost predicate TimesOut<R(!new)>(run: seq<Event<R>>, shipAt: nat) {
    Possible(run, shipAt) && exists i :: 0 <= i < |run| && run[i].TimerDue?
  }

  /** A timeout can happen exactly if the order ships ten seconds after the start or later. */
  lemma {:induction false} TimesOutExact<R(!new)>(r: R, shipAt: nat)
    ensures (exists run: seq<Event<R>> :: TimesOut(run, shipAt)) <==> shipAt >= 10000
  {
    if shipAt >= 10000 {
      var run := [Ask(Ascii("/order-status"), r), Pass(10000)] + [TimerDue(r)];
      ToldOfTimeout(r, shipAt);
      assert run[2].TimerDue?;
      assert TimesOut(run, shipAt);
    } else {
      forall run: seq<Event<R>> | Possible(run, shipAt) ensures !TimesOut(run, shipAt) {
        NoTimerDue(run, shipAt);
      }
    }
  }

  /** The timer rules never stop the clock: time can pass or the order ships. */
  lemma {:induction false} ClockRuns<R(!new)>(run: seq<Event<R>>, shipAt: nat)
    requires Possible(run, shipAt) && shipAt < TIMEOUT
    ensures Enabled(Run(run), Pass(Run(run).now + 1), shipAt) || Enabled(Run(run), ShipDue, shipAt)
  {
    RunInv(run, shipAt);
    RunOnTime(run, shipAt);
    forall r | r in Run(run).timers ensures Run(run).now + 1 <= Run(run).timers[r] {
      NotDue(Run(run), shipAt, r);
    }
  }

  class Server<Res(==, !new)> {
    var orderStatus: Status
    var waitingResponses: seq<Res>
    var timers: map<Res, nat>
    ghost var requests: map<Res, bool>
    ghost var parked: seq<Res>
    ghost var sent: seq<Sent<Res>>
    ghost var now: nat

    ghost function Value(): State<Res>
      reads this
    {
      State(orderStatus, waitingResponses, timers, requests, parked, sent, now)
    }

    ghost predicate Valid()
      reads this
    {
      Inv(Value())
    }

    constructor ()
      ensures Valid() && Value() == Started()
    {
      orderStatus, waitingResponses, timers, requests, parked, sent, now := Processing, [], map[], map[], [], [], 0;
    }

    ghost method Elapse(to: nat)
      requires Valid() && now <= to
      modifies this`now
      ensures Valid() && Value() == old(Value()).(now := to)
    {
      now := to;
    }

    /** `writeHead`, `end` and the `finish` handler. */
    method EndResponse(res: Res, answer: Answer)
      modifies this`timers, this`sent
      ensures Value() == End(old(Value()), res, answer)
    {
      sent := sent + [Sent(res, answer)];
      timers := timers - {res};
    }

    /** The request handler; `clock` is the time of the call. */
    method OnRequest(url: Text, res: Res, clock: nat)
      requires Valid() && res !in requests && clock == now
      modifies this
      ensures Valid() && Value() == Request(old(Value()), url, res)
      ensures requests == old(requests)[res := (url == Ascii("/order-status"))] && orderStatus == old(orderStatus)
    {
      RequestInv(Value(), url, res);
      HandleRequest(url, res, clock);
    }

    method HandleRequest(url: Text, res: Res, clock: nat)
      requires clock == now
      modifies this
      ensures Value() == Request(old(Value()), url, res)
    {
      requests := requests[res := AsksStatus(url)];
      if !AsksStatus(url) {
        EndResponse(res, NotFound);
        return;
      }
      if orderStatus == Shipped {
        EndResponse(res, OrderStatus(orderStatus, false));
        return;
      }
      waitingResponses := waitingResponses + [res];
      timers := timers[res := clock + TIMEOUT];
      parked := parked + [res];
    }

    /** The order ships. */
    method OnShip()
      requires Valid()
      modifies this
      ensures Valid() && Value() == Ship(old(Value()))
      ensures orderStatus == Shipped && sent == old(sent) + Notices(old(waitingResponses))
      ensures requests == old(requests)
    {
      ghost var after := Ship(Value());
      ShipInv(Value());
      NotifyAll();
      assert Value() == after;
    }

    method NotifyAll()
      modifies this
      ensures Value() == Ship(old(Value()))
    {
      orderStatus := Shipped;
      var toNotify := waitingResponses;
      waitingResponses := [];
      ghost var start := Value();
      for i := 0 to |toNotify|
        invariant orderStatus == Shipped && Notified(Value(), toNotify[i..]) == Notified(start, toNotify)
      {
        assert toNotify[i..][1..] == toNotify[i + 1..];
        EndResponse(toNotify[i], OrderStatus(orderStatus, false));
      }
    }

    method OnTimeout(res: Res)
      requires Valid() && res in timers
      modifies this
      ensures Valid() && Value() == Timeout(old(Value()), res)
      ensures sent == old(sent) + [Sent(res, OrderStatus(orderStatus, true))]
      ensures requests == old(requests) && orderStatus == old(orderStatus)
    {
      TimeoutInv(Value(), res);
      TimeOut(res);
    }

    method TimeOut(res: Res)
      modifies this
      ensures Value() == Timeout(old(Value()), res)
    {
      timers := timers - {res};
      waitingResponses := Filter(waitingResponses, {res});
      EndResponse(res, OrderStatus(orderStatus, true));
    }
  }
}
