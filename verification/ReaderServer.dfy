/** The io thread: frames each connection's text into lines, hands every line to the worker pool at once,
    and writes each result back to the socket that asked, whenever it comes.

    Resolving a promise and running its `then` callback is one step: the callback is a microtask and no
    other event handler runs in between. */
module ReaderServer {
  import opened JsText
  import opened Primes
  import opened Framing
  import opened RoundRobin
  import opened Sequences
  import opened WorkerPool

  /** The request in a framed line: the line trimmed, unless it is blank. */
  function RequestOf(raw: Text): seq<Text> { if Trim(raw) == [] then [] else [Trim(raw)] }

  function Requests(lines: seq<Text>): seq<Text> { Collect(lines, RequestOf) }

  /** The ids among `ids` whose requester is `s`, in order. */
  ghost function Owned<S>(ids: seq<nat>, jobs: seq<Job<S>>, s: S): (own: seq<nat>)
    requires Below(ids, |jobs|)
    ensures Below(own, |jobs|)
  {
    if ids == [] then []
    else
      var m := |ids| - 1;
      Owned(ids[..m], jobs, s) + (if jobs[ids[m]].resolve == s then [ids[m]] else [])
  }

  /** What is written for a list of ids: the answer of the worker each was dispatched to. */
  ghost function Answers<S>(c: Workers, ids: seq<nat>, jobs: seq<Job<S>>): seq<Text>
    requires c.k > 0 && Below(ids, |jobs|)
  {
    seq(|ids|, i requires 0 <= i < |ids| => AnswerTo(c, ids[i], jobs))
  }

  ghost function AnswerTo<S>(c: Workers, id: nat, jobs: seq<Job<S>>): Text
    requires c.k > 0 && id < |jobs|
  {
    c.answer(id % c.k, jobs[id].payload) + NL
  }

  lemma {:induction false} OwnedExtend<S>(ids: seq<nat>, jobs: seq<Job<S>>, job: Job<S>, s: S)
    requires Below(ids, |jobs|)
    ensures Owned(ids, jobs + [job], s) == Owned(ids, jobs, s)
  {
    if ids == [] {
    } else {
      OwnedExtend(ids[..|ids| - 1], jobs, job, s);
    }
  }

  lemma {:induction false} OwnedSnoc<S>(ids: seq<nat>, jobs: seq<Job<S>>, id: nat, s: S)
    requires Below(ids, |jobs|) && id < |jobs|
    ensures Owned(ids + [id], jobs, s) == Owned(ids, jobs, s) + (if jobs[id].resolve == s then [id] else [])
  {
    assert (ids + [id])[..|ids|] == ids;
  }

  lemma SnocCount(ids: seq<nat>, id: nat)
    requires ids != []
    ensures multiset(ids)[id] == multiset(ids[..|ids| - 1])[id] + (if ids[|ids| - 1] == id then 1 else 0)
  {
    assert ids == ids[..|ids| - 1] + [ids[|ids| - 1]];
  }

  lemma {:induction false} OwnedCount<S>(ids: seq<nat>, jobs: seq<Job<S>>, s: S, id: nat)
    requires Below(ids, |jobs|)
    ensures multiset(Owned(ids, jobs, s))[id]
            == if id < |jobs| && jobs[id].resolve == s then multiset(ids)[id] else 0
  {
    if ids == [] {
    } else {
      var m := |ids| - 1;
      OwnedCount(ids[..m], jobs, s, id);
      SnocCount(ids, id);
    }
  }

  lemma AnswersConcat<S>(c: Workers, a: seq<nat>, b: seq<nat>, jobs: seq<Job<S>>)
    requires c.k > 0 && Below(a, |jobs|) && Below(b, |jobs|)
    ensures Below(a + b, |jobs|)
    ensures multiset(Answers(c, a + b, jobs)) == multiset(Answers(c, a, jobs)) + multiset(Answers(c, b, jobs))
  {
    assert Answers(c, a + b, jobs) == Answers(c, a, jobs) + Answers(c, b, jobs);
  }

  lemma RemoveAt<T>(s: seq<T>, i: nat)
    requires i < |s|
    ensures multiset(s) == multiset(s[..i] + s[i + 1..]) + multiset{s[i]}
  {
    assert s == s[..i] + ([s[i]] + s[i + 1..]);
  }

  lemma Cancel<T>(m: multiset<T>, n: multiset<T>, x: T)
    requires m + multiset{x} == n + multiset{x}
    ensures m == n
  {
    forall y ensures m[y] == n[y] {
      assert (m + multiset{x})[y] == (n + multiset{x})[y];
    }
  }

  /** Taking one id out of a list takes one answer out. */
  lemma AnswersRemove<S>(c: Workers, a: seq<nat>, i: nat, jobs: seq<Job<S>>)
    requires c.k > 0 && Below(a, |jobs|) && i < |a|
    ensures multiset(Answers(c, a, jobs))
            == multiset(Answers(c, a[..i] + a[i + 1..], jobs)) + multiset{AnswerTo(c, a[i], jobs)}
  {
    assert a == a[..i] + ([a[i]] + a[i + 1..]);
    AnswersConcat(c, [a[i]], a[i + 1..], jobs);
    AnswersConcat(c, a[..i], [a[i]] + a[i + 1..], jobs);
    AnswersConcat(c, a[..i], a[i + 1..], jobs);
    assert Answers(c, [a[i]], jobs) == [AnswerTo(c, a[i], jobs)];
  }

  lemma PermuteHead(a: seq<nat>, b: seq<nat>) returns (i: nat)
    requires a != [] && multiset(a) == multiset(b)
    ensures i < |b| && b[i] == a[0] && multiset(a[1..]) == multiset(b[..i] + b[i + 1..])
  {
    assert a[0] in multiset(b);
    i :| 0 <= i < |b| && b[i] == a[0];
    RemoveAt(b, i);
    assert a == [a[0]] + a[1..];
    Cancel(multiset(a[1..]), multiset(b[..i] + b[i + 1..]), a[0]);
  }

  lemma AnswersHead<S>(c: Workers, a: seq<nat>, jobs: seq<Job<S>>)
    requires c.k > 0 && Below(a, |jobs|) && a != []
    ensures multiset(Answers(c, a, jobs)) == multiset(Answers(c, a[1..], jobs)) + multiset{AnswerTo(c, a[0], jobs)}
  {
    AnswersRemove(c, a, 0, jobs);
    assert a[..0] + a[1..] == a[1..];
  }

  /** Reordering ids reorders what is written for them. */
  lemma {:induction false} AnswersPermute<S>(c: Workers, a: seq<nat>, b: seq<nat>, jobs: seq<Job<S>>)
    requires c.k > 0 && multiset(a) == multiset(b)
    requires Below(a, |jobs|) && Below(b, |jobs|)
    ensures multiset(Answers(c, a, jobs)) == multiset(Answers(c, b, jobs))
  {
    if a == [] {
      assert |multiset(b)| == 0;
    } else {
      var i := PermuteHead(a, b);
      AnswersHead(c, a, jobs);
      AnswersRemove(c, b, i, jobs);
      AnswersPermute(c, a[1..], b[..i] + b[i + 1..], jobs);
    }
  }

  /** The ids of the requests of `s`, and the requests, in the order of dispatch. */
  ghost function Dispatched<S>(jobs: seq<Job<S>>, s: S): (ids: seq<nat>)
    ensures Below(ids, |jobs|)
  {
    if jobs == [] then []
    else
      var m := |jobs| - 1;
      Dispatched(jobs[..m], s) + (if jobs[m].resolve == s then [m] else [])
  }

  ghost function Lines<S>(jobs: seq<Job<S>>, s: S): seq<Text> {
    if jobs == [] then []
    else
      var m := |jobs| - 1;
      Lines(jobs[..m], s) + (if jobs[m].resolve == s then [jobs[m].payload] else [])
  }

  lemma CountMore(ids: seq<nat>, x: nat, id: nat)
    ensures multiset(ids + [x])[id] == multiset(ids)[id] + (if x == id then 1 else 0)
  {
  }

  lemma {:induction false} DispatchedCount<S>(jobs: seq<Job<S>>, s: S, id: nat)
    ensures multiset(Dispatched(jobs, s))[id] == if id < |jobs| && jobs[id].resolve == s then 1 else 0
  {
    if jobs == [] {
    } else {
      var m := |jobs| - 1;
      var before: seq<nat> := Dispatched(jobs[..m], s);
      DispatchedCount(jobs[..m], s, id);
      if jobs[m].resolve == s { CountMore(before, m, id); } else { assert before + [] == before; }
      assert id < m ==> jobs[..m][id] == jobs[id];
    }
  }

  ghost function Output<S>(c: Workers, p: Pool<S>, s: S): seq<Text>
    requires Inv(c, p)
  {
    Answers(c, Owned(p.settled, p.jobs, s), p.jobs)
  }

  /** A dispatch adds one line to its own socket and writes nothing. */
  lemma DispatchLines<S>(c: Workers, p: Pool<S>, job: Job<S>, s: S)
    requires Inv(c, p)
    ensures Inv(c, Dispatch(c, p, job))
    ensures Lines(Dispatch(c, p, job).jobs, s) == Lines(p.jobs, s) + (if job.resolve == s then [job.payload] else [])
    ensures Output(c, Dispatch(c, p, job), s) == Output(c, p, s)
  {
    DispatchInv(c, p, job);
    assert (p.jobs + [job])[..|p.jobs|] == p.jobs;
    OwnedExtend(p.settled, p.jobs, job, s);
  }

  /** A reply received is written to the socket that asked, and to no other. */
  lemma ReceiveOutput<S>(c: Workers, p: Pool<S>, w: nat, s: S)
    requires Inv(c, p) && w < c.k && p.replies[w] != []
    ensures Inv(c, Receive(c, p, w))
    ensures var id := p.replies[w][0].id;
            && id < |p.jobs|
            && Output(c, Receive(c, p, w), s)
               == Output(c, p, s) + (if p.jobs[id].resolve == s then [AnswerTo(c, id, p.jobs)] else [])
  {
    ReceiveInv(c, p, w);
    HeadOfReplies(c, p, w);
    OwnedSnoc(p.settled, p.jobs, p.replies[w][0].id, s);
  }

  ghost function DispatchAll<S>(c: Workers, p: Pool<S>, s: S, lines: seq<Text>): (p': Pool<S>)
    requires Inv(c, p)
    ensures Inv(c, p')
  {
    if lines == [] then p
    else
      var m := |lines| - 1;
      var q := DispatchAll(c, p, s, lines[..m]);
      DispatchInv(c, q, Job(s, lines[m]));
      Dispatch(c, q, Job(s, lines[m]))
  }

  lemma {:induction false} DispatchAllLines<S>(c: Workers, p: Pool<S>, s: S, lines: seq<Text>, t: S)
    requires Inv(c, p)
    ensures Lines(DispatchAll(c, p, s, lines).jobs, t) == Lines(p.jobs, t) + (if s == t then lines else [])
    ensures Output(c, DispatchAll(c, p, s, lines), t) == Output(c, p, t)
  {
    if lines == [] {
    } else {
      var m := |lines| - 1;
      DispatchAllLines(c, p, s, lines[..m], t);
      DispatchLines(c, DispatchAll(c, p, s, lines[..m]), Job(s, lines[m]), t);
      AppendLast(Lines(p.jobs, t), lines);
    }
  }

  /** The server as a value; `received` is everything each socket has sent. */
  datatype View<S> = View(pool: Pool<S>, buffers: map<S, Text>, written: map<S, seq<Text>>,
                          received: map<S, Text>)

  /** The buffer of a socket is its unfinished line, every finished one was dispatched in order, and
      what was written is the answers to the settled requests of that socket. */
  ghost predicate SocketInv<S>(c: Workers, v: View<S>, s: S)
    requires Inv(c, v.pool) && s in v.buffers && s in v.written && s in v.received
  {
    && v.buffers[s] == Rest(v.received[s], NL)
    && Lines(v.pool.jobs, s) == Requests(Frames(v.received[s], NL))
    && v.written[s] == Output(c, v.pool, s)
  }

  ghost predicate ServerInv<S>(c: Workers, v: View<S>) {
    && Inv(c, v.pool)
    && v.buffers.Keys == v.written.Keys == v.received.Keys
    && (forall s {:trigger SocketInv(c, v, s)} :: s in v.received ==> SocketInv(c, v, s))
    && (forall i :: 0 <= i < |v.pool.jobs| ==> v.pool.jobs[i].resolve in v.received)
  }

  /** A new connection starts with nothing. */
  ghost function Connect<S>(v: View<S>, s: S): View<S> {
    v.(buffers := v.buffers[s := []], written := v.written[s := []], received := v.received[s := []])
  }

  lemma ConnectInv<S>(c: Workers, v: View<S>, s: S)
    requires ServerInv(c, v) && s !in v.received
    ensures ServerInv(c, Connect(v, s))
  {
    var v' := Connect(v, s);
    ConnectFresh(c, v, s);
    forall t | t in v'.received && t != s ensures SocketInv(c, v', t) {
      ConnectOther(c, v, s, t);
    }
  }

  lemma ConnectFresh<S>(c: Workers, v: View<S>, s: S)
    requires Inv(c, v.pool)
    requires forall i :: 0 <= i < |v.pool.jobs| ==> v.pool.jobs[i].resolve != s
    ensures SocketInv(c, Connect(v, s), s)
  {
    NoLines(v.pool.jobs, s);
    NoneOwned(v.pool.settled, v.pool.jobs, s);
    assert Frames([], NL) == [] && Rest([], NL) == [];
  }

  lemma ConnectOther<S>(c: Workers, v: View<S>, s: S, t: S)
    requires Inv(c, v.pool) && t in v.buffers && t in v.written && t in v.received && s != t
    requires SocketInv(c, v, t)
    ensures SocketInv(c, Connect(v, s), t)
  {
  }

  lemma {:induction false} NoLines<S>(jobs: seq<Job<S>>, s: S)
    requires forall i :: 0 <= i < |jobs| ==> jobs[i].resolve != s
    ensures Lines(jobs, s) == []
  {
    if jobs == [] {
    } else {
      NoLines(jobs[..|jobs| - 1], s);
    }
  }

  lemma {:induction false} NoneOwned<S>(ids: seq<nat>, jobs: seq<Job<S>>, s: S)
    requires Below(ids, |jobs|)
    requires forall i :: 0 <= i < |jobs| ==> jobs[i].resolve != s
    ensures Owned(ids, jobs, s) == []
  {
    if ids == [] {
    } else {
      NoneOwned(ids[..|ids| - 1], jobs, s);
    }
  }

  /** One `data` event: the finished lines are dispatched, the rest is kept. */
  ghost function Data<S>(c: Workers, v: View<S>, s: S, chunk: Text): View<S>
    requires Inv(c, v.pool) && s in v.buffers && s in v.received
  {
    var whole := v.buffers[s] + chunk;
    v.(pool := DispatchAll(c, v.pool, s, Requests(Frames(whole, NL))),
       buffers := v.buffers[s := Rest(whole, NL)],
       received := v.received[s := v.received[s] + chunk])
  }

  lemma {:induction false} DispatchAllJobs<S>(c: Workers, p: Pool<S>, s: S, lines: seq<Text>)
    requires Inv(c, p)
    ensures var p' := DispatchAll(c, p, s, lines);
            && p.jobs <= p'.jobs
            && forall i :: |p.jobs| <= i < |p'.jobs| ==> p'.jobs[i].resolve == s
  {
    if lines == [] {
    } else {
      DispatchAllJobs(c, p, s, lines[..|lines| - 1]);
    }
  }

  lemma DataInv<S>(c: Workers, v: View<S>, s: S, chunk: Text)
    requires ServerInv(c, v) && s in v.received
    ensures ServerInv(c, Data(c, v, s, chunk))
  {
    var v' := Data(c, v, s, chunk);
    DispatchAllJobs(c, v.pool, s, Requests(Frames(v.buffers[s] + chunk, NL)));
    forall t | t in v'.received ensures SocketInv(c, v', t) {
      DataSocket(c, v, s, chunk, t);
    }
  }

  lemma DataSocket<S>(c: Workers, v: View<S>, s: S, chunk: Text, t: S)
    requires Inv(c, v.pool) && v.buffers.Keys == v.written.Keys == v.received.Keys
    requires s in v.received && t in v.received && SocketInv(c, v, s) && SocketInv(c, v, t)
    ensures SocketInv(c, Data(c, v, s, chunk), t)
  {
    var sent := v.received[s];
    DispatchAllLines(c, v.pool, s, Requests(Frames(v.buffers[s] + chunk, NL)), t);
    if t == s {
      CollectData(sent, chunk, NL, RequestOf);
    }
  }

  ghost function Deliver<S>(c: Workers, v: View<S>, w: nat): View<S>
    requires ServerInv(c, v) && w < c.k && v.pool.replies[w] != []
  {
    HeadOfReplies(c, v.pool, w);
    var id := v.pool.replies[w][0].id;
    var s := v.pool.jobs[id].resolve;
    v.(pool := Receive(c, v.pool, w),
       written := v.written[s := v.written[s] + [AnswerTo(c, id, v.pool.jobs)]])
  }

  lemma DeliverSocket<S>(c: Workers, v: View<S>, w: nat, t: S)
    requires ServerInv(c, v) && w < c.k && v.pool.replies[w] != [] && t in v.received
    ensures Inv(c, Deliver(c, v, w).pool) && t in Deliver(c, v, w).written
    ensures SocketInv(c, Deliver(c, v, w), t)
  {
    HeadOfReplies(c, v.pool, w);
    assert SocketInv(c, v, t);
    ReceiveOutput(c, v.pool, w, t);
  }

  lemma DeliverTables<S>(c: Workers, v: View<S>, w: nat)
    requires ServerInv(c, v) && w < c.k && v.pool.replies[w] != []
    ensures var v' := Deliver(c, v, w);
            && v'.buffers == v.buffers && v'.received == v.received && v'.written.Keys == v.written.Keys
            && v'.pool == Receive(c, v.pool, w) && v'.pool.jobs == v.pool.jobs
  {
    HeadOfReplies(c, v.pool, w);
    assert v.pool.jobs[v.pool.replies[w][0].id].resolve in v.received;
  }

  lemma DeliverInv<S>(c: Workers, v: View<S>, w: nat)
    requires ServerInv(c, v) && w < c.k && v.pool.replies[w] != []
    ensures ServerInv(c, Deliver(c, v, w))
  {
    var v' := Deliver(c, v, w);
    DeliverTables(c, v, w);
    ReceiveInv(c, v.pool, w);
    forall t | t in v'.received ensures SocketInv(c, v', t) {
      DeliverSocket(c, v, w, t);
    }
  }

  lemma WorkServerInv<S>(c: Workers, v: View<S>, w: nat)
    requires ServerInv(c, v) && w < c.k && v.pool.inbox[w] != []
    ensures ServerInv(c, v.(pool := Work(c, v.pool, w)))
  {
    WorkInv(c, v.pool, w);
    var v' := v.(pool := Work(c, v.pool, w));
    forall s | s in v'.received ensures SocketInv(c, v', s) {
      assert SocketInv(c, v, s);
    }
  }

  /** One answer per line, each by the worker of the id that the line got. */
  ghost function AnswersFor(c: Workers, ids: seq<nat>, lines: seq<Text>): seq<Text>
    requires |ids| == |lines| && c.k > 0
  {
    seq(|ids|, i requires 0 <= i < |ids| => c.answer(ids[i] % c.k, lines[i]) + NL)
  }

  lemma {:induction false} LinesOfDispatched<S>(jobs: seq<Job<S>>, s: S)
    ensures |Dispatched(jobs, s)| == |Lines(jobs, s)|
    ensures forall i :: 0 <= i < |Lines(jobs, s)| ==> Lines(jobs, s)[i] == jobs[Dispatched(jobs, s)[i]].payload
  {
    if jobs == [] {
    } else {
      LinesOfDispatched(jobs[..|jobs| - 1], s);
    }
  }

  lemma {:induction false} AnswersOfLines<S>(c: Workers, jobs: seq<Job<S>>, s: S)
    requires c.k > 0
    ensures |Dispatched(jobs, s)| == |Lines(jobs, s)|
    ensures Answers(c, Dispatched(jobs, s), jobs) == AnswersFor(c, Dispatched(jobs, s), Lines(jobs, s))
  {
    LinesOfDispatched(jobs, s);
  }

  /** The text of an answer: the line in upper case and, in decimal, the thread of the worker it was dispatched
      to, the number of primes below 15000 times its length, and that bound; then a line break. */
  lemma AnswerText(config: Config, ids: seq<nat>, lines: seq<Text>, i: nat)
    requires |config.threadIds| > 0 && i < |ids| == |lines|
    ensures var n := 15000 * |lines[i]|;
            var answer := AnswersFor(WorkersOf(config), ids, lines)[i];
            && answer != [] && answer[|answer| - 1] == 10
            && Says(answer[..|answer| - 1], config.toUpper(lines[i]), config.threadIds[ids[i] % |config.threadIds|],
                    |set p: nat | p < n && IsPrime(p)|, n)
  {
    var w := ids[i] % |config.threadIds|;
    var text := Answer(lines[i], config.threadIds[w], config.toUpper);
    assert WorkersOf(config).answer(w, lines[i]) == text;
    AnswerSays(lines[i], config.threadIds[w], config.toUpper, text);
    assert (text + NL)[..|text|] == text;
  }

  /** The settled requests of a socket are, once nothing is pending, all its requests. */
  lemma OwnedSettled<S>(c: Workers, p: Pool<S>, s: S)
    requires Inv(c, p) && p.pending == map[]
    ensures multiset(Owned(p.settled, p.jobs, s)) == multiset(Dispatched(p.jobs, s))
  {
    var settled: seq<nat> := Owned(p.settled, p.jobs, s);
    var ids: seq<nat> := Dispatched(p.jobs, s);
    forall id: nat ensures multiset(settled)[id] == multiset(ids)[id] {
      OwnedCount(p.settled, p.jobs, s, id);
      SettledOnce(c, p, id);
      DispatchedCount(p.jobs, s, id);
    }
  }

  /** End to end. However the text of the sockets was cut into chunks and however the workers and replies
      interleaved: once nothing is pending, a socket has been written exactly one answer for each of its
      non-blank lines, computed from that line by the worker it was dispatched to. */
  lemma EndToEnd<S>(c: Workers, v: View<S>, s: S)
    requires ServerInv(c, v) && v.pool.pending == map[] && s in v.received
    ensures var lines, ids := Requests(Frames(v.received[s], NL)), Dispatched(v.pool.jobs, s);
            && |lines| == |ids|
            && multiset(v.written[s]) == multiset(AnswersFor(c, ids, lines))
  {
    assert SocketInv(c, v, s);
    OwnedSettled(c, v.pool, s);
    AnswersPermute(c, Owned(v.pool.settled, v.pool.jobs, s), Dispatched(v.pool.jobs, s), v.pool.jobs);
    AnswersOfLines(c, v.pool.jobs, s);
  }

  /** A line as a client may send it, with white space around what it asks for. */
  datatype Line = Line(lead: Text, word: Text, trail: Text)

  predicate OneLine(l: Line) {
    && Blank(l.lead) && Blank(l.trail) && (l.word == [] || Tight(l.word))
    && NEWLINE !in l.lead && NEWLINE !in l.word && NEWLINE !in l.trail
  }

  function LineText(l: Line): Text { l.lead + l.word + l.trail }

  function LinesText(ls: seq<Line>): Text {
    if ls == [] then [] else LineText(ls[0]) + [NEWLINE] + LinesText(ls[1..])
  }

  /** What the lines ask for: the words that are not empty, in order. */
  function Words(ls: seq<Line>): seq<Text> {
    if ls == [] then [] else (if ls[0].word == [] then [] else [ls[0].word]) + Words(ls[1..])
  }

  /** Every text without a line break is such a line. */
  lemma {:induction false} AnyLine(s: Text) returns (l: Line)
    requires NEWLINE !in s
    ensures OneLine(l) && LineText(l) == s
    decreases |s|
  {
    var m := |s| - 1;
    if s == [] {
      l := Line([], [], []);
    } else if IsSpace(s[0]) {
      var inner := AnyLine(s[1..]);
      l := Line([s[0]] + inner.lead, inner.word, inner.trail);
      assert s == [s[0]] + s[1..];
    } else if IsSpace(s[m]) {
      var inner := AnyLine(s[..m]);
      l := Line(inner.lead, inner.word, inner.trail + [s[m]]);
      assert s == s[..m] + [s[m]];
    } else {
      l := Line([], s, []);
      assert [] + s + [] == s;
    }
  }

  /** And every text at all is such lines and an unfinished rest. */
  lemma {:induction false} AnyText(s: Text) returns (ls: seq<Line>, rest: Text)
    ensures (forall i :: 0 <= i < |ls| ==> OneLine(ls[i])) && NEWLINE !in rest
    ensures LinesText(ls) + rest == s
    decreases |s|
  {
    IndexOfUnit(s, NEWLINE);
    var i := IndexOf(s, NL);
    if i == -1 {
      ls, rest := [], s;
      assert [] + s == s;
    } else {
      var first := AnyLine(s[..i]);
      var more;
      more, rest := AnyText(s[i + 1..]);
      ls := [first] + more;
      assert ls[1..] == more;
      Regroup(LineText(first) + NL, LinesText(more), rest);
      assert s == s[..i] + NL + s[i + 1..];
    }
  }

  lemma LineRequested(l: Line)
    requires OneLine(l)
    ensures RequestOf(LineText(l)) == if l.word == [] then [] else [l.word]
  {
    TrimPadded(l.lead, l.word, l.trail);
  }

  lemma {:induction false} FirstRequested(first: Text, more: Text)
    requires NEWLINE !in first
    ensures Requests(Frames(first + NL + more, NL)) == RequestOf(first) + Requests(Frames(more, NL))
    ensures Rest(first + NL + more, NL) == Rest(more, NL)
  {
    CleanUnit(first, NEWLINE);
    CleanFirst(first, more, NL);
    CollectAppend([first], Frames(more, NL), RequestOf);
    CollectOne(first, RequestOf);
  }

  lemma {:induction false} NoLine(rest: Text)
    requires NEWLINE !in rest
    ensures Requests(Frames(rest, NL)) == [] && Rest(rest, NL) == rest
  {
    IndexOfUnit(rest, NEWLINE);
  }

  lemma {:induction false} LinesRequested(ls: seq<Line>, rest: Text)
    requires (forall i :: 0 <= i < |ls| ==> OneLine(ls[i])) && NEWLINE !in rest
    ensures Requests(Frames(LinesText(ls) + rest, NL)) == Words(ls)
    ensures Rest(LinesText(ls) + rest, NL) == rest
  {
    if ls == [] {
      assert LinesText(ls) + rest == rest;
      NoLine(rest);
    } else {
      LinesRequested(ls[1..], rest);
      LineRequested(ls[0]);
      FirstRequested(LineText(ls[0]), LinesText(ls[1..]) + rest);
      Regroup(LineText(ls[0]) + NL, LinesText(ls[1..]), rest);
    }
  }

  /** What is dispatched for a socket whose text is some lines and an unfinished rest: the word of each line that
      is not blank, in order and without the white space around it. */
  lemma {:induction false} LinesDispatched<S>(c: Workers, v: View<S>, s: S, ls: seq<Line>, rest: Text)
    requires ServerInv(c, v) && s in v.received && v.received[s] == LinesText(ls) + rest
    requires (forall i :: 0 <= i < |ls| ==> OneLine(ls[i])) && NEWLINE !in rest
    ensures s in v.buffers && v.buffers[s] == rest
    ensures Lines(v.pool.jobs, s) == Words(ls)
  {
    assert SocketInv(c, v, s);
    LinesRequested(ls, rest);
  }

  /** End to end, in the client's terms: once nothing is pending the socket has been written one answer for the
      word of each line that is not blank, by the worker of the id that it got. */
  lemma {:induction false} EveryLineAnswered<S>(c: Workers, v: View<S>, s: S, ls: seq<Line>, rest: Text)
    requires ServerInv(c, v) && v.pool.pending == map[]
    requires s in v.received && v.received[s] == LinesText(ls) + rest
    requires (forall i :: 0 <= i < |ls| ==> OneLine(ls[i])) && NEWLINE !in rest
    ensures var words, ids := Words(ls), Dispatched(v.pool.jobs, s);
            && |ids| == |words| == |v.written[s]|
            && (forall i :: 0 <= i < |ids| ==> ids[i] < |v.pool.jobs| && v.pool.jobs[ids[i]] == Job(s, words[i]))
            && multiset(v.written[s]) == multiset(AnswersFor(c, ids, words))
  {
    LinesDispatched(c, v, s, ls, rest);
    EndToEnd(c, v, s);
    LinesRequested(ls, rest);
    LinesOfDispatched(v.pool.jobs, s);
    DispatchedAsked(v.pool.jobs, s);
    assert |multiset(v.written[s])| == |v.written[s]|;
    assert |multiset(AnswersFor(c, Dispatched(v.pool.jobs, s), Words(ls)))| == |Words(ls)|;
  }

  lemma {:induction false} DispatchedAsked<S>(jobs: seq<Job<S>>, s: S)
    ensures forall i :: 0 <= i < |Dispatched(jobs, s)| ==> jobs[Dispatched(jobs, s)[i]].resolve == s
  {
    if jobs == [] {
    } else {
      DispatchedAsked(jobs[..|jobs| - 1], s);
    }
  }

  lemma {:induction false} PickedBelow(ids: seq<nat>, k: nat, w: nat, n: nat)
    requires k > 0 && Below(ids, n)
    ensures Below(Picked(ids, k, w), n)
  {
    if ids == [] {
    } else {
      PickedBelow(ids[..|ids| - 1], k, w, n);
    }
  }

  function Perhaps(id: nat, chosen: bool): seq<nat> { if chosen then [id] else [] }

  lemma {:induction false} PickedPerhaps(ids: seq<nat>, k: nat, w: nat, id: nat, chosen: bool)
    requires k > 0
    ensures Picked(ids + Perhaps(id, chosen), k, w) == Picked(ids, k, w) + Perhaps(id, chosen && id % k == w)
  {
    if chosen { PickedSnoc(ids, k, w, id); } else { assert ids + [] == ids; }
  }

  lemma {:induction false} OwnedPerhaps<S>(ids: seq<nat>, jobs: seq<Job<S>>, id: nat, s: S, chosen: bool)
    requires Below(ids, |jobs|) && id < |jobs|
    ensures Owned(ids + Perhaps(id, chosen), jobs, s)
            == Owned(ids, jobs, s) + Perhaps(id, chosen && jobs[id].resolve == s)
  {
    if chosen { OwnedSnoc(ids, jobs, id, s); } else { assert ids + [] == ids; }
  }

  /** Choosing by worker and choosing by socket commute. */
  lemma {:induction false} PickedOwned<S>(ids: seq<nat>, jobs: seq<Job<S>>, k: nat, w: nat, s: S)
    requires k > 0 && Below(ids, |jobs|) && Below(Picked(ids, k, w), |jobs|)
    ensures Picked(Owned(ids, jobs, s), k, w) == Owned(Picked(ids, k, w), jobs, s)
  {
    if ids == [] {
    } else {
      var m := |ids| - 1;
      PickedBelow(ids[..m], k, w, |jobs|);
      PickedOwned(ids[..m], jobs, k, w, s);
      PickedPerhaps(Owned(ids[..m], jobs, s), k, w, ids[m], jobs[ids[m]].resolve == s);
      OwnedPerhaps(Picked(ids[..m], k, w), jobs, ids[m], s, ids[m] % k == w);
    }
  }

  lemma {:induction false} OwnedPrefix<S>(a: seq<nat>, b: seq<nat>, jobs: seq<Job<S>>, s: S)
    requires a <= b && Below(b, |jobs|)
    ensures Below(a, |jobs|) && Owned(a, jobs, s) <= Owned(b, jobs, s)
  {
    assert forall i :: 0 <= i < |a| ==> a[i] == b[i];
    if |a| < |b| {
      OwnedPrefix(a, b[..|b| - 1], jobs, s);
    } else {
      assert a == b;
    }
  }

  lemma {:induction false} LaneBelow(k: nat, w: nat, n: nat)
    requires k > 0
    ensures Below(Lane(k, w, n), n)
  {
    LaneMembers(k, w, n);
    forall i | 0 <= i < |Lane(k, w, n)| ensures Lane(k, w, n)[i] < n {
      assert Lane(k, w, n)[i] in Lane(k, w, n);
    }
  }

  /** The requests of one socket in the lane of one worker. */
  lemma {:induction false} OwnedLane<S>(jobs: seq<Job<S>>, k: nat, w: nat, s: S)
    requires k > 0
    ensures Below(Lane(k, w, |jobs|), |jobs|)
    ensures Owned(Lane(k, w, |jobs|), jobs, s) == Picked(Dispatched(jobs, s), k, w)
  {
    LaneBelow(k, w, |jobs|);
    if jobs == [] {
    } else {
      var m := |jobs| - 1;
      LaneBelow(k, w, m);
      OwnedLane(jobs[..m], k, w, s);
      LaneOwned(jobs, Lane(k, w, m), s);
      OwnedPerhaps(Lane(k, w, m), jobs, m, s, m % k == w);
      PickedPerhaps(Dispatched(jobs[..m], s), k, w, m, jobs[m].resolve == s);
    }
  }

  /** A further job changes nothing for the ids before it. */
  lemma {:induction false} LaneOwned<S>(jobs: seq<Job<S>>, ids: seq<nat>, s: S)
    requires jobs != [] && Below(ids, |jobs| - 1)
    ensures Below(ids, |jobs|) && Owned(ids, jobs, s) == Owned(ids, jobs[..|jobs| - 1], s)
  {
    var m := |jobs| - 1;
    assert jobs == jobs[..m] + [jobs[m]];
    OwnedExtend(ids, jobs[..m], jobs[m], s);
  }

  lemma AnswersPrefix<S>(c: Workers, a: seq<nat>, b: seq<nat>, jobs: seq<Job<S>>)
    requires c.k > 0 && a <= b && Below(b, |jobs|)
    ensures Below(a, |jobs|) && Answers(c, a, jobs) <= Answers(c, b, jobs)
  {
    assert forall i :: 0 <= i < |a| ==> a[i] == b[i];
  }

  /** Order. At any time what was written to a socket is the answers to some of its requests, `own`; those that
      one worker answered are, in order and with none skipped, a first part of the socket's requests that
      were dispatched to that worker. */
  lemma {:induction false} OrderPerWorker<S>(c: Workers, v: View<S>, s: S, w: nat)
    requires ServerInv(c, v) && s in v.received && w < c.k
    ensures var jobs := v.pool.jobs;
            var own, all := Owned(v.pool.settled, jobs, s), Dispatched(jobs, s);
            && v.written[s] == Answers(c, own, jobs)
            && Picked(own, c.k, w) <= Picked(all, c.k, w)
            && Below(Picked(own, c.k, w), |jobs|) && Below(Picked(all, c.k, w), |jobs|)
            && Answers(c, Picked(own, c.k, w), jobs) <= Answers(c, Picked(all, c.k, w), jobs)
  {
    var jobs, settled := v.pool.jobs, v.pool.settled;
    assert SocketInv(c, v, s);
    SettledInOrder(c, v.pool, w);
    OwnedLane(jobs, c.k, w, s);
    PickedBelow(settled, c.k, w, |jobs|);
    PickedOwned(settled, jobs, c.k, w, s);
    OwnedPrefix(Picked(settled, c.k, w), Lane(c.k, w, |jobs|), jobs, s);
    PickedBelow(Dispatched(jobs, s), c.k, w, |jobs|);
    AnswersPrefix(c, Picked(Owned(settled, jobs, s), c.k, w), Picked(Dispatched(jobs, s), c.k, w), jobs);
  }

  class Server<Socket(==)> {
    const pool: WorkerPool<Socket>
    var buffers: map<Socket, Text>
    var written: map<Socket, seq<Text>>     // the arguments of socket.write, in order
    ghost var received: map<Socket, Text>

    ghost function Value(): View<Socket>
      reads this, pool
    {
      View(pool.View(), buffers, written, received)
    }

    ghost predicate Valid()
      reads this, pool
    {
      pool.Valid() && ServerInv(pool.Team(), Value())
    }

    constructor (config: Config)
      requires |config.threadIds| > 0
      ensures Valid() && fresh(pool) && pool.config == config
      ensures Value() == View(Start(WorkersOf(config)), map[], map[], map[])
    {
      pool := new WorkerPool<Socket>(config);
      buffers, written, received := map[], map[], map[];
    }

    method OnConnection(s: Socket)
      requires Valid() && s !in received
      modifies this
      ensures Valid() && received == old(received)[s := []]
      ensures Value() == Connect(old(Value()), s)
    {
      ConnectInv(pool.Team(), Value(), s);
      buffers := buffers[s := []];
      written := written[s := []];
      received := received[s := []];
    }

    method OnData(s: Socket, chunk: Text)
      requires Valid() && s in received
      modifies this, pool
      ensures Valid() && received == old(received)[s := old(received)[s] + chunk]
      ensures Value() == Data(pool.Team(), old(Value()), s, chunk)
    {
      ghost var after := Data(pool.Team(), Value(), s, chunk);
      DataInv(pool.Team(), Value(), s, chunk);
      var rest := FrameLines(s, buffers[s] + chunk);
      buffers := buffers[s := rest];
      received := received[s := received[s] + chunk];
      assert Value() == after;
    }

    /** The loop of the `data` handler: cut off line after line and hand each to the pool at once. */
    method FrameLines(s: Socket, whole: Text) returns (buffer: Text)
      requires pool.Valid()
      modifies pool
      ensures pool.Valid()
      ensures pool.View() == DispatchAll(pool.Team(), old(pool.View()), s, Requests(Frames(whole, NL)))
      ensures buffer == Rest(whole, NL)
    {
      buffer := whole;
      ghost var done := [];
      var newlineIndex := IndexOf(buffer, NL);
      while newlineIndex != -1
        invariant pool.Valid() && pool.View() == DispatchAll(pool.Team(), old(pool.View()), s, done)
        invariant newlineIndex == IndexOf(buffer, NL)
        invariant Requests(Frames(whole, NL)) == done + Requests(Frames(buffer, NL))
        invariant Rest(whole, NL) == Rest(buffer, NL)
        decreases |buffer|
      {
        CollectStep(buffer, NL, newlineIndex, RequestOf, done);
        var line := Trim(buffer[..newlineIndex]);
        assert done + RequestOf(buffer[..newlineIndex]) == if line == [] then done else done + [line];
        buffer := buffer[newlineIndex + 1..];
        newlineIndex := IndexOf(buffer, NL);
        if line == [] { continue; }
        pool.Run(line, s);
        assert (done + [line])[..|done|] == done;
        done := done + [line];
      }
      assert Requests(Frames(buffer, NL)) == [] && done + [] == done;
      assert Requests(Frames(whole, NL)) == done;
    }

    method WorkerStep(w: nat)
      requires Valid() && w < |pool.config.threadIds| && pool.inbox[w] != []
      modifies pool
      ensures Valid()
      ensures Value() == old(Value()).(pool := Work(pool.Team(), old(pool.View()), w))
    {
      WorkServerInv(pool.Team(), Value(), w);
      pool.WorkerStep(w);
    }

    method OnReply(w: nat)
      requires Valid() && w < |pool.config.threadIds| && pool.replies[w] != []
      modifies this, pool
      ensures Valid() && received == old(received) && buffers == old(buffers)
      ensures Value() == Deliver(pool.Team(), old(Value()), w)
    {
      DeliverInv(pool.Team(), Value(), w);
      HeadOfReplies(pool.Team(), pool.View(), w);
      var resolved := pool.OnMessage(w);
      if resolved.Some? {
        var (s, result) := resolved.value;
        written := written[s := written[s] + [result + NL]];
      }
    }
  }
}
