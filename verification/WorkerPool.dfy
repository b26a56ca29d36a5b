/** The worker pool: round-robin dispatch, replies matched to requests by id.

    A worker is a first-in first-out inbox and a first-in first-out reply channel. The ids that `run`
    draws are assumed pairwise distinct; they are named here by the order in which they are drawn. */
module WorkerPool {
  import opened JsText
  import opened Options
  import opened Primes
  import opened RoundRobin

  datatype Request = Request(id: nat, payload: Text)
  datatype Reply = Reply(id: nat, result: Text)

  /** One call of `run`: who is to be told, and the payload. */
  datatype Job<R> = Job(resolve: R, payload: Text)

  /** The threads of the pool and the case mapping their runtime applies. */
  datatype Config = Config(threadIds: seq<nat>, toUpper: Text -> Text)

  /** How many workers there are, and what worker `w` answers to a payload. */
  datatype Workers = Workers(k: nat, answer: (nat, Text) -> Text)

  ghost function WorkersOf(c: Config): Workers {
    Workers(|c.threadIds|,
            (w: nat, payload: Text) => if w < |c.threadIds| then Answer(payload, c.threadIds[w], c.toUpper) else [])
  }

  function RequestIds(q: seq<Request>): (ids: seq<nat>) {
    seq(|q|, i requires 0 <= i < |q| => q[i].id)
  }

  function ReplyIds(q: seq<Reply>): (ids: seq<nat>) {
    seq(|q|, i requires 0 <= i < |q| => q[i].id)
  }

  /** The ids of worker `w` in a list of ids, in order. */
  function Picked(ids: seq<nat>, k: nat, w: nat): seq<nat>
    requires k > 0
  {
    if ids == [] then []
    else
      var m := |ids| - 1;
      Picked(ids[..m], k, w) + (if ids[m] % k == w then [ids[m]] else [])
  }

  /** What is settled, answered and queued for worker `w` is, in this order, its lane of all dispatches;
      queued payloads and answers belong to their ids. */
  ghost predicate LaneInv<R>(c: Workers, w: nat, inbox: seq<Request>, replies: seq<Reply>,
                             jobs: seq<Job<R>>, settled: seq<nat>)
    requires w < c.k
  {
    && Picked(settled, c.k, w) + ReplyIds(replies) + RequestIds(inbox)
       == Lane(c.k, w, |jobs|)
    && (forall i :: 0 <= i < |replies| ==>
          && replies[i].id < |jobs|
          && replies[i].result == c.answer(w, jobs[replies[i].id].payload))
    && (forall i :: 0 <= i < |inbox| ==>
          && inbox[i].id < |jobs|
          && inbox[i].payload == jobs[inbox[i].id].payload)
  }

  ghost predicate Below(ids: seq<nat>, n: nat) {
    forall i :: 0 <= i < |ids| ==> ids[i] < n
  }

  ghost predicate PendingInv<R>(pending: map<nat, R>, jobs: seq<Job<R>>, settled: seq<nat>) {
    && (forall id: nat :: id in pending <==> id < |jobs| && id !in settled)
    && (forall id: nat :: id in pending ==> id < |jobs| && pending[id] == jobs[id].resolve)
    && Below(settled, |jobs|)
  }

  lemma SettleKeepsPending<R>(pending: map<nat, R>, jobs: seq<Job<R>>, settled: seq<nat>, id: nat)
    requires PendingInv(pending, jobs, settled) && id in pending
    ensures PendingInv(pending - {id}, jobs, settled + [id])
  {
  }

  /** The queues of worker `w` hold exactly its unsettled ids, once each. */
  lemma QueueCount<R>(c: Workers, w: nat, inbox: seq<Request>, replies: seq<Reply>,
                      jobs: seq<Job<R>>, settled: seq<nat>, id: nat)
    requires w < c.k && LaneInv(c, w, inbox, replies, jobs, settled)
    ensures multiset(ReplyIds(replies) + RequestIds(inbox))[id]
            == if id < |jobs| && id % c.k == w && id !in settled then 1 else 0
    ensures id % c.k == w ==> multiset(settled)[id] <= 1
    ensures id % c.k == w && id in settled ==> id < |jobs|
  {
    var k := c.k;
    var p: seq<nat> := Picked(settled, k, w);
    var q: seq<nat> := ReplyIds(replies) + RequestIds(inbox);
    LaneMembers(k, w, |jobs|);
    PickedCount(settled, k, w, id);
    assert p + ReplyIds(replies) + RequestIds(inbox) == p + q;
    IncreasingCount(p + q, id);
    assert multiset(p + q)[id] == multiset(p)[id] + multiset(q)[id];
  }

  lemma {:induction false} PickedCount(ids: seq<nat>, k: nat, w: nat, id: nat)
    requires k > 0
    ensures multiset(Picked(ids, k, w))[id] == if id % k == w then multiset(ids)[id] else 0
  {
    if ids == [] {
    } else {
      var m := |ids| - 1;
      PickedCount(ids[..m], k, w, id);
      assert ids == ids[..m] + [ids[m]];
    }
  }

  lemma {:induction false} IncreasingCount(s: seq<nat>, id: nat)
    requires forall i, j :: 0 <= i < j < |s| ==> s[i] < s[j]
    ensures multiset(s)[id] == if id in s then 1 else 0
  {
    if s == [] {
    } else {
      var m := |s| - 1;
      IncreasingCount(s[..m], id);
      assert s == s[..m] + [s[m]];
      assert s[m] !in s[..m];
    }
  }

  /** The three steps, seen from worker `w`: a dispatch, a computation, a reply received. */
  lemma LaneDispatch<R>(c: Workers, w: nat, inbox: seq<Request>, replies: seq<Reply>,
                        jobs: seq<Job<R>>, settled: seq<nat>, job: Job<R>)
    requires w < c.k && LaneInv(c, w, inbox, replies, jobs, settled)
    ensures var id := |jobs|;
            LaneInv(c, w, if id % c.k == w then inbox + [Request(id, job.payload)] else inbox,
                    replies, jobs + [job], settled)
  {
    var id := |jobs|;
    var inbox' := inbox + [Request(id, job.payload)];
    assert RequestIds(inbox') == RequestIds(inbox) + [id];
  }

  lemma LaneWork<R>(c: Workers, w: nat, inbox: seq<Request>, replies: seq<Reply>,
                    jobs: seq<Job<R>>, settled: seq<nat>)
    requires w < c.k && LaneInv(c, w, inbox, replies, jobs, settled) && inbox != []
    ensures LaneInv(c, w, inbox[1..],
                    replies + [Reply(inbox[0].id, c.answer(w, inbox[0].payload))], jobs, settled)
  {
    var replies' := replies + [Reply(inbox[0].id, c.answer(w, inbox[0].payload))];
    assert ReplyIds(replies') == ReplyIds(replies) + [inbox[0].id];
    assert RequestIds(inbox) == [inbox[0].id] + RequestIds(inbox[1..]);
  }

  lemma LaneReceive<R>(c: Workers, w: nat, inbox: seq<Request>, replies: seq<Reply>,
                       jobs: seq<Job<R>>, settled: seq<nat>)
    requires w < c.k && LaneInv(c, w, inbox, replies, jobs, settled)
    requires replies != [] && replies[0].id % c.k == w
    ensures LaneInv(c, w, inbox, replies[1..], jobs, settled + [replies[0].id])
  {
    var k, id, rest := c.k, replies[0].id, replies[1..];
    PickedSnoc(settled, k, w, id);
    assert ReplyIds(rest) == ReplyIds(replies)[1..];
    Slide(Picked(settled, k, w), ReplyIds(replies), RequestIds(inbox));
  }

  lemma LaneElsewhere<R>(c: Workers, w: nat, inbox: seq<Request>, replies: seq<Reply>,
                         jobs: seq<Job<R>>, settled: seq<nat>, id: nat)
    requires w < c.k && LaneInv(c, w, inbox, replies, jobs, settled)
    requires id % c.k != w
    ensures LaneInv(c, w, inbox, replies, jobs, settled + [id])
  {
    PickedSnoc(settled, c.k, w, id);
  }

  lemma Slide(a: seq<nat>, b: seq<nat>, c: seq<nat>)
    requires b != []
    ensures a + [b[0]] + b[1..] + c == a + b + c
  {
  }

  lemma {:induction false} PickedSnoc(ids: seq<nat>, k: nat, w: nat, id: nat)
    requires k > 0
    ensures Picked(ids + [id], k, w) == Picked(ids, k, w) + (if id % k == w then [id] else [])
  {
    assert (ids + [id])[..|ids|] == ids;
  }

  /** Total number of queued messages over all workers. */
  function Total<T>(queues: seq<seq<T>>): nat {
    if queues == [] then 0 else |queues[0]| + Total(queues[1..])
  }

  lemma {:induction false} TotalUpdate<T>(queues: seq<seq<T>>, w: nat, q: seq<T>)
    requires w < |queues|
    ensures Total(queues[w := q]) == Total(queues) - |queues[w]| + |q|
  {
    if w == 0 {
      assert queues[w := q][1..] == queues[1..];
    } else {
      assert queues[w := q][1..] == queues[1..][w - 1 := q];
      TotalUpdate(queues[1..], w - 1, q);
    }
  }

  lemma {:induction false} TotalZero<T>(queues: seq<seq<T>>)
    ensures Total(queues) == 0 <==> forall w :: 0 <= w < |queues| ==> queues[w] == []
  {
    if queues == [] {
    } else {
      TotalZero(queues[1..]);
      assert forall w :: 1 <= w < |queues| ==> queues[w] == queues[1..][w - 1];
    }
  }

  /** The pool as a value. `jobs` is every call of `run`, in order; `settled` the ids whose promise was
      resolved, in order. */
  datatype Pool<R> = Pool(pending: map<nat, R>, inbox: seq<seq<Request>>, replies: seq<seq<Reply>>,
                                jobs: seq<Job<R>>, settled: seq<nat>)

  ghost predicate Inv<R>(c: Workers, p: Pool<R>) {
    && c.k == |p.inbox| == |p.replies| > 0
    && PendingInv(p.pending, p.jobs, p.settled)
    && forall w {:trigger LaneInv(c, w, p.inbox[w], p.replies[w], p.jobs, p.settled)} :: 0 <= w < c.k ==>
         LaneInv(c, w, p.inbox[w], p.replies[w], p.jobs, p.settled)
  }

  ghost function Start<R>(c: Workers): Pool<R> {
    Pool(map[], seq(c.k, _ => []), seq(c.k, _ => []), [], [])
  }

  /** Call number n goes to worker n mod k. */
  ghost function Dispatch<R>(c: Workers, p: Pool<R>, job: Job<R>): Pool<R>
    requires Inv(c, p)
  {
    var id, w := |p.jobs|, |p.jobs| % c.k;
    p.(pending := p.pending[id := job.resolve],
       inbox := p.inbox[w := p.inbox[w] + [Request(id, job.payload)]],
       jobs := p.jobs + [job])
  }

  ghost function Work<R>(c: Workers, p: Pool<R>, w: nat): Pool<R>
    requires Inv(c, p) && w < c.k && p.inbox[w] != []
  {
    var request := p.inbox[w][0];
    p.(inbox := p.inbox[w := p.inbox[w][1..]],
       replies := p.replies[w := p.replies[w] + [Reply(request.id, c.answer(w, request.payload))]])
  }

  ghost function Receive<R>(c: Workers, p: Pool<R>, w: nat): Pool<R>
    requires Inv(c, p) && w < c.k && p.replies[w] != []
  {
    var id := p.replies[w][0].id;
    p.(pending := p.pending - {id}, replies := p.replies[w := p.replies[w][1..]], settled := p.settled + [id])
  }

  /** Work left: two steps for a queued message, one for an answer on its way back. */
  ghost function Measure<R>(p: Pool<R>): nat {
    2 * Total(p.inbox) + Total(p.replies)
  }

  lemma StartInv<R>(c: Workers)
    requires c.k > 0
    ensures Inv(c, Start<R>(c))
  {
  }

  lemma DispatchInv<R>(c: Workers, p: Pool<R>, job: Job<R>)
    requires Inv(c, p)
    ensures Inv(c, Dispatch(c, p, job))
  {
    var p' := Dispatch(c, p, job);
    var k, id := c.k, |p.jobs|;
    forall w | 0 <= w < k ensures LaneInv(c, w, p'.inbox[w], p'.replies[w], p'.jobs, p'.settled) {
      LaneDispatch(c, w, p.inbox[w], p.replies[w], p.jobs, p.settled, job);
    }
    var w := id % k;
    QueueCount(c, w, p.inbox[w], p.replies[w], p.jobs, p.settled, id);
    assert PendingInv(p'.pending, p'.jobs, p'.settled);
  }

  lemma WorkInv<R>(c: Workers, p: Pool<R>, w: nat)
    requires Inv(c, p) && w < c.k && p.inbox[w] != []
    ensures Inv(c, Work(c, p, w))
    ensures Measure(Work(c, p, w)) == Measure(p) - 1
  {
    var p' := Work(c, p, w);
    LaneWork(c, w, p.inbox[w], p.replies[w], p.jobs, p.settled);
    TotalUpdate(p.inbox, w, p'.inbox[w]);
    TotalUpdate(p.replies, w, p'.replies[w]);
  }

  /** A reply that arrives is always expected, carries the result of its own payload, and comes from the
      worker that its id was dispatched to. */
  lemma HeadOfReplies<R>(c: Workers, p: Pool<R>, w: nat)
    requires Inv(c, p) && w < c.k && p.replies[w] != []
    ensures var id := p.replies[w][0].id;
            && id < |p.jobs| && id % c.k == w
            && id in p.pending && p.pending[id] == p.jobs[id].resolve
            && p.replies[w][0].result == c.answer(w, p.jobs[id].payload)
  {
    var id := p.replies[w][0].id;
    var queue: seq<nat> := ReplyIds(p.replies[w]) + RequestIds(p.inbox[w]);
    assert LaneInv(c, w, p.inbox[w], p.replies[w], p.jobs, p.settled);
    QueuedExactlyOnce(c, p, id, w);
    assert queue[0] == id;
    assert multiset(queue)[id] > 0;
  }

  lemma ReceiveInv<R>(c: Workers, p: Pool<R>, w: nat)
    requires Inv(c, p) && w < c.k && p.replies[w] != []
    ensures Inv(c, Receive(c, p, w))
    ensures Measure(Receive(c, p, w)) == Measure(p) - 1
  {
    var p' := Receive(c, p, w);
    var id := p.replies[w][0].id;
    HeadOfReplies(c, p, w);
    SettleKeepsPending(p.pending, p.jobs, p.settled, id);
    TotalUpdate(p.replies, w, p'.replies[w]);
    forall v | 0 <= v < c.k
      ensures LaneInv(c, v, p'.inbox[v], p'.replies[v], p'.jobs, p'.settled)
    {
      if v == w {
        LaneReceive(c, v, p.inbox[v], p.replies[v], p.jobs, p.settled);
      } else {
        LaneElsewhere(c, v, p.inbox[v], p.replies[v], p.jobs, p.settled, id);
      }
    }
  }

  /** Nothing lost, nothing duplicated: an id is pending exactly when it sits once in the queues of
      the worker it was dispatched to, and it sits nowhere else. */
  lemma QueuedExactlyOnce<R>(c: Workers, p: Pool<R>, id: nat, w: nat)
    requires Inv(c, p) && w < c.k
    ensures multiset(ReplyIds(p.replies[w]) + RequestIds(p.inbox[w]))[id]
            == if id in p.pending && id % c.k == w then 1 else 0
  {
    QueueCount(c, w, p.inbox[w], p.replies[w], p.jobs, p.settled, id);
  }

  /** No promise is resolved twice. */
  lemma SettledOnce<R>(c: Workers, p: Pool<R>, id: nat)
    requires Inv(c, p)
    ensures multiset(p.settled)[id] == if id < |p.jobs| && id !in p.pending then 1 else 0
  {
    var w := id % c.k;
    QueueCount(c, w, p.inbox[w], p.replies[w], p.jobs, p.settled, id);
  }

  /** The answers of one worker arrive in dispatch order, none skipped. */
  lemma {:induction false} SettledInOrder<R>(c: Workers, p: Pool<R>, w: nat)
    requires Inv(c, p) && w < c.k
    ensures Picked(p.settled, c.k, w) <= Lane(c.k, w, |p.jobs|)
  {
    assert LaneInv(c, w, p.inbox[w], p.replies[w], p.jobs, p.settled);
  }

  lemma QueuedIsPending<R>(c: Workers, p: Pool<R>, w: nat)
    requires Inv(c, p) && w < c.k && (p.inbox[w] != [] || p.replies[w] != [])
    ensures p.pending != map[]
  {
    var q: seq<nat> := ReplyIds(p.replies[w]) + RequestIds(p.inbox[w]);
    QueuedExactlyOnce(c, p, q[0], w);
    assert q[0] in multiset(q);
  }

  /** While a promise is pending some worker or some reply can step, and every such step lowers the
      measure; so without new calls the pool runs until nothing is pending. */
  lemma Progress<R>(c: Workers, p: Pool<R>)
    requires Inv(c, p)
    ensures Measure(p) == 0 <==> p.pending == map[]
    ensures p.pending != map[] ==>
              exists w :: 0 <= w < c.k && (p.inbox[w] != [] || p.replies[w] != [])
  {
    TotalZero(p.inbox);
    TotalZero(p.replies);
    if p.pending != map[] {
      var id :| id in p.pending;
      var w := id % c.k;
      QueuedExactlyOnce(c, p, id, w);
      assert p.inbox[w] != [] || p.replies[w] != [];
    } else {
      forall w | 0 <= w < c.k ensures p.inbox[w] == [] && p.replies[w] == [] {
        if p.inbox[w] != [] || p.replies[w] != [] { QueuedIsPending(c, p, w); }
      }
    }
  }

  function Upto(n: nat): (s: seq<nat>) {
    seq(n, i requires 0 <= i < n => i)
  }

  /** When nothing is pending, every call of `run` has been resolved exactly once. */
  lemma AllSettled<R>(c: Workers, p: Pool<R>)
    requires Inv(c, p) && p.pending == map[]
    ensures multiset(p.settled) == multiset(Upto(|p.jobs|))
  {
    forall id: nat ensures multiset(p.settled)[id] == multiset(Upto(|p.jobs|))[id] {
      SettledOnce(c, p, id);
      IncreasingCount(Upto(|p.jobs|), id);
      assert id < |p.jobs| ==> Upto(|p.jobs|)[id] == id;
    }
  }

  class WorkerPool<R> {
    const config: Config
    var nextWorker: nat
    var pending: map<nat, R>
    var inbox: seq<seq<Request>>
    var replies: seq<seq<Reply>>
    var issued: nat                 // ids drawn so far
    ghost var jobs: seq<Job<R>>
    ghost var settled: seq<nat>

    ghost function View(): Pool<R>
      reads this
    {
      Pool(pending, inbox, replies, jobs, settled)
    }

    ghost function Team(): Workers { WorkersOf(config) }

    ghost predicate Valid()
      reads this
    {
      && Inv(Team(), View())
      && issued == |jobs|
      && nextWorker == |jobs| % |config.threadIds|
    }

    constructor (config: Config)
      requires |config.threadIds| > 0
      ensures Valid() && this.config == config && View() == Start(WorkersOf(config))
    {
      this.config := config;
      nextWorker, issued := 0, 0;
      pending := map[];
      inbox := seq(|config.threadIds|, _ => []);
      replies := seq(|config.threadIds|, _ => []);
      jobs, settled := [], [];
      new;
      StartInv<R>(Team());
    }

    method Run(payload: Text, resolve: R)
      requires Valid()
      modifies this
      ensures Valid() && View() == Dispatch(Team(), old(View()), Job(resolve, payload))
      ensures jobs == old(jobs) + [Job(resolve, payload)] && settled == old(settled)
    {
      DispatchInv(Team(), View(), Job(resolve, payload));
      var id := issued;
      issued := issued + 1;
      pending := pending[id := resolve];
      var w := nextWorker;
      CursorStep(|jobs|, |config.threadIds|);
      nextWorker := (nextWorker + 1) % |config.threadIds|;
      inbox := inbox[w := inbox[w] + [Request(id, payload)]];
      jobs := jobs + [Job(resolve, payload)];
    }

    /** A worker takes the head of its inbox, computes, and posts the answer. */
    method WorkerStep(w: nat)
      requires Valid() && w < |config.threadIds| && inbox[w] != []
      modifies this
      ensures Valid() && View() == Work(Team(), old(View()), w)
      ensures jobs == old(jobs) && settled == old(settled)
      ensures |inbox[w]| == |old(inbox)[w]| - 1 && |replies[w]| == |old(replies)[w]| + 1
    {
      WorkInv(Team(), View(), w);
      var request := inbox[w][0];
      inbox := inbox[w := inbox[w][1..]];
      var result := Process(request.payload, config.threadIds[w], config.toUpper);
      replies := replies[w := replies[w] + [Reply(request.id, result)]];
    }

    /** The message handler of worker `w`: the promise to resolve, and with what. The guard on the
        lookup never fails. */
    method OnMessage(w: nat) returns (resolved: Option<(R, Text)>)
      requires Valid() && w < |config.threadIds| && replies[w] != []
      modifies this
      ensures Valid() && View() == Receive(Team(), old(View()), w)
      ensures jobs == old(jobs) && settled == old(settled) + [old(replies)[w][0].id]
      ensures var id := old(replies)[w][0].id;
              && id < |jobs|
              && resolved == Some((jobs[id].resolve, Team().answer(w, jobs[id].payload)))
    {
      ReceiveInv(Team(), View(), w);
      HeadOfReplies(Team(), View(), w);
      var reply := replies[w][0];
      replies := replies[w := replies[w][1..]];
      if reply.id in pending {
        resolved := Some((pending[reply.id], reply.result));
        pending := pending - {reply.id};
        settled := settled + [reply.id];
      } else {
        resolved := None;
      }
    }
  }
}
