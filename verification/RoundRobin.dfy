/** The round-robin cursor `next = (next + 1) % k`, and the layer-4 proxy that picks a backend with it
    for each connection. */
module RoundRobin {
  import opened Arith

  /** The dispatches, by number, that go to target `w` of `k` among the first `n`. */
  function Lane(k: nat, w: nat, n: nat): seq<nat>
    requires k > 0
  {
    if n == 0 then [] else Lane(k, w, n - 1) + (if (n - 1) % k == w then [n - 1] else [])
  }

  /** Advancing the cursor is counting modulo `k`. */
  lemma CursorStep(n: nat, k: nat)
    requires k > 0
    ensures (n % k + 1) % k == (n + 1) % k
  {
    Successor(n, k);
    if n % k + 1 == k {
      DivModUnique(k, k, 1, 0);
    } else {
      DivModUnique(n % k + 1, k, 0, n % k + 1);
    }
  }

  /** A lane holds its dispatches once each, in order. */
  lemma {:induction false} LaneMembers(k: nat, w: nat, n: nat)
    requires k > 0
    ensures forall id :: id in Lane(k, w, n) <==> 0 <= id < n && id % k == w
    ensures forall i, j :: 0 <= i < j < |Lane(k, w, n)| ==> Lane(k, w, n)[i] < Lane(k, w, n)[j]
  {
    if n == 0 {
    } else {
      LaneMembers(k, w, n - 1);
      var l := Lane(k, w, n - 1);
      forall i | 0 <= i < |l| ensures l[i] < n - 1 {
        assert l[i] in l;
      }
      assert Lane(k, w, n) == l || Lane(k, w, n) == l + [n - 1];
    }
  }

  /** Fairness: after `n` dispatches each of the first `n % k` targets has one more than the rest. */
  lemma {:induction false} LaneSize(k: nat, w: nat, n: nat)
    requires w < k
    ensures |Lane(k, w, n)| == n / k + (if w < n % k then 1 else 0)
  {
    if n == 0 {
      DivModUnique(0, k, 0, 0);
    } else {
      LaneSize(k, w, n - 1);
      Successor(n - 1, k);
    }
  }

  lemma {:induction false} Fairness(k: nat, v: nat, w: nat, n: nat)
    requires v < k && w < k
    ensures -1 <= |Lane(k, v, n)| - |Lane(k, w, n)| <= 1
  {
    LaneSize(k, v, n);
    LaneSize(k, w, n);
  }

  /** Any `k` dispatches in a row reach every target exactly once. */
  lemma EachOnce(k: nat, w: nat, n: nat)
    requires w < k
    ensures |Lane(k, w, n + k)| == |Lane(k, w, n)| + 1
  {
    LaneSize(k, w, n);
    LaneSize(k, w, n + k);
    AddModulus(n, k);
  }

  /** The counter of the proxy over its backends. */
  class L4Proxy<Backend(==)> {
    const backends: seq<Backend>
    var nextBackend: nat
    ghost var picked: seq<nat>  // index of the backend of every connection so far

    ghost predicate Valid()
      reads this
    {
      && |backends| > 0
      && nextBackend == |picked| % |backends|
      && forall j :: 0 <= j < |picked| ==> picked[j] == j % |backends|
    }

    constructor (backends: seq<Backend>)
      requires |backends| > 0
      ensures Valid() && this.backends == backends && picked == []
    {
      this.backends := backends;
      nextBackend := 0;
      picked := [];
    }

    method OnConnection() returns (backend: Backend)
      requires Valid()
      modifies this
      ensures Valid()
      ensures |picked| == |old(picked)| + 1 && picked[..|old(picked)|] == old(picked)
      ensures backend == backends[picked[|old(picked)|]]
    {
      backend := backends[nextBackend];
      CursorStep(|picked|, |backends|);
      nextBackend := (nextBackend + 1) % |backends|;
      picked := picked + [|picked| % |backends|];
    }

    /** In every reachable state each backend has had its fair share of the connections. */
    lemma FairShare(i: nat)
      requires Valid() && i < |backends|
      ensures multiset(picked)[i] == |picked| / |backends| + (if i < |picked| % |backends| then 1 else 0)
    {
      CountIsLane(picked, |backends|, i);
      LaneSize(|backends|, i, |picked|);
    }
  }

  lemma {:induction false} CountIsLane(picked: seq<nat>, k: nat, i: nat)
    requires k > 0
    requires forall j :: 0 <= j < |picked| ==> picked[j] == j % k
    ensures multiset(picked)[i] == |Lane(k, i, |picked|)|
  {
    if picked == [] {
    } else {
      var m := |picked| - 1;
      CountIsLane(picked[..m], k, i);
      assert picked == picked[..m] + [picked[m]];
    }
  }
}
