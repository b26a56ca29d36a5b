/** Lists without repetition, as JavaScript's insertion-ordered Sets keep them, and concatenation. */
module Sequences {

  ghost predicate Distinct<S>(q: seq<S>) { forall i, j :: 0 <= i < j < |q| ==> q[i] != q[j] }

  /** Set.delete on an insertion-ordered set. */
  function Remove<S(==, !new)>(q: seq<S>, s: S): (r: seq<S>)
    ensures forall x :: x in r <==> x in q && x != s
    ensures Distinct(q) ==> Distinct(r)
    ensures s !in q ==> r == q
  {
    if q == [] then []
    else
      var m := |q| - 1;
      assert forall x :: x in q <==> x in q[..m] || x == q[m];
      assert Distinct(q) ==> q[m] !in q[..m];
      assert q == q[..m] + [q[m]];
      var r := Remove(q[..m], s);
      if q[m] == s then r else r + [q[m]]
  }

  lemma Regroup<T>(a: seq<T>, b: seq<T>, c: seq<T>)
    ensures a + (b + c) == a + b + c
  {
  }

  lemma AppendLast<T>(a: seq<T>, b: seq<T>)
    requires b != []
    ensures a + b[..|b| - 1] + [b[|b| - 1]] == a + b
  {
  }

  /** `at` lists, in order, exactly the indices below `n` that pass the test. */
  ghost predicate Picks(at: seq<nat>, n: nat, test: nat -> bool) {
    && (forall i, j :: 0 <= i < j < |at| ==> at[i] < at[j])
    && forall i: nat :: i in at <==> i < n && test(i)
  }

  /** One index more; the test may change from there on. */
  lemma PicksMore(at: seq<nat>, n: nat, before: nat -> bool, test: nat -> bool) returns (more: seq<nat>)
    requires Picks(at, n, before) && forall i: nat :: i < n ==> before(i) == test(i)
    ensures more == (if test(n) then at + [n] else at) && Picks(more, n + 1, test)
  {
    more := if test(n) then at + [n] else at;
    forall i | 0 <= i < |at| ensures at[i] < n {
      assert at[i] in at;
    }
    assert forall i: nat :: i in more <==> i in at || (test(n) && i == n);
  }

  /** All chunks of a stream, in order. */
  function Concat<T>(chunks: seq<seq<T>>): seq<T> {
    if chunks == [] then [] else Concat(chunks[..|chunks| - 1]) + chunks[|chunks| - 1]
  }

  lemma {:induction false} ConcatSplit<T>(chunks: seq<seq<T>>, k: nat)
    requires k <= |chunks|
    ensures Concat(chunks) == Concat(chunks[..k]) + Concat(chunks[k..])
  {
    if k == |chunks| {
      assert chunks[..k] == chunks && Concat(chunks[k..]) == [];
    } else {
      var m := |chunks| - 1;
      ConcatSplit(chunks[..m], k);
      assert chunks[..m][..k] == chunks[..k];
      assert chunks[k..][..m - k] == chunks[..m][k..];
      Regroup(Concat(chunks[..k]), Concat(chunks[..m][k..]), chunks[m]);
    }
  }
}
