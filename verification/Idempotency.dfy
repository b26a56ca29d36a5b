/** The charge server: `/charge/naive` charges for every request, `/charge/safe` once for each idempotency
    key. A history is the list of all requests so far; everything the server did is a function of it. */
module Idempotency {
  import opened JsText
  import opened Options
  import opened Sequences

  datatype Request = Request(url: Text, idempotencyKey: Option<Text>)

  datatype Receipt = Receipt(charged: nat, totalCharged: nat)

  datatype Response = Ok(body: Receipt) | KeyRequired | NotFound

  datatype Ledger = Ledger(totalCharged: nat, seenIdempotencyKeys: map<Text, Receipt>)

  const OPENED := Ledger(0, map[])

  predicate IsNaive(r: Request) { r.url == Ascii("/charge/naive") }

  /** A safe charge that carries a key: an empty header value counts as none. */
  predicate IsKeyed(r: Request) {
    r.url == Ascii("/charge/safe") && r.idempotencyKey.Some? && r.idempotencyKey.value != []
  }

  predicate IsSafe(r: Request) { r.url == Ascii("/charge/safe") }

  predicate Carries(r: Request, key: Text) { IsKeyed(r) && r.idempotencyKey.value == key }

  lemma Routes(r: Request)
    ensures !(IsNaive(r) && IsSafe(r))
  {
    assert |Ascii("/charge/naive")| != |Ascii("/charge/safe")|;
  }

  function Next(l: Ledger, r: Request): Ledger {
    var total := l.totalCharged + 10;
    if IsNaive(r) then l.(totalCharged := total)
    else if IsKeyed(r) && r.idempotencyKey.value !in l.seenIdempotencyKeys then
      Ledger(total, l.seenIdempotencyKeys[r.idempotencyKey.value := Receipt(10, total)])
    else l
  }

  function Reply(l: Ledger, r: Request): Response {
    if IsNaive(r) then Ok(Receipt(10, l.totalCharged + 10))
    else if IsKeyed(r) then
      if r.idempotencyKey.value in l.seenIdempotencyKeys then Ok(l.seenIdempotencyKeys[r.idempotencyKey.value])
      else Ok(Receipt(10, l.totalCharged + 10))
    else if IsSafe(r) then KeyRequired
    else NotFound
  }

  function Run(history: seq<Request>): Ledger {
    if history == [] then OPENED
    else Next(Run(history[..|history| - 1]), history[|history| - 1])
  }

  function Replies(history: seq<Request>): (replies: seq<Response>)
    ensures |replies| == |history|
  {
    if history == [] then []
    else
      Replies(history[..|history| - 1]) + [Reply(Run(history[..|history| - 1]), history[|history| - 1])]
  }

  /** Request `i` has a key that an earlier request had. */
  predicate IsRepeat(history: seq<Request>, i: int) {
    0 <= i < |history| && IsKeyed(history[i])
    && exists j :: 0 <= j < i && Carries(history[j], history[i].idempotencyKey.value)
  }

  /** Request `i` makes a charge. */
  predicate IsCharge(history: seq<Request>, i: int) {
    0 <= i < |history| && (IsNaive(history[i]) || (IsKeyed(history[i]) && !IsRepeat(history, i)))
  }

  /** `xs` without the entries at the indices `dropped`. */
  function Without<T>(xs: seq<T>, dropped: set<int>): seq<T> {
    if xs == [] then []
    else
      var kept := Without(xs[..|xs| - 1], dropped);
      if |xs| - 1 in dropped then kept else kept + [xs[|xs| - 1]]
  }

  /** What is left is exactly the entries at the other indices, in order. */
  lemma {:induction false} WithoutExact<T>(xs: seq<T>, dropped: set<int>) returns (at: seq<nat>)
    ensures Picks(at, |xs|, (i: nat) => i !in dropped)
    ensures |Without(xs, dropped)| == |at|
    ensures forall k :: 0 <= k < |at| ==> IsAt(xs, at[k], Without(xs, dropped)[k])
  {
    if xs == [] {
      at := [];
    } else {
      var m := |xs| - 1;
      var before := WithoutExact(xs[..m], dropped);
      at := PicksMore(before, m, (i: nat) => i !in dropped, (i: nat) => i !in dropped);
      IsAtMore(xs, before, Without(xs[..m], dropped), m !in dropped);
    }
  }

  ghost predicate IsAt<T>(xs: seq<T>, i: nat, x: T) { i < |xs| && xs[i] == x }

  lemma IsAtMore<T>(xs: seq<T>, at: seq<nat>, ys: seq<T>, more: bool)
    requires xs != [] && |at| == |ys| && forall k :: 0 <= k < |at| ==> IsAt(xs[..|xs| - 1], at[k], ys[k])
    ensures if more
            then var at', ys' := at + [|xs| - 1], ys + [xs[|xs| - 1]];
                 forall k :: 0 <= k < |at'| ==> IsAt(xs, at'[k], ys'[k])
            else forall k :: 0 <= k < |at| ==> IsAt(xs, at[k], ys[k])
  {
    forall k | 0 <= k < |at| ensures IsAt(xs, at[k], ys[k]) {
      assert IsAt(xs[..|xs| - 1], at[k], ys[k]);
    }
  }

  /** What is cached is what has been asked for. */
  lemma {:induction false} SeenMeans(history: seq<Request>, key: Text)
    ensures key in Run(history).seenIdempotencyKeys
            <==> exists j :: 0 <= j < |history| && Carries(history[j], key)
  {
    if history == [] {
    } else {
      var n := |history| - 1;
      SeenMeans(history[..n], key);
      Routes(history[n]);
      assert (exists j :: 0 <= j < |history| && Carries(history[j], key))
        <==> (exists j :: 0 <= j < n && Carries(history[..n][j], key)) || Carries(history[n], key) by {
        assert forall j :: 0 <= j < n ==> history[..n][j] == history[j];
      }
    }
  }

  lemma RepeatIsSeen(history: seq<Request>, n: nat)
    requires n < |history| && IsKeyed(history[n])
    ensures IsRepeat(history, n) <==> history[n].idempotencyKey.value in Run(history[..n]).seenIdempotencyKeys
  {
    SeenMeans(history[..n], history[n].idempotencyKey.value);
    assert forall j :: 0 <= j < n ==> history[..n][j] == history[j];
  }

  lemma {:induction false} RunMore(history: seq<Request>, r: Request)
    ensures Run(history + [r]) == Next(Run(history), r)
    ensures Replies(history + [r]) == Replies(history) + [Reply(Run(history), r)]
  {
    assert (history + [r])[..|history|] == history;
  }

  lemma {:induction false} RepeatChangesNothing(history: seq<Request>)
    requires history != [] && IsRepeat(history, |history| - 1)
    ensures Run(history) == Run(history[..|history| - 1])
  {
    RepeatIsSeen(history, |history| - 1);
    Routes(history[|history| - 1]);
  }

  lemma RepeatBefore(history: seq<Request>, i: nat)
    requires i < |history| - 1 && IsRepeat(history, i)
    ensures IsRepeat(history[..|history| - 1], i)
  {
    var n := |history| - 1;
    assert forall j :: 0 <= j < n ==> history[..n][j] == history[j];
  }

  lemma {:induction false} WithoutLast<T>(xs: seq<T>, x: T, dropped: set<int>)
    ensures Without(xs + [x], dropped) == if |xs| in dropped then Without(xs, dropped) else Without(xs, dropped) + [x]
  {
    assert (xs + [x])[..|xs|] == xs;
  }

  /** Retry erasure: take any of the repeats away, and the ledger ends the same and every request that is
      left gets the same response. */
  lemma {:induction false} RetryErasure(history: seq<Request>, dropped: set<int>)
    requires forall i :: i in dropped && 0 <= i < |history| ==> IsRepeat(history, i)
    ensures Run(Without(history, dropped)) == Run(history)
    ensures Replies(Without(history, dropped)) == Without(Replies(history), dropped)
  {
    if history == [] {
    } else {
      var n := |history| - 1;
      var before, r := history[..n], history[n];
      forall i | i in dropped && 0 <= i < n ensures IsRepeat(before, i) {
        RepeatBefore(history, i);
      }
      RetryErasure(before, dropped);
      WithoutLast(Replies(before), Reply(Run(before), r), dropped);
      if n in dropped {
        RepeatChangesNothing(history);
      } else {
        RunMore(Without(before, dropped), r);
      }
    }
  }

  /** Each reply is decided by the requests before it. */
  lemma {:induction false} ReplyAt(history: seq<Request>, i: nat)
    requires i < |history|
    ensures Replies(history)[i] == Reply(Run(history[..i]), history[i])
  {
    var n := |history| - 1;
    if i == n {
    } else {
      ReplyAt(history[..n], i);
      assert history[..n][..i] == history[..i];
    }
  }

  /** Who is refused: a safe charge without a key or with an empty one, and every other path; neither charges. */
  lemma {:induction false} RefusedExact(history: seq<Request>, i: nat)
    requires i < |history|
    ensures Replies(history)[i] == KeyRequired
            <==> history[i].url == Ascii("/charge/safe")
                 && (history[i].idempotencyKey.None? || history[i].idempotencyKey.value == [])
    ensures Replies(history)[i] == NotFound
            <==> history[i].url != Ascii("/charge/safe") && history[i].url != Ascii("/charge/naive")
    ensures !Replies(history)[i].Ok? ==> Run(history[..i + 1]) == Run(history[..i])
  {
    ReplyAt(history, i);
    Refused(Run(history[..i]), history[i]);
    assert history[..i + 1][..i] == history[..i];
  }

  lemma Refused(l: Ledger, r: Request)
    ensures Reply(l, r) == KeyRequired <==> IsSafe(r) && !IsKeyed(r)
    ensures Reply(l, r) == NotFound <==> !IsSafe(r) && !IsNaive(r)
    ensures !Reply(l, r).Ok? ==> Next(l, r) == l
  {
    Routes(r);
  }

  /** A cached receipt never changes. */
  lemma {:induction false} CacheIsStable(history: seq<Request>, i: nat, key: Text)
    requires i <= |history| && key in Run(history[..i]).seenIdempotencyKeys
    ensures key in Run(history).seenIdempotencyKeys
    ensures Run(history).seenIdempotencyKeys[key] == Run(history[..i]).seenIdempotencyKeys[key]
  {
    var n := |history| - 1;
    if i == |history| {
      assert history[..i] == history;
    } else {
      assert history[..n][..i] == history[..i];
      CacheIsStable(history[..n], i, key);
    }
  }

  /** Every request with a key gets the very response that the first request with that key got. */
  lemma {:induction false} RepeatGetsFirst(history: seq<Request>, i: nat, j: nat, key: Text)
    requires i < j < |history| && key != []
    requires history[i] == history[j] == Request(Ascii("/charge/safe"), Some(key))
    ensures Replies(history)[j] == Replies(history)[i]
    ensures Replies(history)[i].Ok?
  {
    ReplyAt(history, i);
    ReplyAt(history, j);
    Routes(history[i]);
    Routes(history[j]);
    assert history[..i + 1][..i] == history[..i];
    assert history[..j][..i + 1] == history[..i + 1];
    CacheIsStable(history[..j], i + 1, key);
  }

  /** The keys used in a history. */
  function Keys(history: seq<Request>): set<Text> {
    set r | r in history && IsKeyed(r) :: r.idempotencyKey.value
  }

  function Naives(history: seq<Request>): nat {
    |set i | 0 <= i < |history| && IsNaive(history[i])|
  }

  lemma NaivesStep(history: seq<Request>)
    requires history != []
    ensures Naives(history)
            == Naives(history[..|history| - 1]) + (if IsNaive(history[|history| - 1]) then 1 else 0)
  {
    var n := |history| - 1;
    var before := set i | 0 <= i < n && IsNaive(history[..n][i]);
    var after := set i | 0 <= i < |history| && IsNaive(history[i]);
    assert after == before + if IsNaive(history[n]) then {n} else {};
  }

  lemma KeysStep(history: seq<Request>)
    requires history != []
    ensures var r := history[|history| - 1];
            Keys(history)
            == Keys(history[..|history| - 1]) + (if IsKeyed(r) then {r.idempotencyKey.value} else {})
  {
    var n := |history| - 1;
    assert history == history[..n] + [history[n]];
  }

  /** Ten for each naive charge and for each distinct key. */
  lemma {:induction false} TotalCharged(history: seq<Request>)
    ensures Run(history).totalCharged == 10 * (Naives(history) + |Keys(history)|)
    ensures Run(history).seenIdempotencyKeys.Keys == Keys(history)
  {
    if history == [] {
    } else {
      var n := |history| - 1;
      TotalCharged(history[..n]);
      NaivesStep(history);
      KeysStep(history);
      Routes(history[n]);
    }
  }

  lemma {:induction false} TotalsGrow(history: seq<Request>, i: nat)
    requires i <= |history|
    ensures Run(history[..i]).totalCharged <= Run(history).totalCharged
  {
    if i == |history| {
      assert history[..i] == history;
    } else {
      var n := |history| - 1;
      TotalsGrow(history[..n], i);
      assert history[..n][..i] == history[..i];
    }
  }

  /** The charges among the first `n` requests. */
  function Charges(history: seq<Request>, n: nat): set<int>
    requires n <= |history|
  {
    set i | 0 <= i < n && IsCharge(history, i)
  }

  lemma ChargesStep(history: seq<Request>, i: nat)
    requires i < |history|
    ensures |Charges(history, i + 1)| == |Charges(history, i)| + (if IsCharge(history, i) then 1 else 0)
  {
    assert Charges(history, i + 1) == Charges(history, i) + if IsCharge(history, i) then {i} else {};
  }

  lemma RunAt(history: seq<Request>, i: nat)
    requires i < |history|
    ensures Run(history[..i + 1]) == Next(Run(history[..i]), history[i])
  {
    assert history[..i + 1] == history[..i] + [history[i]];
    RunMore(history[..i], history[i]);
  }

  /** What a charge does to the total, and is answered with. */
  lemma {:induction false} ChargeAt(history: seq<Request>, i: nat)
    requires i < |history|
    ensures var before, after := Run(history[..i]).totalCharged, Run(history[..i + 1]).totalCharged;
            && after == before + (if IsCharge(history, i) then 10 else 0)
            && (IsCharge(history, i) ==> Replies(history)[i] == Ok(Receipt(10, after)))
  {
    RunAt(history, i);
    ReplyAt(history, i);
    Routes(history[i]);
    if IsKeyed(history[i]) { RepeatIsSeen(history, i); }
  }

  lemma {:induction false} TotalIsCharges(history: seq<Request>, n: nat)
    requires n <= |history|
    ensures Run(history[..n]).totalCharged == 10 * |Charges(history, n)|
  {
    if n == 0 {
      assert history[..0] == [];
    } else {
      TotalIsCharges(history, n - 1);
      ChargesStep(history, n - 1);
      ChargeAt(history, n - 1);
    }
  }

  /** What a charge is answered with: 10, and 10 for each charge up to and with it. */
  lemma {:induction false} ReceiptExact(history: seq<Request>, i: nat)
    requires IsCharge(history, i)
    ensures Replies(history)[i] == Ok(Receipt(10, 10 * |Charges(history, i + 1)|))
    ensures Run(history[..i + 1]).totalCharged == 10 * |Charges(history, i + 1)|
  {
    TotalIsCharges(history, i + 1);
    ChargeAt(history, i);
  }

  /** Charges are told apart by their totals: a later charge has a greater one. */
  lemma {:induction false} ChargesDistinct(history: seq<Request>, i: nat, j: nat)
    requires i < j && IsCharge(history, i) && IsCharge(history, j)
    ensures Replies(history)[i].Ok? && Replies(history)[j].Ok?
    ensures Replies(history)[i].body.totalCharged < Replies(history)[j].body.totalCharged
  {
    ReplyAt(history, i);
    ReplyAt(history, j);
    if IsKeyed(history[i]) { RepeatIsSeen(history, i); }
    if IsKeyed(history[j]) { RepeatIsSeen(history, j); }
    assert history[..i + 1][..i] == history[..i];
    assert history[..j][..i + 1] == history[..i + 1];
    TotalsGrow(history[..j], i + 1);
  }

  /** What is cached for a key is the body of the reply to its first request, so distinct keys have cached
      distinct totals. */
  lemma {:induction false} CacheHoldsFirst(history: seq<Request>, key: Text) returns (i: nat)
    requires key in Run(history).seenIdempotencyKeys
    ensures i < |history| && Carries(history[i], key) && IsCharge(history, i)
    ensures Replies(history)[i] == Ok(Run(history).seenIdempotencyKeys[key])
  {
    var n := |history| - 1;
    Routes(history[n]);
    if key in Run(history[..n]).seenIdempotencyKeys {
      i := CacheHoldsFirst(history[..n], key);
      assert forall j :: 0 <= j < n ==> history[..n][j] == history[j];
      assert IsCharge(history, i);
    } else {
      i := n;
      RepeatIsSeen(history, n);
    }
  }

  lemma {:induction false} CachedTotalsDistinct(history: seq<Request>, key: Text, other: Text)
    requires var seen := Run(history).seenIdempotencyKeys; key in seen && other in seen && key != other
    ensures var seen := Run(history).seenIdempotencyKeys;
            seen[key].totalCharged != seen[other].totalCharged
  {
    var i := CacheHoldsFirst(history, key);
    var j := CacheHoldsFirst(history, other);
    if i < j { ChargesDistinct(history, i, j); } else { ChargesDistinct(history, j, i); }
  }

  class ChargeServer {
    var totalCharged: nat
    var seenIdempotencyKeys: map<Text, Receipt>
    ghost var history: seq<Request>

    ghost predicate Valid()
      reads this
    {
      Ledger(totalCharged, seenIdempotencyKeys) == Run(history)
    }

    constructor ()
      ensures Valid() && history == []
    {
      totalCharged, seenIdempotencyKeys, history := 0, map[], [];
    }

    /** The request handler. */
    method OnRequest(r: Request) returns (response: Response)
      requires Valid()
      modifies this
      ensures Valid() && history == old(history) + [r]
      ensures Replies(history) == Replies(old(history)) + [response]
    {
      assert (history + [r])[..|history|] == history;
      history := history + [r];
      Routes(r);
      if IsNaive(r) {
        totalCharged := totalCharged + 10;
        return Ok(Receipt(10, totalCharged));
      }
      if IsSafe(r) {
        if r.idempotencyKey.None? || r.idempotencyKey.value == [] {
          return KeyRequired;
        }
        var key := r.idempotencyKey.value;
        if key in seenIdempotencyKeys {
          return Ok(seenIdempotencyKeys[key]);
        }
        totalCharged := totalCharged + 10;
        var body := Receipt(10, totalCharged);
        seenIdempotencyKeys := seenIdempotencyKeys[key := body];
        return Ok(body);
      }
      return NotFound;
    }
  }
}
