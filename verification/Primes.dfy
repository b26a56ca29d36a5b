/** The CPU-bound body of a pool worker: count primes by trial division up to the square root. */
module Primes {
  import opened Arith
  import opened JsText

  const WORK_PER_UNIT: nat := 15000

  predicate IsPrime(i: nat) {
    i >= 2 && forall j :: 2 <= j < i ==> i % j != 0
  }

  ghost function PrimesBelow(n: nat): set<nat> {
    set i: nat | i < n && IsPrime(i)
  }

  lemma Cofactor(i: nat, d: nat) returns (q: nat)
    requires 2 <= d < i && i % d == 0
    ensures 2 <= q && i == q * d && i % q == 0
  {
    q := i / d;
    DivMod(i, d);
    if q <= 1 {
      MulMonotone(d, q, 1);
      assert false;
    }
    ModOfProduct(q, d);
  }

  /** The cofactor of a divisor divides too, and one of the two is at most the square root. */
  lemma SmallDivisor(i: nat, d: nat) returns (e: nat)
    requires 2 <= d < i && i % d == 0
    ensures 2 <= e && e * e <= i && i % e == 0
  {
    var q := Cofactor(i, d);
    if d <= q {
      e := d;
      MulMonotone(d, d, q);
    } else {
      e := q;
      MulMonotone(q, q, d);
    }
  }

  /** Trial division may stop at the square root: a composite has a divisor that small. */
  lemma TrialDivision(i: nat)
    requires i >= 2
    ensures IsPrime(i) <==> forall j {:trigger i % j} :: 2 <= j && j * j <= i ==> i % j != 0
  {
    if !IsPrime(i) {
      var d :| 2 <= d < i && i % d == 0;
      var e := SmallDivisor(i, d);
    } else {
      forall j | 2 <= j && j * j <= i ensures i % j != 0 {
        assert j < i by { MulMonotone(j, 2, j); }
      }
    }
  }

  /** A divisor found in the tested range settles it, and so does a finished search. */
  lemma SearchOutcome(i: nat, j: nat)
    requires 2 <= i && 2 <= j
    requires forall m {:trigger i % m} :: 2 <= m < j ==> i % m != 0
    ensures j * j > i ==> IsPrime(i)
    ensures j * j <= i && i % j == 0 ==> !IsPrime(i)
    ensures j * j <= i ==> j < i
  {
    TrialDivision(i);
    if j * j > i {
      forall m | 2 <= m && m * m <= i ensures i % m != 0 {
        if m >= j { MulMonotone(j, j, m); MulMonotone(m, j, m); }
      }
    } else {
      MulMonotone(j, 2, j);
    }
  }

  lemma PrimesStep(i: nat)
    ensures |PrimesBelow(i + 1)| == |PrimesBelow(i)| + (if IsPrime(i) then 1 else 0)
  {
    assert PrimesBelow(i + 1) == if IsPrime(i) then PrimesBelow(i) + {i} else PrimesBelow(i);
  }

  /** The nested loops of `process_`. */
  method CountPrimes(n: nat) returns (primeCount: nat)
    ensures primeCount == |PrimesBelow(n)|
  {
    primeCount := 0;
    var i := 2;
    assert PrimesBelow(2) == {};
    while i < n
      invariant 2 <= i && (i <= n || i == 2)
      invariant primeCount == |PrimesBelow(i)|
    {
      var isPrime := true;
      var j := 2;
      while j * j <= i
        invariant 2 <= j && isPrime
        invariant forall m {:trigger i % m} :: 2 <= m < j ==> i % m != 0
        decreases i - j
      {
        SearchOutcome(i, j);
        if i % j == 0 {
          isPrime := false;
          break;
        }
        j := j + 1;
      }
      SearchOutcome(i, j);
      PrimesStep(i);
      if isPrime { primeCount := primeCount + 1; }
      i := i + 1;
    }
    if n < 2 {
      assert PrimesBelow(n) == {};
    }
  }

  /** Decimal digits of a number, as a template literal prints it. */
  function Decimal(n: nat): Text {
    if n < 10 then [(48 + n) as CodeUnit] else Decimal(n / 10) + [(48 + n % 10) as CodeUnit]
  }

  predicate IsDigits(t: Text) { forall i :: 0 <= i < |t| ==> 48 <= t[i] <= 57 }

  /** The number that decimal digits are read as. */
  function NumberOf(t: Text): nat
    requires IsDigits(t)
  {
    if t == [] then 0 else 10 * NumberOf(t[..|t| - 1]) + (t[|t| - 1] as int - 48)
  }

  /** The usual way to write a number: its digits, most significant first, with no needless zero. */
  predicate Writes(t: Text, n: nat) {
    t != [] && IsDigits(t) && NumberOf(t) == n && (t[0] == 48 ==> t == [48])
  }

  lemma Zero()
    ensures IsDigits([48]) && NumberOf([48]) == 0
  {
    assert [48 as CodeUnit][..0] == [];
  }

  lemma {:induction false} DecimalWrites(n: nat)
    ensures Writes(Decimal(n), n)
  {
    if n < 10 {
      assert [(48 + n) as CodeUnit][..0] == [];
    } else {
      DecimalWrites(n / 10);
      var t := Decimal(n);
      assert t[..|t| - 1] == Decimal(n / 10);
      assert t[0] == Decimal(n / 10)[0];
      Zero();
    }
  }

  /** There is no other way to write it so. */
  lemma {:induction false} WrittenOnce(t: Text, n: nat)
    requires Writes(t, n)
    ensures t == Decimal(n)
  {
    var m := |t| - 1;
    Zero();
    if m == 0 {
      assert t[..0] == [] && t == [t[0]];
    } else {
      var front := t[..m];
      assert front[0] == t[0];
      WrittenOnce(front, NumberOf(front));
      LastDigit(NumberOf(front), t[m] as int - 48);
      assert t == front + [t[m]];
    }
  }

  lemma LastDigit(n: nat, d: nat)
    requires d < 10
    ensures (10 * n + d) / 10 == n && (10 * n + d) % 10 == d
  {
  }

  function Message(upper: Text, threadId: nat, primes: nat, n: nat): Text {
    upper + Ascii(" (worker ") + Decimal(threadId) + Ascii(" found ") + Decimal(primes)
    + Ascii(" primes under ") + Decimal(n) + Ascii(")")
  }

  /** What a worker answers, with the prime count given by its definition. */
  ghost function Answer(payload: Text, threadId: nat, toUpper: Text -> Text): Text {
    var n := |payload| * WORK_PER_UNIT;
    Message(toUpper(payload), threadId, |PrimesBelow(n)|, n)
  }

  /** The answer's text: the payload in upper case and the fixed words, with the three numbers in their places. */
  ghost predicate Says(result: Text, upper: Text, threadId: nat, primes: nat, n: nat) {
    exists a, b, c ::
      && Writes(a, threadId) && Writes(b, primes) && Writes(c, n)
      && result == upper + Ascii(" (worker ") + a + Ascii(" found ") + b + Ascii(" primes under ") + c + Ascii(")")
  }

  lemma SaysOnly(result: Text, upper: Text, threadId: nat, primes: nat, n: nat)
    ensures Says(result, upper, threadId, primes, n) <==> result == Message(upper, threadId, primes, n)
  {
    DecimalWrites(threadId);
    DecimalWrites(primes);
    DecimalWrites(n);
    forall t, k: nat | Writes(t, k) ensures t == Decimal(k) {
      WrittenOnce(t, k);
    }
  }

  /** The answer names the number of primes below 15000 for each unit of the payload, and that is all it says. */
  lemma AnswerSays(payload: Text, threadId: nat, toUpper: Text -> Text, result: Text)
    ensures Says(result, toUpper(payload), threadId,
                 |set i: nat | i < 15000 * |payload| && IsPrime(i)|, 15000 * |payload|)
            <==> result == Answer(payload, threadId, toUpper)
  {
    var n := 15000 * |payload|;
    assert PrimesBelow(n) == set i: nat | i < n && IsPrime(i);
    SaysOnly(result, toUpper(payload), threadId, |PrimesBelow(n)|, n);
  }

  method Process(payload: Text, threadId: nat, toUpper: Text -> Text) returns (result: Text)
    ensures result == Answer(payload, threadId, toUpper)
    ensures Says(result, toUpper(payload), threadId,
                 |set i: nat | i < 15000 * |payload| && IsPrime(i)|, 15000 * |payload|)
  {
    var n := |payload| * WORK_PER_UNIT;
    var primeCount := CountPrimes(n);
    result := Message(toUpper(payload), threadId, primeCount, n);
    AnswerSays(payload, threadId, toUpper, result);
  }
}
