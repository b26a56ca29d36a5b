/** The UTF-8 bytes of a JavaScript string, section 3 of RFC 3629. */
module Unicode {
  import opened Bytes
  import opened JsText

  predicate IsHigh(c: CodeUnit) { 0xD800 <= c <= 0xDBFF }
  predicate IsLow(c: CodeUnit) { 0xDC00 <= c <= 0xDFFF }

  /** The forms of two, three and four bytes. */
  function Two(p: nat): seq<byte>
    requires p < 0x800
  {
    [(0xC0 + p / 0x40) as byte, (0x80 + p % 0x40) as byte]
  }

  function Three(p: nat): seq<byte>
    requires p < 0x10000
  {
    [(0xE0 + p / 0x1000) as byte, (0x80 + p / 0x40 % 0x40) as byte, (0x80 + p % 0x40) as byte]
  }

  function Four(p: nat): seq<byte>
    requires p < 0x110000
  {
    [(0xF0 + p / 0x40000) as byte, (0x80 + p / 0x1000 % 0x40) as byte,
     (0x80 + p / 0x40 % 0x40) as byte, (0x80 + p % 0x40) as byte]
  }

  /** `Buffer.from(t)`: a lone surrogate becomes U+FFFD. */
  function Utf8(t: Text): seq<byte>
    decreases |t|
  {
    if t == [] then []
    else
      var u := t[0] as int;
      if u < 0x80 then [u as byte] + Utf8(t[1..])
      else if u < 0x800 then Two(u) + Utf8(t[1..])
      else if IsHigh(t[0]) && |t| > 1 && IsLow(t[1]) then
        Four(0x10000 + (u - 0xD800) * 0x400 + (t[1] as int - 0xDC00)) + Utf8(t[2..])
      else
        Three(if IsHigh(t[0]) || IsLow(t[0]) then 0xFFFD else u) + Utf8(t[1..])
  }

  /** The characters of a text: a pair of surrogates is one, and a lone surrogate is read as U+FFFD. */
  function CodePoints(t: Text): seq<nat>
    decreases |t|
  {
    if t == [] then []
    else if |t| > 1 && 0xD800 <= t[0] <= 0xDBFF && 0xDC00 <= t[1] <= 0xDFFF then
      [0x10000 + (t[0] as int - 0xD800) * 0x400 + (t[1] as int - 0xDC00)] + CodePoints(t[2..])
    else [if 0xD800 <= t[0] <= 0xDFFF then 0xFFFD else t[0] as int] + CodePoints(t[1..])
  }

  function Size(p: nat): nat { if p < 0x80 then 1 else if p < 0x800 then 2 else if p < 0x10000 then 3 else 4 }

  predicate IsTail(b: byte) { 0x80 <= b <= 0xBF }

  /** The number that tails write behind a first value, six bits each. */
  function Behind(first: int, tails: seq<byte>): int {
    if tails == [] then first else Behind(first, tails[..|tails| - 1]) * 64 + (tails[|tails| - 1] as int - 0x80)
  }

  /** What the first of so many bytes contributes; its high bits tell how many there are. */
  function Mark(n: nat): nat { if n == 1 then 0 else if n == 2 then 0xC0 else if n == 3 then 0xE0 else 0xF0 }

  /** The table of section 3 of RFC 3629: the bytes of one character. */
  predicate IsCharacter(b: seq<byte>, p: nat) {
    && |b| == Size(p)
    && Mark(|b|) <= b[0] as int
    && (forall i :: 1 <= i < |b| ==> IsTail(b[i]))
    && p == Behind(b[0] as int - Mark(|b|), b[1..])
  }

  predicate AreCharacters(b: seq<byte>, ps: seq<nat>) {
    if ps == [] then b == []
    else |b| >= Size(ps[0]) && IsCharacter(b[..Size(ps[0])], ps[0]) && AreCharacters(b[Size(ps[0])..], ps[1..])
  }

  lemma IsOne(p: nat)
    requires p < 0x80
    ensures IsCharacter([p as byte], p)
  {
  }

  lemma IsTwo(p: nat)
    requires 0x80 <= p < 0x800
    ensures IsCharacter(Two(p), p)
  {
  }

  lemma {:induction false} OneMoreTail(first: int, tails: seq<byte>, tail: byte)
    ensures Behind(first, tails + [tail]) == Behind(first, tails) * 64 + (tail as int - 0x80)
  {
    assert (tails + [tail])[..|tails|] == tails;
  }

  lemma {:induction false} IsThree(p: nat)
    requires 0x800 <= p < 0x10000
    ensures IsCharacter(Three(p), p)
  {
    var b, first := Three(p), p / 0x1000;
    assert p / 0x40 / 0x40 == first;
    assert b[1..] == [] + [b[1]] + [b[2]];
    OneMoreTail(first, [], b[1]);
    OneMoreTail(first, [] + [b[1]], b[2]);
  }

  lemma {:induction false} IsFour(p: nat)
    requires 0x10000 <= p < 0x110000
    ensures IsCharacter(Four(p), p)
  {
    var b, first := Four(p), p / 0x40000;
    assert p / 0x40 / 0x40 == p / 0x1000 && p / 0x1000 / 0x40 == first;
    assert b[1..] == [] + [b[1]] + [b[2]] + [b[3]];
    OneMoreTail(first, [], b[1]);
    OneMoreTail(first, [] + [b[1]], b[2]);
    OneMoreTail(first, [] + [b[1]] + [b[2]], b[3]);
  }

  lemma {:induction false} MoreCharacters(first: seq<byte>, p: nat, rest: seq<byte>, ps: seq<nat>)
    requires IsCharacter(first, p) && AreCharacters(rest, ps)
    ensures AreCharacters(first + rest, [p] + ps)
  {
    assert (first + rest)[..|first|] == first && (first + rest)[|first|..] == rest;
    assert ([p] + ps)[1..] == ps;
  }

  lemma LastSix(q: int, r: int, q': int, r': int)
    requires q * 64 + r == q' * 64 + r' && 0 <= r < 64 && 0 <= r' < 64
    ensures q == q' && r == r'
  {
  }

  lemma {:induction false} BehindOnce(x: int, s: seq<byte>, y: int, t: seq<byte>)
    requires |s| == |t| && Behind(x, s) == Behind(y, t)
    requires forall i :: 0 <= i < |s| ==> IsTail(s[i]) && IsTail(t[i])
    ensures x == y && s == t
  {
    if s == [] {
    } else {
      var m := |s| - 1;
      LastSix(Behind(x, s[..m]), s[m] as int - 0x80, Behind(y, t[..m]), t[m] as int - 0x80);
      BehindOnce(x, s[..m], y, t[..m]);
      assert s == s[..m] + [s[m]] && t == t[..m] + [t[m]];
    }
  }

  lemma CharacterOnce(a: seq<byte>, b: seq<byte>, p: nat)
    requires IsCharacter(a, p) && IsCharacter(b, p)
    ensures a == b
  {
    BehindOnce(a[0] as int - Mark(|a|), a[1..], b[0] as int - Mark(|b|), b[1..]);
    assert a == [a[0]] + a[1..] && b == [b[0]] + b[1..];
  }

  /** The table leaves no choice. */
  lemma {:induction false} CharactersOnce(a: seq<byte>, b: seq<byte>, ps: seq<nat>)
    requires AreCharacters(a, ps) && AreCharacters(b, ps)
    ensures a == b
  {
    if ps == [] {
    } else {
      var n := Size(ps[0]);
      CharacterOnce(a[..n], b[..n], ps[0]);
      CharactersOnce(a[n..], b[n..], ps[1..]);
      assert a == a[..n] + a[n..] && b == b[..n] + b[n..];
    }
  }

  /** The first character of a text, its bytes, and how many code units it takes. */
  lemma {:induction false} FirstCharacter(t: Text) returns (first: seq<byte>, p: nat, n: nat)
    requires t != []
    ensures 0 < n <= |t| && IsCharacter(first, p)
    ensures Utf8(t) == first + Utf8(t[n..]) && CodePoints(t) == [p] + CodePoints(t[n..])
  {
    p, n := t[0] as int, 1;
    if p < 0x80 {
      first := [p as byte];
      IsOne(p);
    } else if p < 0x800 {
      first := Two(p);
      IsTwo(p);
    } else if |t| > 1 && IsHigh(t[0]) && IsLow(t[1]) {
      p, n := 0x10000 + (p - 0xD800) * 0x400 + (t[1] as int - 0xDC00), 2;
      first := Four(p);
      IsFour(p);
    } else {
      p := if IsHigh(t[0]) || IsLow(t[0]) then 0xFFFD else p;
      first := Three(p);
      IsThree(p);
    }
  }

  /** The bytes are, character by character, those of the table. */
  lemma {:induction false} Utf8Characters(t: Text)
    ensures AreCharacters(Utf8(t), CodePoints(t))
    decreases |t|
  {
    if t == [] {
    } else {
      var first, p, n := FirstCharacter(t);
      Utf8Characters(t[n..]);
      MoreCharacters(first, p, Utf8(t[n..]), CodePoints(t[n..]));
    }
  }

  predicate IsAscii(t: Text) { forall i :: 0 <= i < |t| ==> t[i] < 0x80 }

  /** A text has as many bytes as code units exactly when it is ASCII, and no fewer otherwise. */
  lemma {:induction false} Utf8Length(t: Text)
    ensures |Utf8(t)| >= |t|
    ensures |Utf8(t)| == |t| <==> IsAscii(t)
    decreases |t|
  {
    if t == [] {
    } else {
      Utf8Length(t[1..]);
      assert IsAscii(t) <==> t[0] < 0x80 && IsAscii(t[1..]) by {
        assert forall i :: 1 <= i < |t| ==> t[i] == t[1..][i - 1];
      }
      if |t| > 1 { Utf8Length(t[2..]); }
    }
  }

  /** An ASCII text is its own bytes. */
  lemma {:induction false} Utf8OfAscii(t: Text, b: seq<byte>)
    requires |t| == |b| && forall i :: 0 <= i < |t| ==> t[i] as int == b[i] as int < 0x80
    ensures Utf8(t) == b
    decreases |t|
  {
    if t == [] {
    } else {
      Utf8OfAscii(t[1..], b[1..]);
      assert b == [b[0]] + b[1..];
    }
  }

  /** ASCII texts are told apart by their bytes. */
  lemma {:induction false} Utf8Ascii(a: Text, b: Text)
    requires IsAscii(a) && IsAscii(b)
    ensures Utf8(a) == Utf8(b) <==> a == b
    decreases |a|
  {
    if a != [] && b != [] {
      Utf8Ascii(a[1..], b[1..]);
      assert Utf8(a) == [a[0] as byte] + Utf8(a[1..]) && Utf8(b) == [b[0] as byte] + Utf8(b[1..]);
      assert Utf8(a)[1..] == Utf8(a[1..]) && Utf8(b)[1..] == Utf8(b[1..]);
      assert Utf8(a)[0] as int == a[0] as int && Utf8(b)[0] as int == b[0] as int;
      assert a == [a[0]] + a[1..] && b == [b[0]] + b[1..];
    } else {
      Utf8Length(a);
      Utf8Length(b);
    }
  }
}
