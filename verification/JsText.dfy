/** JavaScript strings as the programs see them: sequences of UTF-16 code units, with the library
    operations the modelled code calls on them. */
module JsText {

  newtype CodeUnit = x: int | 0 <= x < 0x10000

  type Text = seq<CodeUnit>

  const NEWLINE: CodeUnit := 10
  const SPACE: CodeUnit := 32
  const DOT: CodeUnit := 46
  const NL: Text := [NEWLINE]

  /** The code units of a Dafny string literal. */
  function Ascii(s: string): (t: Text)
    requires forall i :: 0 <= i < |s| ==> s[i] as int < 0x10000
    ensures |t| == |s|
    ensures forall i :: 0 <= i < |s| ==> t[i] as int == s[i] as int
  {
    seq(|s|, i requires 0 <= i < |s| => s[i] as int as CodeUnit)
  }

  /** The white space and line terminators that String.prototype.trim removes. */
  predicate IsSpace(c: CodeUnit) {
    9 <= c <= 13 || c == 32 || c == 160 || c == 0x1680 || 0x2000 <= c <= 0x200A
    || c == 0x2028 || c == 0x2029 || c == 0x202F || c == 0x205F || c == 0x3000 || c == 0xFEFF
  }

  function TrimStart(s: Text): Text {
    if s != [] && IsSpace(s[0]) then TrimStart(s[1..]) else s
  }

  function TrimEnd(s: Text): Text {
    if s != [] && IsSpace(s[|s| - 1]) then TrimEnd(s[..|s| - 1]) else s
  }

  function Trim(s: Text): Text { TrimEnd(TrimStart(s)) }

  lemma TrimKeepsTight(s: Text)
    requires s != [] && !IsSpace(s[0]) && !IsSpace(s[|s| - 1])
    ensures Trim(s) == s
  {
  }

  lemma {:induction false} TrimEndIsPrefix(s: Text)
    ensures TrimEnd(s) <= s
    ensures s != [] && IsSpace(s[|s| - 1]) ==> |TrimEnd(s)| < |s|
    ensures TrimEnd(s) != [] ==> !IsSpace(TrimEnd(s)[|TrimEnd(s)| - 1])
  {
    if s == [] || !IsSpace(s[|s| - 1]) {
    } else {
      TrimEndIsPrefix(s[..|s| - 1]);
    }
  }

  /** The table of white space and line terminators, sections 12.2 and 12.3 of ECMA-262. */
  lemma WhiteSpace(c: CodeUnit)
    ensures IsSpace(c)
            <==> c in {0x9, 0xA, 0xB, 0xC, 0xD, 0x20, 0xA0, 0x1680, 0x2000, 0x2001, 0x2002, 0x2003, 0x2004, 0x2005,
                       0x2006, 0x2007, 0x2008, 0x2009, 0x200A, 0x2028, 0x2029, 0x202F, 0x205F, 0x3000, 0xFEFF}
  {
  }

  predicate Blank(s: Text) { forall i :: 0 <= i < |s| ==> IsSpace(s[i]) }

  /** Not empty, and no white space at either end. */
  predicate Tight(s: Text) { s != [] && !IsSpace(s[0]) && !IsSpace(s[|s| - 1]) }

  lemma {:induction false} TrimStartBlank(a: Text, s: Text)
    requires Blank(a)
    ensures TrimStart(a + s) == TrimStart(s)
  {
    if a == [] {
      assert a + s == s;
    } else {
      assert (a + s)[0] == a[0] && (a + s)[1..] == a[1..] + s;
      TrimStartBlank(a[1..], s);
    }
  }

  lemma {:induction false} TrimEndBlank(s: Text, b: Text)
    requires Blank(b)
    ensures TrimEnd(s + b) == TrimEnd(s)
  {
    if b == [] {
      assert s + b == s;
    } else {
      var m := |b| - 1;
      assert (s + b)[|s + b| - 1] == b[m] && (s + b)[..|s + b| - 1] == s + b[..m];
      TrimEndBlank(s, b[..m]);
    }
  }

  /** Trimming takes away exactly the white space around a tight text, and all of a blank one. */
  lemma {:induction false} TrimPadded(a: Text, w: Text, b: Text)
    requires Blank(a) && Blank(b) && (w == [] || Tight(w))
    ensures Trim(a + w + b) == w
  {
    assert a + w + b == a + (w + b);
    TrimStartBlank(a, w + b);
    if w == [] {
      assert w + b == b && b + [] == b && [] + b == b;
      TrimStartBlank(b, []);
    } else {
      assert (w + b)[0] == w[0];
      TrimEndBlank(w, b);
    }
  }

  /** `s` holds `d` at index `i`. */
  predicate MatchAt(s: Text, d: Text, i: int) {
    0 <= i && i + |d| <= |s| && s[i..i + |d|] == d
  }

  /** String.prototype.indexOf: the least index at which `d` occurs, or -1. */
  function IndexOf(s: Text, d: Text): (r: int)
    requires d != []
    ensures r == -1 || MatchAt(s, d, r)
    ensures forall i :: 0 <= i && (r == -1 || i < r) ==> !MatchAt(s, d, i)
  {
    IndexFrom(s, d, 0)
  }

  function IndexFrom(s: Text, d: Text, from: nat): (r: int)
    requires d != []
    ensures r == -1 || (from <= r && MatchAt(s, d, r))
    ensures forall i :: from <= i && (r == -1 || i < r) ==> !MatchAt(s, d, i)
    decreases |s| - from
  {
    if |s| < from + |d| then -1
    else if MatchAt(s, d, from) then from
    else IndexFrom(s, d, from + 1)
  }

  /** String.prototype.split with a one-unit separator. */
  function Split(s: Text, c: CodeUnit): (parts: seq<Text>)
    ensures |parts| >= 1
    decreases |s|
  {
    var i := IndexOf(s, [c]);
    if i == -1 then [s] else [s[..i]] + Split(s[i + 1..], c)
  }

  /** Array.prototype.join with a one-unit separator. */
  function Join(parts: seq<Text>, c: CodeUnit): Text {
    if parts == [] then [] else if |parts| == 1 then parts[0] else parts[0] + [c] + Join(parts[1..], c)
  }

  lemma IndexOfUnit(s: Text, c: CodeUnit)
    ensures IndexOf(s, [c]) == -1 <==> c !in s
    ensures IndexOf(s, [c]) != -1 ==> s[IndexOf(s, [c])] == c && c !in s[..IndexOf(s, [c])]
  {
    forall i | 0 <= i < |s| ensures MatchAt(s, [c], i) <==> s[i] == c {
      assert s[i..i + 1] == [s[i]];
    }
  }

  lemma IndexOfUnitIs(s: Text, c: CodeUnit, i: nat)
    requires i < |s| && s[i] == c && c !in s[..i]
    ensures IndexOf(s, [c]) == i
  {
    IndexOfUnit(s, c);
    forall j | 0 <= j < i ensures s[j] != c {
      assert s[j] in s[..i];
    }
    var k := IndexOf(s, [c]);
    assert k <= i by {
      assert MatchAt(s, [c], i);
    }
  }

  /** Joining what was split gives the text back, and no part holds the separator. */
  lemma {:induction false} JoinSplit(s: Text, c: CodeUnit)
    ensures Join(Split(s, c), c) == s
    ensures forall p :: p in Split(s, c) ==> c !in p
    decreases |s|
  {
    IndexOfUnit(s, c);
    var i := IndexOf(s, [c]);
    if i == -1 {
    } else {
      JoinSplit(s[i + 1..], c);
      assert s == s[..i] + [c] + s[i + 1..];
      assert Split(s, c)[1..] == Split(s[i + 1..], c);
    }
  }

  /** Parts hold nothing that the text does not. */
  lemma {:induction false} SplitFree(s: Text, c: CodeUnit, d: CodeUnit)
    requires d !in s
    ensures forall p :: p in Split(s, c) ==> d !in p
    decreases |s|
  {
    var i := IndexOf(s, [c]);
    if i == -1 {
    } else {
      SplitFree(s[i + 1..], c, d);
    }
  }

  /** A text whose head part is separator-free splits off that part. */
  lemma {:induction false} SplitHead(head: Text, tail: Text, c: CodeUnit)
    requires c !in head
    ensures Split(head + [c] + tail, c) == [head] + Split(tail, c)
  {
    var s := head + [c] + tail;
    assert s[..|head|] == head && s[|head| + 1..] == tail;
    IndexOfUnitIs(s, c, |head|);
  }

  lemma Nested(a: Text, b: Text, rest: Text, c: CodeUnit)
    ensures a + [c] + (b + [c] + rest) == a + [c] + b + [c] + rest
  {
  }

  /** Splitting what was joined gives the parts back when no part holds the separator. */
  lemma {:induction false} SplitJoin(parts: seq<Text>, c: CodeUnit)
    requires parts != []
    requires forall p :: p in parts ==> c !in p
    ensures Split(Join(parts, c), c) == parts
  {
    assert parts[0] in parts;
    if |parts| == 1 {
      IndexOfUnit(parts[0], c);
    } else {
      SplitJoin(parts[1..], c);
      SplitHead(parts[0], Join(parts[1..], c), c);
    }
  }
}
