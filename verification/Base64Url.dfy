/** base64url without padding, section 5 of RFC 4648. */
module Base64Url {
  import opened Bytes
  import opened JsText
  import opened Sequences

  /** Table 2 of RFC 4648. */
  function Digit(d: nat): CodeUnit
    requires d < 64
  {
    if d < 26 then (65 + d) as CodeUnit
    else if d < 52 then (97 + d - 26) as CodeUnit
    else if d < 62 then (48 + d - 52) as CodeUnit
    else if d == 62 then 45
    else 95
  }

  lemma Capitals(d: nat)
    requires d < 26
    ensures Digit(d) == Ascii("ABCDEFGHIJKLMNOPQRSTUVWXYZ")[d]
  {
  }

  lemma SmallLetters(d: nat)
    requires 26 <= d < 52
    ensures Digit(d) == Ascii("abcdefghijklmnopqrstuvwxyz")[d - 26]
  {
  }

  lemma Numerals(d: nat)
    requires 52 <= d < 64
    ensures Digit(d) == Ascii("0123456789-_")[d - 52]
  {
  }

  predicate IsDigit(c: CodeUnit) {
    65 <= c <= 90 || 97 <= c <= 122 || 48 <= c <= 57 || c == 45 || c == 95
  }

  function Value(c: CodeUnit): (d: nat)
    requires IsDigit(c)
    ensures d < 64 && Digit(d) == c
  {
    if c <= 57 && c != 45 then c as int - 48 + 52
    else if c == 45 then 62
    else if c == 95 then 63
    else if c <= 90 then c as int - 65
    else c as int - 97 + 26
  }

  lemma ValueDigit(d: nat)
    requires d < 64
    ensures IsDigit(Digit(d)) && Value(Digit(d)) == d
  {
  }

  type Sextet = x: int | 0 <= x < 64

  function Letters(d: seq<Sextet>): (t: Text)
    ensures |t| == |d| && forall i :: 0 <= i < |d| ==> t[i] == Digit(d[i])
  {
    seq(|d|, i requires 0 <= i < |d| => Digit(d[i]))
  }

  predicate InAlphabet(t: Text) { forall i :: 0 <= i < |t| ==> IsDigit(t[i]) }

  function Sextets(t: Text): (d: seq<Sextet>)
    requires InAlphabet(t)
    ensures |d| == |t| && forall i :: 0 <= i < |t| ==> d[i] == Value(t[i])
  {
    seq(|t|, i requires 0 <= i < |t| => Value(t[i]))
  }

  lemma SextetsLetters(d: seq<Sextet>)
    ensures InAlphabet(Letters(d)) && Sextets(Letters(d)) == d
  {
    forall i | 0 <= i < |d| ensures IsDigit(Letters(d)[i]) && Value(Letters(d)[i]) == d[i] {
      ValueDigit(d[i]);
    }
  }

  /** The 6-bit digits of up to three bytes. */
  function Group(b: seq<byte>): (d: seq<Sextet>)
    requires 1 <= |b| <= 3
    ensures |d| == |b| + 1
  {
    var b0 := b[0] as int;
    if |b| == 1 then [b0 / 4, b0 % 4 * 16]
    else
      var b1 := b[1] as int;
      if |b| == 2 then [b0 / 4, b0 % 4 * 16 + b1 / 16, b1 % 16 * 4]
      else [b0 / 4, b0 % 4 * 16 + b1 / 16, b1 % 16 * 4 + b[2] as int / 64, b[2] as int % 64]
  }

  /** The digits write, to base 64, the number that the bytes are to base 256, with 2 or 4 zero bits behind a
      group that is not full. */
  lemma GroupNumber(b: seq<byte>)
    requires 1 <= |b| <= 3
    ensures var d := Group(b);
            && (|b| == 1 ==> d[0] as int * 64 + d[1] as int == b[0] as int * 16)
            && (|b| == 2 ==> d[0] as int * 4096 + d[1] as int * 64 + d[2] as int
                             == (b[0] as int * 256 + b[1] as int) * 4)
            && (|b| == 3 ==> d[0] as int * 262144 + d[1] as int * 4096 + d[2] as int * 64 + d[3] as int
                             == b[0] as int * 65536 + b[1] as int * 256 + b[2] as int)
  {
  }

  /** The bytes of two to four digits; the bits that are left over are dropped. */
  function Ungroup(d: seq<Sextet>): (b: seq<byte>)
    requires 2 <= |d| <= 4
    ensures |b| == |d| - 1
  {
    var b0 := (d[0] as int * 4 + d[1] as int / 16) as byte;
    if |d| == 2 then [b0]
    else
      var b1 := (d[1] as int % 16 * 16 + d[2] as int / 4) as byte;
      if |d| == 3 then [b0, b1] else [b0, b1, (d[2] as int % 4 * 64 + d[3] as int) as byte]
  }

  lemma FirstByte(b0: int, low: int)
    requires 0 <= low < 16
    ensures b0 / 4 * 4 + (b0 % 4 * 16 + low) / 16 == b0
  {
  }

  lemma SecondByte(b0: int, b1: int, low: int)
    requires 0 <= low < 4 && 0 <= b1 < 256
    ensures (b0 % 4 * 16 + b1 / 16) % 16 * 16 + (b1 % 16 * 4 + low) / 4 == b1
  {
  }

  lemma ThirdByte(b1: int, b2: int)
    requires 0 <= b2 < 256
    ensures (b1 % 16 * 4 + b2 / 64) % 4 * 64 + b2 % 64 == b2
  {
  }

  lemma UngroupGroup(b: seq<byte>)
    requires 1 <= |b| <= 3
    ensures Ungroup(Group(b)) == b
  {
    var b0 := b[0] as int;
    var b1 := if |b| > 1 then b[1] as int else 0;
    var b2 := if |b| > 2 then b[2] as int else 0;
    FirstByte(b0, b1 / 16);
    SecondByte(b0, b1, b2 / 64);
    ThirdByte(b1, b2);
  }

  /** `Buffer.toString("base64url")`. */
  function Encode(b: seq<byte>): Text {
    if b == [] then [] else if |b| <= 3 then Letters(Group(b)) else Letters(Group(b[..3])) + Encode(b[3..])
  }

  /** `Buffer.from(t, "base64url")` for a text of the alphabet. */
  function Decode(t: Text): seq<byte>
    requires InAlphabet(t)
  {
    if |t| < 2 then []
    else if |t| <= 4 then Ungroup(Sextets(t))
    else Ungroup(Sextets(t[..4])) + Decode(t[4..])
  }

  /** Decoding undoes encoding on every byte sequence. */
  lemma {:induction false} DecodeEncode(b: seq<byte>)
    ensures InAlphabet(Encode(b)) && Decode(Encode(b)) == b
  {
    if b == [] {
    } else if |b| <= 3 {
      UngroupGroup(b);
      SextetsLetters(Group(b));
    } else {
      UngroupGroup(b[..3]);
      SextetsLetters(Group(b[..3]));
      DecodeEncode(b[3..]);
      var t := Encode(b);
      assert t[..4] == Letters(Group(b[..3])) && t[4..] == Encode(b[3..]);
      assert b == b[..3] + b[3..];
    }
  }

  /** The examples of section 10 of RFC 4648: "", "f", "fo", "foo". */
  lemma {:induction false} FooEncoded(b: seq<byte>)
    requires b == [0x66, 0x6f, 0x6f]
    ensures Encode([]) == [] && Encode(b[..1]) == Ascii("Zg") && Encode(b[..2]) == Ascii("Zm8")
    ensures Encode(b) == Ascii("Zm9v")
  {
    assert Group(b[..1]) == [25, 32] && Group(b[..2]) == [25, 38, 60] && Group(b) == [25, 38, 61, 47];
  }

  lemma {:induction false} BarEncoded(b: seq<byte>)
    requires b == [0x62, 0x61, 0x72]
    ensures Encode(b[..1]) == Ascii("Yg") && Encode(b[..2]) == Ascii("YmE") && Encode(b) == Ascii("YmFy")
  {
    assert Group(b[..1]) == [24, 32] && Group(b[..2]) == [24, 38, 4] && Group(b) == [24, 38, 5, 50];
  }

  /** Full groups come first, in order; so "foob", "fooba" and "foobar" are "Zm9v" and the text of the rest. */
  lemma {:induction false} EncodeAppend(a: seq<byte>, b: seq<byte>, groups: nat)
    requires |a| == 3 * groups
    ensures Encode(a + b) == Encode(a) + Encode(b)
    decreases groups
  {
    if groups == 0 {
      assert a + b == b && Encode(a) == [];
    } else {
      var first, rest := FirstGroup(a, b);
      EncodeAppend(rest, b, groups - 1);
      Regroup(first, Encode(rest), Encode(b));
    }
  }

  lemma {:induction false} FirstGroup(a: seq<byte>, b: seq<byte>) returns (first: Text, rest: seq<byte>)
    requires |a| >= 3
    ensures |rest| == |a| - 3
    ensures Encode(a) == first + Encode(rest) && Encode(a + b) == first + Encode(rest + b)
  {
    first, rest := Letters(Group(a[..3])), a[3..];
    CutThree(a, b);
    EncodeFirst(a);
    EncodeFirst(a + b);
  }

  lemma CutThree(a: seq<byte>, b: seq<byte>)
    requires |a| >= 3
    ensures (a + b)[..3] == a[..3] && (a + b)[3..] == a[3..] + b
  {
  }

  lemma {:induction false} EncodeFirst(b: seq<byte>)
    requires |b| >= 3
    ensures Encode(b) == Letters(Group(b[..3])) + Encode(b[3..])
  {
    if |b| == 3 { assert b[..3] == b && b[3..] == []; }
  }

  /** The text is as short as it can be, and has no separator of a token in it. */
  lemma {:induction false} EncodeShape(b: seq<byte>)
    ensures |Encode(b)| == (4 * |b| + 2) / 3
    ensures DOT !in Encode(b)
  {
    DecodeEncode(b);
    if |b| <= 3 {
    } else {
      EncodeShape(b[3..]);
    }
  }

  lemma {:induction false} EncodeInjective(a: seq<byte>, b: seq<byte>)
    requires Encode(a) == Encode(b)
    ensures a == b
  {
    DecodeEncode(a);
    DecodeEncode(b);
  }
}
