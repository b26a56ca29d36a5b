/** Bytes, the big-endian fields of Node's Buffer, and the exclusive or of two bytes. */
module Bytes {

  newtype byte = x: int | 0 <= x < 0x100

  /** The bytes of an ASCII string literal. */
  function AsciiBytes(s: string): (b: seq<byte>)
    requires forall i :: 0 <= i < |s| ==> s[i] as int < 0x80
    ensures |b| == |s|
    ensures forall i :: 0 <= i < |s| ==> b[i] as int == s[i] as int
  {
    seq(|s|, i requires 0 <= i < |s| => s[i] as int as byte)
  }

  /** readUInt16BE and writeUInt16BE. */
  function UInt16(b: seq<byte>): (n: nat)
    requires |b| == 2
    ensures n < 0x1_0000
  {
    b[0] as int * 0x100 + b[1] as int
  }

  function UInt16Bytes(n: nat): (b: seq<byte>)
    requires n < 0x1_0000
    ensures |b| == 2 && UInt16(b) == n
  {
    [(n / 0x100) as byte, (n % 0x100) as byte]
  }

  lemma UInt16Injective(a: seq<byte>, b: seq<byte>)
    requires |a| == |b| == 2 && UInt16(a) == UInt16(b)
    ensures a == b
  {
  }

  /** readUInt32BE and writeUInt32BE: the high half, then the low half. */
  function UInt32(b: seq<byte>): (n: nat)
    requires |b| == 4
    ensures n < 0x1_0000_0000
  {
    UInt16(b[..2]) * 0x1_0000 + UInt16(b[2..])
  }

  /** Most significant byte first. */
  lemma {:induction false} BigEndian(b: seq<byte>)
    ensures |b| == 2 ==> UInt16(b) == b[0] as int * 256 + b[1] as int
    ensures |b| == 4 ==>
              UInt32(b) == b[0] as int * 16777216 + b[1] as int * 65536 + b[2] as int * 256 + b[3] as int
  {
  }

  function UInt32Bytes(n: nat): (b: seq<byte>)
    requires n < 0x1_0000_0000
    ensures |b| == 4 && UInt32(b) == n
  {
    var high, low := UInt16Bytes(n / 0x1_0000), UInt16Bytes(n % 0x1_0000);
    assert (high + low)[..2] == high && (high + low)[2..] == low;
    high + low
  }

  /** Four bytes are determined by the number they write. */
  lemma {:induction false} UInt32Injective(a: seq<byte>, b: seq<byte>)
    requires |a| == |b| == 4 && UInt32(a) == UInt32(b)
    ensures a == b
  {
    UInt16Injective(a[..2], b[..2]);
    UInt16Injective(a[2..], b[2..]);
    assert a == a[..2] + a[2..];
    assert b == b[..2] + b[2..];
  }

  /** Exclusive or, bit by bit from the lowest. */
  function XorNat(a: nat, b: nat): nat
    decreases a + b
  {
    if a == 0 && b == 0 then 0 else 2 * XorNat(a / 2, b / 2) + (a + b) % 2
  }

  lemma {:induction false} XorNatBound(a: nat, b: nat, m: nat)
    requires a < m && b < m && m in {0x100, 0x80, 0x40, 0x20, 0x10, 8, 4, 2, 1}
    ensures XorNat(a, b) < m
  {
    if m == 1 {
    } else {
      XorNatBound(a / 2, b / 2, m / 2);
    }
  }

  lemma {:induction false} XorStep(a: nat, b: nat)
    ensures XorNat(a, b) == 2 * XorNat(a / 2, b / 2) + (a + b) % 2
  {
  }

  lemma {:induction false} XorNatTwice(a: nat, k: nat)
    ensures XorNat(XorNat(a, k), k) == a
    decreases a + k
  {
    if a == 0 && k == 0 {
    } else {
      var y, p := XorNat(a / 2, k / 2), (a + k) % 2;
      XorNatTwice(a / 2, k / 2);
      XorStep(a, k);
      XorStep(2 * y + p, k);
      LowBit(y, p);
      Parity(y, a, k);
    }
  }

  lemma LowBit(y: nat, p: nat)
    requires p < 2
    ensures (2 * y + p) / 2 == y && (2 * y + p) % 2 == p
  {
  }

  lemma Parity(y: nat, a: nat, k: nat)
    ensures (2 * y + (a + k) % 2 + k) % 2 == a % 2
  {
  }

  function Xor(a: byte, b: byte): byte {
    XorNatBound(a as int, b as int, 0x100);
    XorNat(a as int, b as int) as byte
  }

  /** Binary digit k, counted from the lowest. */
  ghost function Bit(x: nat, k: nat): nat { if k == 0 then x % 2 else Bit(x / 2, k - 1) }

  /** A number is determined by its binary digits. */
  lemma {:induction false} BitsDetermine(x: nat, y: nat)
    requires forall k: nat :: Bit(x, k) == Bit(y, k)
    ensures x == y
    decreases x + y
  {
    if x == 0 && y == 0 {
    } else {
      assert Bit(x, 0) == Bit(y, 0);
      forall k: nat ensures Bit(x / 2, k) == Bit(y / 2, k) {
        assert Bit(x, k + 1) == Bit(y, k + 1);
      }
      BitsDetermine(x / 2, y / 2);
    }
  }

  lemma SumParity(a: nat, b: nat)
    ensures (a % 2 + b % 2) % 2 == (a + b) % 2
  {
  }

  lemma {:induction false} XorNatBits(a: nat, b: nat, k: nat)
    ensures Bit(XorNat(a, b), k) == (Bit(a, k) + Bit(b, k)) % 2
    decreases k
  {
    LowBit(XorNat(a / 2, b / 2), (a + b) % 2);
    if k == 0 {
      SumParity(a, b);
    } else {
      XorNatBits(a / 2, b / 2, k - 1);
    }
  }

  /** Each binary digit of the result is the sum of the two digits without carry. */
  lemma {:induction false} XorBits(a: byte, b: byte, k: nat)
    ensures Bit(Xor(a, b) as int, k) == (Bit(a as int, k) + Bit(b as int, k)) % 2
  {
    XorNatBits(a as int, b as int, k);
  }

  /** One more binary digit on each of two numbers. */
  lemma {:induction false} XorDigit(a: nat, b: nat, r: nat)
    requires XorNat(a / 2, b / 2) == r / 2 && (r % 2 == 0 <==> a % 2 == b % 2)
    ensures XorNat(a, b) == r
  {
    SumParity(a, b);
  }

  /** Masking twice with the same byte changes nothing. */
  lemma XorTwice(a: byte, k: byte)
    ensures Xor(Xor(a, k), k) == a
  {
    XorNatTwice(a as int, k as int);
  }
}
