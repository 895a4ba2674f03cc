/** Ints of 32 bits as sequences of bits, the most significant first, and their exclusive or.
    Shifting is arithmetic, as it is for a signed int. */
module Bits32 {

  type Bits = seq<bool>

  function Pow2(n: nat): (r: nat)
    ensures r >= 1
  {
    if n == 0 then 1 else 2 * Pow2(n - 1)
  }

  predicate IsInt(x: int)
  {
    -0x8000_0000 <= x <= 0x7FFF_FFFF
  }

  /** The shift to the right, one place at a time; that of a negative number rounds down. */
  function Shifted(x: int, i: nat): int
  {
    if i == 0 then x else Shifted(x, i - 1) / 2
  }

  function Bit(x: int, i: nat): bool
  {
    Shifted(x, i) % 2 == 1
  }

  /** The 32 bits, from bit 31 down to bit 0. */
  function BitsOf(x: int): (r: Bits)
    ensures |r| == 32 && forall j :: 0 <= j < 32 ==> r[j] == Bit(x, 31 - j)
  {
    seq(32, j requires 0 <= j < 32 => Bit(x, 31 - j))
  }

  /** The number that bits stand for, without a sign. */
  function Value(s: Bits): nat
  {
    if s == [] then 0 else 2 * Value(s[..|s| - 1]) + if s[|s| - 1] then 1 else 0
  }

  /** 32 bits read as an int. */
  function Signed(u: nat): int
  {
    if u >= 0x8000_0000 then u - 0x1_0000_0000 else u
  }

  function XorBits(s: Bits, t: Bits): (r: Bits)
    requires |s| == |t|
    ensures |r| == |s| && forall j :: 0 <= j < |s| ==> r[j] == (s[j] != t[j])
  {
    seq(|s|, j requires 0 <= j < |s| => s[j] != t[j])
  }

  function UnsignedXor(a: int, b: int): nat
  {
    Value(XorBits(BitsOf(a), BitsOf(b)))
  }

  function Xor(a: int, b: int): int
  {
    Signed(UnsignedXor(a, b))
  }

  lemma {:induction false} ValueBound(s: Bits)
    ensures Value(s) < Pow2(|s|)
    decreases |s|
  {
    if s != [] {
      ValueBound(s[..|s| - 1]);
    }
  }

  lemma {:induction false} ValueInjective(s: Bits, t: Bits)
    requires |s| == |t| && Value(s) == Value(t)
    ensures s == t
    decreases |s|
  {
    if s != [] {
      var n := |s| - 1;
      ValueInjective(s[..n], t[..n]);
      assert s == s[..n] + [s[n]] && t == t[..n] + [t[n]];
    }
  }

  lemma {:induction false} LeadingBit(s: Bits)
    requires s != []
    ensures Value(s) == (if s[0] then Pow2(|s| - 1) else 0) + Value(s[1..])
    ensures s[0] <==> Value(s) >= Pow2(|s| - 1)
    decreases |s|
  {
    ValueBound(s[1..]);
    if |s| > 1 {
      var front := s[..|s| - 1];
      LeadingBit(front);
      assert front[1..] == s[1..][..|s| - 2];
    } else {
      assert s[..0] == [] && s[1..] == [];
    }
  }

  lemma Pow31()
    ensures Pow2(31) == 0x8000_0000 && Pow2(32) == 0x1_0000_0000
  {
    assert Pow2(8) == 256;
    assert Pow2(16) == 0x1_0000;
    assert Pow2(24) == 0x100_0000;
  }

  lemma {:induction false} ShiftBound(x: int, i: nat)
    requires IsInt(x) && i <= 31
    ensures 0 <= Shifted(x, i) + Pow2(31 - i) && Shifted(x, i) < Pow2(31 - i)
    ensures Shifted(x, i) < 0 <==> x < 0
  {
    if i == 0 {
      Pow31();
    } else {
      ShiftBound(x, i - 1);
    }
  }

  /** The leading bit is the sign. */
  lemma SignBit(x: int)
    requires IsInt(x)
    ensures BitsOf(x)[0] <==> x < 0
    ensures Shifted(x, 31) == if x < 0 then -1 else 0
  {
    ShiftBound(x, 31);
  }

  lemma {:induction false} SameShift(a: int, b: int, i: nat)
    requires IsInt(a) && IsInt(b) && BitsOf(a) == BitsOf(b) && i <= 31
    ensures Shifted(a, i) == Shifted(b, i)
    decreases 31 - i
  {
    if i == 31 {
      SignBit(a);
      SignBit(b);
    } else {
      SameShift(a, b, i + 1);
      assert BitsOf(a)[31 - i] == BitsOf(b)[31 - i];
    }
  }

  /** Two ints with the same bits are the same. */
  lemma BitsInjective(a: int, b: int)
    requires IsInt(a) && IsInt(b) && BitsOf(a) == BitsOf(b)
    ensures a == b
  {
    SameShift(a, b, 0);
  }

  /** XOR is negative exactly for opposite signs and zero exactly for equal numbers. */
  lemma XorSign(a: int, b: int)
    requires IsInt(a) && IsInt(b)
    ensures UnsignedXor(a, b) >= 0x8000_0000 <==> (a < 0) != (b < 0)
    ensures Xor(a, b) < 0 <==> (a < 0) != (b < 0)
    ensures Xor(a, b) == 0 <==> a == b
  {
    var s := XorBits(BitsOf(a), BitsOf(b));
    Pow31();
    ValueBound(s);
    LeadingBit(s);
    SignBit(a);
    SignBit(b);
    XorZero(a, b);
  }

  lemma XorZero(a: int, b: int)
    requires IsInt(a) && IsInt(b)
    ensures UnsignedXor(a, b) == 0 <==> a == b
  {
    var s, none := XorBits(BitsOf(a), BitsOf(b)), seq(32, _ => false);
    ZeroValue(32);
    if UnsignedXor(a, b) == 0 {
      ValueInjective(s, none);
      assert forall j :: 0 <= j < 32 ==> s[j] == none[j];
      assert BitsOf(a) == BitsOf(b);
      BitsInjective(a, b);
    } else {
      assert a == b ==> s == none;
    }
  }

  lemma {:induction false} ZeroValue(n: nat)
    ensures Value(seq(n, _ => false)) == 0
  {
    if n > 0 {
      ZeroValue(n - 1);
      assert seq(n, _ => false)[..n - 1] == seq(n - 1, _ => false);
    }
  }

  /** The bits of the XOR are where the bits differ, so Xor is the operator of the
      language: the only int with those bits. */
  lemma XorIsBitwise(a: int, b: int, j: nat)
    requires IsInt(a) && IsInt(b) && j < 32
    ensures IsInt(Xor(a, b)) && Bit(Xor(a, b), j) == (Bit(a, j) != Bit(b, j))
  {
    var s := XorBits(BitsOf(a), BitsOf(b));
    SignedBits(s);
    assert BitsOf(Xor(a, b))[31 - j] == s[31 - j];
  }

  /** Every 32 bits are the bits of an int. */
  lemma SignedBits(s: Bits)
    requires |s| == 32
    ensures IsInt(Signed(Value(s))) && BitsOf(Signed(Value(s))) == s
  {
    ValueBound(s);
    Pow31();
    forall j | 0 <= j < 32 ensures BitsOf(Signed(Value(s)))[j] == s[j] {
      SignedBit(s, j);
    }
  }

  lemma SignedBit(s: Bits, j: nat)
    requires |s| == 32 && j < 32
    ensures Bit(Signed(Value(s)), 31 - j) == s[j]
  {
    SignedShift(s, 31 - j);
    assert s[..j + 1][..j] == s[..j];
    LastBit(Value(s[..j]) - (if s[0] then Pow2(j) else 0), s[j]);
  }

  lemma LastBit(v: int, last: bool)
    ensures (2 * v + if last then 1 else 0) % 2 == if last then 1 else 0
  {
  }

  lemma {:induction false} SignedShift(s: Bits, i: nat)
    requires |s| == 32 && i < 32
    ensures Shifted(Signed(Value(s)), i) == Value(s[..32 - i]) - if s[0] then Pow2(32 - i) else 0
  {
    if i == 0 {
      Pow31();
      LeadingBit(s);
      assert s[..32] == s;
    } else {
      SignedShift(s, i - 1);
      assert s[..33 - i][..32 - i] == s[..32 - i];
    }
  }
}
