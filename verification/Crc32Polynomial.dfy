// What the CRC is: the remainder of polynomial division over two elements, by
// the generator x^32 + x^26 + x^23 + x^22 + x^16 + x^12 + x^11 + x^10 + x^8 +
// x^7 + x^5 + x^4 + x^2 + x + 1, with the register inverted at both ends.
module Crc32Polynomial {
  import opened Common
  import opened Bytes
  import opened Crc32

  // ----- polynomials of degree below 32, by their coefficients -----

  type Poly = p: seq<bool> | |p| == 32 witness seq(32, _ => false)

  // The exponents of the generator below 32.
  predicate InGenerator(e: nat) {
    e in {0, 1, 2, 4, 5, 7, 8, 10, 11, 12, 16, 22, 23, 26}
  }

  // x times p, modulo the generator: what reaches x^32 is replaced by the rest of it.
  function TimesX(p: Poly): Poly {
    seq(32, e requires 0 <= e < 32 => (e > 0 && p[e - 1]) != (p[31] && InGenerator(e)))
  }

  // The remainder of (x times a message + one more bit) times x^32, from that of
  // the message times x^32.
  function PushBit(p: Poly, bit: bool): Poly {
    TimesX(p[31 := p[31] != bit])
  }

  // The n low bits of b, lowest first.
  function PushBits(p: Poly, b: nat, n: nat): Poly
    decreases n, b
  {
    if n == 0 then p else PushBits(PushBit(p, b % 2 == 1), b / 2, n - 1)
  }

  function PushBytes(p: Poly, data: Bytes): Poly {
    if data == [] then p else PushBits(PushBytes(p, data[..|data| - 1]), data[|data| - 1], 8)
  }

  // ----- bits of numbers -----

  function Bit(c: nat, i: nat): bool
    decreases i, c
  {
    if i == 0 then c % 2 == 1 else Bit(c / 2, i - 1)
  }

  // The register holds the coefficient of x^e in bit 31 - e.
  function Coefficients(c: Word): Poly {
    seq(32, e requires 0 <= e < 32 => Bit(c, 31 - e))
  }

  lemma {:induction false} BitOfXor(a: nat, b: nat, n: nat, i: nat)
    requires i < n
    ensures Bit(XorBits(a, b, n), i) == (Bit(a, i) != Bit(b, i))
    decreases n
  {
    var rest := XorBits(a / 2, b / 2, n - 1);
    assert XorBits(a, b, n) / 2 == rest;
    if i > 0 {
      BitOfXor(a / 2, b / 2, n - 1, i - 1);
    }
  }

  lemma {:induction false} HighBits(c: nat, n: nat, i: nat)
    requires c < Pow2(n) && i >= n
    ensures !Bit(c, i)
    decreases n, i
  {
    if n > 0 {
      HighBits(c / 2, n - 1, i - 1);
    } else if i > 0 {
      HighBits(c / 2, 0, i - 1);
    }
  }

  lemma {:induction false} SameBits(c: nat, d: nat, n: nat)
    requires c < Pow2(n) && d < Pow2(n) && forall i | 0 <= i < n :: Bit(c, i) == Bit(d, i)
    ensures c == d
    decreases n
  {
    if n > 0 {
      forall i | 0 <= i < n - 1 ensures Bit(c / 2, i) == Bit(d / 2, i) {
        assert Bit(c, i + 1) == Bit(d, i + 1);
      }
      SameBits(c / 2, d / 2, n - 1);
      assert Bit(c, 0) == Bit(d, 0);
    }
  }

  lemma {:induction false} BitOfComplement(c: nat, n: nat, i: nat)
    requires c < Pow2(n) && i < n
    ensures Bit(Pow2(n) - 1 - c, i) == !Bit(c, i)
    decreases n
  {
    assert (Pow2(n) - 1 - c) / 2 == Pow2(n - 1) - 1 - c / 2;
    if i > 0 {
      BitOfComplement(c / 2, n - 1, i - 1);
    }
  }

  // ----- the register -----

  lemma DropTwo(c: nat, i: nat)
    ensures Bit(c, i + 2) == Bit(c / 4, i)
  {
    assert Bit(c, i + 2) == Bit(c / 2, i + 1) == Bit(c / 2 / 2, i);
    assert c / 2 / 2 == c / 4;
  }

  lemma DropByte(c: nat, i: nat)
    ensures Bit(c, i + 8) == Bit(c / 256, i)
  {
    DropTwo(c, i + 6);
    DropTwo(c / 4, i + 4);
    DropTwo(c / 4 / 4, i + 2);
    DropTwo(c / 4 / 4 / 4, i);
    assert c / 4 / 4 / 4 / 4 == c / 256;
  }

  lemma Constant0()
    ensures !Bit(0xEDB8_8320, 0) && !Bit(0xEDB8_8320, 1) && !Bit(0xEDB8_8320, 2) && !Bit(0xEDB8_8320, 3)
    ensures !Bit(0xEDB8_8320, 4) && Bit(0xEDB8_8320, 5) && !Bit(0xEDB8_8320, 6) && !Bit(0xEDB8_8320, 7)
  {
  }

  lemma Constant1()
    ensures Bit(0xED_B883, 0) && Bit(0xED_B883, 1) && !Bit(0xED_B883, 2) && !Bit(0xED_B883, 3)
    ensures !Bit(0xED_B883, 4) && !Bit(0xED_B883, 5) && !Bit(0xED_B883, 6) && Bit(0xED_B883, 7)
  {
  }

  lemma Constant2()
    ensures !Bit(0xEDB8, 0) && !Bit(0xEDB8, 1) && !Bit(0xEDB8, 2) && Bit(0xEDB8, 3)
    ensures Bit(0xEDB8, 4) && Bit(0xEDB8, 5) && !Bit(0xEDB8, 6) && Bit(0xEDB8, 7)
  {
  }

  lemma Constant3()
    ensures Bit(0xED, 0) && !Bit(0xED, 1) && Bit(0xED, 2) && Bit(0xED, 3)
    ensures !Bit(0xED, 4) && Bit(0xED, 5) && Bit(0xED, 6) && Bit(0xED, 7)
  {
  }

  // The constant of the code holds the generator.
  lemma ConstantIsGenerator(e: nat)
    requires e < 32
    ensures Bit(0xEDB8_8320, 31 - e) <==> InGenerator(e)
  {
    var i := 31 - e;
    if i < 8 {
      Constant0();
    } else {
      DropByte(0xEDB8_8320, i - 8);
      if i < 16 {
        Constant1();
      } else {
        DropByte(0xED_B883, i - 16);
        if i < 24 {
          Constant2();
        } else {
          DropByte(0xEDB8, i - 24);
          Constant3();
        }
      }
    }
  }

  lemma BitOfWordXor(a: Word, b: Word, i: nat)
    requires i < 32
    ensures Bit(Xor(a, b), i) == (Bit(a, i) != Bit(b, i))
  {
    BitOfXor(a, b, 32, i);
  }

  lemma BitOfShift(c: Word, i: nat)
    requires i < 32
    ensures Bit(Shift(c), i) == (Bit(c, i + 1) != (Bit(c, 0) && InGenerator(31 - i)))
  {
    ConstantIsGenerator(31 - i);
    if c % 2 == 1 {
      BitOfWordXor(c / 2, 0xEDB8_8320, i);
    }
  }

  // One shift of the register multiplies by x.
  lemma ShiftIsTimesX(c: Word)
    ensures Coefficients(Shift(c)) == TimesX(Coefficients(c))
  {
    WordRange();
    HighBits(c, 32, 32);
    forall e | 0 <= e < 32 ensures Coefficients(Shift(c))[e] == TimesX(Coefficients(c))[e] {
      BitOfShift(c, 31 - e);
    }
  }

  lemma SameWord(c: Word, d: Word)
    requires forall i | 0 <= i < 32 :: Bit(c, i) == Bit(d, i)
    ensures c == d
  {
    WordRange();
    SameBits(c, d, 32);
  }

  lemma BitOfParity(b: nat, i: nat)
    ensures Bit(b % 2, i) == (i == 0 && b % 2 == 1)
  {
    if i > 0 {
      HighBits(b % 2, 1, i);
    }
  }

  // The low bit of a byte can go in alone, before a shift, and the rest after it.
  lemma BitFirst(c: Word, b: Word)
    ensures Shift(Xor(c, b)) == Xor(Shift(Xor(c, b % 2)), b / 2)
  {
    var low := Xor(c, b % 2);
    WordRange();
    forall i | 0 <= i < 32 ensures Bit(Shift(Xor(c, b)), i) == Bit(Xor(Shift(low), b / 2), i) {
      BitOfShift(Xor(c, b), i);
      BitOfShift(low, i);
      BitOfWordXor(Shift(low), b / 2, i);
      BitOfWordXor(c, b, 0);
      BitOfWordXor(c, b % 2, 0);
      BitOfParity(b, 0);
      if i < 31 {
        BitOfWordXor(c, b, i + 1);
        BitOfWordXor(c, b % 2, i + 1);
        BitOfParity(b, i + 1);
      } else {
        HighBits(Xor(c, b), 32, 32);
        HighBits(low, 32, 32);
        HighBits(b, 32, 32);
      }
    }
    SameWord(Shift(Xor(c, b)), Xor(Shift(low), b / 2));
  }

  lemma {:induction false} ShiftFirst(c: Word, n: nat)
    ensures Shifts(Shift(c), n) == Shifts(c, n + 1)
  {
    if n > 0 {
      ShiftFirst(c, n - 1);
    }
  }

  lemma XorNothing(c: Word)
    ensures Xor(c, 0) == c
  {
    forall i | 0 <= i < 32 ensures Bit(Xor(c, 0), i) == Bit(c, i) {
      BitOfWordXor(c, 0, i);
      BitOfParity(0, i);
    }
    SameWord(Xor(c, 0), c);
  }

  lemma PushedBit(c: Word, b: Word)
    ensures Coefficients(Shift(Xor(c, b % 2))) == PushBit(Coefficients(c), b % 2 == 1)
  {
    var low := Xor(c, b % 2);
    forall e | 0 <= e < 32
      ensures Coefficients(low)[e] == Coefficients(c)[31 := Coefficients(c)[31] != (b % 2 == 1)][e]
    {
      BitOfWordXor(c, b % 2, 31 - e);
      BitOfParity(b, 31 - e);
    }
    assert Coefficients(low) == Coefficients(c)[31 := Coefficients(c)[31] != (b % 2 == 1)];
    ShiftIsTimesX(low);
  }

  lemma PushedNext(c: Word, b: Word, n: nat)
    ensures Shifts(Xor(c, b), n + 1) == Shifts(Xor(Shift(Xor(c, b % 2)), b / 2), n)
  {
    BitFirst(c, b);
    ShiftFirst(Xor(c, b), n);
  }

  lemma {:induction false} PushedBits(c: Word, b: Word, n: nat)
    requires b < Pow2(n)
    ensures Coefficients(Shifts(Xor(c, b), n)) == PushBits(Coefficients(c), b, n)
    decreases n
  {
    if n == 0 {
      XorNothing(c);
    } else {
      var next := Shift(Xor(c, b % 2));
      calc {
        Coefficients(Shifts(Xor(c, b), n));
        { PushedNext(c, b, n - 1); }
        Coefficients(Shifts(Xor(next, b / 2), n - 1));
        { PushedBits(next, b / 2, n - 1); }
        PushBits(Coefficients(next), b / 2, n - 1);
        { PushedBit(c, b); }
        PushBits(PushBit(Coefficients(c), b % 2 == 1), b / 2, n - 1);
      }
    }
  }

  lemma {:induction false} RegisterIsRemainder(c: Word, data: Bytes)
    ensures Coefficients(Register(c, data)) == PushBytes(Coefficients(c), data)
  {
    if data != [] {
      RegisterIsRemainder(c, data[..|data| - 1]);
      assert Pow2(8) == 256;
      PushedBits(Register(c, data[..|data| - 1]), data[|data| - 1], 8);
    }
  }

  function Ones(): Poly {
    seq(32, _ => true)
  }

  function Inverted(p: Poly): Poly {
    seq(32, e requires 0 <= e < 32 => !p[e])
  }

  lemma ComplementInverts(c: Word)
    ensures Coefficients(Complement(c)) == Inverted(Coefficients(c))
  {
    WordRange();
    forall e | 0 <= e < 32 ensures Coefficients(Complement(c))[e] == !Coefficients(c)[e] {
      BitOfComplement(c, 32, 31 - e);
    }
  }

  // The CRC of any bytes is the inverted remainder of all of them, lowest bits
  // first, started from all ones.
  lemma CrcIsRemainder(data: Bytes)
    ensures Coefficients(Crc(data, 0)) == Inverted(PushBytes(Ones(), data))
  {
    ComplementInverts(Register(Complement(0), data));
    RegisterIsRemainder(Complement(0), data);
    ComplementInverts(0);
    forall e | 0 <= e < 32 ensures Coefficients(Complement(0))[e] {
      BitOfParity(0, 31 - e);
    }
    assert Coefficients(Complement(0)) == Ones();
  }
}
