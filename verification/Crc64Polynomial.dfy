/** What the 64-bit CRC is: the remainder of the data modulo a polynomial, and what its table holds. */
module Crc64Polynomial {
  import opened Remainders
  import opened Crc64

  /** X^64 + X^4 + X^3 + X + 1 */
  const ISO64: Poly := {64, 4, 3, 1, 0}

  predicate BitAt(x: bv64, k: nat)
    decreases k
  {
    if k == 0 then Low(x) else BitAt(Half(x), k - 1)
  }

  predicate Has(x: bv64, e: nat)
    requires e < 64
  {
    BitAt(x, 63 - e)
  }

  /** The lowest bit of a register stands for the highest exponent. */
  function Exponents(x: bv64): Poly {
    set e: nat | e < 64 && Has(x, e)
  }

  /** The bits of a byte, the lowest first. */
  function ByteBits(b: bv8): (bits: seq<bool>)
    ensures |bits| == 8
  {
    seq(8, i requires 0 <= i < 8 => BitAt(Wide(b), i))
  }

  function DataBits(data: seq<bv8>): seq<bool>
    decreases |data|
  {
    if data == [] then [] else ByteBits(data[0]) + DataBits(data[1..])
  }

  // ---------- Bits of a register ----------

  lemma {:induction false} BitOfXor(x: bv64, y: bv64, k: nat)
    ensures BitAt(Xor(x, y), k) == (BitAt(x, k) != BitAt(y, k))
    decreases k
  {
    hide Xor, Half, Low;
    if k == 0 {
      LowXor(x, y);
    } else {
      HalfXor(x, y);
      BitOfXor(Half(x), Half(y), k - 1);
    }
  }

  lemma {:induction false} BitOfHalves(x: bv64, m: nat, k: nat)
    ensures BitAt(x, m + k) == BitAt(HalfN(x, m), k)
    decreases m
  {
    hide Half, Low;
    if m > 0 {
      BitOfHalves(Half(x), m - 1, k);
    }
  }

  lemma {:induction false} HalfAdd(y: bv64, m: nat, n: nat)
    ensures HalfN(y, m + n) == HalfN(HalfN(y, m), n)
    decreases m
  {
    hide Half;
    if m > 0 {
      HalfAdd(Half(y), m - 1, n);
    }
  }

  lemma {:induction false} NoBits0(k: nat)
    ensures !BitAt(0, k)
    decreases k
  {
    hide Half, Low;
    Zero();
    if k > 0 {
      NoBits0(k - 1);
    }
  }

  function Shr32(x: bv64): bv64 { x >> 32 }

  lemma Half16(y: bv64)
    ensures HalfN(y, 16) == Shr8(Shr8(y))
  {
    hide HalfN, Shr4;
    HalfAdd(y, 8, 8);
    HalfEight(y);
    HalfEight(Shr4(Shr4(y)));
    Shr4Twice(y);
    Shr4Twice(Shr8(y));
  }

  lemma Shr4Twice(y: bv64)
    ensures Shr4(Shr4(y)) == Shr8(y)
  {
  }

  lemma Half32(y: bv64)
    ensures HalfN(y, 32) == Shr32(y)
  {
    hide HalfN, Shr8;
    HalfAdd(y, 16, 16);
    Half16(y);
    Half16(Shr8(Shr8(y)));
    Shr8Four(y);
  }

  lemma Shr8Four(y: bv64)
    ensures Shr8(Shr8(Shr8(Shr8(y)))) == Shr32(y)
  {
  }

  /** There are 64 bits. */
  lemma NoBit64(x: bv64)
    ensures !BitAt(x, 64)
  {
    hide Half, HalfN, Shr32;
    BitOfHalves(x, 64, 0);
    HalfAdd(x, 32, 32);
    Half32(x);
    Half32(Shr32(x));
    AllGone(x);
  }

  lemma AllGone(x: bv64)
    ensures Shr32(Shr32(x)) == 0 && !Low(0)
  {
  }

  /** The bits of a byte as a set. */
  ghost predicate Lowest8(x: bv64, bits: set<nat>) {
    forall k: nat :: k < 8 ==> (BitAt(x, k) <==> k in bits)
  }

  lemma TopByte()
    ensures Lowest8(0xd8, {3, 4, 6, 7})
  {
    assert !BitAt(0xd8, 0);
    assert !BitAt(0xd8, 1);
    assert !BitAt(0xd8, 2);
    assert BitAt(0xd8, 3);
    assert BitAt(0xd8, 4);
    assert !BitAt(0xd8, 5);
    assert BitAt(0xd8, 6);
    assert BitAt(0xd8, 7);
  }

  /** The constant of the program, shifted by bytes. */
  lemma PolyBytes()
    ensures HalfN(POLY, 0) == 0xd800000000000000
    ensures HalfN(POLY, 8) == 0xd8000000000000
    ensures HalfN(POLY, 16) == 0xd80000000000
    ensures HalfN(POLY, 24) == 0xd800000000
    ensures HalfN(POLY, 32) == 0xd8000000
    ensures HalfN(POLY, 40) == 0xd80000
    ensures HalfN(POLY, 48) == 0xd800
    ensures HalfN(POLY, 56) == 0xd8
  {
    assert HalfN(POLY, 0) == POLY;
    hide HalfN, Shr4;
    ByteShifted(0xd800000000000000, 0);
    ByteShifted(0xd8000000000000, 8);
    ByteShifted(0xd80000000000, 16);
    ByteShifted(0xd800000000, 24);
    ByteShifted(0xd8000000, 32);
    ByteShifted(0xd80000, 40);
    ByteShifted(0xd800, 48);
  }

  lemma ByteShifted(x: bv64, m: nat)
    requires HalfN(POLY, m) == x
    ensures HalfN(POLY, m + 8) == Shr8(x)
  {
    hide HalfN, Shr4;
    HalfAdd(POLY, m, 8);
    HalfEight(x);
    Shr4Twice(x);
  }

  lemma NothingLow(x: bv64)
    requires Clear(x, 0xff)
    ensures Lowest8(x, {})
  {
    hide Half, Low, Clear, Ones, NoneLow, BitAt;
    EightOnes();
    ClearNoneLow(x, 0xff, 8);
    forall k: nat | k < 8
      ensures !BitAt(x, k)
    {
      NoneLowBit(x, 8, k);
    }
  }

  lemma {:induction false} NoneLowBit(x: bv64, n: nat, k: nat)
    requires NoneLow(x, n) && k < n
    ensures !BitAt(x, k)
    decreases n
  {
    hide Half, Low;
    if k > 0 {
      NoneLowBit(Half(x), n - 1, k - 1);
    }
  }

  lemma LowPart(k: nat)
    requires k < 56
    ensures !BitAt(POLY, k)
  {
    hide BitAt, HalfN, Clear;
    var m := k / 8 * 8;
    BitOfHalves(POLY, m, k - m);
    ClearByte(m);
    NothingLow(HalfN(POLY, m));
  }

  lemma ClearByte(m: nat)
    requires m < 56 && m % 8 == 0
    ensures Clear(HalfN(POLY, m), 0xff)
  {
    hide HalfN, Clear;
    PolyBytes();
    ClearBelow();
  }

  /** The constant of the program is that polynomial. */
  lemma PolyIs(e: nat)
    requires e < 64
    ensures Has(POLY, e) <==> e in ISO64
  {
    hide BitAt, HalfN;
    var k := 63 - e;
    if k < 56 {
      LowPart(k);
    } else {
      BitOfHalves(POLY, 56, k - 56);
      PolyBytes();
      TopByte();
    }
  }

  lemma ClearBelow()
    ensures Clear(0xd800000000000000, 0xff)
    ensures Clear(0xd8000000000000, 0xff)
    ensures Clear(0xd80000000000, 0xff)
    ensures Clear(0xd800000000, 0xff)
    ensures Clear(0xd8000000, 0xff)
    ensures Clear(0xd80000, 0xff)
    ensures Clear(0xd800, 0xff)
  {
  }

  // ---------- One step ----------

  lemma ExponentsAre(x: bv64)
    ensures forall e: nat :: e in Exponents(x) <==> e < 64 && Has(x, e)
  {
  }

  lemma CarryBit(carry: bool, e: nat)
    requires e < 64
    ensures BitAt(Carry(carry), 63 - e) <==> carry && e in ISO64
  {
    hide BitAt;
    PolyIs(e);
    NoBits0(63 - e);
  }

  lemma HalfBit(r: bv64, e: nat)
    requires e < 64
    ensures BitAt(Half(r), 63 - e) <==> e > 0 && Has(r, e - 1)
  {
    hide Half, Low;
    NoBit64(r);
    assert BitAt(r, 64 - e) == BitAt(Half(r), 63 - e);
  }

  lemma TopBit(r: bv64)
    ensures Has(r, 63) <==> Low(r)
  {
  }

  lemma StepBit(r: bv64, e: nat)
    requires e < 64
    ensures Has(Step(r), e) <==> e in Next(Exponents(r), false, ISO64, 64)
  {
    hide Xor, Half, Low, Exponents, Next, Carry;
    BitOfXor(Half(r), Carry(Low(r)), 63 - e);
    CarryBit(Low(r), e);
    HalfBit(r, e);
    ExponentsAre(r);
    TopBit(r);
    InNext(Exponents(r), e);
  }

  lemma InNext(r: Poly, e: nat)
    requires e < 64 && forall i :: i in r ==> i < 64
    ensures e in Next(r, false, ISO64, 64) <==> ((e > 0 && e - 1 in r) != (63 in r && e in ISO64))
  {
    var t := Plus(Shifted(r, 1), {});
    assert forall i: nat :: i in Shifted(r, 1) <==> i > 0 && i - 1 in r;
    assert 64 in t <==> 63 in r;
  }

  /** Shifting a register one bit is a step of the division. */
  lemma StepDivides(r: bv64)
    ensures Exponents(Step(r)) == Next(Exponents(r), false, ISO64, 64)
  {
    hide Step, Exponents, Next, Has;
    forall e: nat | e < 64
      ensures Has(Step(r), e) <==> e in Next(Exponents(r), false, ISO64, 64)
    {
      StepBit(r, e);
    }
    ExponentsAre(r);
    ExponentsAre(Step(r));
    NextBounded(ISO64, 64, Exponents(r), false);
  }

  lemma {:induction false} StepsDivide(a: Poly, r: bv64, n: nat)
    requires IsRemainder(a, ISO64, 64, Exponents(r))
    ensures IsRemainder(Shifted(a, n), ISO64, 64, Exponents(Steps(r, n)))
    decreases n
  {
    hide Step, Exponents, IsRemainder, Next;
    if n == 0 {
      assert Shifted(a, 0) == a;
    } else {
      Divided(a, ISO64, 64, Exponents(r), false);
      PlusSelf(Shifted(a, 1));
      StepDivides(r);
      StepsDivide(Shifted(a, 1), Step(r), n - 1);
      ShiftedTwice(a, 1, n - 1);
    }
  }

  // ---------- One byte ----------

  lemma ExponentsXor(x: bv64, y: bv64)
    ensures Exponents(Xor(x, y)) == Plus(Exponents(x), Exponents(y))
  {
    hide Xor, BitAt;
    forall e: nat | e < 64
      ensures Has(Xor(x, y), e) <==> Has(x, e) != Has(y, e)
    {
      BitOfXor(x, y, 63 - e);
    }
    ExponentsAre(x);
    ExponentsAre(y);
    ExponentsAre(Xor(x, y));
  }

  lemma ByteGone(b: bv8)
    ensures Shr8(Wide(b)) == 0
  {
  }

  lemma NoHighBits(b: bv8, k: nat)
    requires k >= 8
    ensures !BitAt(Wide(b), k)
  {
    hide HalfN, Shr4, Shr8, Wide, Half, Low;
    BitOfHalves(Wide(b), 8, k - 8);
    HalfEight(Wide(b));
    Shr4Twice(Wide(b));
    ByteGone(b);
    NoBits0(k - 8);
  }

  /** The bits of a byte times x to the 64 are those of the byte in the register times x to the 8. */
  lemma ByteShiftedUp(b: bv8)
    ensures Shifted(OfBits(ByteBits(b)), 64) == Shifted(Exponents(Wide(b)), 8)
  {
    hide Wide, BitAt;
    var bits := ByteBits(b);
    forall e: nat
      ensures e in Shifted(OfBits(bits), 64) <==> e in Shifted(Exponents(Wide(b)), 8)
    {
      assert e in Shifted(OfBits(bits), 64) <==> e >= 64 && e - 64 in OfBits(bits);
      assert e in Shifted(Exponents(Wide(b)), 8) <==> e >= 8 && e - 8 in Exponents(Wide(b));
      if 64 <= e < 72 {
        assert Coefficient(bits, e - 64) == BitAt(Wide(b), 71 - e) == Has(Wide(b), e - 8);
      } else if 8 <= e < 64 {
        NoHighBits(b, 71 - e);
        assert !Has(Wide(b), e - 8);
      }
    }
  }

  lemma BitsJoined(a: seq<bool>, b: seq<bool>)
    ensures OfBits(a + b) == Plus(Shifted(OfBits(a), |b|), OfBits(b))
  {
    forall e: nat
      ensures e in OfBits(a + b) <==> e in Plus(Shifted(OfBits(a), |b|), OfBits(b))
    {
      assert e in Shifted(OfBits(a), |b|) <==> e >= |b| && e - |b| in OfBits(a);
      if e < |b| {
        assert Coefficient(a + b, e) == Coefficient(b, e);
      } else if e < |a + b| {
        assert Coefficient(a + b, e) == Coefficient(a, e - |b|);
      }
    }
  }

  /** A byte more to divide. */
  lemma DividendByte(start: Poly, bits: seq<bool>, b: bv8)
    ensures Dividend(start, bits + ByteBits(b), 64) ==
            Shifted(Plus(Dividend(start, bits, 64), Exponents(Wide(b))), 8)
  {
    hide Exponents, OfBits, Plus, Wide;
    var s, m, y := Shifted(start, |bits|), Shifted(OfBits(bits), 64), Exponents(Wide(b));
    BitsJoined(bits, ByteBits(b));
    ShiftedTwice(start, |bits|, 8);
    ShiftedTwice(OfBits(bits), 8, 64);
    ShiftedTwice(OfBits(bits), 64, 8);
    ShiftedPlus(Shifted(OfBits(bits), 8), OfBits(ByteBits(b)), 64);
    ByteShiftedUp(b);
    ShiftedPlus(Plus(s, m), y, 8);
    ShiftedPlus(s, m, 8);
    PlusAssoc(Shifted(s, 8), Shifted(m, 8), Shifted(y, 8));
  }

  // ---------- The remainder ----------

  lemma {:induction false} DataDivide(r: bv64, data: seq<bv8>, start: Poly, bits: seq<bool>)
    requires IsRemainder(Dividend(start, bits, 64), ISO64, 64, Exponents(r))
    ensures IsRemainder(Dividend(start, bits + DataBits(data), 64), ISO64, 64, Exponents(Crc(r, data)))
    decreases |data|
  {
    hide Exponents, Dividend, IsRemainder, Steps, ByteBits, Xor, Wide;
    if data == [] {
      CrcEmpty(r);
      assert bits + [] == bits;
    } else {
      var b := data[0];
      var x := Xor(r, Wide(b));
      ExponentsAre(Wide(b));
      RemainderPlus(Dividend(start, bits, 64), ISO64, 64, Exponents(r), Exponents(Wide(b)));
      ExponentsXor(r, Wide(b));
      StepsDivide(Plus(Dividend(start, bits, 64), Exponents(Wide(b))), x, 8);
      DividendByte(start, bits, b);
      assert data == [b] + data[1..];
      CrcNext(r, b, data[1..]);
      DataDivide(Steps(x, 8), data[1..], start, bits + ByteBits(b));
      assert bits + ByteBits(b) + DataBits(data[1..]) == bits + DataBits(data);
    }
  }

  /** The CRC is the remainder, modulo the polynomial, of the earlier one followed by the data, times x to the 64. */
  lemma CrcIsRemainder(crc: bv64, data: seq<bv8>)
    ensures IsRemainder(Dividend(Exponents(crc), DataBits(data), 64), ISO64, 64, Exponents(Crc(crc, data)))
  {
    hide Dividend, IsRemainder;
    ExponentsAre(crc);
    NoBits(Exponents(crc), 64);
    ItsOwnRemainder(Exponents(crc), ISO64, 64);
    DataDivide(crc, data, Exponents(crc), []);
    assert [] + DataBits(data) == DataBits(data);
  }

  // ---------- The table ----------

  function Shift(x: bv64): bv64 {
    if Low(x) then Xor(Half(x), 0xd800_0000_0000_0000) else Half(x)
  }

  function Turn(x: bv64): bv64 {
    Shift(Shift(Shift(Shift(Shift(Shift(Shift(Shift(x))))))))
  }

  lemma ShiftIsStep(x: bv64)
    ensures Shift(x) == Step(x)
  {
    assert Step(x) == Xor(Half(x), Carry(Low(x)));
    hide Step;
    ShiftIs(x, Low(x));
  }

  lemma ShiftIs(x: bv64, carry: bool)
    requires carry == Low(x)
    ensures Shift(x) == Xor(Half(x), Carry(carry))
  {
    hide Xor, Half, Low;
    Self(Half(x));
  }

  lemma TurnIsSteps(x: bv64, n: nat)
    requires n == 8
    ensures Turn(x) == Steps(x, n)
  {
    hide Step, Shift;
    var x1 := Step(x);
    var x2 := Step(x1);
    var x3 := Step(x2);
    var x4 := Step(x3);
    var x5 := Step(x4);
    var x6 := Step(x5);
    var x7 := Step(x6);
    ShiftIsStep(x);
    ShiftIsStep(x1);
    ShiftIsStep(x2);
    ShiftIsStep(x3);
    ShiftIsStep(x4);
    ShiftIsStep(x5);
    ShiftIsStep(x6);
    ShiftIsStep(x7);
    assert Steps(x, 8) == Steps(x2, 6) == Steps(x4, 4) == Steps(x6, 2) == Step(x7);
  }

  lemma TableTurn(b: bv8)
    ensures Table(b) == Top(Turn(b as bv64))
  {
    hide Steps, Turn, Top;
    TurnIsSteps(b as bv64, 8);
  }

  /** The entries for single bits are those of the program's table. */
  lemma TableUnits()
    ensures Table(1) == 0x01b0
    ensures Table(2) == 0x0360
    ensures Table(4) == 0x06c0
    ensures Table(8) == 0x0d80
    ensures Table(16) == 0x1b00
    ensures Table(32) == 0x3600
    ensures Table(64) == 0x6c00
    ensures Table(128) == 0xd800
  {
    hide Table, Steps;
    TableTurn(1);
    TableTurn(2);
    TableTurn(4);
    TableTurn(8);
    TableTurn(16);
    TableTurn(32);
    TableTurn(64);
    TableTurn(128);
  }

  /** The others are their sums. */
  lemma TableLinear(x: bv8, y: bv8)
    ensures Upper(Table(x ^ y)) == Xor(Upper(Table(x)), Upper(Table(y)))
  {
    hide Steps, Upper, Table, Xor;
    EntryFits(x);
    EntryFits(y);
    EntryFits(x ^ y);
    StepsLinear(x as bv64, y as bv64, 8);
    WideXor(x, y);
  }

  lemma WideXor(x: bv8, y: bv8)
    ensures (x ^ y) as bv64 == Xor(x as bv64, y as bv64)
  {
  }
}
