/** What the CRC-32C is: the remainder of the data modulo a polynomial, and some test vectors. */
module Crc32cPolynomial {
  import opened Remainders
  import opened Crc32cSpec

  /** The polynomial that RFC 3720 names. */
  const CRC32C: Poly := {32, 28, 27, 26, 25, 23, 22, 20, 19, 18, 14, 13, 11, 10, 9, 8, 6, 0}

  predicate BitAt(x: bv32, k: nat)
    decreases k
  {
    if k == 0 then Low(x) else BitAt(Half(x), k - 1)
  }

  /** The lowest bit of a register stands for the highest exponent. */
  function Exponents(x: bv32): Poly {
    set e: nat | e < 32 && Has(x, e)
  }

  predicate Has(x: bv32, e: nat)
    requires e < 32
  {
    BitAt(x, 31 - e)
  }

  /** The lowest n bits of a byte, the lowest first. */
  function ByteBits(y: bv32, n: nat): (bits: seq<bool>)
    ensures |bits| == n
    decreases n
  {
    if n == 0 then [] else [Low(y)] + ByteBits(Half(y), n - 1)
  }

  function DataBits(data: seq<bv8>): seq<bool>
    decreases |data|
  {
    if data == [] then [] else ByteBits(data[0] as bv32, 8) + DataBits(data[1..])
  }

  // ---------- Bits of a register ----------

  lemma {:induction false} BitOfXor(x: bv32, y: bv32, k: nat)
    ensures BitAt(Xor(x, y), k) == (BitAt(x, k) != BitAt(y, k))
    decreases k
  {
    hide Xor, Half, Low;
    if k == 0 {
      LowXor(x, y);
    } else {
      HalfXor(x, y);
      BitOfXor(Half(x), Half(y), k - 1);
    }
  }

  lemma {:induction false} BitOfHalves(x: bv32, m: nat, k: nat)
    ensures BitAt(x, m + k) == BitAt(HalfN(x, m), k)
    decreases m
  {
    hide Half, Low;
    if m > 0 {
      BitOfHalves(Half(x), m - 1, k);
    }
  }

  /** There are 32 bits. */
  lemma NoBit32(x: bv32)
    ensures !BitAt(x, 32)
  {
    hide Half, HalfN, Shr8;
    BitOfHalves(x, 32, 0);
    HalfAdd(x, 8, 24);
    HalfAdd(Shr8(x), 8, 16);
    HalfAdd(Shr8(Shr8(x)), 8, 8);
    HalfEight(x);
    HalfEight(Shr8(x));
    HalfEight(Shr8(Shr8(x)));
    HalfEight(Shr8(Shr8(Shr8(x))));
    AllGone(x);
  }

  lemma AllGone(x: bv32)
    ensures Shr8(Shr8(Shr8(Shr8(x)))) == 0 && !Low(0)
  {
  }

  lemma {:induction false} NoBits0(k: nat)
    ensures !BitAt(0, k)
    decreases k
  {
    hide Half, Low;
    Zero();
    if k > 0 {
      NoBits0(k - 1);
    }
  }

  lemma PolyBytes()
    ensures HalfN(POLY, 0) == POLY && HalfN(POLY, 8) == 0x82f63b && HalfN(POLY, 16) == 0x82f6 && HalfN(POLY, 24) == 0x82
  {
    assert HalfN(POLY, 0) == POLY;
    hide HalfN;
    HalfEight(POLY);
    HalfAdd(POLY, 8, 8);
    HalfEight(0x82f63b);
    HalfAdd(POLY, 16, 8);
    HalfEight(0x82f6);
  }

  /** The bits of a byte as a set. */
  ghost predicate Lowest8(x: bv32, bits: set<nat>) {
    forall k: nat :: k < 8 ==> (BitAt(x, k) <==> k in bits)
  }

  lemma Byte0()
    ensures Lowest8(0x82f63b78, {3, 4, 5, 6})
  {
    assert !BitAt(0x82f63b78, 0);
    assert !BitAt(0x82f63b78, 1);
    assert !BitAt(0x82f63b78, 2);
    assert BitAt(0x82f63b78, 3);
    assert BitAt(0x82f63b78, 4);
    assert BitAt(0x82f63b78, 5);
    assert BitAt(0x82f63b78, 6);
    assert !BitAt(0x82f63b78, 7);
  }

  lemma Byte1()
    ensures Lowest8(0x82f63b, {0, 1, 3, 4, 5})
  {
    assert BitAt(0x82f63b, 0);
    assert BitAt(0x82f63b, 1);
    assert !BitAt(0x82f63b, 2);
    assert BitAt(0x82f63b, 3);
    assert BitAt(0x82f63b, 4);
    assert BitAt(0x82f63b, 5);
    assert !BitAt(0x82f63b, 6);
    assert !BitAt(0x82f63b, 7);
  }

  lemma Byte2()
    ensures Lowest8(0x82f6, {1, 2, 4, 5, 6, 7})
  {
    assert !BitAt(0x82f6, 0);
    assert BitAt(0x82f6, 1);
    assert BitAt(0x82f6, 2);
    assert !BitAt(0x82f6, 3);
    assert BitAt(0x82f6, 4);
    assert BitAt(0x82f6, 5);
    assert BitAt(0x82f6, 6);
    assert BitAt(0x82f6, 7);
  }

  lemma Byte3()
    ensures Lowest8(0x82, {1, 7})
  {
    assert !BitAt(0x82, 0);
    assert BitAt(0x82, 1);
    assert !BitAt(0x82, 2);
    assert !BitAt(0x82, 3);
    assert !BitAt(0x82, 4);
    assert !BitAt(0x82, 5);
    assert !BitAt(0x82, 6);
    assert BitAt(0x82, 7);
  }

  /** The constant of the program is that polynomial. */
  lemma PolyIs()
    ensures Exponents(POLY) == CRC32C - {32}
    ensures forall e: nat :: e < 32 ==> (Has(POLY, e) <==> e in CRC32C)
  {
    hide BitAt, Half, Low, HalfN;
    PolyBytes();
    Byte0();
    Byte1();
    Byte2();
    Byte3();
    forall e: nat | e < 32
      ensures Has(POLY, e) <==> e in CRC32C
    {
      var k := 31 - e;
      var m := k / 8 * 8;
      BitOfHalves(POLY, m, k - m);
    }
  }

  // ---------- One step ----------

  /** Shifting a register one bit is a step of the division. */
  lemma StepDivides(r: bv32, bit: bool)
    ensures Exponents(BitStep(r, bit)) == Next(Exponents(r), bit, CRC32C, 32)
  {
    hide Xor, Half, Low, Exponents;
    var carry := Low(r) != bit;
    PolyIs();
    forall e: nat | e < 32
      ensures Has(BitStep(r, bit), e) <==> e in Next(Exponents(r), bit, CRC32C, 32)
    {
      StepBit(r, bit, e);
    }
    ExponentsAre(r);
    ExponentsAre(BitStep(r, bit));
    NextBelow(Exponents(r), bit);
  }

  lemma ExponentsAre(x: bv32)
    ensures forall e: nat :: e in Exponents(x) <==> e < 32 && Has(x, e)
  {
  }

  lemma NextBelow(r: Poly, bit: bool)
    requires forall e :: e in r ==> e < 32
    ensures forall e :: e in Next(r, bit, CRC32C, 32) ==> e < 32
  {
    NextBounded(CRC32C, 32, r, bit);
  }

  lemma StepBit(r: bv32, bit: bool, e: nat)
    requires e < 32
    ensures Has(BitStep(r, bit), e) <==> e in Next(Exponents(r), bit, CRC32C, 32)
  {
    hide Xor, Half, Low, Exponents, Next, Carry;
    var carry := Low(r) != bit;
    BitOfXor(Half(r), Carry(carry), 31 - e);
    CarryBit(carry, e);
    HalfBit(r, e);
    ExponentsAre(r);
    TopBit(r);
    InNext(Exponents(r), bit, e);
  }

  lemma CarryBit(carry: bool, e: nat)
    requires e < 32
    ensures BitAt(Carry(carry), 31 - e) <==> carry && e in CRC32C
  {
    hide BitAt, Exponents;
    PolyIs();
    NoBits0(31 - e);
  }

  lemma HalfBit(r: bv32, e: nat)
    requires e < 32
    ensures BitAt(Half(r), 31 - e) <==> e > 0 && Has(r, e - 1)
  {
    hide Half, Low;
    NoBit32(r);
    assert BitAt(r, 32 - e) == BitAt(Half(r), 31 - e);
  }

  lemma TopBit(r: bv32)
    ensures Has(r, 31) <==> Low(r)
  {
  }

  lemma InNext(r: Poly, bit: bool, e: nat)
    requires e < 32 && forall i :: i in r ==> i < 32
    ensures e in Next(r, bit, CRC32C, 32) <==> ((e > 0 && e - 1 in r) != (((31 in r) != bit) && e in CRC32C))
  {
    var t := Plus(Shifted(r, 1), if bit then {32} else {});
    assert forall i: nat :: i in Shifted(r, 1) <==> i > 0 && i - 1 in r;
    assert 32 in t <==> (31 in r) != bit;
  }

  // ---------- The remainder ----------

  lemma {:induction false} BitsDivide(a: Poly, r: bv32, y: bv32, n: nat, start: Poly, bits: seq<bool>)
    requires IsRemainder(a, CRC32C, 32, Exponents(r)) && a == Dividend(start, bits, 32)
    ensures IsRemainder(Dividend(start, bits + ByteBits(y, n), 32), CRC32C, 32, Exponents(BitSerial(r, y, n)))
    decreases n
  {
    hide Exponents, Half, Low, BitStep, Dividend, IsRemainder, Next;
    if n == 0 {
      assert bits + [] == bits;
    } else {
      var bit := Low(y);
      Divided(a, CRC32C, 32, Exponents(r), bit);
      StepDivides(r, bit);
      DividendNext(start, bits, bit, 32);
      BitsDivide(Dividend(start, bits + [bit], 32), BitStep(r, bit), Half(y), n - 1, start, bits + [bit]);
      assert bits + [bit] + ByteBits(Half(y), n - 1) == bits + ByteBits(y, n);
    }
  }

  lemma {:induction false} DataDivide(r: bv32, data: seq<bv8>, start: Poly, bits: seq<bool>)
    requires IsRemainder(Dividend(start, bits, 32), CRC32C, 32, Exponents(r))
    ensures IsRemainder(Dividend(start, bits + DataBits(data), 32), CRC32C, 32, Exponents(CrcRegister(r, data)))
    decreases |data|
  {
    hide Exponents, Dividend, IsRemainder, BitSerial, ByteBits;
    if data == [] {
      assert bits + [] == bits;
    } else {
      var y := data[0] as bv32;
      BitsDivide(Dividend(start, bits, 32), r, y, 8, start, bits);
      DataDivide(BitSerial(r, y, 8), data[1..], start, bits + ByteBits(y, 8));
      assert bits + ByteBits(y, 8) + DataBits(data[1..]) == bits + DataBits(data);
    }
  }

  /** The register is the remainder, modulo the polynomial, of what it held before, followed by the data, times x to
      the 32. */
  lemma RegisterIsRemainder(crc: bv32, data: seq<bv8>)
    ensures IsRemainder(Dividend(Exponents(crc), DataBits(data), 32), CRC32C, 32, Exponents(CrcRegister(crc, data)))
  {
    hide Dividend, IsRemainder;
    NoBits(Exponents(crc), 32);
    ItsOwnRemainder(Exponents(crc), CRC32C, 32);
    DataDivide(crc, data, Exponents(crc), []);
    assert [] + DataBits(data) == DataBits(data);
  }

  // ---------- Test vectors of RFC 3720, appendix B.4 ----------

  function Shift(x: bv32): bv32 {
    if Low(x) then Xor(Half(x), 0x82f63b78) else Half(x)
  }

  /** A byte fed to a register. */
  function Turn(x: bv32, b: bv32): bv32 {
    Shift(Shift(Shift(Shift(Shift(Shift(Shift(Shift(x ^ b))))))))
  }

  lemma ShiftIsStep(x: bv32)
    ensures Shift(x) == Step(x)
  {
    var carry := Low(x) != false;
    assert Step(x) == Xor(Half(x), Carry(carry));
    hide BitStep, Step;
    ShiftIs(x, carry);
  }

  lemma ShiftIs(x: bv32, carry: bool)
    requires carry == Low(x)
    ensures Shift(x) == Xor(Half(x), Carry(carry))
  {
    hide Xor, Half, Low;
    Self(Half(x));
  }

  lemma TurnIsSteps(x: bv32, b: bv8, n: nat)
    requires n == 8
    ensures Turn(x, b as bv32) == Steps(Xor(x, b as bv32), n)
  {
    var x0 := Xor(x, b as bv32);
    hide Step, Shift;
    var x1 := Step(x0);
    var x2 := Step(x1);
    var x3 := Step(x2);
    var x4 := Step(x3);
    var x5 := Step(x4);
    var x6 := Step(x5);
    var x7 := Step(x6);
    ShiftIsStep(x0);
    ShiftIsStep(x1);
    ShiftIsStep(x2);
    ShiftIsStep(x3);
    ShiftIsStep(x4);
    ShiftIsStep(x5);
    ShiftIsStep(x6);
    ShiftIsStep(x7);
    assert Steps(x0, 8) == Steps(x2, 6) == Steps(x4, 4) == Steps(x6, 2) == Step(x7);
  }

  /** Bytes fed one after the other, with the register after each. */
  lemma {:induction false} Traced(data: seq<bv8>, states: seq<bv32>)
    requires |states| == |data| + 1
    requires forall i :: 0 <= i < |data| ==> Turns(data, states, i)
    ensures CrcRegister(states[0], data) == states[|data|]
    decreases |data|
  {
    hide Xor, Steps, CrcRegister, Turn;
    if data == [] {
      RegisterEmpty(states[0]);
    } else {
      assert data == [data[0]] + data[1..];
      assert Turns(data, states, 0);
      TurnIsSteps(states[0], data[0], 8);
      RegisterFirst(states[0], data[0], data[1..]);
      forall i | 0 <= i < |data[1..]|
        ensures Turns(data[1..], states[1..], i)
      {
        assert Turns(data, states, i + 1);
      }
      Traced(data[1..], states[1..]);
    }
  }

  ghost predicate Turns(data: seq<bv8>, states: seq<bv32>, i: int)
    requires 0 <= i < |data| && |states| == |data| + 1
  {
    Turn(states[i], data[i] as bv32) == states[i + 1]
  }

  lemma FourPieces(x0: bv32, a: seq<bv8>, x1: bv32, b: seq<bv8>, x2: bv32, c: seq<bv8>, x3: bv32, d: seq<bv8>,
                   x4: bv32)
    requires CrcRegister(x0, a) == x1 && CrcRegister(x1, b) == x2
    requires CrcRegister(x2, c) == x3 && CrcRegister(x3, d) == x4
    ensures CrcRegister(x0, a + b + c + d) == x4
  {
    hide CrcRegister;
    RegisterJoin(x0, a + b + c, d);
    RegisterJoin(x0, a + b, c);
    RegisterJoin(x0, a, b);
  }

  lemma ZeroVector0(x: bv32, data: seq<bv8>)
    requires x == 0xffffffff && data == [0, 0, 0, 0, 0, 0, 0, 0]
    ensures CrcRegister(x, data) == 0x73d74d75
  {
    hide CrcRegister;
    var states: seq<bv32> := [0xffffffff, 0xad82acae, 0x0e9e882d, 0x9f9b5c85, 0xb798b438, 0xba8d89ca, 0xa8d58375,
                               0x44c19592, 0x73d74d75];
    Traced(data, states);
  }

  lemma ZeroVector1(x: bv32, data: seq<bv8>)
    requires x == 0x73d74d75 && data == [0, 0, 0, 0, 0, 0, 0, 0]
    ensures CrcRegister(x, data) == 0xbd8f6515
  {
    hide CrcRegister;
    var states: seq<bv32> := [0x73d74d75, 0x441a975c, 0x1c220f94, 0x552e4907, 0xd49f4aa2, 0x43a45a1b, 0x8994c80e,
                               0xacf12bef, 0xbd8f6515];
    Traced(data, states);
  }

  lemma ZeroVector2(x: bv32, data: seq<bv8>)
    requires x == 0xbd8f6515 && data == [0, 0, 0, 0, 0, 0, 0, 0]
    ensures CrcRegister(x, data) == 0x7b041311
  {
    hide CrcRegister;
    var states: seq<bv32> := [0xbd8f6515, 0x25125c16, 0x36da32db, 0x4a6c90a2, 0x433aa9c1, 0x31a59f6e, 0xcd8f89da,
                               0xb8fc461a, 0x7b041311];
    Traced(data, states);
  }

  lemma ZeroVector3(x: bv32, data: seq<bv8>)
    requires x == 0x7b041311 && data == [0, 0, 0, 0, 0, 0, 0, 0]
    ensures CrcRegister(x, data) == 0x756ec955
  {
    hide CrcRegister;
    var states: seq<bv32> := [0x7b041311, 0xe24e407f, 0x2f692669, 0x195b2188, 0x08363896, 0xb4012dc7, 0x17f34302,
                               0xe12c83b4, 0x756ec955];
    Traced(data, states);
  }

  /** 32 bytes of zeros. */
  lemma ZeroVector(data: seq<bv8>)
    requires |data| == 32 && forall i :: 0 <= i < |data| ==> data[i] == 0
    ensures Crc32c(0, data) == 0x8a9136aa
  {
    hide CrcRegister;
    var z: seq<bv8> := [0, 0, 0, 0, 0, 0, 0, 0];
    ZeroVector0(0xffffffff, z);
    ZeroVector1(0x73d74d75, z);
    ZeroVector2(0xbd8f6515, z);
    ZeroVector3(0x7b041311, z);
    assert data == z + z + z + z;
    FourPieces(0xffffffff, z, 0x73d74d75, z, 0xbd8f6515, z, 0x7b041311, z, 0x756ec955);
    Complements();
  }

  const RISING: seq<bv8> := [
    0, 1, 2, 3, 4, 5, 6, 7, 8, 9, 10, 11, 12, 13, 14, 15,
    16, 17, 18, 19, 20, 21, 22, 23, 24, 25, 26, 27, 28, 29, 30, 31
  ]

  lemma RisingVector0(x: bv32, data: seq<bv8>)
    requires x == 0xffffffff && data == [0, 1, 2, 3, 4, 5, 6, 7]
    ensures CrcRegister(x, data) == 0x75d343c4
  {
    hide CrcRegister;
    var states: seq<bv32> := [0xffffffff, 0xad82acae, 0xfcf50b2e, 0x6d02b405, 0x26cce55c, 0xdbda4ef9, 0xbef67aeb,
                               0x5ca612b3, 0x75d343c4];
    Traced(data, states);
  }

  lemma RisingVector1(x: bv32, data: seq<bv8>)
    requires x == 0x75d343c4 && data == [8, 9, 10, 11, 12, 13, 14, 15]
    ensures CrcRegister(x, data) == 0x2636f714
  {
    hide CrcRegister;
    var states: seq<bv32> := [0x75d343c4, 0x8ebb3a57, 0xfdd3dece, 0x04ea6205, 0xac7c5545, 0x3965ba25, 0xaa5db3ab,
                               0x9710fc09, 0x2636f714];
    Traced(data, states);
  }

  lemma RisingVector2(x: bv32, data: seq<bv8>)
    requires x == 0x2636f714 && data == [16, 17, 18, 19, 20, 21, 22, 23]
    ensures CrcRegister(x, data) == 0xd643786a
  {
    hide CrcRegister;
    var states: seq<bv32> := [0x2636f714, 0xc7bca1e8, 0x8b1b0818, 0x6b693330, 0x33861419, 0xbf1bcac7, 0x32578a96,
                               0x82c46cf2, 0xd643786a];
    Traced(data, states);
  }

  lemma RisingVector3(x: bv32, data: seq<bv8>)
    requires x == 0xd643786a && data == [24, 25, 26, 27, 28, 29, 30, 31]
    ensures CrcRegister(x, data) == 0xb92286b1
  {
    hide CrcRegister;
    var states: seq<bv32> := [0xd643786a, 0x90756782, 0x0bb1224b, 0xa345e8f2, 0x9b21363e, 0xc11ddf1f, 0xe1fa6d28,
                               0x16a35434, 0xb92286b1];
    Traced(data, states);
  }

  /** 32 bytes that count from 0. */
  lemma RisingVector(data: seq<bv8>)
    requires data == RISING
    ensures Crc32c(0, data) == 0x46dd794e
  {
    hide CrcRegister;
    var a: seq<bv8> := [0, 1, 2, 3, 4, 5, 6, 7];
    var b: seq<bv8> := [8, 9, 10, 11, 12, 13, 14, 15];
    var c: seq<bv8> := [16, 17, 18, 19, 20, 21, 22, 23];
    var d: seq<bv8> := [24, 25, 26, 27, 28, 29, 30, 31];
    RisingVector0(0xffffffff, a);
    RisingVector1(0x75d343c4, b);
    RisingVector2(0x2636f714, c);
    RisingVector3(0xd643786a, d);
    assert data == a + b + c + d;
    FourPieces(0xffffffff, a, 0x75d343c4, b, 0x2636f714, c, 0xd643786a, d, 0xb92286b1);
    Complements();
  }

  lemma Complements()
    ensures Not(0) == 0xffffffff && Not(0x756ec955) == 0x8a9136aa && Not(0xb92286b1) == 0x46dd794e
  {
  }
}
