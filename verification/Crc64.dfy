/** The 64-bit CRC of ISO 3309, by table and bit by bit, and rolling it along a window. */
module Crc64 {
  /** The polynomial X^64 + X^4 + X^3 + X + 1 in reversed bit order. */
  const POLY: bv64 := 0xd800_0000_0000_0000

  function Xor(x: bv64, y: bv64): bv64 { x ^ y }

  function Half(x: bv64): bv64 { x >> 1 }

  predicate Low(x: bv64) { x & 1 == 1 }

  function Carry(c: bool): bv64 {
    if c then POLY else 0
  }

  /** Shift one zero bit through the register. */
  function Step(x: bv64): bv64 {
    Xor(Half(x), Carry(Low(x)))
  }

  function Steps(x: bv64, n: nat): bv64
    decreases n
  {
    if n == 0 then x else Steps(Step(x), n - 1)
  }

  /** The CRC: each byte is added to the lowest bits, and eight bits are shifted through. */
  function Crc(crc: bv64, data: seq<bv8>): bv64
    decreases |data|
  {
    if data == [] then crc else Crc(Steps(Xor(crc, data[0] as bv64), 8), data[1..])
  }

  // ---------- Laws ----------

  lemma Assoc(x: bv64, y: bv64, z: bv64)
    ensures Xor(Xor(x, y), z) == Xor(x, Xor(y, z))
  {
  }

  lemma Comm(x: bv64, y: bv64)
    ensures Xor(x, y) == Xor(y, x)
  {
  }

  lemma Self(x: bv64)
    ensures Xor(x, x) == 0 && Xor(x, 0) == x && Xor(0, x) == x
  {
  }

  lemma HalfXor(x: bv64, y: bv64)
    ensures Half(Xor(x, y)) == Xor(Half(x), Half(y))
  {
  }

  lemma LowXor(x: bv64, y: bv64)
    ensures Low(Xor(x, y)) == (Low(x) != Low(y))
  {
  }

  lemma Zero()
    ensures Half(0) == 0 && !Low(0) && Carry(false) == 0
  {
  }

  lemma CarryXor(a: bool, b: bool)
    ensures Carry(a != b) == Xor(Carry(a), Carry(b))
  {
    hide Xor;
    Self(POLY);
    Self(0);
  }

  lemma Swap4(a: bv64, b: bv64, c: bv64, d: bv64)
    ensures Xor(Xor(a, b), Xor(c, d)) == Xor(Xor(a, c), Xor(b, d))
  {
    hide Xor;
    Assoc(a, b, Xor(c, d));
    Assoc(b, c, d);
    Comm(b, c);
    Assoc(c, b, d);
    Assoc(a, c, Xor(b, d));
  }

  lemma StepLinear(x: bv64, y: bv64)
    ensures Step(Xor(x, y)) == Xor(Step(x), Step(y))
  {
    hide Xor, Half, Low, Carry;
    HalfXor(x, y);
    LowXor(x, y);
    CarryXor(Low(x), Low(y));
    Swap4(Half(x), Half(y), Carry(Low(x)), Carry(Low(y)));
  }

  lemma {:induction false} StepsLinear(x: bv64, y: bv64, n: nat)
    ensures Steps(Xor(x, y), n) == Xor(Steps(x, n), Steps(y, n))
    decreases n
  {
    if n > 0 {
      hide Xor, Step;
      StepLinear(x, y);
      StepsLinear(Step(x), Step(y), n - 1);
    }
  }

  lemma {:induction false} StepsAdd(x: bv64, m: nat, n: nat)
    ensures Steps(x, m + n) == Steps(Steps(x, m), n)
    decreases m
  {
    hide Step;
    if m > 0 {
      StepsAdd(Step(x), m - 1, n);
    }
  }

  lemma {:induction false} StepsZero(x: bv64, n: nat)
    requires x == 0
    ensures Steps(x, n) == 0
    decreases n
  {
    hide Xor, Half, Low, Carry;
    if n > 0 {
      Zero();
      Self(0);
      StepsZero(Step(x), n - 1);
    }
  }

  lemma CrcEmpty(crc: bv64)
    ensures Crc(crc, []) == crc
  {
  }

  lemma CrcFirst(crc: bv64, b: bv8, rest: seq<bv8>)
    ensures Crc(crc, [b] + rest) == Crc(Steps(Xor(crc, b as bv64), 8), rest)
  {
    hide Xor, Steps;
    assert ([b] + rest)[1..] == rest;
  }

  lemma {:induction false} CrcJoin(crc: bv64, a: seq<bv8>, b: seq<bv8>)
    ensures Crc(crc, a + b) == Crc(Crc(crc, a), b)
    decreases |a|
  {
    hide Xor, Steps;
    if a == [] {
      assert a + b == b;
    } else {
      assert (a + b)[1..] == a[1..] + b;
      CrcJoin(Steps(Xor(crc, a[0] as bv64), 8), a[1..], b);
    }
  }

  /** What was in the register before is shifted on, and the data adds its own CRC. */
  lemma {:induction false} CrcLinear(crc: bv64, data: seq<bv8>)
    ensures Crc(crc, data) == Xor(Steps(crc, 8 * |data|), Crc(0, data))
    decreases |data|
  {
    hide Xor, Step, Steps, Crc;
    if data == [] {
      CrcEmpty(crc);
      CrcEmpty(0);
      StepsNone(crc);
      Self(crc);
    } else {
      var b, rest := data[0], data[1..];
      var y, n := b as bv64, 8 * |rest|;
      assert data == [b] + rest;
      CrcFirst(crc, b, rest);
      CrcFirst(0, b, rest);
      CrcLinear(Steps(Xor(crc, y), 8), rest);
      CrcLinear(Steps(Xor(0, y), 8), rest);
      StepsAdd(Xor(crc, y), 8, n);
      StepsAdd(Xor(0, y), 8, n);
      StepsLinear(crc, y, 8 + n);
      Self(y);
      Assoc(Steps(crc, 8 + n), Steps(y, 8 + n), Crc(0, rest));
    }
  }

  lemma StepsNone(x: bv64)
    ensures Steps(x, 0) == x
  {
  }

  // ---------- The table ----------

  function Shr8(x: bv64): bv64 { x >> 8 }

  function LowByte(x: bv64): bv8 {
    (x & 0xff) as bv8
  }

  /** The table's entry for byte b: what shifting it gives, of which only the upper 16 bits are not zero. */
  function Table(b: bv8): bv16 {
    Top(Steps(b as bv64, 8))
  }

  function Top(x: bv64): bv16 {
    (x >> 48) as bv16
  }

  function Upper(e: bv16): bv64 {
    (e as bv64) << 48
  }

  function Clear(x: bv64, mask: bv64): bool { x & mask == 0 }

  lemma Narrow0(x: bv64)
    requires Clear(x, 0xffffffffffffff00)
    ensures Clear(Step(x), 0x07ffffffffffff80)
  {
  }

  lemma Narrow1(x: bv64)
    requires Clear(x, 0x07ffffffffffff80)
    ensures Clear(Step(x), 0x03ffffffffffffc0)
  {
  }

  lemma Narrow2(x: bv64)
    requires Clear(x, 0x03ffffffffffffc0)
    ensures Clear(Step(x), 0x01ffffffffffffe0)
  {
  }

  lemma Narrow3(x: bv64)
    requires Clear(x, 0x01ffffffffffffe0)
    ensures Clear(Step(x), 0x00fffffffffffff0)
  {
  }

  lemma Narrow4(x: bv64)
    requires Clear(x, 0x00fffffffffffff0)
    ensures Clear(Step(x), 0x007ffffffffffff8)
  {
  }

  lemma Narrow5(x: bv64)
    requires Clear(x, 0x007ffffffffffff8)
    ensures Clear(Step(x), 0x003ffffffffffffc)
  {
  }

  lemma Narrow6(x: bv64)
    requires Clear(x, 0x003ffffffffffffc)
    ensures Clear(Step(x), 0x001ffffffffffffe)
  {
  }

  lemma Narrow7(x: bv64)
    requires Clear(x, 0x001ffffffffffffe)
    ensures Clear(Step(x), 0x000fffffffffffff)
  {
  }

  /** An entry needs no more than 16 bits. */
  lemma EntryFits(b: bv8)
    ensures Upper(Table(b)) == Steps(b as bv64, 8)
  {
    var x := b as bv64;
    ByteClear(b);
    hide Step, Clear;
    Narrow0(x);
    var x1 := Step(x);
    Narrow1(x1);
    var x2 := Step(x1);
    Narrow2(x2);
    var x3 := Step(x2);
    Narrow3(x3);
    var x4 := Step(x3);
    Narrow4(x4);
    var x5 := Step(x4);
    Narrow5(x5);
    var x6 := Step(x5);
    Narrow6(x6);
    var x7 := Step(x6);
    Narrow7(x7);
    var x8 := Step(x7);
    assert Steps(x, 8) == Steps(x2, 6) == Steps(x4, 4) == Steps(x6, 2) == x8;
    UpperOnly(x8);
  }

  lemma ByteClear(b: bv8)
    ensures Clear(b as bv64, 0xffffffffffffff00)
  {
  }

  lemma UpperOnly(x: bv64)
    requires Clear(x, 0x000fffffffffffff)
    ensures Upper(Top(x)) == x
  {
  }

  // ---------- Eight steps at once ----------

  function HalfN(y: bv64, n: nat): bv64
    decreases n
  {
    if n == 0 then y else HalfN(Half(y), n - 1)
  }

  /** The lowest n bits are zero. */
  ghost predicate NoneLow(x: bv64, n: nat)
    decreases n
  {
    n == 0 || (!Low(x) && NoneLow(Half(x), n - 1))
  }

  /** While zeros come out, stepping only shifts. */
  lemma {:induction false} OnlyShifts(x: bv64, n: nat)
    requires NoneLow(x, n)
    ensures Steps(x, n) == HalfN(x, n)
    decreases n
  {
    hide Xor, Half, Low, Carry;
    if n > 0 {
      Zero();
      Self(Half(x));
      OnlyShifts(Half(x), n - 1);
    }
  }

  function Above(x: bv64): bv64 { x & 0xffffffffffffff00 }

  function Wide(b: bv8): bv64 { b as bv64 }

  lemma HalfOf(x: bv64, mask: bv64)
    requires Clear(x, mask)
    ensures Clear(Half(x), Half(mask))
  {
  }

  lemma LowOf(x: bv64, mask: bv64)
    requires Clear(x, mask) && Low(mask)
    ensures !Low(x)
  {
  }

  lemma AboveClear(x: bv64)
    ensures Clear(Above(x), 0xff)
  {
  }

  lemma Masks()
    ensures Half(0xff) == 0x7f && Half(0x7f) == 0x3f && Half(0x3f) == 0x1f && Half(0x1f) == 0x0f
    ensures Half(0x0f) == 0x07 && Half(0x07) == 0x03 && Half(0x03) == 0x01
    ensures Low(0xff) && Low(0x7f) && Low(0x3f) && Low(0x1f) && Low(0x0f) && Low(0x07) && Low(0x03) && Low(0x01)
  {
  }

  ghost predicate Ones(m: bv64, n: nat)
    decreases n
  {
    n == 0 || (Low(m) && Ones(Half(m), n - 1))
  }

  lemma {:induction false} ClearNoneLow(x: bv64, mask: bv64, n: nat)
    requires Clear(x, mask) && Ones(mask, n)
    ensures NoneLow(x, n)
    decreases n
  {
    hide Half, Low, Clear;
    if n > 0 {
      HalfOf(x, mask);
      LowOf(x, mask);
      ClearNoneLow(Half(x), Half(mask), n - 1);
    }
  }

  lemma EightOnes()
    ensures Ones(0xff, 8)
  {
    hide Half, Low;
    Masks();
    assert Ones(0x07, 3) && Ones(0x0f, 4) && Ones(0x1f, 5) && Ones(0x3f, 6) && Ones(0x7f, 7);
  }

  lemma FourHalves(y: bv64)
    ensures Half(Half(Half(Half(y)))) == Shr4(y)
  {
  }

  function Shr4(x: bv64): bv64 { x >> 4 }

  lemma HalfEight(y: bv64)
    ensures HalfN(y, 8) == Shr4(Shr4(y))
  {
    hide Half, Shr4;
    var y4 := Half(Half(Half(Half(y))));
    assert HalfN(y, 8) == HalfN(Half(Half(y)), 6) == HalfN(y4, 4);
    assert HalfN(y4, 4) == HalfN(Half(Half(y4)), 2) == Half(Half(Half(Half(y4))));
    FourHalves(y);
    FourHalves(y4);
  }

  lemma AboveShifted(x: bv64)
    ensures Shr4(Shr4(Above(x))) == Shr8(x)
  {
  }

  lemma Apart(x: bv64)
    ensures x == Xor(Wide(LowByte(x)), Above(x))
  {
  }

  /** Look up the lowest byte, and shift the others. */
  lemma EightSteps(x: bv64)
    ensures Steps(x, 8) == Xor(Steps(Wide(LowByte(x)), 8), Shr8(x))
  {
    hide Xor, Steps, HalfN, Shr4, Shr8, LowByte, Wide, Above, Clear, Ones, NoneLow;
    Apart(x);
    StepsLinear(Wide(LowByte(x)), Above(x), 8);
    AboveClear(x);
    EightOnes();
    ClearNoneLow(Above(x), 0xff, 8);
    OnlyShifts(Above(x), 8);
    HalfEight(Above(x));
    AboveShifted(x);
  }

  lemma ShiftedByte(crc: bv64, b: bv8)
    ensures Shr8(Xor(crc, Wide(b))) == Shr8(crc)
  {
  }

  /** One turn of the loop is one byte of the definition. */
  lemma ByteTurn(crc: bv64, b: bv8)
    ensures Steps(Xor(crc, Wide(b)), 8) == Xor(Upper(Table(LowByte(Xor(crc, Wide(b))))), Shr8(crc))
  {
    hide Xor, Steps, Shr8, LowByte, Upper, Table;
    var x := Xor(crc, Wide(b));
    EightSteps(x);
    EntryFits(LowByte(x));
    ShiftedByte(crc, b);
  }

  lemma CrcNext(crc: bv64, b: bv8, rest: seq<bv8>)
    ensures Crc(crc, [b] + rest) == Crc(Steps(Xor(crc, Wide(b)), 8), rest)
  {
    hide Xor, Steps;
    CrcFirst(crc, b, rest);
  }

  /** The table-driven CRC is the bit-by-bit one. */
  method Crc64Iso(crc0: bv64, data: seq<bv8>) returns (crc: bv64)
    ensures crc == Crc(crc0, data)
  {
    hide Xor, Steps, Shr8, LowByte, Upper, Table, Crc, Wide;
    crc := crc0;
    for i := 0 to |data|
      invariant Crc(crc0, data) == Crc(crc, data[i..])
    {
      var tabval := Upper(Table(LowByte(Xor(crc, Wide(data[i])))));
      assert data[i..] == [data[i]] + data[i + 1..];
      CrcNext(crc, data[i], data[i + 1..]);
      ByteTurn(crc, data[i]);
      crc := Xor(tabval, Shr8(crc));
    }
    CrcEmpty(crc);
  }
}
