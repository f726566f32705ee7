/** CRC-32C: the bit-at-a-time definition and its linearity. */
module Crc32cSpec {
  /** The CRC-32C polynomial in reversed bit order. */
  const POLY: bv32 := 0x82f63b78

  // The operations on registers have names so that proofs can treat them as unknowns with laws.

  function Xor(x: bv32, y: bv32): bv32 { x ^ y }

  function Not(x: bv32): bv32 { !x }

  function Half(x: bv32): bv32 { x >> 1 }

  predicate Low(x: bv32) { x & 1 == 1 }

  /** The polynomial, if there is a carry. */
  function Carry(c: bool): bv32 {
    if c then POLY else 0
  }

  /** Shift one bit through the register, as section 12.1 of RFC 3720 has it. */
  function BitStep(crc: bv32, bit: bool): bv32 {
    Xor(Half(crc), Carry(Low(crc) != bit))
  }

  /** Feed the lowest n bits of y, lowest first. */
  function BitSerial(crc: bv32, y: bv32, n: nat): bv32
    decreases n
  {
    if n == 0 then crc else BitSerial(BitStep(crc, Low(y)), Half(y), n - 1)
  }

  function CrcRegister(crc: bv32, data: seq<bv8>): bv32
    decreases |data|
  {
    if data == [] then crc else CrcRegister(BitSerial(crc, data[0] as bv32, 8), data[1..])
  }

  /** The CRC-32C of data, continuing from an earlier one. */
  function Crc32c(crc: bv32, data: seq<bv8>): bv32 {
    Not(CrcRegister(Not(crc), data))
  }

  /** One zero bit. */
  function Step(x: bv32): bv32 {
    BitStep(x, false)
  }

  function Steps(x: bv32, n: nat): bv32
    decreases n
  {
    if n == 0 then x else Steps(Step(x), n - 1)
  }

  // ---------- Laws ----------

  lemma Assoc(x: bv32, y: bv32, z: bv32)
    ensures Xor(Xor(x, y), z) == Xor(x, Xor(y, z))
  {
  }

  lemma Comm(x: bv32, y: bv32)
    ensures Xor(x, y) == Xor(y, x)
  {
  }

  lemma Self(x: bv32)
    ensures Xor(x, x) == 0 && Xor(x, 0) == x && Xor(0, x) == x
  {
  }

  lemma HalfXor(x: bv32, y: bv32)
    ensures Half(Xor(x, y)) == Xor(Half(x), Half(y))
  {
  }

  lemma LowXor(x: bv32, y: bv32)
    ensures Low(Xor(x, y)) == (Low(x) != Low(y))
  {
  }

  lemma Zero()
    ensures Half(0) == 0 && !Low(0) && Carry(false) == 0
  {
  }

  lemma CarryXor(a: bool, b: bool)
    ensures Carry(a != b) == Xor(Carry(a), Carry(b))
  {
    hide Xor;
    Self(POLY);
    Self(0);
  }

  lemma Swap4(a: bv32, b: bv32, c: bv32, d: bv32)
    ensures Xor(Xor(a, b), Xor(c, d)) == Xor(Xor(a, c), Xor(b, d))
  {
    hide Xor;
    Assoc(a, b, Xor(c, d));
    Assoc(b, c, d);
    Comm(b, c);
    Assoc(c, b, d);
    Assoc(a, c, Xor(b, d));
  }

  lemma StepLinear(x: bv32, y: bv32)
    ensures Step(Xor(x, y)) == Xor(Step(x), Step(y))
  {
    hide Xor, Half, Low, Carry;
    HalfXor(x, y);
    LowXor(x, y);
    CarryXor(Low(x), Low(y));
    Swap4(Half(x), Half(y), Carry(Low(x)), Carry(Low(y)));
  }

  lemma {:induction false} StepsLinear(x: bv32, y: bv32, n: nat)
    ensures Steps(Xor(x, y), n) == Xor(Steps(x, n), Steps(y, n))
    decreases n
  {
    if n > 0 {
      hide Xor, Step;
      StepLinear(x, y);
      StepsLinear(Step(x), Step(y), n - 1);
    }
  }

  lemma {:induction false} StepsAdd(x: bv32, m: nat, n: nat)
    ensures Steps(x, m + n) == Steps(Steps(x, m), n)
    decreases m
  {
    hide Step;
    if m > 0 {
      StepsAdd(Step(x), m - 1, n);
    }
  }

  lemma {:induction false} StepsZero(x: bv32, n: nat)
    requires x == 0
    ensures Steps(x, n) == 0
  {
    hide Xor, Half, Low, Carry;
    if n > 0 {
      Zero();
      Self(0);
      StepsZero(Step(x), n - 1);
    }
  }

  lemma StepsNone(x: bv32)
    ensures Steps(x, 0) == x
  {
  }

  // ---------- A byte at a time ----------

  function HalfN(y: bv32, n: nat): bv32
    decreases n
  {
    if n == 0 then y else HalfN(Half(y), n - 1)
  }

  lemma BitStepXor(s: bv32, y: bv32)
    ensures Step(Xor(s, y)) == Xor(BitStep(s, Low(y)), Half(y))
  {
    hide Xor, Half, Low, Carry;
    HalfXor(s, y);
    LowXor(s, y);
    var h, g, c := Half(s), Half(y), Carry(Low(s) != Low(y));
    Assoc(h, g, c);
    Comm(g, c);
    Assoc(h, c, g);
  }

  /** Adding all the bits at once and then shifting is the same as feeding them one by one. */
  lemma {:induction false} BitsAtOnce(s: bv32, y: bv32, n: nat)
    ensures Steps(Xor(s, y), n) == Xor(BitSerial(s, y, n), HalfN(y, n))
    decreases n
  {
    if n > 0 {
      hide Xor, Step, BitStep, Half, Low;
      BitStepXor(s, y);
      BitsAtOnce(BitStep(s, Low(y)), Half(y), n - 1);
    }
  }

  function Shr4(x: bv32): bv32 { x >> 4 }

  function Shr8(x: bv32): bv32 { x >> 8 }

  lemma HalfFour(y: bv32)
    ensures HalfN(y, 4) == Shr4(y)
  {
    hide Half;
    assert HalfN(y, 4) == HalfN(Half(y), 3);
    assert HalfN(y, 4) == HalfN(Half(Half(y)), 2);
    assert HalfN(y, 4) == HalfN(Half(Half(Half(y))), 1);
    assert HalfN(y, 4) == Half(Half(Half(Half(y))));
    FourHalves(y);
  }

  lemma FourHalves(y: bv32)
    ensures Half(Half(Half(Half(y)))) == Shr4(y)
  {
  }

  lemma {:induction false} HalfAdd(y: bv32, m: nat, n: nat)
    ensures HalfN(y, m + n) == HalfN(HalfN(y, m), n)
    decreases m
  {
    hide Half;
    if m > 0 {
      HalfAdd(Half(y), m - 1, n);
    }
  }

  lemma HalfEight(y: bv32)
    ensures HalfN(y, 8) == Shr8(y)
  {
    hide HalfN, Shr4, Shr8;
    HalfAdd(y, 4, 4);
    HalfFour(y);
    HalfFour(Shr4(y));
    ShiftTwice(y);
  }

  lemma ShiftTwice(y: bv32)
    ensures Shr4(Shr4(y)) == Shr8(y)
  {
  }

  /** A byte fed to the register. */
  lemma ByteAtOnce(crc: bv32, b: bv8)
    ensures BitSerial(crc, b as bv32, 8) == Steps(Xor(crc, b as bv32), 8)
  {
    hide Xor, Steps, BitSerial, HalfN, Shr8;
    var y := b as bv32;
    BitsAtOnce(crc, y, 8);
    HalfEight(y);
    ByteGone(b);
    Self(BitSerial(crc, y, 8));
  }

  lemma ByteGone(b: bv8)
    ensures Shr8(b as bv32) == 0
  {
  }

  lemma RegisterFirst(crc: bv32, b: bv8, rest: seq<bv8>)
    ensures CrcRegister(crc, [b] + rest) == CrcRegister(Steps(Xor(crc, b as bv32), 8), rest)
  {
    hide Xor, Steps, BitSerial;
    assert ([b] + rest)[1..] == rest;
    ByteAtOnce(crc, b);
  }

  lemma RegisterEmpty(crc: bv32)
    ensures CrcRegister(crc, []) == crc
  {
  }

  lemma {:induction false} RegisterJoin(crc: bv32, a: seq<bv8>, b: seq<bv8>)
    ensures CrcRegister(crc, a + b) == CrcRegister(CrcRegister(crc, a), b)
    decreases |a|
  {
    hide BitSerial;
    if a == [] {
      assert a + b == b;
    } else {
      assert (a + b)[1..] == a[1..] + b;
      RegisterJoin(BitSerial(crc, a[0] as bv32, 8), a[1..], b);
    }
  }

  /** What was in the register before is shifted on, and the data adds its own CRC. */
  lemma {:induction false} RegisterLinear(crc: bv32, data: seq<bv8>)
    ensures CrcRegister(crc, data) == Xor(Steps(crc, 8 * |data|), CrcRegister(0, data))
    decreases |data|
  {
    hide Xor, Step, Steps, CrcRegister, BitSerial;
    if data == [] {
      RegisterEmpty(crc);
      RegisterEmpty(0);
      StepsNone(crc);
      Self(crc);
    } else {
      var b, rest := data[0], data[1..];
      var y, n := b as bv32, 8 * |rest|;
      assert data == [b] + rest;
      RegisterFirst(crc, b, rest);
      RegisterFirst(0, b, rest);
      RegisterLinear(Steps(Xor(crc, y), 8), rest);
      RegisterLinear(Steps(Xor(0, y), 8), rest);
      StepsAdd(Xor(crc, y), 8, n);
      StepsAdd(Xor(0, y), 8, n);
      StepsLinear(crc, y, 8 + n);
      Self(y);
      Assoc(Steps(crc, 8 + n), Steps(y, 8 + n), CrcRegister(0, rest));
    }
  }

  function Zeros(n: nat): seq<bv8> {
    seq(n, i => 0)
  }

  /** Shifting is feeding zero bytes. */
  lemma {:induction false} ZeroBytes(crc: bv32, n: nat)
    ensures CrcRegister(crc, Zeros(n)) == Steps(crc, 8 * n)
    decreases n
  {
    hide Xor, Step, Steps, CrcRegister, BitSerial;
    if n == 0 {
      assert Zeros(0) == [];
      RegisterEmpty(crc);
      StepsNone(crc);
    } else {
      assert Zeros(n) == [0] + Zeros(n - 1);
      RegisterFirst(crc, 0, Zeros(n - 1));
      Self(crc);
      ZeroBytes(Steps(crc, 8), n - 1);
      StepsAdd(crc, 8, 8 * (n - 1));
    }
  }

  /** The CRC of three pieces, each from its own start, put together. */
  lemma ThreePieces(crc: bv32, a: seq<bv8>, b: seq<bv8>, c: seq<bv8>)
    ensures CrcRegister(crc, a + b + c) ==
            Xor(Steps(Xor(Steps(CrcRegister(crc, a), 8 * |b|), CrcRegister(0, b)), 8 * |c|), CrcRegister(0, c))
  {
    hide Xor, Steps, CrcRegister;
    RegisterJoin(crc, a + b, c);
    RegisterJoin(crc, a, b);
    RegisterLinear(CrcRegister(crc, a), b);
    RegisterLinear(CrcRegister(crc, a + b), c);
  }

  // ---------- Table lookup ----------

  function AsByte(n: int): bv8
    requires 0 <= n < 256
  {
    n as bv8
  }

  function Index(b: bv8): (i: int)
    ensures 0 <= i < 256 && AsByte(i) == b
  {
    b as int
  }

  function LowByte(x: bv32): bv8 {
    (x & 0xff) as bv8
  }

  /** The lowest n bits of x and y are the same. */
  ghost predicate Agree(x: bv32, y: bv32, n: nat)
    decreases n
  {
    n == 0 || (Low(x) == Low(y) && Agree(Half(x), Half(y), n - 1))
  }

  function And(x: bv32, m: bv32): bv32 { x & m }

  ghost predicate Ones(m: bv32, n: nat)
    decreases n
  {
    n == 0 || (Low(m) && Ones(Half(m), n - 1))
  }

  lemma AndLaws(x: bv32, m: bv32)
    ensures Half(And(x, m)) == And(Half(x), Half(m)) && (Low(m) ==> Low(And(x, m)) == Low(x))
  {
  }

  lemma {:induction false} MaskAgrees(x: bv32, m: bv32, n: nat)
    requires Ones(m, n)
    ensures Agree(x, And(x, m), n)
    decreases n
  {
    hide Half, Low, And;
    if n > 0 {
      AndLaws(x, m);
      MaskAgrees(Half(x), Half(m), n - 1);
    }
  }

  lemma {:induction false} OnlyLowBits(s: bv32, x: bv32, y: bv32, n: nat)
    requires Agree(x, y, n)
    ensures BitSerial(s, x, n) == BitSerial(s, y, n)
    decreases n
  {
    hide Half, Low, BitStep;
    if n > 0 {
      OnlyLowBits(BitStep(s, Low(x)), Half(x), Half(y), n - 1);
    }
  }

  lemma EightOnes()
    ensures Ones(0xff, 8)
  {
    assert Ones(0x0f, 4) by {
      assert Ones(0x03, 2) by {
        assert Ones(0x01, 1) && Half(0x03) == 0x01;
      }
      assert Half(0x0f) == 0x07 && Half(0x07) == 0x03 && Ones(0x07, 3);
    }
    assert Half(0xff) == 0x7f && Half(0x7f) == 0x3f && Half(0x3f) == 0x1f && Half(0x1f) == 0x0f;
    assert Ones(0x1f, 5);
    assert Ones(0x3f, 6);
    assert Ones(0x7f, 7);
  }

  lemma LowByteIs(x: bv32)
    ensures LowByte(x) as bv32 == And(x, 0xff)
  {
  }

  /** Eight steps at once: look up the lowest byte, and shift the others. */
  lemma EightSteps(x: bv32)
    ensures Steps(x, 8) == Xor(Steps(LowByte(x) as bv32, 8), Shr8(x))
  {
    hide Xor, Steps, BitSerial, HalfN, Shr8, LowByte, And, Agree, Ones;
    var y := LowByte(x);
    Self(x);
    Self(y as bv32);
    BitsAtOnce(0, x, 8);
    ByteAtOnce(0, y);
    HalfEight(x);
    EightOnes();
    MaskAgrees(x, 0xff, 8);
    LowByteIs(x);
    OnlyLowBits(0, x, And(x, 0xff), 8);
  }

  lemma Shr8Byte(crc: bv32, b: bv8)
    ensures Shr8(Xor(crc, b as bv32)) == Shr8(crc)
  {
  }

  /** Any number of bytes' steps: the lowest byte apart. */
  lemma LowByteApart(x: bv32, n: nat)
    ensures Steps(x, 8 + n) == Xor(Steps(LowByte(x) as bv32, 8 + n), Steps(Shr8(x), n))
  {
    hide Xor, Steps, Shr8, LowByte;
    EightSteps(x);
    StepsAdd(x, 8, n);
    StepsAdd(LowByte(x) as bv32, 8, n);
    StepsLinear(Steps(LowByte(x) as bv32, 8), Shr8(x), n);
  }
}
