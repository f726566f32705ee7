/** CRC-32C by hardware steps: matrices over two elements shift a register by many zero bytes,
which joins three lanes that run independently. */
module Crc32cHardware {
  import opened Basics
  import opened Crc32cSpec

  const LONG := 8192
  const SHORT := 256

  function Double(x: bv32): bv32 { x << 1 }

  /** The register with only bit n set. */
  function Unit(n: nat): bv32
    decreases n
  {
    if n == 0 then 1 else Double(Unit(n - 1))
  }

  // ---------- Units ----------

  ghost predicate SoundUnit(n: nat) {
    Half(Unit(n + 1)) == Unit(n) && !Low(Unit(n + 1))
  }

  lemma LowOfDouble(u: bv32)
    ensures !Low(Double(u))
  {
  }

  lemma NextUnit(n: nat, u: bv32)
    requires Unit(n) == u && Half(Double(u)) == u
    ensures SoundUnit(n) && Unit(n + 1) == Double(u)
  {
    LowOfDouble(u);
  }

  lemma FirstUnit()
    ensures Unit(0) == 1
  {
  }

  lemma Units0()
    ensures SoundUnit(0) && SoundUnit(1) && SoundUnit(2) && SoundUnit(3) && SoundUnit(4) && SoundUnit(5)
    ensures SoundUnit(6) && SoundUnit(7) && Unit(8) == 0x100
  {
    hide SoundUnit, Unit;
    FirstUnit();
    NextUnit(0, 0x1); NextUnit(1, 0x2); NextUnit(2, 0x4); NextUnit(3, 0x8); NextUnit(4, 0x10); NextUnit(5,
        0x20); NextUnit(6, 0x40); NextUnit(7, 0x80);
  }

  lemma Units8()
    requires Unit(8) == 0x100
    ensures SoundUnit(8) && SoundUnit(9) && SoundUnit(10) && SoundUnit(11) && SoundUnit(12) && SoundUnit(13)
    ensures SoundUnit(14) && SoundUnit(15) && Unit(16) == 0x10000
  {
    hide SoundUnit, Unit;
    NextUnit(8, 0x100); NextUnit(9, 0x200); NextUnit(10, 0x400); NextUnit(11, 0x800); NextUnit(12,
        0x1000); NextUnit(13, 0x2000); NextUnit(14, 0x4000); NextUnit(15, 0x8000);
  }

  lemma Units16()
    requires Unit(16) == 0x10000
    ensures SoundUnit(16) && SoundUnit(17) && SoundUnit(18) && SoundUnit(19) && SoundUnit(20) && SoundUnit(21)
    ensures SoundUnit(22) && SoundUnit(23) && Unit(24) == 0x1000000
  {
    hide SoundUnit, Unit;
    NextUnit(16, 0x10000); NextUnit(17, 0x20000); NextUnit(18, 0x40000); NextUnit(19, 0x80000); NextUnit(20,
        0x100000); NextUnit(21, 0x200000); NextUnit(22, 0x400000); NextUnit(23, 0x800000);
  }

  lemma Units24()
    requires Unit(24) == 0x1000000
    ensures SoundUnit(24) && SoundUnit(25) && SoundUnit(26) && SoundUnit(27) && SoundUnit(28) && SoundUnit(29)
    ensures SoundUnit(30)
  {
    hide SoundUnit, Unit;
    NextUnit(24, 0x1000000); NextUnit(25, 0x2000000); NextUnit(26, 0x4000000); NextUnit(27, 0x8000000); NextUnit(28,
        0x10000000); NextUnit(29, 0x20000000); NextUnit(30, 0x40000000);
  }

  lemma AllUnits(n: nat)
    requires n < 31
    ensures SoundUnit(n)
  {
    hide SoundUnit, Unit;
    Units0();
    Units8();
    Units16();
    Units24();
  }

  /** Shifting a unit. */
  lemma StepUnit(n: nat)
    requires n < 32
    ensures Step(Unit(n)) == if n == 0 then POLY else Unit(n - 1)
  {
    hide Xor, Half, Low;
    Self(POLY);
    if n == 0 {
      OneHalf();
    } else {
      AllUnits(n - 1);
      Self(Unit(n - 1));
    }
  }

  lemma OneHalf()
    ensures Half(1) == 0 && Low(1)
  {
  }

  // ---------- Matrices ----------

  /** The matrix of the operator that shifts a register by so many bits. */
  ghost predicate Shifts(mat: seq<bv32>, bits: nat) {
    |mat| == 32 && forall n | 0 <= n < 32 :: mat[n] == Steps(Unit(n), bits)
  }

  function DoubleN(v: bv32, n: nat): bv32
    decreases n
  {
    if n == 0 then v else DoubleN(Double(v), n - 1)
  }

  lemma DoubleXor(x: bv32, y: bv32)
    ensures Double(Xor(x, y)) == Xor(Double(x), Double(y))
  {
  }

  lemma {:induction false} DoubleNXor(x: bv32, y: bv32, n: nat)
    ensures DoubleN(Xor(x, y), n) == Xor(DoubleN(x, n), DoubleN(y, n))
    decreases n
  {
    if n > 0 {
      hide Xor, Double;
      DoubleXor(x, y);
      DoubleNXor(Double(x), Double(y), n - 1);
    }
  }

  lemma {:induction false} DoubleNUnit(k: nat, n: nat)
    ensures DoubleN(Unit(k), n) == Unit(k + n)
    decreases n
  {
    if n > 0 {
      hide Double;
      assert Double(Unit(k)) == Unit(k + 1);
      DoubleNUnit(k + 1, n - 1);
    }
  }

  function LowBit(v: bv32): bv32 {
    if Low(v) then 1 else 0
  }

  lemma SplitLow(v: bv32)
    ensures v == Xor(LowBit(v), Double(Half(v)))
  {
    LowBitIs(v);
    RawSplit(v);
  }

  lemma LowBitIs(v: bv32)
    ensures LowBit(v) == v & 1
  {
  }

  lemma RawSplit(v: bv32)
    ensures v == (v & 1) ^ ((v >> 1) << 1)
  {
  }

  lemma {:induction false} DoubleNZero(n: nat)
    ensures DoubleN(0, n) == 0
    decreases n
  {
    if n > 0 {
      assert Double(0) == 0;
      DoubleNZero(n - 1);
    }
  }

  /** The lowest bit of v, and the others, on n places. */
  lemma SplitAt(v: bv32, n: nat)
    ensures DoubleN(v, n) == Xor(if Low(v) then Unit(n) else 0, DoubleN(Half(v), n + 1))
  {
    SplitLow(v);
    hide Xor, Double, Half, Low;
    DoubleNXor(LowBit(v), Double(Half(v)), n);
    DoubleNZero(n);
    FirstUnit();
    DoubleNUnit(0, n);
  }

  lemma Gone32(v: bv32)
    ensures HalfN(v, 32) == 0
  {
    hide Half, HalfN, Shr8;
    HalfAdd(v, 8, 24);
    HalfAdd(Shr8(v), 8, 16);
    HalfAdd(Shr8(Shr8(v)), 8, 8);
    HalfEight(v);
    HalfEight(Shr8(v));
    HalfEight(Shr8(Shr8(v)));
    HalfEight(Shr8(Shr8(Shr8(v))));
    FourGone(v);
  }

  lemma FourGone(v: bv32)
    ensures Shr8(Shr8(Shr8(Shr8(v)))) == 0
  {
  }

  lemma NoBits(v: bv32, n: nat)
    requires HalfN(v, n) == 0 && v != 0
    ensures n > 0 && HalfN(Half(v), n - 1) == 0
  {
  }

  /** Multiply a matrix with a vector. */
  method MatrixTimes(mat: array<bv32>, vec0: bv32, ghost bits: nat) returns (sum: bv32)
    requires Shifts(mat[..], bits)
    ensures sum == Steps(vec0, bits)
  {
    hide Xor, Half, Low, Steps, Unit, DoubleN, HalfN;
    sum := 0;
    var vec, i := vec0, 0;
    Gone32(vec);
    NothingDone(vec, bits);
    while vec != 0
      invariant 0 <= i <= 32 && HalfN(vec, 32 - i) == 0
      invariant Steps(vec0, bits) == Xor(sum, Steps(DoubleN(vec, i), bits))
      decreases 32 - i
    {
      NoBits(vec, 32 - i);
      SplitAt(vec, i);
      TakeBit(sum, if Low(vec) then Unit(i) else 0, DoubleN(Half(vec), i + 1), bits);
      assert mat[i] == mat[..][i];
      if Low(vec) {
        sum := Xor(sum, mat[i]);
      }
      vec := Half(vec);
      i := i + 1;
    }
    NothingLeft(sum, i, bits);
  }

  lemma NothingDone(v: bv32, bits: nat)
    ensures Steps(v, bits) == Xor(0, Steps(DoubleN(v, 0), bits))
  {
    hide Xor;
    Self(Steps(v, bits));
  }

  lemma NothingLeft(sum: bv32, i: nat, bits: nat)
    ensures Xor(sum, Steps(DoubleN(0, i), bits)) == sum
  {
    hide Xor;
    DoubleNZero(i);
    StepsZero(0, bits);
    Self(sum);
  }

  lemma TakeBit(sum: bv32, a: bv32, rest: bv32, bits: nat)
    ensures Xor(sum, Steps(Xor(a, rest), bits)) == Xor(Xor(sum, Steps(a, bits)), Steps(rest, bits))
    ensures a == 0 ==> Xor(sum, Steps(a, bits)) == sum
  {
    hide Xor, Steps;
    StepsLinear(a, rest, bits);
    Assoc(sum, Steps(a, bits), Steps(rest, bits));
    StepsZero(0, bits);
    Self(sum);
  }

  /** Multiply a matrix by itself: the operator is applied twice. */
  method MatrixSquare(square: array<bv32>, mat: array<bv32>, ghost bits: nat)
    requires square != mat && square.Length == 32 && Shifts(mat[..], bits)
    modifies square
    ensures Shifts(square[..], 2 * bits)
  {
    hide Steps, Unit;
    var n := 0;
    while n < 32
      invariant 0 <= n <= 32 && Shifts(mat[..], bits)
      invariant forall j | 0 <= j < n :: square[j] == Steps(Unit(j), 2 * bits)
    {
      assert mat[n] == mat[..][n];
      StepsAdd(Unit(n), bits, bits);
      square[n] := MatrixTimes(mat, mat[n], bits);
      n := n + 1;
    }
  }

  /** The largest power of two that is at most len, or 1. */
  function TopPower(len: nat): nat {
    if len <= 1 then 1 else 2 * TopPower(len / 2)
  }

  lemma {:induction false} TopOfPower(m: nat)
    ensures TopPower(Pow2(m)) == Pow2(m)
  {
    if m > 0 {
      assert Pow2(m) / 2 == Pow2(m - 1);
      TopOfPower(m - 1);
      PowerPositive(m - 1);
    }
  }

  lemma {:induction false} PowerPositive(m: nat)
    ensures Pow2(m) >= 1
  {
    if m > 0 {
      PowerPositive(m - 1);
    }
  }

  /** With the operator for u bits at hand, the one for len0 bytes is still to be squared as often
      as len, doubled, can be halved. */
  ghost predicate Remains(u: nat, len: nat, len0: nat) {
    2 * (u * TopPower(len)) == 8 * TopPower(len0)
  }

  lemma RemainsStart(len: nat)
    ensures Remains(4, len, len)
  {
  }

  lemma RemainsHalf(u: nat, len: nat, len0: nat)
    requires Remains(u, len, len0)
    ensures len / 2 == 0 ==> 2 * u == 8 * TopPower(len0)
    ensures len / 2 > 0 ==> Remains(2 * u, len / 2, len0)
  {
    if len / 2 > 0 {
      var t := TopPower(len / 2);
      assert TopPower(len) == 2 * t;
      assert u * (2 * t) == (2 * u) * t;
    }
  }

  /** Construct the operator that applies len zero bytes, for len a power of two; for another len,
      the largest power of two below counts. */
  method ZerosOp(even: array<bv32>, len0: nat)
    requires even.Length == 32
    modifies even
    ensures Shifts(even[..], 8 * TopPower(len0))
  {
    hide Shifts, Step, Steps, Remains, TopPower;
    var odd := new bv32[32];
    OneZeroBit(odd);
    MatrixSquareOf(even, odd, 1);
    MatrixSquareOf(odd, even, 2);
    var len := len0;
    ghost var u: nat := 4;
    RemainsStart(len0);
    while true
      invariant Remains(u, len, len0)
      invariant odd != even && odd.Length == 32 == even.Length && Shifts(odd[..], u)
      decreases len
    {
      RemainsHalf(u, len, len0);
      MatrixSquareOf(even, odd, u);
      len := len / 2;
      if len == 0 {
        return;
      }
      RemainsHalf(2 * u, len, len0);
      MatrixSquareOf(odd, even, 2 * u);
      len := len / 2;
      u := 2 * (2 * u);
      if len == 0 {
        break;
      }
    }
    var n := 0;
    while n < 32
      invariant 0 <= n <= 32 && forall j | 0 <= j < n :: even[j] == odd[j]
      invariant Shifts(odd[..], 8 * TopPower(len0))
    {
      even[n] := odd[n];
      n := n + 1;
    }
    assert even[..] == odd[..];
  }

  method MatrixSquareOf(square: array<bv32>, mat: array<bv32>, ghost bits: nat)
    requires square != mat && square.Length == 32 && mat.Length == 32 && Shifts(mat[..], bits)
    modifies square
    ensures Shifts(square[..], 2 * bits)
  {
    MatrixSquare(square, mat, bits);
  }

  /** The operator for one zero bit. */
  method OneZeroBit(odd: array<bv32>)
    requires odd.Length == 32
    modifies odd
    ensures Shifts(odd[..], 1)
  {
    hide Step, Unit;
    odd[0] := POLY;
    FirstUnit();
    StepUnit(0);
    StepsOne(Unit(0));
    var row: bv32 := 1;
    var n := 1;
    while n < 32
      invariant 1 <= n <= 32 && row == Unit(n - 1)
      invariant forall j | 0 <= j < n :: odd[j] == Steps(Unit(j), 1)
    {
      StepUnit(n);
      StepsOne(Unit(n));
      odd[n] := row;
      DoubleUnit(n - 1);
      row := Double(row);
      n := n + 1;
    }
  }

  lemma DoubleUnit(n: nat)
    ensures Double(Unit(n)) == Unit(n + 1)
  {
  }

  lemma StepsOne(x: bv32)
    ensures Steps(x, 1) == Step(x)
  {
    hide Step;
  }

  // ---------- Shifting by table ----------

  /** Byte b in place k of a register. */
  function Place(b: bv8, k: int): bv32 {
    if k == 0 then b as bv32
    else if k == 1 then (b as bv32) << 8
    else if k == 2 then (b as bv32) << 16
    else (b as bv32) << 24
  }

  ghost predicate ShiftTable(zeros: array2<bv32>, bits: nat)
    reads zeros
  {
    zeros.Length0 == 4 && zeros.Length1 == 256 &&
    forall k, n | 0 <= k < 4 && 0 <= n < 256 :: zeros[k, n] == Steps(Place(AsByte(n), k), bits)
  }

  /** Build the tables that apply the operator a byte at a time. */
  method ZerosTable(len: nat) returns (zeros: array2<bv32>)
    ensures fresh(zeros) && ShiftTable(zeros, 8 * TopPower(len))
  {
    hide Steps, Shifts, Place, TopPower;
    var op := new bv32[32];
    ZerosOp(op, len);
    zeros := new bv32[4, 256];
    FillTable(zeros, op, 8 * TopPower(len));
  }

  method FillTable(zeros: array2<bv32>, op: array<bv32>, ghost bits: nat)
    requires zeros.Length0 == 4 && zeros.Length1 == 256 && Shifts(op[..], bits)
    modifies zeros
    ensures ShiftTable(zeros, bits)
  {
    hide Steps, Shifts, Place, AsByte;
    var n := 0;
    while n < 256
      invariant 0 <= n <= 256
      invariant forall k, j | 0 <= k < 4 && 0 <= j < n :: zeros[k, j] == Steps(Place(AsByte(j), k), bits)
    {
      var z0 := MatrixTimes(op, Place(AsByte(n), 0), bits);
      var z1 := MatrixTimes(op, Place(AsByte(n), 1), bits);
      var z2 := MatrixTimes(op, Place(AsByte(n), 2), bits);
      var z3 := MatrixTimes(op, Place(AsByte(n), 3), bits);
      zeros[0, n], zeros[1, n], zeros[2, n], zeros[3, n] := z0, z1, z2, z3;
      n := n + 1;
    }
  }

  /** Byte k of a register. */
  function ByteAt(x: bv32, k: int): bv8 {
    if k == 0 then (x & 0xff) as bv8
    else if k == 1 then ((x >> 8) & 0xff) as bv8
    else if k == 2 then ((x >> 16) & 0xff) as bv8
    else (x >> 24) as bv8
  }

  lemma InPlaces(x: bv32)
    ensures x == Xor(Xor(Xor(Place(ByteAt(x, 0), 0), Place(ByteAt(x, 1), 1)), Place(ByteAt(x, 2), 2)),
                     Place(ByteAt(x, 3), 3))
  {
    RawPlaces(x);
  }

  lemma RawPlaces(x: bv32)
    ensures x == ((((x & 0xff) ^ (((x >> 8) & 0xff) << 8)) ^ (((x >> 16) & 0xff) << 16)) ^ ((x >> 24) << 24))
  {
  }

  /** Apply the operator by four lookups. */
  method Shift(zeros: array2<bv32>, crc: bv32, ghost bits: nat) returns (r: bv32)
    requires ShiftTable(zeros, bits)
    ensures r == Steps(crc, bits)
  {
    hide Xor, Steps, Place, ByteAt, Index, AsByte;
    InPlaces(crc);
    var a, b, c, d := ByteAt(crc, 0), ByteAt(crc, 1), ByteAt(crc, 2), ByteAt(crc, 3);
    StepsLinear(Place(a, 0), Place(b, 1), bits);
    StepsLinear(Xor(Place(a, 0), Place(b, 1)), Place(c, 2), bits);
    StepsLinear(Xor(Xor(Place(a, 0), Place(b, 1)), Place(c, 2)), Place(d, 3), bits);
    r := Xor(Xor(Xor(zeros[0, Index(a)], zeros[1, Index(b)]), zeros[2, Index(c)]), zeros[3, Index(d)]);
  }

  /** Shifting by table is feeding that many zero bytes, for a power of two. */
  lemma ShiftIsZeros(crc: bv32, m: nat)
    ensures Steps(crc, 8 * TopPower(Pow2(m))) == CrcRegister(crc, Zeros(Pow2(m)))
  {
    hide Steps, CrcRegister, TopPower, Pow2;
    TopOfPower(m);
    ZeroBytes(crc, Pow2(m));
  }

  // ---------- Three lanes ----------

  /** What the instruction for eight bytes does, as eight steps of a byte. */
  function Crc32q(crc: bv32, d: seq<bv8>): bv32
    requires |d| == 8
  {
    CrcRegister(crc, d)
  }

  function Crc32b(crc: bv32, b: bv8): bv32 {
    CrcRegister(crc, [b])
  }

  lemma Further(start: bv32, buf: seq<bv8>, from: nat, i: nat, n: nat)
    requires from <= i && i + n <= |buf|
    ensures CrcRegister(start, buf[from..i + n]) == CrcRegister(CrcRegister(start, buf[from..i]), buf[i..i + n])
    ensures n == 1 ==> buf[i..i + n] == [buf[i]]
  {
    hide CrcRegister;
    assert buf[from..i + n] == buf[from..i] + buf[i..i + n];
    RegisterJoin(start, buf[from..i], buf[i..i + n]);
  }

  /** Three blocks at once, the second and the third from an empty register; then shift and add. */
  method ThreeLanes(zeros: array2<bv32>, crc: bv32, buf: seq<bv8>, start: nat, block: nat) returns (r: bv32)
    requires ShiftTable(zeros, 8 * block) && block > 0 && block % 8 == 0 && start + 3 * block <= |buf|
    ensures r == CrcRegister(crc, buf[start..start + 3 * block])
  {
    hide Xor, Steps, CrcRegister, ShiftTable;
    var crc0, crc1, crc2 := crc, 0, 0;
    var next, end := start, start + block;
    RegisterEmpty(crc);
    RegisterEmpty(0);
    assert buf[start..start] == [] && buf[end..end] == [] && buf[start + 2 * block..start + 2 * block] == [];
    while next < end
      invariant start <= next <= end && (next - start) % 8 == 0 && ShiftTable(zeros, 8 * block)
      invariant crc0 == CrcRegister(crc, buf[start..next])
      invariant crc1 == CrcRegister(0, buf[end..next + block])
      invariant crc2 == CrcRegister(0, buf[end + block..next + 2 * block])
    {
      Further(crc, buf, start, next, 8);
      Further(0, buf, end, next + block, 8);
      Further(0, buf, end + block, next + 2 * block, 8);
      crc0 := Crc32q(crc0, buf[next..next + 8]);
      crc1 := Crc32q(crc1, buf[next + block..next + block + 8]);
      crc2 := Crc32q(crc2, buf[next + 2 * block..next + 2 * block + 8]);
      next := next + 8;
    }
    var a, b, c := buf[start..end], buf[end..end + block], buf[end + block..end + 2 * block];
    assert buf[start..start + 3 * block] == a + b + c;
    ThreePieces(crc, a, b, c);
    crc0 := Shift(zeros, crc0, 8 * block);
    crc0 := Xor(crc0, crc1);
    crc0 := Shift(zeros, crc0, 8 * block);
    r := Xor(crc0, crc2);
  }

  lemma BlockSizes()
    ensures TopPower(LONG) == LONG && TopPower(SHORT) == SHORT
  {
    assert TopPower(1) == 1;
    assert TopPower(16) == 16 by {
      assert TopPower(4) == 4;
    }
    assert TopPower(256) == 256 by {
      assert TopPower(64) == 64;
    }
    assert TopPower(4096) == 4096 by {
      assert TopPower(1024) == 1024;
    }
  }

  /** The CRC by hardware steps, with the tables built. */
  method Hw(crc0: bv32, buf: seq<bv8>, address: nat) returns (r: bv32)
    ensures r == Crc32c(crc0, buf)
  {
    hide Not, CrcRegister, ShiftTable, TopPower;
    BlockSizes();
    var long := ZerosTable(LONG);
    var short := ZerosTable(SHORT);
    r := HwTables(long, short, crc0, buf, address);
  }

  /** Three blocks at a time, as long as there are that many. */
  method HwBlocks(zeros: array2<bv32>, block: nat, ghost start: bv32, crc0: bv32, buf: seq<bv8>, next0: nat, len0: nat)
    returns (crc: bv32, next: nat, len: nat)
    requires ShiftTable(zeros, 8 * block) && block > 0 && block % 8 == 0
    requires next0 + len0 == |buf| && crc0 == CrcRegister(start, buf[0..next0])
    ensures next + len == |buf| && crc == CrcRegister(start, buf[0..next])
  {
    hide CrcRegister, ShiftTable;
    crc, next, len := crc0, next0, len0;
    while len >= block * 3
      invariant next + len == |buf| && crc == CrcRegister(start, buf[0..next])
    {
      Further(start, buf, 0, next, 3 * block);
      crc := ThreeLanes(zeros, crc, buf, next, block);
      next, len := next + block * 3, len - block * 3;
    }
  }

  method HwTables(long: array2<bv32>, short: array2<bv32>, crc0: bv32, buf: seq<bv8>, address: nat) returns (r: bv32)
    requires ShiftTable(long, 8 * LONG) && ShiftTable(short, 8 * SHORT)
    ensures r == Crc32c(crc0, buf)
  {
    hide Not, CrcRegister, ShiftTable;
    var next, len := 0, |buf|;
    var crc := Not(crc0);
    RegisterEmpty(crc);
    assert buf[0..0] == [];
    while len > 0 && (address + next) % 8 != 0
      invariant 0 <= next <= |buf| && len == |buf| - next && crc == CrcRegister(Not(crc0), buf[0..next])
    {
      Further(Not(crc0), buf, 0, next, 1);
      crc := Crc32b(crc, buf[next]);
      next, len := next + 1, len - 1;
    }
    crc, next, len := HwBlocks(long, LONG, Not(crc0), crc, buf, next, len);
    crc, next, len := HwBlocks(short, SHORT, Not(crc0), crc, buf, next, len);
    var end := next + (len - len % 8);
    while next < end
      invariant 0 <= next <= end <= |buf| && (end - next) % 8 == 0 && crc == CrcRegister(Not(crc0), buf[0..next])
    {
      Further(Not(crc0), buf, 0, next, 8);
      crc := Crc32q(crc, buf[next..next + 8]);
      next := next + 8;
    }
    len := len % 8;
    while len > 0
      invariant 0 <= next <= |buf| && len == |buf| - next && crc == CrcRegister(Not(crc0), buf[0..next])
    {
      Further(Not(crc0), buf, 0, next, 1);
      crc := Crc32b(crc, buf[next]);
      next, len := next + 1, len - 1;
    }
    assert buf[0..next] == buf;
    r := Not(crc);
  }
}
