/** The table-driven CRC-32C in software, eight bytes at a time. */
module Crc32cSoftware {
  import opened Crc32cSpec

  /** What byte b adds to the register if n bytes follow from it on. */
  function Lane(b: bv8, n: nat): bv32 {
    Steps(b as bv32, 8 * n)
  }

  /** What all bytes of d add. */
  function Spread(d: seq<bv8>): bv32
    decreases |d|
  {
    if d == [] then 0 else Xor(Lane(d[0], |d|), Spread(d[1..]))
  }

  lemma {:induction false} SpreadIsRegister(x: bv32, d: seq<bv8>)
    requires x == 0
    ensures CrcRegister(x, d) == Spread(d)
    decreases |d|
  {
    hide Xor, Steps, CrcRegister;
    if d == [] {
      RegisterEmpty(0);
    } else {
      var y, rest := d[0] as bv32, d[1..];
      assert d == [d[0]] + rest;
      RegisterFirst(0, d[0], rest);
      Self(y);
      RegisterLinear(Steps(y, 8), rest);
      StepsAdd(y, 8, 8 * |rest|);
      SpreadIsRegister(x, rest);
    }
  }

  function Xor8(x: bv8, y: bv8): bv8 { x ^ y }

  function XorBytes(a: seq<bv8>, b: seq<bv8>): seq<bv8>
    requires |a| == |b|
  {
    seq(|a|, i requires 0 <= i < |a| && |a| == |b| => Xor8(a[i], b[i]))
  }

  lemma LaneXor(a: bv8, b: bv8, n: nat)
    ensures Lane(Xor8(a, b), n) == Xor(Lane(a, n), Lane(b, n))
  {
    Widen(a, b);
    hide Xor, Steps, Xor8;
    StepsLinear(a as bv32, b as bv32, 8 * n);
  }

  lemma Widen(a: bv8, b: bv8)
    ensures Xor8(a, b) as bv32 == Xor(a as bv32, b as bv32)
  {
  }

  lemma {:induction false} SpreadXor(a: seq<bv8>, b: seq<bv8>)
    requires |a| == |b|
    ensures |XorBytes(a, b)| == |a| && Spread(XorBytes(a, b)) == Xor(Spread(a), Spread(b))
    decreases |a|
  {
    hide Xor, Lane, Xor8;
    if a == [] {
      Self(0);
    } else {
      assert XorBytes(a, b)[1..] == XorBytes(a[1..], b[1..]);
      SpreadXor(a[1..], b[1..]);
      LaneXor(a[0], b[0], |a|);
      Swap4(Lane(a[0], |a|), Lane(b[0], |a|), Spread(a[1..]), Spread(b[1..]));
    }
  }

  function Shr8N(x: bv32, n: nat): bv32
    decreases n
  {
    if n == 0 then x else Shr8N(Shr8(x), n - 1)
  }

  /** The bytes of a register, lowest first. */
  function Bytes(x: bv32, n: nat): seq<bv8> {
    seq(n, i requires 0 <= i < n => LowByte(Shr8N(x, i)))
  }

  lemma {:induction false} StepsSpread(x: bv32, n: nat)
    requires Shr8N(x, n) == 0
    ensures |Bytes(x, n)| == n && Steps(x, 8 * n) == Spread(Bytes(x, n))
    decreases n
  {
    hide Xor, Steps, LowByte, Shr8;
    if n == 0 {
      StepsNone(x);
    } else {
      StepsSpread(Shr8(x), n - 1);
      assert Bytes(x, n)[1..] == Bytes(Shr8(x), n - 1) && Bytes(x, n)[0] == LowByte(x);
      LowByteApart(x, 8 * (n - 1));
    }
  }

  lemma {:induction false} ZeroShifted(n: nat)
    ensures Shr8N(0, n) == 0
  {
    if n > 0 {
      assert Shr8(0) == 0;
      ZeroShifted(n - 1);
    }
  }

  lemma FourBytesGone(x: bv32)
    ensures Shr8(Shr8(Shr8(Shr8(x)))) == 0
  {
  }

  /** Eight bytes at once: each byte of the word, the register added to its lower half, is on its
      own lane. */
  lemma EightBytes(crc: bv32, d: seq<bv8>)
    requires |d| == 8
    ensures |Bytes(crc, 8)| == 8 && |XorBytes(Bytes(crc, 8), d)| == 8
    ensures CrcRegister(crc, d) == Spread(XorBytes(Bytes(crc, 8), d))
  {
    hide Xor, Steps, CrcRegister, Spread, XorBytes, Bytes, Shr8N;
    FourGone(crc, 4);
    StepsSpread(crc, 8);
    RegisterLinear(crc, d);
    SpreadIsRegister(0, d);
    SpreadXor(Bytes(crc, 8), d);
  }

  // ---------- The word that the program works on ----------

  function Load(d: seq<bv8>): bv64
    requires |d| == 8
  {
    (d[0] as bv64) | ((d[1] as bv64) << 8) | ((d[2] as bv64) << 16) | ((d[3] as bv64) << 24)
    | ((d[4] as bv64) << 32) | ((d[5] as bv64) << 40) | ((d[6] as bv64) << 48) | ((d[7] as bv64) << 56)
  }

  /** The eight bytes of a word, lowest first. */
  function WordBytes(w: bv64): seq<bv8> {
    [(w & 0xff) as bv8, ((w >> 8) & 0xff) as bv8, ((w >> 16) & 0xff) as bv8, ((w >> 24) & 0xff) as bv8,
     ((w >> 32) & 0xff) as bv8, ((w >> 40) & 0xff) as bv8, ((w >> 48) & 0xff) as bv8, (w >> 56) as bv8]
  }

  lemma WordLow(c: bv32, d: seq<bv8>)
    requires |d| == 8
    ensures var w := (c as bv64) ^ Load(d);
            && (w & 0xff) as bv8 == Xor8((c & 0xff) as bv8,
                                         d[0]) && ((w >> 8) & 0xff) as bv8 == Xor8(((c >> 8) & 0xff) as bv8, d[1])
            && ((w >> 16) & 0xff) as bv8 == Xor8(((c >> 16) & 0xff) as bv8,
                                                 d[2]) && ((w >> 24) & 0xff) as bv8 == Xor8((c >> 24) as bv8, d[3])
  {
  }

  lemma WordHigh(c: bv32, d: seq<bv8>)
    requires |d| == 8
    ensures var w := (c as bv64) ^ Load(d);
            && ((w >> 32) & 0xff) as bv8 == d[4] && ((w >> 40) & 0xff) as bv8 == d[5]
            && ((w >> 48) & 0xff) as bv8 == d[6] && (w >> 56) as bv8 == d[7]
  {
  }

  lemma BytesOf(c: bv32)
    ensures LowByte(c) == (c & 0xff) as bv8 && LowByte(Shr8(c)) == ((c >> 8) & 0xff) as bv8
    ensures LowByte(Shr8(Shr8(c))) == ((c >> 16) & 0xff) as bv8 && LowByte(Shr8(Shr8(Shr8(c)))) == (c >> 24) as bv8
    ensures LowByte(0) == 0 && Shr8(0) == 0
  {
  }

  lemma RegisterBytes(c: bv32)
    ensures Bytes(c, 8) == [(c & 0xff) as bv8, ((c >> 8) & 0xff) as bv8, ((c >> 16) & 0xff) as bv8,
                            (c >> 24) as bv8, 0, 0, 0, 0]
  {
    hide LowByte, Shr8;
    BytesOf(c);
    FourBytesGone(c);
    assert Shr8N(c, 1) == Shr8(c);
    assert Shr8N(c, 2) == Shr8(Shr8(c));
    assert Shr8N(c, 3) == Shr8(Shr8(Shr8(c)));
    FourGone(c, 0);
    FourGone(c, 1);
    FourGone(c, 2);
    FourGone(c, 3);
  }

  lemma FourGone(x: bv32, n: nat)
    ensures Shr8N(x, 4 + n) == 0
  {
    hide Shr8;
    assert Shr8N(x, 4 + n) == Shr8N(Shr8(x), 3 + n);
    assert Shr8N(x, 4 + n) == Shr8N(Shr8(Shr8(x)), 2 + n);
    assert Shr8N(x, 4 + n) == Shr8N(Shr8(Shr8(Shr8(x))), 1 + n);
    assert Shr8N(x, 4 + n) == Shr8N(Shr8(Shr8(Shr8(Shr8(x)))), n);
    FourBytesGone(x);
    ZeroShifted(n);
  }

  lemma XorEight(a: seq<bv8>, b: seq<bv8>)
    requires |a| == |b| == 8
    ensures XorBytes(a, b) ==
            [Xor8(a[0], b[0]), Xor8(a[1], b[1]), Xor8(a[2], b[2]), Xor8(a[3], b[3]),
             Xor8(a[4], b[4]), Xor8(a[5], b[5]), Xor8(a[6], b[6]), Xor8(a[7], b[7])]
  {
    hide Xor8;
  }

  lemma ZeroXor(d: bv8)
    ensures Xor8(0, d) == d
  {
  }

  /** The bytes of the word are those of register and data together. */
  lemma WordIsXor(c: bv32, d: seq<bv8>)
    requires |d| == 8
    ensures |Bytes(c, 8)| == 8 && WordBytes((c as bv64) ^ Load(d)) == XorBytes(Bytes(c, 8), d)
  {
    WordLow(c, d);
    WordHigh(c, d);
    hide Load, Bytes, XorBytes, Xor8;
    RegisterBytes(c);
    XorEight(Bytes(c, 8), d);
    ZeroXor(d[4]);
    ZeroXor(d[5]);
    ZeroXor(d[6]);
    ZeroXor(d[7]);
  }

  // ---------- Tables ----------

  function Entry(n: int, k: nat): bv32
    requires 0 <= n < 256
  {
    Lane(AsByte(n), k + 1)
  }

  /** Table k shifts a byte on by k + 1 bytes. */
  ghost predicate Tables(t: array2<bv32>)
    reads t
  {
    t.Length0 == 8 && t.Length1 == 256 && forall k, n | 0 <= k < 8 && 0 <= n < 256 :: t[k, n] == Entry(n, k)
  }

  /** Where byte b is looked up. */
  lemma Lookup(t: array2<bv32>, b: bv8, k: int)
    requires Tables(t) && 0 <= k < 8
    ensures t.Length0 == 8 && t.Length1 == 256 && t[k, Index(b)] == Lane(b, k + 1)
  {
    hide Lane, Index, AsByte;
  }

  lemma FirstEntry(x: bv32)
    ensures Steps(x, 8) == Step(Step(Step(Step(Step(Step(Step(Step(x))))))))
  {
    hide Step;
    var y := Step(Step(Step(Step(x))));
    assert Steps(x, 8) == Steps(Step(Step(x)), 6) == Steps(y, 4);
    assert Steps(y, 4) == Steps(Step(Step(y)), 2);
  }

  /** A table entry from the one before. */
  lemma NextEntry(b: bv8, k: nat)
    ensures Lane(b, k + 1) == Xor(Lane(LowByte(Lane(b, k)), 1), Shr8(Lane(b, k)))
  {
    hide Steps, Xor, LowByte, Shr8;
    StepsAdd(b as bv32, 8 * k, 8);
    EightSteps(Lane(b, k));
  }

  /** Construct the tables. */
  method InitSwLittle() returns (t: array2<bv32>)
    ensures fresh(t) && Tables(t)
  {
    hide Step, Steps, Lane, Xor, LowByte, Shr8, AsByte, Index;
    t := new bv32[8, 256];
    var n := 0;
    while n < 256
      invariant 0 <= n <= 256 && forall j | 0 <= j < n :: t[0, j] == Entry(j, 0)
    {
      var crc := (AsByte(n)) as bv32;
      FirstEntry(crc);
      FirstLane(AsByte(n));
      crc := Step(crc);
      crc := Step(crc);
      crc := Step(crc);
      crc := Step(crc);
      crc := Step(crc);
      crc := Step(crc);
      crc := Step(crc);
      crc := Step(crc);
      t[0, n] := crc;
      n := n + 1;
    }
    n := 0;
    while n < 256
      invariant 0 <= n <= 256 && forall j | 0 <= j < 256 :: t[0, j] == Entry(j, 0)
      invariant forall k, j | 1 <= k < 8 && 0 <= j < n :: t[k, j] == Entry(j, k)
    {
      var crc := t[0, n];
      var k := 1;
      while k < 8
        invariant 1 <= k <= 8 && crc == Entry(n, k - 1)
        invariant forall j | 0 <= j < 256 :: t[0, j] == Entry(j, 0)
        invariant forall i, j | 1 <= i < 8 && 0 <= j < n :: t[i, j] == Entry(j, i)
        invariant forall i | 1 <= i < k :: t[i, n] == Entry(n, i)
      {
        NextEntry(AsByte(n), k);
        crc := Xor(t[0, Index(LowByte(crc))], Shr8(crc));
        t[k, n] := crc;
        k := k + 1;
      }
      n := n + 1;
    }
  }

  lemma FirstLane(b: bv8)
    ensures Lane(b, 1) == Steps(b as bv32, 8)
  {
  }

  // ---------- The CRC ----------

  /** One byte by table. */
  lemma ByteByTable(crc: bv32, b: bv8)
    ensures Steps(Xor(crc, b as bv32), 8) == Xor(Lane(LowByte(Xor(crc, b as bv32)), 1), Shr8(crc))
  {
    hide Steps, Xor, LowByte, Shr8;
    EightSteps(Xor(crc, b as bv32));
    Shr8Byte(crc, b);
    FirstLane(LowByte(Xor(crc, b as bv32)));
  }

  method ByteStep(t: array2<bv32>, crc: bv32, b: bv8) returns (r: bv32)
    requires Tables(t)
    ensures r == CrcRegister(crc, [b])
  {
    hide Steps, Xor, LowByte, Shr8, Lane, CrcRegister;
    var i := LowByte(Xor(crc, b as bv32));
    Lookup(t, i, 0);
    r := Xor(t[0, Index(i)], Shr8(crc));
    ByteByTable(crc, b);
    RegisterFirst(crc, b, []);
    assert [b] + [] == [b];
    RegisterEmpty(Steps(Xor(crc, b as bv32), 8));
  }

  function Widened(x: bv32): bv64 { x as bv64 }

  function Xor64(x: bv64, y: bv64): bv64 { x ^ y }

  /** The lanes added up from the left, as the program does, and from the right. */
  lemma AddLanes(b: seq<bv8>)
    requires |b| == 8
    ensures Spread(b) ==
            Xor(Xor(Xor(Xor(Xor(Xor(Xor(Lane(b[0], 8), Lane(b[1], 7)), Lane(b[2], 6)), Lane(b[3], 5)), Lane(b[4], 4)),
                        Lane(b[5], 3)), Lane(b[6], 2)), Lane(b[7], 1))
  {
    hide Xor, Lane;
    SpreadTail(b, 0);
    SpreadTail(b, 1);
    SpreadTail(b, 2);
    SpreadTail(b, 3);
    SpreadTail(b, 4);
    SpreadTail(b, 5);
    SpreadTail(b, 6);
    SpreadTail(b, 7);
    assert Spread(b[8..]) == 0 && b[0..] == b;
    FromTheLeft(Lane(b[0], 8), Lane(b[1], 7), Lane(b[2], 6), Lane(b[3], 5), Lane(b[4], 4), Lane(b[5], 3),
                Lane(b[6], 2), Lane(b[7], 1));
  }

  lemma SpreadTail(b: seq<bv8>, i: nat)
    requires i < |b|
    ensures Spread(b[i..]) == Xor(Lane(b[i], |b| - i), Spread(b[i + 1..]))
  {
    hide Xor, Lane;
    assert b[i..][1..] == b[i + 1..];
  }

  lemma FromTheLeft(a: bv32, b: bv32, c: bv32, d: bv32, e: bv32, f: bv32, g: bv32, h: bv32)
    ensures Xor(a, Xor(b, Xor(c, Xor(d, Xor(e, Xor(f, Xor(g, Xor(h, 0)))))))) ==
            Xor(Xor(Xor(Xor(Xor(Xor(Xor(a, b), c), d), e), f), g), h)
  {
    hide Xor;
    Self(h);
    Assoc(a, b, Xor(c, Xor(d, Xor(e, Xor(f, Xor(g, h))))));
    Assoc(Xor(a, b), c, Xor(d, Xor(e, Xor(f, Xor(g, h)))));
    Assoc(Xor(Xor(a, b), c), d, Xor(e, Xor(f, Xor(g, h))));
    Assoc(Xor(Xor(Xor(a, b), c), d), e, Xor(f, Xor(g, h)));
    Assoc(Xor(Xor(Xor(Xor(a, b), c), d), e), f, Xor(g, h));
    Assoc(Xor(Xor(Xor(Xor(Xor(a, b), c), d), e), f), g, h);
  }

  /** Eight bytes, by eight lookups in the word. */
  method WordStep(t: array2<bv32>, crcw0: bv64, d: seq<bv8>, ghost crc: bv32) returns (crcw: bv64)
    requires Tables(t) && |d| == 8 && crcw0 == Widened(crc)
    ensures crcw == Widened(CrcRegister(crc, d))
  {
    hide Steps, Xor, Xor64, Lane, CrcRegister, Load, WordBytes, Bytes, XorBytes, Spread, Widened, Index, Tables;
    crcw := Xor64(crcw0, Load(d));
    var b := WordBytes(crcw);
    WordSize(crcw);
    WordIsXored(crc, d);
    EightBytes(crc, d);
    AddLanes(b);
    Lookup(t, b[0], 7);
    Lookup(t, b[1], 6);
    Lookup(t, b[2], 5);
    Lookup(t, b[3], 4);
    Lookup(t, b[4], 3);
    Lookup(t, b[5], 2);
    Lookup(t, b[6], 1);
    Lookup(t, b[7], 0);
    crcw := Widened(Xor(Xor(Xor(Xor(Xor(Xor(Xor(t[7, Index(b[0])], t[6, Index(b[1])]), t[5, Index(b[2])]),
                                        t[4, Index(b[3])]),
                            t[3, Index(b[4])]), t[2, Index(b[5])]), t[1, Index(b[6])]), t[0, Index(b[7])]));
  }

  lemma WordSize(w: bv64)
    ensures |WordBytes(w)| == 8
  {
  }

  lemma WordIsXored(c: bv32, d: seq<bv8>)
    requires |d| == 8
    ensures |Bytes(c, 8)| == 8 && WordBytes(Xor64(Widened(c), Load(d))) == XorBytes(Bytes(c, 8), d)
  {
    hide Load, WordBytes, Bytes, XorBytes;
    WordIsXor(c, d);
  }

  /** The CRC of a buffer that starts at the given address: single bytes up to a multiple of
      eight, then words, then the rest. */
  method SwLittle(crc0: bv32, buf: seq<bv8>, address: nat) returns (r: bv32)
    ensures r == Crc32c(crc0, buf)
  {
    hide CrcRegister, Tables, Not, Widened, Truncated;
    var t := InitSwLittle();
    var next, len := 0, |buf|;
    var crc := Not(crc0);
    RegisterEmpty(crc);
    while len > 0 && (address + next) % 8 != 0
      invariant 0 <= next <= |buf| && len == |buf| - next && Tables(t)
      invariant crc == CrcRegister(Not(crc0), buf[..next])
    {
      Further(Not(crc0), buf, next, 1);
      crc := ByteStep(t, crc, buf[next]);
      next, len := next + 1, len - 1;
    }
    if len >= 8 {
      var crcw := Widened(crc);
      while len >= 8
        invariant 0 <= next <= |buf| && len == |buf| - next && Tables(t)
        invariant crcw == Widened(CrcRegister(Not(crc0), buf[..next]))
      {
        Further(Not(crc0), buf, next, 8);
        crcw := WordStep(t, crcw, buf[next..next + 8], CrcRegister(Not(crc0), buf[..next]));
        next, len := next + 8, len - 8;
      }
      crc := Truncated(crcw);
      TruncatedBack(CrcRegister(Not(crc0), buf[..next]));
    }
    while len > 0
      invariant 0 <= next <= |buf| && len == |buf| - next && Tables(t)
      invariant crc == CrcRegister(Not(crc0), buf[..next])
    {
      Further(Not(crc0), buf, next, 1);
      crc := ByteStep(t, crc, buf[next]);
      next, len := next + 1, len - 1;
    }
    assert buf[..next] == buf;
    r := Not(crc);
  }

  function Truncated(x: bv64): bv32 {
    (x & 0xffff_ffff) as bv32
  }

  lemma TruncatedBack(x: bv32)
    ensures Truncated(Widened(x)) == x
  {
  }

  lemma Further(start: bv32, buf: seq<bv8>, i: nat, n: nat)
    requires i + n <= |buf|
    ensures CrcRegister(start, buf[..i + n]) == CrcRegister(CrcRegister(start, buf[..i]), buf[i..i + n])
    ensures n == 1 ==> buf[i..i + n] == [buf[i]]
  {
    hide CrcRegister;
    assert buf[..i + n] == buf[..i] + buf[i..i + n];
    RegisterJoin(start, buf[..i], buf[i..i + n]);
  }
}
