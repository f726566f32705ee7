/** Rolling a CRC along a window, one byte out and one byte in. */
module CrcSync {
  import opened Crc64

  function Zeros(n: nat): seq<bv8> {
    seq(n, i => 0)
  }

  /** What a byte adds to the CRC of a window that it is the first byte of. */
  ghost function FirstBytePart(b: bv8, wsize: nat): bv64 {
    Steps(Wide(b), 8 * wsize)
  }

  ghost predicate IsUncrcTab(tab: seq<bv64>, wsize: nat) {
    |tab| == 256 && forall i: bv8 :: tab[i as int] == FirstBytePart(i, wsize)
  }

  lemma {:induction false} CrcOfZeros(n: nat)
    ensures Crc(0, Zeros(n)) == 0
    decreases n
  {
    hide Xor, Steps, Crc;
    if n == 0 {
      assert Zeros(0) == [];
      CrcEmpty(0);
    } else {
      assert Zeros(n) == [0] + Zeros(n - 1);
      CrcNext(0, 0, Zeros(n - 1));
      Self(0);
      StepsZero(0, 8);
      CrcOfZeros(n - 1);
    }
  }

  /** The first byte's part can be told from the rest of the window. */
  lemma FirstByteApart(b: bv8, rest: seq<bv8>)
    ensures Crc(0, [b] + rest) == Xor(FirstBytePart(b, 1 + |rest|), Crc(0, rest))
  {
    hide Xor, Steps, Crc, Wide;
    var y := Wide(b);
    CrcNext(0, b, rest);
    Self(y);
    CrcLinear(Steps(y, 8), rest);
    StepsAdd(y, 8, 8 * |rest|);
  }

  method InitUncrcTab(wsize: nat) returns (uncrc: array<bv64>)
    requires wsize > 0
    ensures fresh(uncrc) && IsUncrcTab(uncrc[..], wsize)
  {
    hide Xor, Steps, Crc, FirstBytePart;
    uncrc := new bv64[256];
    var buffer := new bv8[wsize](_ => 0);
    assert buffer[1..] == Zeros(wsize - 1);
    var partCrc := Crc64Iso(0, buffer[1..]);
    CrcOfZeros(wsize - 1);
    for i := 0 to 256
      invariant buffer[1..] == Zeros(wsize - 1)
      invariant forall k: bv8 :: k as int < i ==> uncrc[k as int] == FirstBytePart(k, wsize)
    {
      buffer[0] := i as bv8;
      assert buffer[..] == [i as bv8] + Zeros(wsize - 1);
      var whole := Crc64Iso(0, buffer[..]);
      uncrc[i] := Xor(whole, partCrc);
      FirstByteApart(i as bv8, Zeros(wsize - 1));
      Self(FirstBytePart(i as bv8, wsize));
    }
  }

  function CrcAddByte(crc: bv64, newByte: bv8): bv64 {
    Crc(crc, [newByte])
  }

  function CrcRemoveByte(crc: bv64, oldByte: bv8, uncrc: seq<bv64>): bv64
    requires |uncrc| == 256
  {
    Xor(crc, uncrc[oldByte as int])
  }

  function CrcRoll(crc: bv64, oldByte: bv8, newByte: bv8, uncrc: seq<bv64>): bv64
    requires |uncrc| == 256
  {
    CrcAddByte(CrcRemoveByte(crc, oldByte, uncrc), newByte)
  }

  /** Removing the first byte of the window leaves the CRC of the others. */
  lemma RemovedFirst(b: bv8, rest: seq<bv8>, uncrc: seq<bv64>)
    requires IsUncrcTab(uncrc, 1 + |rest|)
    ensures CrcRemoveByte(Crc(0, [b] + rest), b, uncrc) == Crc(0, rest)
  {
    hide Xor, Crc, FirstBytePart;
    FirstByteApart(b, rest);
    var p, c := FirstBytePart(b, 1 + |rest|), Crc(0, rest);
    Comm(p, c);
    Assoc(c, p, p);
    Self(p);
    Self(c);
  }

  /** Rolling is computing the CRC of the shifted window afresh. */
  lemma Rolled(oldByte: bv8, rest: seq<bv8>, newByte: bv8, uncrc: seq<bv64>)
    requires IsUncrcTab(uncrc, 1 + |rest|)
    ensures CrcRoll(Crc(0, [oldByte] + rest), oldByte, newByte, uncrc) == Crc(0, rest + [newByte])
  {
    hide Xor, Crc, CrcRemoveByte;
    RemovedFirst(oldByte, rest, uncrc);
    CrcJoin(0, rest, [newByte]);
  }

  /** The CRC after rolling a window of wsize bytes k times, from the start of data. */
  function RolledAlong(data: seq<bv8>, wsize: nat, k: nat, uncrc: seq<bv64>): bv64
    requires |uncrc| == 256 && k + wsize <= |data|
    decreases k
  {
    if k == 0 then Crc(0, data[..wsize])
    else CrcRoll(RolledAlong(data, wsize, k - 1, uncrc), data[k - 1], data[k + wsize - 1], uncrc)
  }

  /** However far the window has been rolled, the CRC is that of the bytes in it. */
  lemma {:induction false} EveryWindow(data: seq<bv8>, wsize: nat, k: nat, uncrc: seq<bv64>)
    requires wsize > 0 && IsUncrcTab(uncrc, wsize) && k + wsize <= |data|
    ensures RolledAlong(data, wsize, k, uncrc) == Crc(0, data[k..k + wsize])
    decreases k
  {
    hide Crc, CrcRoll;
    if k > 0 {
      EveryWindow(data, wsize, k - 1, uncrc);
      var rest := data[k..k + wsize - 1];
      assert data[k - 1..k - 1 + wsize] == [data[k - 1]] + rest;
      assert data[k..k + wsize] == rest + [data[k + wsize - 1]];
      Rolled(data[k - 1], rest, data[k + wsize - 1], uncrc);
    }
  }
}
