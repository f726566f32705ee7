/** The CSI32 patch format of bdelta: copy, skip and insert instructions as bytes.

An instruction is one byte op | length << 2, then `length` big-endian bytes of size (none
when the size is 1), then, for an insertion, the bytes to insert. */
module Csi32 {
  import opened Basics

  type Byte = x: int | 0 <= x < 0x100

  const PT_LITERAL: Byte := 10
  const PT_CSI32: Byte := 11
  const OP_COPY := 1
  const OP_SKIP := 2
  const OP_INSERT := 3

  datatype Op = Copy(size: nat) | Skip(size: nat) | Insert(text: seq<Byte>)

  datatype PatchResult = Ok(text: seq<Byte>) | PatchInvalid | PatchMismatch

  function Size(op: Op): nat {
    match op
    case Copy(n) => n
    case Skip(n) => n
    case Insert(t) => |t|
  }

  function Code(op: Op): int {
    match op
    case Copy(_) => OP_COPY
    case Skip(_) => OP_SKIP
    case Insert(_) => OP_INSERT
  }

  // ---------- What a list of operations does ----------

  datatype RunResult = Overrun | Ran(pos: nat, out: seq<Byte>)

  /** Apply ops to src from position pos on, after out has been produced. */
  ghost function Run(src: seq<Byte>, pos: nat, out: seq<Byte>, ops: seq<Op>): RunResult
    decreases |ops|
  {
    if ops == [] then Ran(pos, out)
    else
      match ops[0]
      case Copy(n) =>
        if pos + n > |src| then Overrun else Run(src, pos + n, out + src[pos..pos + n], ops[1..])
      case Skip(n) =>
        if pos + n > |src| then Overrun else Run(src, pos + n, out, ops[1..])
      case Insert(t) =>
        Run(src, pos, out + t, ops[1..])
  }

  lemma {:induction false} RunAppend(src: seq<Byte>, pos: nat, out: seq<Byte>, ops: seq<Op>, op: Op)
    ensures Run(src, pos, out, ops + [op]) ==
            match Run(src, pos, out, ops)
            case Overrun => Overrun
            case Ran(p, o) => Run(src, p, o, [op])
    decreases |ops|
  {
    if ops == [] {
      assert ops + [op] == [op];
    } else {
      assert (ops + [op])[1..] == ops[1..] + [op];
      match ops[0]
      case Copy(n) =>
        if pos + n <= |src| {
          RunAppend(src, pos + n, out + src[pos..pos + n], ops[1..], op);
        }
      case Skip(n) =>
        if pos + n <= |src| {
          RunAppend(src, pos + n, out, ops[1..], op);
        }
      case Insert(t) =>
        RunAppend(src, pos, out + t, ops[1..], op);
    }
  }

  // ---------- Encoding ----------

  function BytesNeededForSize(size: nat): nat {
    if size == 1 then 0
    else if size <= 0xFF then 1
    else if size <= 0xFFFF then 2
    else if size <= 0xFFFFFF then 3
    else 4
  }

  function BigEndian(size: nat, n: nat): (bytes: seq<Byte>)
    ensures |bytes| == n
  {
    if n == 0 then [] else BigEndian(size / 0x100, n - 1) + [size % 0x100]
  }

  function FromBigEndian(bytes: seq<Byte>): nat {
    if bytes == [] then 0
    else FromBigEndian(bytes[..|bytes| - 1]) * 0x100 + bytes[|bytes| - 1]
  }

  function Payload(op: Op): seq<Byte> {
    if op.Insert? then op.text else []
  }

  /** An operation of size zero has no encoding: nothing is written for it. */
  function EncodeOp(op: Op): seq<Byte> {
    if Size(op) == 0 then []
    else
      var n := BytesNeededForSize(Size(op));
      [Code(op) + 4 * n] + BigEndian(Size(op), n) + Payload(op)
  }

  ghost function EncodeOps(ops: seq<Op>): seq<Byte> {
    if ops == [] then [] else EncodeOp(ops[0]) + EncodeOps(ops[1..])
  }

  lemma {:induction false} EncodeAppend(ops: seq<Op>, op: Op)
    ensures EncodeOps(ops + [op]) == EncodeOps(ops) + EncodeOp(op)
    decreases |ops|
  {
    hide EncodeOp;
    var all := ops + [op];
    if ops == [] {
      assert all == [op] && all[1..] == [];
    } else {
      assert all[0] == ops[0] && all[1..] == ops[1..] + [op];
      EncodeAppend(ops[1..], op);
      Regroup(EncodeOp(ops[0]), EncodeOps(ops[1..]), EncodeOp(op));
    }
  }

  /** What the format says in numbers: the instruction byte, and the size in big endian. */
  ghost predicate Written(bytes: seq<Byte>, op: int, size: nat, text: seq<Byte>) {
    if size == 0 then bytes == []
    else if size == 1 then bytes == [op] + text
    else if size < 256 then bytes == [op + 4, size] + text
    else if size < 65536 then bytes == [op + 8, size / 256, size % 256] + text
    else if size < 16777216 then bytes == [op + 12, size / 65536, size / 256 % 256, size % 256] + text
    else bytes == [op + 16, size / 16777216 % 256, size / 65536 % 256, size / 256 % 256, size % 256] + text
  }

  lemma Quotients(size: nat)
    ensures size / 256 / 256 == size / 65536 && size / 65536 / 256 == size / 16777216
  {
  }

  lemma OneByte(size: nat)
    ensures BigEndian(size, 1) == [size % 256]
  {
    assert BigEndian(size / 256, 0) == [];
  }

  lemma TwoBytes(size: nat)
    ensures BigEndian(size, 2) == [size / 256 % 256, size % 256]
  {
    OneByte(size / 256);
  }

  lemma ThreeBytes(size: nat)
    ensures BigEndian(size, 3) == [size / 65536 % 256, size / 256 % 256, size % 256]
  {
    Quotients(size);
    TwoBytes(size / 256);
  }

  lemma FourBytes(size: nat)
    ensures BigEndian(size, 4) == [size / 16777216 % 256, size / 65536 % 256, size / 256 % 256, size % 256]
  {
    Quotients(size);
    Quotients(size / 256);
    ThreeBytes(size / 256);
  }

  lemma OpWritten(op: Op)
    requires Size(op) < 0x1_0000_0000
    ensures Written(EncodeOp(op), Code(op), Size(op), Payload(op))
  {
    hide BigEndian;
    OneByte(Size(op));
    TwoBytes(Size(op));
    ThreeBytes(Size(op));
    FourBytes(Size(op));
  }

  /** The encodings are those of the format. */
  lemma FormatWritten(n: nat, t: seq<Byte>)
    requires n < 0x1_0000_0000 && |t| < 0x1_0000_0000
    ensures Written(EncodeOp(Copy(n)), 1, n, [])
    ensures Written(EncodeOp(Skip(n)), 2, n, [])
    ensures Written(EncodeOp(Insert(t)), 3, |t|, t)
  {
    hide Written, EncodeOp;
    OpWritten(Copy(n));
    OpWritten(Skip(n));
    OpWritten(Insert(t));
  }

  // ---------- Decoding ----------

  datatype Header = NoOp | Header(code: int, size: nat, next: nat)

  /** The instruction at position s of patch p, up to the bytes it inserts. */
  ghost function ParseHeader(p: seq<Byte>, s: nat): (h: Header)
    ensures h.Header? ==> s < h.next <= |p| && 1 <= h.code <= 3
    ensures h.Header? && h.code == OP_INSERT ==> h.next + h.size <= |p|
  {
    if s >= |p| then NoOp
    else
      var code, n := p[s] % 4, p[s] / 4;
      if code == 0 || n > 4 || |p| - (s + 1) < n then NoOp
      else
        var size := if n == 0 then 1 else FromBigEndian(p[s + 1..s + 1 + n]);
        if code == OP_INSERT && |p| - (s + 1 + n) < size then NoOp
        else Header(code, size, s + 1 + n)
  }

  ghost function HeaderOp(p: seq<Byte>, h: Header): Op
    requires h.Header?
    requires h.code == OP_INSERT ==> h.next + h.size <= |p|
  {
    if h.code == OP_COPY then Copy(h.size)
    else if h.code == OP_SKIP then Skip(h.size)
    else if h.code == OP_INSERT then Insert(p[h.next..h.next + h.size])
    else Copy(0)
  }

  /** All instructions of p from s on, and where the last well-formed one ends. */
  ghost function Decode(p: seq<Byte>, s: nat): (r: (seq<Op>, nat))
    decreases |p| - s
  {
    var h := ParseHeader(p, s);
    if h.NoOp? then ([], s)
    else
      var op := HeaderOp(p, h);
      var rest := Decode(p, h.next + |Payload(op)|);
      ([op] + rest.0, rest.1)
  }

  ghost predicate Sized(op: Op) {
    0 < Size(op) < 0x1_0000_0000
  }

  ghost predicate AllSized(ops: seq<Op>) {
    forall op | op in ops :: Sized(op)
  }

  lemma {:induction false} BigEndianInverse(size: nat, n: nat)
    requires n <= 4
    requires size < if n == 0 then 1 else if n == 1 then 0x100 else if n == 2 then 0x1_0000
                    else if n == 3 then 0x100_0000 else 0x1_0000_0000
    ensures FromBigEndian(BigEndian(size, n)) == size
    decreases n
  {
    if n > 0 {
      BigEndianInverse(size / 0x100, n - 1);
      var bytes := BigEndian(size, n);
      assert bytes[..|bytes| - 1] == BigEndian(size / 0x100, n - 1);
    }
  }

  lemma Slices<T>(pre: seq<T>, x: T, a: seq<T>, b: seq<T>, post: seq<T>)
    ensures var p, s := pre + ([x] + a + b) + post, |pre|;
            p[s] == x && p[s + 1..s + 1 + |a|] == a && p[s + 1 + |a|..s + 1 + |a| + |b|] == b
  {
    var p, s := pre + ([x] + a + b) + post, |pre|;
    assert p == (pre + [x]) + a + (b + post) == (pre + [x] + a) + b + post;
    assert p[s + 1..s + 1 + |a|] == a;
    assert p[s + 1 + |a|..s + 1 + |a| + |b|] == b;
  }

  /** An encoded instruction parses back to itself, wherever it stands. */
  lemma ParseEncoded(pre: seq<Byte>, op: Op, post: seq<Byte>)
    requires Sized(op)
    ensures var p, h := pre + EncodeOp(op) + post, ParseHeader(pre + EncodeOp(op) + post, |pre|);
            h.Header? && HeaderOp(p, h) == op && h.next + |Payload(op)| == |pre + EncodeOp(op)|
  {
    var n := BytesNeededForSize(Size(op));
    var size, pay := BigEndian(Size(op), n), Payload(op);
    var first: Byte := Code(op) + 4 * n;
    assert first % 4 == Code(op) && first / 4 == n;
    Slices(pre, first, size, pay, post);
    if n > 0 {
      BigEndianInverse(Size(op), n);
    }
    ParseParts(pre + EncodeOp(op) + post, |pre|, op, n, size);
  }

  lemma ParseParts(p: seq<Byte>, s: nat, op: Op, n: nat, size: seq<Byte>)
    requires n <= 4 && |size| == n && s + 1 + n + |Payload(op)| <= |p|
    requires p[s] % 4 == Code(op) && p[s] / 4 == n && p[s + 1..s + 1 + n] == size
    requires if n == 0 then Size(op) == 1 else Size(op) == FromBigEndian(size)
    requires p[s + 1 + n..s + 1 + n + |Payload(op)|] == Payload(op)
    ensures ParseHeader(p, s) == Header(Code(op), Size(op), s + 1 + n)
    ensures HeaderOp(p, ParseHeader(p, s)) == op
  {
  }

  /** One instruction in front of bytes that decode. */
  lemma DecodeStep(pre: seq<Byte>, op: Op, post: seq<Byte>, ops: seq<Op>, end: nat)
    requires Sized(op)
    requires Decode(pre + EncodeOp(op) + post, |pre + EncodeOp(op)|) == (ops, end)
    ensures Decode(pre + EncodeOp(op) + post, |pre|) == ([op] + ops, end)
  {
    hide ParseHeader, EncodeOp;
    ParseEncoded(pre, op, post);
  }

  lemma DecodeNothing(p: seq<Byte>)
    ensures Decode(p, |p|) == ([], |p|)
  {
  }

  /** Decoding undoes encoding. */
  lemma {:induction false} DecodeEncoded(pre: seq<Byte>, ops: seq<Op>)
    requires AllSized(ops)
    ensures Decode(pre + EncodeOps(ops), |pre|) == (ops, |pre| + |EncodeOps(ops)|)
    decreases |ops|
  {
    hide EncodeOp, Decode;
    if ops == [] {
      DecodeNothing(pre + EncodeOps(ops));
    } else {
      var op, post := ops[0], EncodeOps(ops[1..]);
      DecodeEncoded(pre + EncodeOp(op), ops[1..]);
      DecodeStep(pre, op, post, ops[1..], |pre + EncodeOp(op)| + |post|);
      Regroup(pre, EncodeOp(op), post);
      assert [op] + ops[1..] == ops;
    }
  }

  // ---------- Applying a patch ----------

  /** Two-phase meaning of the instructions of p from s on: decode them all, then run them. */
  ghost function Outcome(src: seq<Byte>, pos: nat, out: seq<Byte>, p: seq<Byte>, s: nat): PatchResult {
    Judged(Run(src, pos, out, Decode(p, s).0), Decode(p, s).1 == |p|)
  }

  function Judged(r: RunResult, whole: bool): PatchResult {
    match r
    case Overrun => PatchMismatch
    case Ran(_, text) => if whole then Ok(text) else PatchInvalid
  }

  lemma RunFirst(src: seq<Byte>, pos: nat, out: seq<Byte>, op: Op, ops: seq<Op>)
    ensures Run(src, pos, out, [op] + ops) ==
            if op.Insert? then Run(src, pos, out + op.text, ops)
            else if pos + op.size > |src| then Overrun
            else if op.Copy? then Run(src, pos + op.size, out + src[pos..pos + op.size], ops)
            else Run(src, pos + op.size, out, ops)
  {
    assert ([op] + ops)[1..] == ops;
  }

  lemma DecodeFirst(p: seq<Byte>, s: nat, h: Header)
    requires h == ParseHeader(p, s) && h.Header?
    ensures var rest := Decode(p, h.next + |Payload(HeaderOp(p, h))|);
            Decode(p, s).0 == [HeaderOp(p, h)] + rest.0 && Decode(p, s).1 == rest.1
  {
    hide ParseHeader, HeaderOp;
  }

  lemma OutcomeFirst(src: seq<Byte>, pos: nat, out: seq<Byte>, p: seq<Byte>, s: nat, op: Op, s': nat)
    requires Decode(p, s).0 == [op] + Decode(p, s').0 && Decode(p, s).1 == Decode(p, s').1
    ensures Outcome(src, pos, out, p, s) ==
            if op.Insert? then Outcome(src, pos, out + op.text, p, s')
            else if pos + op.size > |src| then PatchMismatch
            else if op.Copy? then Outcome(src, pos + op.size, out + src[pos..pos + op.size], p, s')
            else Outcome(src, pos + op.size, out, p, s')
  {
    hide Decode, Run;
    RunFirst(src, pos, out, op, Decode(p, s').0);
  }

  /** Decoding and running one instruction at a time comes to the same. */
  lemma OutcomeStep(src: seq<Byte>, pos: nat, out: seq<Byte>, p: seq<Byte>, s: nat, h: Header)
    requires h == ParseHeader(p, s) && h.Header?
    ensures h.code == OP_COPY && pos + h.size <= |src| ==>
              Outcome(src, pos, out, p, s) == Outcome(src, pos + h.size, out + src[pos..pos + h.size], p, h.next)
    ensures h.code == OP_SKIP && pos + h.size <= |src| ==>
              Outcome(src, pos, out, p, s) == Outcome(src, pos + h.size, out, p, h.next)
    ensures h.code == OP_INSERT ==>
              Outcome(src, pos, out, p, s) == Outcome(src, pos, out + p[h.next..h.next + h.size], p, h.next + h.size)
    ensures h.code != OP_INSERT && pos + h.size > |src| ==> Outcome(src, pos, out, p, s) == PatchMismatch
  {
    hide ParseHeader, Decode, Run, Outcome;
    DecodeFirst(p, s, h);
    var op := HeaderOp(p, h);
    OutcomeFirst(src, pos, out, p, s, op, h.next + |Payload(op)|);
  }

  lemma OutcomeAtEnd(src: seq<Byte>, pos: nat, out: seq<Byte>, p: seq<Byte>, s: nat)
    requires ParseHeader(p, s).NoOp?
    ensures Outcome(src, pos, out, p, s) == if s == |p| then Ok(out) else PatchInvalid
  {
    hide ParseHeader;
  }

  /** The meaning of a whole patch, its type byte included. */
  ghost function Patched(src: seq<Byte>, p: seq<Byte>): PatchResult {
    if p == [] then PatchInvalid
    else if p[0] == PT_LITERAL then Ok(p[1..])
    else if p[0] == PT_CSI32 then Outcome(src, 0, [], p, 1)
    else PatchInvalid
  }

  /** The type bytes in numbers: 10 for a literal patch, 11 for instructions, and no other. */
  lemma FormatRead(src: seq<Byte>, ops: seq<Op>, pos: nat, text: seq<Byte>, other: seq<Byte>)
    ensures Patched(src, [10] + text) == Ok(text)
    ensures AllSized(ops) && Run(src, 0, [], ops) == Ran(pos, text) ==> Patched(src, [11] + EncodeOps(ops)) == Ok(text)
    ensures AllSized(ops) && Run(src, 0, [], ops) == Overrun ==> Patched(src, [11] + EncodeOps(ops)) == PatchMismatch
    ensures other == [] || (other[0] != 10 && other[0] != 11) ==> Patched(src, other) == PatchInvalid
  {
    hide EncodeOps, Run, Decode;
    if AllSized(ops) {
      DecodeEncoded([11], ops);
    }
  }

  /** A patch of encoded operations does what the operations do. */
  lemma PatchedEncoded(src: seq<Byte>, ops: seq<Op>, pos: nat, text: seq<Byte>)
    requires AllSized(ops) && Run(src, 0, [], ops) == Ran(pos, text)
    ensures Patched(src, [PT_CSI32] + EncodeOps(ops)) == Ok(text)
  {
    DecodeEncoded([PT_CSI32], ops);
  }

  /** Read one instruction at s. */
  method ParseOp(p: seq<Byte>, s0: nat) returns (ok: bool, op: int, size: nat, s: nat)
    requires s0 <= |p|
    ensures ok == ParseHeader(p, s0).Header?
    ensures ok ==> ParseHeader(p, s0) == Header(op, size, s)
    ensures !ok ==> s == s0
  {
    ok, op, size, s := false, 0, 0, s0;
    if s0 >= |p| {
      return;
    }
    var code, n := p[s0] % 4, p[s0] / 4;
    var t := s0 + 1;
    if code == 0 || n > 4 {
      return;
    }
    var value: nat := 1;
    if n != 0 {
      if |p| - t < n {
        return;
      }
      value := 0;
      var i := 0;
      while i < n
        invariant 0 <= i <= n && t == s0 + 1 + i
        invariant value == FromBigEndian(p[s0 + 1..t])
      {
        assert p[s0 + 1..t + 1][..i] == p[s0 + 1..t];
        value := value * 0x100 + p[t];
        t, i := t + 1, i + 1;
      }
    }
    if code == OP_INSERT && |p| - t < value {
      return;
    }
    ok, op, size, s := true, code, value, t;
  }

  method PatchCsi32(src: seq<Byte>, p: seq<Byte>, s0: nat) returns (r: PatchResult)
    requires s0 <= |p|
    ensures r == Outcome(src, 0, [], p, s0)
  {
    hide ParseHeader, Outcome;
    var o: nat, out: seq<Byte>, s: nat := 0, [], s0;
    var more: bool, op: int, size: nat, t: nat := ParseOp(p, s);
    while more
      invariant s <= |p| && o <= |src|
      invariant more == ParseHeader(p, s).Header?
      invariant more ==> ParseHeader(p, s) == Header(op, size, t)
      invariant Outcome(src, o, out, p, s) == Outcome(src, 0, [], p, s0)
      decreases |p| - s
    {
      OutcomeStep(src, o, out, p, s, Header(op, size, t));
      if (op == OP_COPY || op == OP_SKIP) && |src| - o < size {
        return PatchMismatch;
      }
      if op == OP_COPY {
        out := out + src[o..o + size];
        o := o + size;
      } else if op == OP_SKIP {
        o := o + size;
      } else {
        out := out + p[t..t + size];
        t := t + size;
      }
      s := t;
      more, op, size, t := ParseOp(p, s);
    }
    OutcomeAtEnd(src, o, out, p, s);
    r := if s != |p| then PatchInvalid else Ok(out);
  }

  method BdeltaPatch(src: seq<Byte>, p: seq<Byte>) returns (r: PatchResult)
    ensures r == Patched(src, p)
    ensures p != [] && p[0] == 10 ==> r == Ok(p[1..])
    ensures p != [] && p[0] == 11 ==> r == Outcome(src, 0, [], p, 1)
    ensures p == [] || (p[0] != 10 && p[0] != 11) ==> r == PatchInvalid
  {
    if |p| == 0 {
      return PatchInvalid;
    }
    if p[0] == PT_LITERAL {
      r := Ok(p[1..]);
    } else if p[0] == PT_CSI32 {
      r := PatchCsi32(src, p, 1);
    } else {
      r := PatchInvalid;
    }
  }
}
