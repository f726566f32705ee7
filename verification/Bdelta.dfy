/** bdelta: a patch that turns one byte string into another, and its application. */
module Bdelta {
  import opened EditGrid
  import opened Triangle
  import opened Csi32

  const UINT32_MAX := 0xFFFF_FFFF
  const D_MAX := 1000

  /** The growing output string: cur, end and start are one sequence here. */
  class StringBuffer {
    var text: seq<Byte>

    constructor ()
      ensures text == []
    {
      text := [];
    }

    method Putc(c: Byte)
      modifies this
      ensures text == old(text) + [c]
    {
      text := text + [c];
    }

    method Write(data: seq<Byte>)
      modifies this
      ensures text == old(text) + data
    {
      text := text + data;
    }
  }

  /** The low n bytes of size, written from the last to the first. */
  method SizeBytes(size: nat, n: nat) returns (bytes: seq<Byte>)
    ensures bytes == BigEndian(size, n)
  {
    var i, tmp := n, size;
    bytes := [];
    while i > 0
      invariant 0 <= i <= n
      invariant BigEndian(size, n) == BigEndian(tmp, i) + bytes
    {
      i := i - 1;
      bytes := [tmp % 0x100] + bytes;
      tmp := tmp / 0x100;
    }
  }

  /** The instruction of the given size; an insertion takes its bytes from new_ at position at. */
  ghost function OpAt(code: int, size: nat, new_: seq<Byte>, at: nat): Op
    requires code == OP_INSERT ==> at + size <= |new_|
  {
    if code == OP_COPY then Csi32.Copy(size)
    else if code == OP_SKIP then Csi32.Skip(size)
    else if code == OP_INSERT then Csi32.Insert(new_[at..at + size])
    else Csi32.Copy(0)
  }

  lemma EncodingOf(op: Op, text: seq<Byte>)
    ensures Size(op) == 0 ==> text + EncodeOp(op) == text
    ensures Size(op) > 0 ==>
              var n := BytesNeededForSize(Size(op));
              text + EncodeOp(op) == text + [Code(op) + 4 * n] + BigEndian(Size(op), n) + Payload(op)
  {
    hide BigEndian;
  }

  /** Write one instruction.  Returns how far new_ has then been produced. */
  method EmitOp(patch: StringBuffer, code: int, size: nat, new_: seq<Byte>, at: nat) returns (next: nat)
    requires OP_COPY <= code <= OP_INSERT && size < 0x1_0000_0000
    requires code != OP_SKIP ==> at + size <= |new_|
    modifies patch
    ensures next == if code == OP_SKIP then at else at + size
    ensures patch.text == old(patch.text) + EncodeOp(OpAt(code, size, new_, at))
  {
    hide BigEndian, EncodeOp;
    next := at;
    ghost var op := OpAt(code, size, new_, at);
    EncodingOf(op, patch.text);
    if size == 0 {
      return;
    }
    var n := BytesNeededForSize(size);
    patch.Putc(code + 4 * n);
    var bytes := SizeBytes(size, n);
    patch.Write(bytes);
    if code == OP_COPY {
      next := at + size;
    } else if code == OP_INSERT {
      patch.Write(new_[at..at + size]);
      next := at + size;
    }
  }

  // ---------- What has been written ----------

  /** The number of bytes that operations carry literally. */
  ghost function Literal(ops: seq<Op>): nat {
    if ops == [] then 0 else Literal(ops[..|ops| - 1]) + |Payload(ops[|ops| - 1])|
  }

  /** No two neighbours have the same code. */
  ghost predicate Merged(ops: seq<Op>) {
    forall i :: 0 < i < |ops| ==> Differ(ops, i)
  }

  ghost predicate Differ(ops: seq<Op>, i: int)
    requires 0 < i < |ops|
  {
    Code(ops[i - 1]) != Code(ops[i])
  }

  /** The last of ops has another code, if there is one. */
  ghost predicate EndsApart(ops: seq<Op>, code: int) {
    ops == [] || Code(ops[|ops| - 1]) != code
  }

  lemma MergedMore(ops: seq<Op>, op: Op)
    requires Merged(ops) && EndsApart(ops, Code(op))
    ensures Merged(ops + [op]) && forall code :: code != Code(op) ==> EndsApart(ops + [op], code)
  {
    forall i | 0 < i < |ops + [op]|
      ensures Differ(ops + [op], i)
    {
      assert i < |ops| ==> Differ(ops, i);
    }
  }

  /** text encodes ops, which consume a[..o] and produce b[..n]. */
  ghost predicate Emitted(a: seq<Byte>, b: seq<Byte>, text: seq<Byte>, ops: seq<Op>, o: nat, n: nat) {
    && o <= |a| && n <= |b|
    && text == [PT_CSI32] + EncodeOps(ops)
    && AllSized(ops)
    && Run(a, 0, [], ops) == Ran(o, b[..n])
  }

  lemma EmitOne(a: seq<Byte>, b: seq<Byte>, text: seq<Byte>, ops: seq<Op>, o: nat, n: nat, op: Op, o': nat, n': nat)
    requires Emitted(a, b, text, ops, o, n) && Sized(op)
    requires o' <= |a| && n <= n' <= |b|
    requires match op
             case Copy(s) => o' == o + s && n' == n + s && a[o..o'] == b[n..n']
             case Skip(s) => o' == o + s && n' == n
             case Insert(t) => o' == o && t == b[n..n']
    ensures Emitted(a, b, text + EncodeOp(op), ops + [op], o', n')
    ensures Literal(ops + [op]) == Literal(ops) + |Payload(op)|
  {
    hide EncodeOp;
    EncodeAppend(ops, op);
    RunAppend(a, 0, [], ops, op);
    assert (ops + [op])[..|ops|] == ops;
    assert b[..n] + b[n..n'] == b[..n'];
    assert [op][1..] == [];
    assert Run(a, o, b[..n], [op]) == Ran(o', b[..n']) by {
      assert Run(a, o', b[..n'], []) == Ran(o', b[..n']);
    }
  }

  // ---------- The descent stays in the grid ----------

  /** The x of the descent's point in row j. */
  ghost function XAt(t: Solution, cs: seq<nat>, j: nat): nat
    requires j < |cs| && RowStart(j) + cs[j] < |t.data|
  {
    t.data[RowStart(j) + cs[j]]
  }

  ghost predicate InGrid<T>(a: seq<T>, b: seq<T>, t: Solution, cs: seq<nat>, j: nat)
    requires j < |cs|
  {
    && cs[j] <= j && RowStart(j) + cs[j] < |t.data| && Entry(a, b, t.data, j, cs[j])
    && XAt(t, cs, j) <= |a| && 0 <= XAt(t, cs, j) - (2 * cs[j] - j) <= |b|
  }

  lemma RowsAboveSolution<T>(a: seq<T>, b: seq<T>, t: Solution, j: nat, c: nat)
    requires Solved(a, b, t) && c <= j
    requires j < t.d || (j == t.d && RowStart(j) + c == t.at)
    ensures RowStart(j) + c < |t.data| && Entry(a, b, t.data, j, c)
    ensures t.data[RowStart(j) + c] - (2 * c - j) >= 0
  {
    if j < t.d {
      RowStartMonotone(j, t.d);
    }
    assert Entry(a, b, t.data, j, c);
  }

  lemma {:induction false} DescentInGrid<T>(a: seq<T>, b: seq<T>, t: Solution, descent: seq<int>, cs: seq<nat>, j: nat)
    requires Solved(a, b, t) && Descent(t, descent, cs) && j <= t.d
    ensures InGrid(a, b, t, cs, j)
    decreases t.d - j
  {
    hide Entry, Built, FromRight, RowStart;
    if j < t.d {
      DescentInGrid(a, b, t, descent, cs, j + 1);
      assert Climbs(t.data, j + 1, cs[j + 1], cs[j]);
      ClimbStaysInGrid(a, b, t.data, j + 1, cs[j + 1], cs[j]);
    }
    RowsAboveSolution(a, b, t, j, cs[j]);
  }

  /** A climb goes to a point that is nowhere beyond the one it starts from. */
  lemma ClimbStaysInGrid<T>(a: seq<T>, b: seq<T>, data: seq<nat>, j: nat, c1: nat, c: int)
    requires 1 <= j && RowStart(j) + c1 < |data| && Climbs(data, j, c1, c)
    requires Entry(a, b, data, j, c1)
    ensures 0 <= c < j
    ensures var x1, x := data[RowStart(j) + c1], data[RowStart(j - 1) + c];
            if c == c1 then x <= x1 && Slides(a, b, 2 * c1 - j, x, x1)
            else x < x1 && Slides(a, b, 2 * c1 - j, x + 1, x1)
  {
  }

  // ---------- From the descent to the patch ----------

  /** Emit an instruction and account for what it does. */
  method EmitStep(patch: StringBuffer, code: int, size: nat, ghost a: seq<Byte>, b: seq<Byte>, at: nat,
                  ghost ops: seq<Op>, ghost o: nat)
    returns (next: nat, ghost ops': seq<Op>, ghost o': nat)
    requires Emitted(a, b, patch.text, ops, o, at)
    requires OP_COPY <= code <= OP_INSERT && 0 < size < 0x1_0000_0000
    requires code != OP_SKIP ==> at + size <= |b|
    requires code != OP_INSERT ==> o + size <= |a|
    requires code == OP_COPY ==> a[o..o + size] == b[at..at + size]
    requires Merged(ops) && EndsApart(ops, code)
    modifies patch
    ensures Merged(ops') && forall other :: other != code ==> EndsApart(ops', other)
    ensures ops' == ops + [OpAt(code, size, b, at)]
    ensures o' == (if code == OP_INSERT then o else o + size) && next == (if code == OP_SKIP then at else at + size)
    ensures Emitted(a, b, patch.text, ops', o', next)
    ensures Literal(ops') == Literal(ops) + (if code == OP_INSERT then size else 0)
  {
    hide Emitted, EncodeOp, Literal, Merged, EndsApart;
    ghost var op := OpAt(code, size, b, at);
    MergedMore(ops, op);
    ops', o' := ops + [op], if code == OP_INSERT then o else o + size;
    next := if code == OP_SKIP then at else at + size;
    assert next <= |b| && o' <= |a| by {
      EmittedInRange(a, b, patch.text, ops, o, at);
    }
    EmitOne(a, b, patch.text, ops, o, at, op, o', next);
    next := EmitOp(patch, code, size, b, at);
  }

  lemma EmittedInRange(a: seq<Byte>, b: seq<Byte>, text: seq<Byte>, ops: seq<Op>, o: nat, n: nat)
    requires Emitted(a, b, text, ops, o, n)
    ensures o <= |a| && n <= |b|
  {
  }

  /** What has been emitted together with the pending instruction reaches (x, y), with lits
      literal bytes. */
  ghost predicate Reached(a: seq<Byte>, b: seq<Byte>, text: seq<Byte>, ops: seq<Op>, o: nat, n: nat,
                          pending: int, length: nat, x: nat, y: int, lits: int) {
    && Emitted(a, b, text, ops, o, n)
    && (pending == 0 ==> o == x && n == y && Literal(ops) == lits)
    && (pending == OP_INSERT ==> length > 0 && o == x && n + length == y && Literal(ops) + length == lits)
    && (pending == OP_SKIP ==> length > 0 && o + length == x && n == y && Literal(ops) == lits)
    && pending in {0, OP_SKIP, OP_INSERT}
    && Merged(ops)
    && (if pending == 0 then EndsApart(ops, OP_SKIP) && EndsApart(ops, OP_INSERT) else EndsApart(ops, pending))
  }

  // ---------- Which instructions they are ----------

  /** Two operations of one kind as one. */
  ghost function Both(p: Op, q: Op): Op
    requires Code(p) == Code(q)
  {
    match q
    case Copy(n) => Csi32.Copy(Size(p) + n)
    case Skip(n) => Csi32.Skip(Size(p) + n)
    case Insert(t) => Csi32.Insert(Payload(p) + t)
  }

  /** One operation more, joined to the last if it is of the same kind; nothing if its size is zero. */
  ghost function Joined(ops: seq<Op>, op: Op): seq<Op> {
    if Size(op) == 0 then ops
    else if ops == [] || Code(ops[|ops| - 1]) != Code(op) then ops + [op]
    else ops[..|ops| - 1] + [Both(ops[|ops| - 1], op)]
  }

  /** Without a skip at the end. */
  ghost function Dropped(ops: seq<Op>): seq<Op> {
    if ops != [] && Code(ops[|ops| - 1]) == 2 then ops[..|ops| - 1] else ops
  }

  /** What a turn at (x, y) does. */
  ghost function TurnOp(left: bool, b: seq<Byte>, y: int): Op {
    if left then Csi32.Insert(if 0 <= y < |b| then b[y..y + 1] else []) else Csi32.Skip(1)
  }

  /** The operations of a descent through the points with these x, up to row d: in each row a turn, then copies. */
  ghost function Along(b: seq<Byte>, xs: seq<nat>, turns: seq<int>, d: nat): seq<Op>
    requires d < |xs| && d <= |turns|
  {
    if d == 0 then Joined([], Csi32.Copy(xs[0]))
    else
      var left, k := turns[d - 1] < 0, Diagonal(turns, d - 1);
      var copied := xs[d] as int - xs[d - 1] as int - if left then 0 else 1;
      Joined(Joined(Along(b, xs, turns, d - 1), TurnOp(left, b, xs[d - 1] - k)),
             Csi32.Copy(if copied < 0 then 0 else copied))
  }

  /** The diagonal that the turns lead to. */
  ghost function Diagonal(turns: seq<int>, d: nat): int
    requires d <= |turns|
  {
    if d == 0 then 0 else Diagonal(turns, d - 1) + if turns[d - 1] < 0 then -1 else 1
  }

  /** What has been emitted, and the pending instruction. */
  ghost function Gathered(ops: seq<Op>, pending: int, length: nat, b: seq<Byte>, n: nat): seq<Op> {
    if pending == OP_INSERT then ops + [Csi32.Insert(if n + length <= |b| then b[n..n + length] else [])]
    else if pending == OP_SKIP then ops + [Csi32.Skip(length)]
    else ops
  }

  /** Joined to a pending turn of the same kind, or after anything of another. */
  lemma GatheredTurn(ops: seq<Op>, pending: int, length: nat, b: seq<Byte>, n: nat, left: bool, y: nat)
    requires pending in {0, OP_SKIP, OP_INSERT} && (pending != 0 ==> length > 0) && (left ==> y < |b|)
    requires if pending == 0 then EndsApart(ops, OP_SKIP) && EndsApart(ops, OP_INSERT) else EndsApart(ops, pending)
    requires n <= |b| && if pending == OP_INSERT then n + length == y <= |b| else n == y
    ensures var current := if left then OP_INSERT else OP_SKIP;
            var now := Joined(Gathered(ops, pending, length, b, n), TurnOp(left, b, y));
            && (pending == current ==> now == Gathered(ops, pending, length + 1, b, n))
            && (pending != current ==> now == Gathered(ops, pending, length, b, n) + [TurnOp(left, b, y)])
            && (pending != current ==> TurnOp(left, b, y) == OpAt(current, 1, b, y))
  {
    if pending == OP_INSERT && left {
      assert b[n..n + length] + b[y..y + 1] == b[n..n + length + 1];
    }
  }

  lemma GatheredIs(ops: seq<Op>, pending: int, length: nat, b: seq<Byte>, n: nat)
    requires pending in {0, OP_SKIP, OP_INSERT} && (pending == OP_INSERT ==> n + length <= |b|)
    ensures Gathered(ops, pending, length, b, n) == if pending == 0 then ops else ops + [OpAt(pending, length, b, n)]
    ensures pending != 0 ==> EndsApart(Gathered(ops, pending, length, b, n), OP_COPY)
  {
  }

  lemma GatheredCopy(ops: seq<Op>, copy: nat)
    requires EndsApart(ops, OP_COPY)
    ensures Joined(ops, Csi32.Copy(copy)) == if copy == 0 then ops else ops + [Csi32.Copy(copy)]
  {
  }

  lemma SlideCopies(a: seq<Byte>, b: seq<Byte>, k: int, x0: nat, x: nat)
    requires Slides(a, b, k, x0, x) && x <= |a| && x - k <= |b|
    ensures a[x0..x] == b[x0 - k..x - k]
  {
    forall j: nat | x0 <= j < x
      ensures a[j] == b[j - k]
    {
      assert MatchOn(a, b, k, j);
    }
  }

  /** One turn: equal turns are gathered into one instruction, which is emitted when the turn changes. */
  method PendTurn(patch: StringBuffer, ghost a: seq<Byte>, b: seq<Byte>, at: nat, ghost ops0: seq<Op>, ghost o0: nat,
                  pending0: int, length0: nat, current: int, ghost x: nat, ghost y: nat, ghost lits: nat)
    returns (n: nat, ghost ops: seq<Op>, ghost o: nat, length: nat)
    requires Reached(a, b, patch.text, ops0, o0, at, pending0, length0, x, y, lits)
    requires |a| + |b| < INT_MAX
    requires current == OP_INSERT || current == OP_SKIP
    requires if current == OP_SKIP then x + 1 <= |a| && y <= |b| else x <= |a| && y + 1 <= |b|
    modifies patch
    ensures Reached(a, b, patch.text, ops, o, n, current, length,
                    if current == OP_SKIP then x + 1 else x, if current == OP_INSERT then y + 1 else y,
                    if current == OP_INSERT then lits + 1 else lits)
    ensures Gathered(ops, current, length, b, n) ==
            Joined(Gathered(ops0, pending0, length0, b, at), TurnOp(current == OP_INSERT, b, y))
  {
    hide Emitted, Literal, Merged, EndsApart, Gathered, Joined, TurnOp, OpAt;
    n, ops, o, length := at, ops0, o0, length0;
    EmittedInRange(a, b, patch.text, ops0, o0, at);
    GatheredIs(ops0, pending0, length0, b, at);
    GatheredTurn(ops0, pending0, length0, b, at, current == OP_INSERT, y);
    if pending0 == current {
      length := length + 1;
    } else {
      if pending0 != 0 {
        n, ops, o := EmitStep(patch, pending0, length, a, b, n, ops, o);
      }
      length := 1;
      GatheredIs(ops, current, length, b, n);
    }
  }

  /** One turn and the slide after it, before which the turn is emitted. */
  method EmitTurn(patch: StringBuffer, ghost a: seq<Byte>, b: seq<Byte>, at: nat, ghost ops0: seq<Op>, ghost o0: nat,
                  pending0: int, length0: nat, current: int, copy: nat, ghost x: nat, ghost y: nat, ghost lits: nat)
    returns (n: nat, ghost ops: seq<Op>, ghost o: nat, pending: int, length: nat, ghost x': nat, ghost y': nat)
    requires Reached(a, b, patch.text, ops0, o0, at, pending0, length0, x, y, lits)
    requires |a| + |b| < INT_MAX
    requires current == OP_INSERT || current == OP_SKIP
    requires x + copy + (if current == OP_SKIP then 1 else 0) <= |a|
    requires y + copy + (if current == OP_INSERT then 1 else 0) <= |b|
    requires current == OP_INSERT ==> a[x..x + copy] == b[y + 1..y + 1 + copy]
    requires current == OP_SKIP ==> a[x + 1..x + 1 + copy] == b[y..y + copy]
    modifies patch
    ensures x' == x + copy + (if current == OP_SKIP then 1 else 0)
    ensures y' == y + copy + (if current == OP_INSERT then 1 else 0)
    ensures Reached(a, b, patch.text, ops, o, n, pending, length, x', y',
                    if current == OP_INSERT then lits + 1 else lits)
    ensures Gathered(ops, pending, length, b, n) ==
            Joined(Joined(Gathered(ops0, pending0, length0, b, at), TurnOp(current == OP_INSERT, b, y)),
                   Csi32.Copy(copy))
  {
    hide Emitted, Literal, Merged, EndsApart, Gathered, Joined, TurnOp, OpAt;
    x' := x + copy + (if current == OP_SKIP then 1 else 0);
    y' := y + copy + (if current == OP_INSERT then 1 else 0);
    n, ops, o, length := PendTurn(patch, a, b, at, ops0, o0, pending0, length0, current, x, y, lits);
    pending := current;
    EmittedInRange(a, b, patch.text, ops, o, n);
    GatheredIs(ops, pending, length, b, n);
    GatheredCopy(Gathered(ops, pending, length, b, n), copy);
    if copy > 0 {
      n, ops, o := EmitStep(patch, pending, length, a, b, n, ops, o);
      pending := 0;
      OpAtCopy(copy, b, n);
      n, ops, o := EmitStep(patch, OP_COPY, copy, a, b, n, ops, o);
      GatheredIs(ops, pending, length, b, n);
    }
  }

  lemma OpAtCopy(copy: nat, b: seq<Byte>, n: nat)
    ensures OpAt(OP_COPY, copy, b, n) == Csi32.Copy(copy)
  {
  }

  /** Write the head of the patch, and a copy of what the strings have in common at their start. */
  method EmitFirst(patch: StringBuffer, size: nat, ghost a: seq<Byte>, b: seq<Byte>)
    returns (n: nat, ghost ops: seq<Op>, ghost o: nat)
    requires patch.text == [] && Slides(a, b, 0, 0, size) && size <= |a| && size <= |b| && |a| + |b| < INT_MAX
    modifies patch
    ensures Reached(a, b, patch.text, ops, o, n, 0, 0, size, size, 0)
    ensures ops == Joined([], Csi32.Copy(size))
  {
    hide Emitted, EncodeOp, Literal, Slides, Reached, Merged, EndsApart, Joined;
    GatheredCopy([], size);
    OpAtCopy(size, b, 0);
    patch.Putc(PT_CSI32);
    assert patch.text == [PT_CSI32];
    n, ops, o := 0, [], 0;
    EmittedNothing(a, b);
    if size > 0 {
      SlideCopies(a, b, 0, 0, size);
      n, ops, o := EmitStep(patch, OP_COPY, size, a, b, n, ops, o);
    }
    ReachedFirst(a, b, patch.text, ops, o, n, size);
  }

  /** The x of each row that the descent passes through. */
  ghost function Xs(t: Solution, cs: seq<nat>): (xs: seq<nat>)
    ensures |xs| == |cs|
  {
    seq(|cs|, j requires 0 <= j < |cs| => if RowStart(j) + cs[j] < |t.data| then t.data[RowStart(j) + cs[j]] else 0)
  }

  /** The operations of a descent, without a skip at the end. */
  ghost function PatchOps(b: seq<Byte>, t: Solution, turns: seq<int>, cs: seq<nat>): seq<Op> {
    if t.d < |cs| && t.d <= |turns| then Dropped(Along(b, Xs(t, cs), turns, t.d)) else []
  }

  lemma PatchOpsAre(b: seq<Byte>, t: Solution, turns: seq<int>, cs: seq<nat>)
    requires t.d < |cs| && t.d <= |turns|
    ensures PatchOps(b, t, turns, cs) == Dropped(Along(b, Xs(t, cs), turns, t.d))
  {
  }

  lemma AlongFirst(b: seq<Byte>, t: Solution, turns: seq<int>, cs: seq<nat>)
    requires |cs| > 0 && cs[0] == 0 && |t.data| > 0
    ensures Along(b, Xs(t, cs), turns, 0) == Joined([], Csi32.Copy(t.data[0])) && Diagonal(turns, 0) == 0
  {
    assert RowStart(0) == 0;
  }

  lemma AlongNext(b: seq<Byte>, t: Solution, turns: seq<int>, cs: seq<nat>, d: nat)
    requires d + 1 < |cs| && d < |turns|
    requires RowStart(d) + cs[d] < |t.data| && RowStart(d + 1) + cs[d + 1] < |t.data|
    ensures Diagonal(turns, d + 1) == Diagonal(turns, d) + if turns[d] < 0 then -1 else 1
    ensures var x, x', left := t.data[RowStart(d) + cs[d]], t.data[RowStart(d + 1) + cs[d + 1]], turns[d] < 0;
            var copied := x' as int - x as int - if left then 0 else 1;
            Along(b, Xs(t, cs), turns, d + 1) ==
            Joined(Joined(Along(b, Xs(t, cs), turns, d), TurnOp(left, b, x - Diagonal(turns, d))),
                   Csi32.Copy(if copied < 0 then 0 else copied))
  {
    hide Joined, TurnOp, RowStart;
  }

  lemma DroppedSkip(ops: seq<Op>, pending: int, length: nat, b: seq<Byte>, n: nat)
    requires pending in {0, OP_SKIP, OP_INSERT} && (pending == 0 ==> EndsApart(ops, OP_SKIP))
    ensures Dropped(Gathered(ops, pending, length, b, n)) ==
            if pending == OP_SKIP then ops else Gathered(ops, pending, length, b, n)
  {
  }

  /** Write the instructions of a descent; a last skip is dropped. */
  method DescentToPatch(descent: array<int>, t: Solution, ghost a: seq<Byte>, b: seq<Byte>, patch: StringBuffer,
                        ghost cs: seq<nat>)
    returns (ghost ops: seq<Op>, ghost o: nat)
    requires Solved(a, b, t) && Descent(t, descent[..], cs)
    requires |a| + |b| < INT_MAX && patch.text == []
    modifies patch
    ensures Emitted(a, b, patch.text, ops, o, |b|)
    ensures Literal(ops) == t.d - cs[t.d]
    ensures Merged(ops) && EndsApart(ops, OP_SKIP)
    ensures ops == PatchOps(b, t, descent[..], cs)
  {
    hide Merged, EndsApart, Along, Diagonal, Gathered, Joined, TurnOp, PatchOps, OpAt;
    hide Entry, Built, Emitted, EncodeOp, Literal, FromRight, RowStart;
    hide Furthest, Slides, EditDistance, Reached, Climbs, Solved, Descent;
    ghost var turns := descent[..];
    DescentShape(t, turns, cs);
    var p: nat, d: nat, k: int, n: nat := 0, 0, 0, 0;
    var pending, length: nat := 0, 0;
    DescentInGrid(a, b, t, turns, cs, 0);
    RowZero(a, b, t.data);
    n, ops, o := EmitFirst(patch, t.data[p], a, b);
    ghost var x, y := t.data[p], t.data[p];
    ghost var xs := Xs(t, cs);
    AlongFirst(b, t, turns, cs);
    GatheredIs(ops, 0, 0, b, n);
    while descent[d] != 0
      invariant turns == descent[..] && d <= t.d && k == 2 * cs[d] - d && p == RowStart(d) + cs[d] && cs[d] <= d
      invariant p < |t.data|
      invariant x == t.data[p] && y == x - k
      invariant Reached(a, b, patch.text, ops, o, n, pending, length, x, y, d - cs[d])
      invariant Gathered(ops, pending, length, b, n) == Along(b, xs, turns, d) && k == Diagonal(turns, d)
      decreases t.d - d
    {
      DescentStep(a, b, t, turns, cs, d);
      AlongNext(b, t, turns, cs, d);
      ghost var c0, turn := cs[d], turns[d];
      assert d < t.d;
      var current, p2: nat, copy: nat;
      if descent[d] < 0 {
        d, k := d + 1, k - 1;
        p2 := p + d;
        current := OP_INSERT;
        assert t.data[p2] >= t.data[p];
        copy := t.data[p2] - t.data[p];
      } else {
        d, k := d + 1, k + 1;
        p2 := p + d + 1;
        current := OP_SKIP;
        assert t.data[p2] > t.data[p];
        copy := t.data[p2] - t.data[p] - 1;
      }
      n, ops, o, pending, length, x, y :=
        EmitTurn(patch, a, b, n, ops, o, pending, length, current, copy, x, y, d - 1 - c0);
      p := p2;
    }
    LastTurn(a, b, t, turns, cs, d);
    assert d == t.d && k == t.k && p == t.at;
    ReachedLast(a, b, t, patch.text, ops, o, n, pending, length, d - cs[d]);
    GatheredIs(ops, pending, length, b, n);
    DroppedSkip(ops, pending, length, b, n);
    PatchOpsAre(b, t, turns, cs);
    if pending != 0 && pending != OP_SKIP {
      n, ops, o := EmitStep(patch, pending, length, a, b, n, ops, o);
    }
    assert n == |b|;
  }

  /** From row d to row d + 1: a turn, then a slide inside the grid over equal bytes. */
  lemma DescentStep(a: seq<Byte>, b: seq<Byte>, t: Solution, descent: seq<int>, cs: seq<nat>, d: nat)
    requires Solved(a, b, t) && Descent(t, descent, cs) && d < t.d
    ensures cs[d] <= d && cs[d + 1] <= d + 1 && RowStart(d + 1) == RowStart(d) + d + 1
    ensures descent[d] == 1 || descent[d] == -1
    ensures 2 * cs[d + 1] - (d + 1) == 2 * cs[d] - d + descent[d]
    ensures RowStart(d) + cs[d] < |t.data| && RowStart(d + 1) + cs[d + 1] < |t.data|
    ensures var x, x1, k := t.data[RowStart(d) + cs[d]], t.data[RowStart(d + 1) + cs[d + 1]], 2 * cs[d] - d;
            && 0 <= x - k && x1 <= |a| && x1 - (k + descent[d]) <= |b|
            && (descent[d] == -1 ==> x <= x1 && a[x..x1] == b[x - k + 1..x1 - k + 1])
            && (descent[d] == 1 ==> x < x1 && a[x + 1..x1] == b[x - k..x1 - k - 1])
  {
    hide Entry, Built, FromRight, Furthest, Slides, RowStart, Solved;
    DescentInGrid(a, b, t, descent, cs, d + 1);
    DescentInGrid(a, b, t, descent, cs, d);
    NextRowStart(d);
    assert Climbs(t.data, d + 1, cs[d + 1], cs[d]);
    ClimbStaysInGrid(a, b, t.data, d + 1, cs[d + 1], cs[d]);
    var x, x1, k1 := t.data[RowStart(d) + cs[d]], t.data[RowStart(d + 1) + cs[d + 1]], 2 * cs[d + 1] - (d + 1);
    SlideCopies(a, b, k1, if cs[d + 1] == cs[d] then x else x + 1, x1);
  }

  lemma NextRowStart(d: nat)
    ensures RowStart(d + 1) == RowStart(d) + d + 1
  {
  }

  lemma DescentShape(t: Solution, descent: seq<int>, cs: seq<nat>)
    requires Descent(t, descent, cs)
    ensures |descent| == t.d + 1 && |cs| == t.d + 1 && cs[0] == 0 && descent[t.d] == 0
  {
  }

  lemma LastTurn<T>(a: seq<T>, b: seq<T>, t: Solution, descent: seq<int>, cs: seq<nat>, d: nat)
    requires Solved(a, b, t) && Descent(t, descent, cs) && d <= t.d && descent[d] == 0
    ensures d == t.d && RowStart(d) + cs[d] == t.at && 2 * cs[d] - d == t.k
  {
    hide RowStart, Built, EditDistance;
    forall j: nat | j < t.d
      ensures descent[j] != 0
    {
      assert descent[j] == if cs[j + 1] == cs[j] then -1 else 1;
    }
  }

  lemma ReachedFirst(a: seq<Byte>, b: seq<Byte>, text: seq<Byte>, ops: seq<Op>, o: nat, n: nat, x: nat)
    requires Emitted(a, b, text, ops, o, n) && Literal(ops) == 0 && o == n == x
    requires Merged(ops) && EndsApart(ops, OP_SKIP) && EndsApart(ops, OP_INSERT)
    ensures Reached(a, b, text, ops, o, n, 0, 0, x, x, 0)
  {
  }

  lemma ReachedLast(a: seq<Byte>, b: seq<Byte>, t: Solution, text: seq<Byte>, ops: seq<Op>, o: nat, n: nat,
                    pending: int, length: nat, lits: int)
    requires Solved(a, b, t) && |a| + |b| < INT_MAX
    requires Reached(a, b, text, ops, o, n, pending, length, t.data[t.at], t.data[t.at] - t.k, lits)
    ensures Emitted(a, b, text, ops, o, n) && pending in {0, OP_SKIP, OP_INSERT}
    ensures pending == OP_INSERT ==> 0 < length < 0x1_0000_0000 && n + length == |b| && Literal(ops) + length == lits
    ensures pending != OP_INSERT ==> n == |b| && Literal(ops) == lits
    ensures Merged(ops) && EndsApart(ops, pending) && (pending == 0 ==> EndsApart(ops, OP_SKIP))
  {
    hide Built, Literal;
  }

  lemma EmittedNothing(a: seq<Byte>, b: seq<Byte>)
    ensures Emitted(a, b, [PT_CSI32], [], 0, 0) && Literal([]) == 0
    ensures Merged([]) && forall code :: EndsApart([], code)
  {
    assert b[..0] == [];
  }

  lemma RowZero<T>(a: seq<T>, b: seq<T>, data: seq<nat>)
    requires |data| > 0 && Entry(a, b, data, 0, 0)
    ensures RowStart(0) == 0 && Slides(a, b, 0, 0, data[0])
  {
  }

  // ---------- The public functions ----------

  datatype DiffResult = Patch(text: seq<Byte>) | TooLarge | TooDifferent

  /** text encodes operations with (EditDistance - |a| + |b|) / 2 literal bytes: the number of
      insertions of a shortest edit script.  No two neighbours could be one operation, and the last is no skip. */
  ghost predicate Economical(a: seq<Byte>, b: seq<Byte>, text: seq<Byte>) {
    exists ops :: text == [11] + EncodeOps(ops) && AllSized(ops) && Merged(ops) && EndsApart(ops, 2) &&
                  2 * Literal(ops) == EditDistance(a, b) - (|a| - |b|)
  }

  /** text encodes the operations of the descent to the solution. */
  ghost predicate OfDescent(a: seq<Byte>, b: seq<Byte>, text: seq<Byte>) {
    exists t, turns, cs ::
      Solved(a, b, t) && Descent(t, turns, cs) && text == [11] + EncodeOps(PatchOps(b, t, turns, cs))
  }

  /** There is only one such text. */
  lemma OnePatch(a: seq<Byte>, b: seq<Byte>, text: seq<Byte>, text': seq<Byte>)
    requires OfDescent(a, b, text) && OfDescent(a, b, text')
    ensures text == text'
  {
    hide EncodeOps, PatchOps, EditDistance, Built, Entry, FromRight, RowStart;
    var t, turns, cs :|
      Solved(a, b, t) && Descent(t, turns, cs) && text == [11] + EncodeOps(PatchOps(b, t, turns, cs));
    var t', turns', cs' :|
      Solved(a, b, t') && Descent(t', turns', cs') && text' == [11] + EncodeOps(PatchOps(b, t', turns', cs'));
    OneSolution(a, b, t, t');
    OneDescent(t, turns, cs, turns', cs');
  }

  lemma OneSolution<T>(a: seq<T>, b: seq<T>, t: Solution, t': Solution)
    requires Solved(a, b, t) && Solved(a, b, t')
    ensures t == t'
  {
    hide EditDistance, RowStart, Slides, Furthest;
    var n := t.at - RowStart(t.d) + 1;
    forall p: nat | p < |t.data|
      ensures t.data[p] == t'.data[p]
    {
      var row, i := InSomeRow(t.d, n, p);
      assert Entry(a, b, t.data, row, i) && Entry(a, b, t'.data, row, i);
      OneFurthest(a, b, row, 2 * i - row as int, t.data[p], t'.data[p]);
    }
  }

  lemma OneFurthest<T>(a: seq<T>, b: seq<T>, d: nat, k: int, x: nat, x': nat)
    requires Furthest(a, b, d, k, x) && Furthest(a, b, d, k, x')
    ensures x == x'
  {
    hide Dist;
    if x < x' {
      BeyondFurthest(a, b, d, k, x, x');
    } else if x' < x {
      BeyondFurthest(a, b, d, k, x', x);
    }
  }

  lemma OneDescent(t: Solution, turns: seq<int>, cs: seq<nat>, turns': seq<int>, cs': seq<nat>)
    requires Descent(t, turns, cs) && Descent(t, turns', cs')
    ensures turns == turns' && cs == cs'
  {
    hide RowStart, FromRight;
    OneWay(t, turns, cs, turns', cs', 0);
    forall j: nat | j <= t.d
      ensures cs[j] == cs'[j]
    {
      OneWay(t, turns, cs, turns', cs', j);
    }
    forall j: nat | j <= t.d
      ensures turns[j] == turns'[j]
    {
      assert j < t.d ==> turns[j] == if cs[j + 1] == cs[j] then -1 else 1;
    }
  }

  lemma {:induction false} OneWay(t: Solution, turns: seq<int>, cs: seq<nat>, turns': seq<int>, cs': seq<nat>, j: nat)
    requires Descent(t, turns, cs) && Descent(t, turns', cs') && j <= t.d
    ensures cs[j] == cs'[j]
    decreases t.d - j
  {
    hide RowStart, FromRight;
    if j < t.d {
      OneWay(t, turns, cs, turns', cs', j + 1);
      assert Climbs(t.data, j + 1, cs[j + 1], cs[j + 1 - 1]) && Climbs(t.data, j + 1, cs'[j + 1], cs'[j + 1 - 1]);
    }
  }

  lemma {:induction false} StepsRight<T>(a: seq<T>, b: seq<T>, x: nat, y: nat, n: nat)
    ensures Dist(a, b, x + n, y) <= Dist(a, b, x, y) + n
    ensures Dist(a, b, x, y + n) <= Dist(a, b, x, y) + n
    decreases n
  {
    if n > 0 {
      StepsRight(a, b, x, y, n - 1);
      Neighbours(a, b, x + n - 1, y);
      Neighbours(a, b, x, y + n - 1);
    }
  }

  lemma {:induction false} StepsDiagonal<T>(a: seq<T>, b: seq<T>, x: nat, y: nat, n: nat)
    requires x + n <= |a| && y + n <= |b| && a[x..x + n] == b[y..y + n]
    ensures Dist(a, b, x + n, y + n) == Dist(a, b, x, y)
    decreases n
  {
    if n > 0 {
      assert a[x..x + n][..n - 1] == a[x..x + n - 1] && b[y..y + n][..n - 1] == b[y..y + n - 1];
      assert a[x..x + n][n - 1] == b[y..y + n][n - 1];
      StepsDiagonal(a, b, x, y, n - 1);
    }
  }

  /** However operations produce a prefix of b, the literal bytes among them pay for the walk. */
  lemma {:induction false} LiteralBytesPay(a: seq<Byte>, b: seq<Byte>, ops: seq<Op>, pos: nat, out: seq<Byte>)
    requires Run(a, 0, [], ops) == Ran(pos, out) && out <= b
    ensures pos <= |a| && 2 * Literal(ops) >= Dist(a, b, pos, |out|) - (pos - |out|)
    decreases |ops|
  {
    if ops != [] {
      hide Dist;
      var init, op := ops[..|ops| - 1], ops[|ops| - 1];
      assert init + [op] == ops;
      RunAppend(a, 0, [], init, op);
      var Ran(p, o) := Run(a, 0, [], init);
      assert [op][1..] == [];
      assert Run(a, p, o, [op]) == Ran(pos, out);
      LastStepPays(a, b, p, o, op, pos, out);
      LiteralBytesPay(a, b, init, p, o);
    }
  }

  lemma LastStepPays(a: seq<Byte>, b: seq<Byte>, p: nat, o: seq<Byte>, op: Op, pos: nat, out: seq<Byte>)
    requires Run(a, p, o, [op]) == Ran(pos, out) && out <= b
    ensures o <= out && (p <= |a| ==> pos <= |a|)
    ensures Dist(a, b, pos, |out|) - (pos - |out|) <= Dist(a, b, p, |o|) - (p - |o|) + 2 * |Payload(op)|
  {
    hide Dist;
    assert [op][1..] == [];
    match op
    case Copy(n) =>
      assert Run(a, p + n, o + a[p..p + n], []) == Ran(pos, out);
      assert a[p..pos] == out[|o|..] == b[|o|..|o| + n];
      StepsDiagonal(a, b, p, |o|, n);
    case Skip(n) =>
      assert Run(a, p + n, o, []) == Ran(pos, out);
      StepsRight(a, b, p, |o|, n);
    case Insert(t) =>
      assert Run(a, p, o + t, []) == Ran(pos, out);
      StepsRight(a, b, p, |o|, |t|);
  }

  /** No operations that produce b carry fewer literal bytes than an economical patch. */
  lemma FewestLiteralBytes(a: seq<Byte>, b: seq<Byte>, ops: seq<Op>, pos: nat)
    requires Run(a, 0, [], ops) == Ran(pos, b)
    ensures 2 * Literal(ops) >= EditDistance(a, b) - (|a| - |b|)
  {
    hide Dist;
    LiteralBytesPay(a, b, ops, pos, b);
    StepsRight(a, b, pos, |b|, |a| - pos);
  }

  /** A patch for the two strings, type byte included, unless they are too large or more than
      d_max edits apart.  It carries as few literal bytes as any edit script does. */
  method DiffMyers(a: seq<Byte>, b: seq<Byte>) returns (r: DiffResult)
    ensures r.TooLarge? <==> |a| + |b| >= 0x7fff_ffff
    ensures !r.TooLarge? ==> (r.TooDifferent? <==> EditDistance(a, b) > 1000)
    ensures r.Patch? ==> Patched(a, r.text) == Ok(b)
    ensures r.Patch? ==> Economical(a, b, r.text) && OfDescent(a, b, r.text)
  {
    hide PatchOps, Solved, Literal, EncodeOps, Patched, EditDistance;
    if |a| >= UINT32_MAX || |b| >= UINT32_MAX - |a| || |a| >= INT_MAX || |b| >= INT_MAX - |a| {
      return TooLarge;
    }
    var built := BuildTriangle(a, b, D_MAX);
    if built.DMaxExceeded? {
      return TooDifferent;
    }
    var t := built.triangle;
    SolvedIsLocated(a, b, t);
    var descent, cs := ClimbTriangle(t);
    var patch := new StringBuffer();
    ghost var turns := descent[..];
    ghost var ops, o := DescentToPatch(descent, t, a, b, patch, cs);
    EmittedPatches(a, b, patch.text, ops, o);
    LocatedColumn(t, turns, cs);
    r := Patch(patch.text);
    assert Economical(a, b, r.text);
    assert OfDescent(a, b, r.text);
  }

  lemma SolvedIsLocated(a: seq<Byte>, b: seq<Byte>, t: Solution)
    requires Solved(a, b, t)
    ensures Located(t) && t.k == |a| - |b| && t.d == EditDistance(a, b)
  {
    hide Built, EditDistance;
  }

  lemma LocatedColumn(t: Solution, descent: seq<int>, cs: seq<nat>)
    requires Located(t) && Descent(t, descent, cs)
    ensures t.k == 2 * cs[t.d] - t.d
  {
    hide RowStart;
  }

  lemma EmittedPatches(a: seq<Byte>, b: seq<Byte>, text: seq<Byte>, ops: seq<Op>, o: nat)
    requires Emitted(a, b, text, ops, o, |b|)
    ensures text == [PT_CSI32] + EncodeOps(ops) && AllSized(ops) && Patched(a, text) == Ok(b)
  {
    hide EncodeOps, Patched;
    assert b[..|b|] == b;
    PatchedEncoded(a, ops, o, b);
  }

  /** Applying the patch gives the new string back, whatever the strings; the patch is at most
      one byte longer than the new string.  It is the economical patch unless that is longer
      than the new string, or there is none.  The check of the finished patch that the program
      makes at run time never fails. */
  method BdeltaDiff(a: seq<Byte>, b: seq<Byte>) returns (patch: seq<Byte>)
    ensures Patched(a, patch) == Ok(b)
    ensures |patch| <= |b| + 1
    ensures Economical(a, b, patch) || patch == [10] + b
    ensures |b| > 0 && |a| + |b| < 0x7fff_ffff && EditDistance(a, b) <= 1000 ==>
              exists text :: OfDescent(a, b, text) && patch == if |text| <= |b| then text else [10] + b
    ensures |b| == 0 || |a| + |b| >= 0x7fff_ffff || EditDistance(a, b) > 1000 ==> patch == [10] + b
    ensures |b| > 0 && |a| + |b| < 0x7fff_ffff && EditDistance(a, b) <= 1000 && patch == [10] + b ==>
              exists text :: Economical(a, b, text) && Patched(a, text) == Ok(b) && |text| > |b|
  {
    hide Economical, EditDistance, OfDescent;
    if |b| != 0 {
      var r := DiffMyers(a, b);
      if r.Patch? && |r.text| <= |b| {
        var result := BdeltaPatch(a, r.text);
        var correct := result.Ok? && result.text == b;
        assert correct;
        if correct {
          return r.text;
        }
      }
    }
    patch := [PT_LITERAL] + b;
  }
}
