/** The table of file locks held through each descriptor. */
module LockTable {
  /** F_RDLCK, F_WRLCK and F_UNLCK. */
  datatype Kind = Read | Write | Unlock

  /** A lock on the bytes start to end, both included. */
  datatype LockInfo = LockInfo(fd: int, start: int, end: int, kind: Kind)

  /** A request for a lock, or, with Unlock, to have none. */
  type Request = LockInfo

  predicate Covers(l: LockInfo, fd: int, b: int) {
    l.fd == fd && l.start <= b <= l.end
  }

  ghost predicate Holds(locks: seq<LockInfo>, fd: int, b: int, kind: Kind) {
    exists i :: 0 <= i < |locks| && Covers(locks[i], fd, b) && locks[i].kind == kind
  }

  predicate Apart(l: LockInfo, m: LockInfo) {
    l.fd == m.fd ==> l.end < m.start || m.end < l.start
  }

  predicate Sound(l: LockInfo) {
    l.start <= l.end && l.kind != Unlock
  }

  /** No lock is empty, and no two of one descriptor have a byte in common. */
  ghost predicate Valid(locks: seq<LockInfo>) {
    && (forall i :: 0 <= i < |locks| ==> Sound(locks[i]))
    && (forall i, j :: 0 <= i < j < |locks| ==> Apart(locks[i], locks[j]))
  }

  ghost predicate Free(locks: seq<LockInfo>, req: Request) {
    forall i :: 0 <= i < |locks| ==> Apart(locks[i], req)
  }

  /** The bytes asked for have the kind asked for, and the others what they had. */
  ghost predicate Overwrites(before: seq<LockInfo>, after: seq<LockInfo>, req: Request) {
    forall fd, b, kind ::
      Holds(after, fd, b, kind) <==>
      if Covers(req, fd, b) then kind == req.kind != Unlock else Holds(before, fd, b, kind)
  }

  /** Nothing is added, and nothing but what the request covers is lost. */
  ghost predicate Clearing(before: seq<LockInfo>, now: seq<LockInfo>, req: Request) {
    && (forall fd, b, kind :: Holds(now, fd, b, kind) ==> Holds(before, fd, b, kind))
    && (forall fd, b, kind :: Holds(before, fd, b, kind) && !Covers(req, fd, b) ==> Holds(now, fd, b, kind))
  }

  ghost function Measure(locks: seq<LockInfo>, req: Request): nat {
    if Free(locks, req) then 0 else 1
  }

  // ---------- One change of the table ----------

  /** Replacing a lock by a part of it, when the rest is covered by the request. */
  lemma Trimmed(locks: seq<LockInfo>, i: nat, m: LockInfo, req: Request)
    requires Valid(locks) && i < |locks|
    requires m.fd == locks[i].fd == req.fd && m.kind == locks[i].kind
    requires locks[i].start <= m.start <= m.end <= locks[i].end
    requires m.start == locks[i].start || (req.start <= locks[i].start && m.start - 1 <= req.end)
    requires m.end == locks[i].end || (req.start <= m.end + 1 && locks[i].end <= req.end)
    ensures Valid(locks[i := m])
    ensures Clearing(locks, locks[i := m], req)
  {
    var now := locks[i := m];
    forall fd, b, kind | Holds(now, fd, b, kind)
      ensures Holds(locks, fd, b, kind)
    {
      var k :| 0 <= k < |now| && Covers(now[k], fd, b) && now[k].kind == kind;
      assert Covers(locks[k], fd, b) && locks[k].kind == kind;
    }
    forall fd, b, kind | Holds(locks, fd, b, kind) && !Covers(req, fd, b)
      ensures Holds(now, fd, b, kind)
    {
      var k :| 0 <= k < |locks| && Covers(locks[k], fd, b) && locks[k].kind == kind;
      assert Covers(now[k], fd, b) && now[k].kind == kind;
    }
  }

  /** Forgetting a lock that the request covers. */
  lemma Forgotten(locks: seq<LockInfo>, i: nat, req: Request)
    requires Valid(locks) && i < |locks|
    requires locks[i].fd == req.fd && req.start <= locks[i].start && locks[i].end <= req.end
    ensures Valid(locks[..i] + locks[i + 1..])
    ensures Clearing(locks, locks[..i] + locks[i + 1..], req)
  {
    var now := locks[..i] + locks[i + 1..];
    assert forall k :: 0 <= k < |now| ==> now[k] == locks[if k < i then k else k + 1];
    forall fd, b, kind | Holds(locks, fd, b, kind) && !Covers(req, fd, b)
      ensures Holds(now, fd, b, kind)
    {
      var k :| 0 <= k < |locks| && Covers(locks[k], fd, b) && locks[k].kind == kind;
      assert k != i;
      assert Covers(now[if k < i then k else k - 1], fd, b);
    }
  }

  /** A lock cut in two around the request, the second part put at the end of the table. */
  lemma CutInTwo(locks: seq<LockInfo>, i: nat, req: Request)
    requires Valid(locks) && i < |locks| && locks[i].fd == req.fd
    requires locks[i].start < req.start <= req.end < locks[i].end
    ensures var l := locks[i];
            var trimmed := locks[i := l.(end := req.start - 1)];
            var rest := LockInfo(l.fd, req.end + 1, l.end, l.kind);
            && Valid(trimmed)
            && Free(trimmed, rest)
            && Free(trimmed + [rest], req)
            && Valid(trimmed + [rest])
            && Clearing(locks, trimmed + [rest], req)
  {
    var l := locks[i];
    var trimmed := locks[i := l.(end := req.start - 1)];
    var rest := LockInfo(l.fd, req.end + 1, l.end, l.kind);
    var now := trimmed + [rest];
    assert forall k :: 0 <= k < |locks| && k != i ==> now[k] == locks[k] && Apart(locks[k], l);
    assert now[i].end == req.start - 1 && now[i].start == l.start && now[|locks|] == rest;
    forall fd, b, kind | Holds(now, fd, b, kind)
      ensures Holds(locks, fd, b, kind)
    {
      var k :| 0 <= k < |now| && Covers(now[k], fd, b) && now[k].kind == kind;
      assert Covers(locks[if k == |locks| then i else k], fd, b);
    }
    forall fd, b, kind | Holds(locks, fd, b, kind) && !Covers(req, fd, b)
      ensures Holds(now, fd, b, kind)
    {
      var k :| 0 <= k < |locks| && Covers(locks[k], fd, b) && locks[k].kind == kind;
      assert k != i || b <= req.start - 1 || req.end + 1 <= b;
      assert Covers(now[k], fd, b) || Covers(now[|locks|], fd, b);
    }
  }

  lemma ClearingTwice(a: seq<LockInfo>, b: seq<LockInfo>, c: seq<LockInfo>, req: Request)
    requires Clearing(a, b, req) && Clearing(b, c, req)
    ensures Clearing(a, c, req)
  {
  }

  /** Once the bytes are free the request's lock is added, if it is for one. */
  lemma Added(before: seq<LockInfo>, now: seq<LockInfo>, req: Request)
    requires Valid(now) && Clearing(before, now, req) && Free(now, req) && req.start <= req.end
    ensures var after := if req.kind != Unlock then now + [req] else now;
            Valid(after) && Overwrites(before, after, req)
  {
    var after := if req.kind != Unlock then now + [req] else now;
    assert forall k :: 0 <= k < |now| ==> after[k] == now[k];
    forall fd, b, kind
      ensures Holds(after, fd, b, kind) <==>
              if Covers(req, fd, b) then kind == req.kind != Unlock else Holds(before, fd, b, kind)
    {
      if Covers(req, fd, b) {
        if Holds(after, fd, b, kind) {
          var k :| 0 <= k < |after| && Covers(after[k], fd, b) && after[k].kind == kind;
          assert k == |now|;
        }
        if kind == req.kind != Unlock {
          assert after[|now|] == req;
        }
      } else {
        if Holds(after, fd, b, kind) {
          var k :| 0 <= k < |after| && Covers(after[k], fd, b) && after[k].kind == kind;
          assert k < |now| && Covers(now[k], fd, b);
          assert Holds(now, fd, b, kind);
        }
        if Holds(before, fd, b, kind) {
          var k :| 0 <= k < |now| && Covers(now[k], fd, b) && now[k].kind == kind;
          assert Covers(after[k], fd, b);
        }
      }
    }
  }

  // ---------- The table ----------

  class Table {
    var locks: seq<LockInfo>

    constructor ()
      ensures Valid(locks) && locks == []
    {
      locks := [];
    }

    /** Overwrite the bytes of a request, whatever locks there are on them. */
    method AddLock(fd: int, start: int, end: int, kind: Kind)
      requires Valid(locks) && start <= end
      modifies this
      ensures Valid(locks)
      ensures Overwrites(old(locks), locks, LockInfo(fd, start, end, kind))
      ensures Free(old(locks), LockInfo(fd, start, end, kind)) ==>
                locks == old(locks) + if kind != Unlock then [LockInfo(fd, start, end, kind)] else []
      decreases Measure(locks, LockInfo(fd, start, end, kind))
    {
      hide Valid, Clearing, Overwrites, Holds;
      ghost var req := LockInfo(fd, start, end, kind);
      ghost var was := locks;
      NothingCleared(locks, req);
      var i := 0;
      while i < |locks|
        invariant 0 <= i <= |locks|
        invariant Valid(locks) && Clearing(was, locks, req)
        invariant forall k :: 0 <= k < i ==> Apart(locks[k], req)
        invariant Free(was, req) ==> locks == was
        decreases Measure(locks, req), |locks| - i
      {
        var l := locks[i];
        SoundAt(locks, i);
        if l.fd != fd {
          i := i + 1;
        } else {
          ghost var prev := locks;
          if start > l.start && end < l.end {
            // The request is inside the lock: keep the start of it, and add its end again.
            CutInTwo(prev, i, req);
            OverlapIsHeld(was, prev, i, req);
            locks := locks[i := l.(end := start - 1)];
            AddLock(fd, end + 1, l.end, l.kind);
            ClearingTwice(was, prev, locks, req);
          } else if start <= l.start && end >= l.end {
            Forgotten(prev, i, req);
            ClearingTwice(was, prev, prev[..i] + prev[i + 1..], req);
            OverlapIsHeld(was, prev, i, req);
            locks := locks[i := l.(start := 1, end := 0)];
          } else if end >= l.start && end < l.end {
            Trimmed(prev, i, l.(start := end + 1), req);
            OverlapIsHeld(was, prev, i, req);
            locks := locks[i := l.(start := end + 1)];
            ClearingTwice(was, prev, locks, req);
          } else if start > l.start && start <= l.end {
            Trimmed(prev, i, l.(end := start - 1), req);
            OverlapIsHeld(was, prev, i, req);
            locks := locks[i := l.(end := start - 1)];
            ClearingTwice(was, prev, locks, req);
          }
          if locks[i].end < locks[i].start {
            locks := locks[..i] + locks[i + 1..];
            assert locks == prev[..i] + prev[i + 1..];
          } else {
            i := i + 1;
          }
        }
      }
      assert Free(locks, req);
      Added(was, locks, req);
      if kind != Unlock {
        locks := locks + [LockInfo(fd, start, end, kind)];
      }
    }
  }

  lemma SoundAt(locks: seq<LockInfo>, i: nat)
    requires Valid(locks) && i < |locks|
    ensures Sound(locks[i])
  {
  }

  /** A lock that meets the request was already there, whole or in part, when the scan began. */
  lemma OverlapIsHeld(was: seq<LockInfo>, locks: seq<LockInfo>, i: nat, req: Request)
    requires Valid(locks) && Clearing(was, locks, req) && req.start <= req.end
    requires i < |locks| && !Apart(locks[i], req)
    ensures !Free(was, req) && !Free(locks, req)
  {
    var l := locks[i];
    var x := if l.start < req.start then req.start else l.start;
    assert Covers(l, req.fd, x) && Holds(locks, req.fd, x, l.kind);
    var j :| 0 <= j < |was| && Covers(was[j], req.fd, x) && was[j].kind == l.kind;
    assert !Apart(was[j], req);
  }

  lemma NothingCleared(locks: seq<LockInfo>, req: Request)
    ensures Clearing(locks, locks, req)
  {
  }

  // ---------- Every run ----------

  /** What the last request for a byte asked for; Unlock if there was none. */
  ghost function LastAsked(requests: seq<Request>, fd: int, b: int): Kind
    decreases |requests|
  {
    if requests == [] then Unlock
    else
      var last := requests[|requests| - 1];
      if Covers(last, fd, b) then last.kind else LastAsked(requests[..|requests| - 1], fd, b)
  }

  /** After any run of requests from the empty table each byte has the kind last asked for. */
  lemma {:induction false} EveryRun(states: seq<seq<LockInfo>>, requests: seq<Request>, fd: int, b: int, kind: Kind)
    requires |states| == |requests| + 1 && states[0] == []
    requires forall i :: 0 <= i < |requests| ==> Overwrites(states[i], states[i + 1], requests[i])
    ensures Holds(states[|requests|], fd, b, kind) <==> kind == LastAsked(requests, fd, b) != Unlock
    decreases |requests|
  {
    if requests != [] {
      var n := |requests| - 1;
      assert Overwrites(states[n], states[n + 1], requests[n]);
      EveryRun(states[..n + 1], requests[..n], fd, b, kind);
    }
  }
}
