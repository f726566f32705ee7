/** What the A* search knows of a graph at every step. */
module AStarPaths {
  import opened Basics
  import opened AStarContainers

  /** A graph by its callbacks: the neighbours of a node in their order, distances, and the estimate to the goal. */
  datatype Problem = Problem(neighbours: nat -> seq<nat>, distance: (nat, nat) -> real, estimate: nat -> real)

  /** The estimate falls along an edge by no more than its length. */
  ghost predicate Consistent(g: Problem) {
    forall u, v :: v in g.neighbours(u) ==> g.estimate(u) <= g.distance(u, v) + g.estimate(v)
  }

  /** No more nodes can be reached than there are in nodes, none of them NULL. */
  ghost predicate Closed(g: Problem, nodes: set<nat>) {
    NULL !in nodes && forall u, v :: u in nodes && v in g.neighbours(u) ==> v in nodes
  }

  /** path leads from its first element to its last. */
  ghost predicate IsPath(g: Problem, path: seq<nat>) {
    path != [] && forall i :: 0 <= i < |path| - 1 ==> path[i + 1] in g.neighbours(path[i])
  }

  function Cost(g: Problem, path: seq<nat>): real
    decreases |path|
  {
    if |path| <= 1 then 0.0
    else Cost(g, path[..|path| - 1]) + g.distance(path[|path| - 2], path[|path| - 1])
  }

  ghost predicate Leads(g: Problem, path: seq<nat>, s: nat, t: nat) {
    IsPath(g, path) && path[0] == s && path[|path| - 1] == t
  }

  /** No path from s to t costs less. */
  ghost predicate Cheapest(g: Problem, s: nat, t: nat, cost: real) {
    forall path :: Leads(g, path, s, t) ==> cost <= Cost(g, path)
  }

  lemma PathInit(g: Problem, path: seq<nat>, s: nat, t: nat)
    requires Leads(g, path, s, t) && |path| > 1
    ensures Leads(g, path[..|path| - 1], s, path[|path| - 2]) && t in g.neighbours(path[|path| - 2])
    ensures Cost(g, path) == Cost(g, path[..|path| - 1]) + g.distance(path[|path| - 2], t)
  {
    assert path[|path| - 2 + 1] in g.neighbours(path[|path| - 2]);
  }

  // ---------- The state of the search ----------

  /** The open nodes are in the order of their set, the closed ones in that in which they were closed. */
  datatype State = State(open: seq<nat>, closed: seq<nat>, score: map<nat, real>, from: map<nat, nat>)

  ghost predicate Members(st: State) {
    && Distinct(st.closed)
    && Distinct(st.open)
    && (forall v :: v in st.open ==> v !in st.closed)
    && (forall v :: v in st.score <==> v in st.open || v in st.closed)
  }

  /** An edge from a closed node has been taken into account. */
  ghost predicate Settled(g: Problem, st: State, u: nat, v: nat)
    requires u in st.score
  {
    v in st.score && st.score[v] <= st.score[u] + g.distance(u, v)
  }

  ghost predicate AllSettled(g: Problem, st: State, done: seq<nat>) {
    forall u, v :: u in done && u in st.score && v in g.neighbours(u) ==> Settled(g, st, u, v)
  }

  ghost predicate AllSeen(g: Problem, st: State, done: seq<nat>) {
    forall u, v :: u in done && v in g.neighbours(u) ==> v in st.score
  }

  ghost function Full(g: Problem, st: State, v: nat): real
    requires v in st.score
  {
    st.score[v] + g.estimate(v)
  }

  /** No open node promises less. */
  ghost predicate Lowest(g: Problem, st: State, u: nat)
    requires u in st.score
  {
    forall v :: v in st.open && v in st.score ==> Full(g, st, u) <= Full(g, st, v)
  }

  /** No open node promises less, and none after it in the set as little. */
  ghost predicate LastLowest(g: Problem, st: State, u: nat)
    requires u in st.score
  {
    && Lowest(g, st, u)
    && exists place :: 0 <= place < |st.open| && st.open[place] == u && HigherAfter(g, st, u, place)
  }

  ghost predicate HigherAfter(g: Problem, st: State, u: nat, place: int)
    requires u in st.score
  {
    forall k :: 0 <= place < k < |st.open| ==> st.open[k] in st.score && Full(g, st, u) < Full(g, st, st.open[k])
  }

  /** Closed nodes promise no more than open ones. */
  ghost predicate Ordered(g: Problem, st: State) {
    forall u, v :: u in st.closed && v in st.open && u in st.score && v in st.score ==> Full(g, st, u) <= Full(g, st, v)
  }

  /** A node that is not the start was reached from a closed node, at the cost of that edge more. */
  ghost predicate Linked(g: Problem, s: nat, st: State, v: nat) {
    && v in st.from && st.from[v] in st.closed && st.from[v] in st.score && v in st.score
    && v in g.neighbours(st.from[v])
    && st.score[v] == st.score[st.from[v]] + g.distance(st.from[v], v)
  }

  /** The nodes from which closed nodes were reached were closed before. */
  ghost predicate Earlier(s: nat, st: State) {
    forall i :: 0 <= i < |st.closed| && st.closed[i] != s ==>
      st.closed[i] in st.from && st.from[st.closed[i]] in st.closed[..i]
  }

  ghost predicate AllLinked(g: Problem, s: nat, st: State) {
    && (forall v :: v in st.score && v != s ==> Linked(g, s, st, v))
    && (forall v :: v in st.from ==> v in st.score && v != s)
  }

  ghost predicate Started(s: nat, st: State) {
    && s in st.score && st.score[s] == 0.0
    && (if st.closed == [] then st.open == [s] else st.closed[0] == s)
  }

  /** All about the search between two rounds, or within one when the edges of the last closed node are not all done.
      What the scores are worth depends on the estimate. */
  ghost predicate Sound(g: Problem, s: nat, st: State, done: seq<nat>) {
    && Members(st)
    && AllSeen(g, st, done)
    && (Consistent(g) ==> AllSettled(g, st, done) && Ordered(g, st))
    && AllLinked(g, s, st)
    && Earlier(s, st)
    && Started(s, st)
  }

  lemma SoundFirst(g: Problem, s: nat)
    ensures Sound(g, s, State([s], [], map[s := 0.0], map[]), [])
  {
  }

  // ---------- Shortest paths ----------

  /** A path's end is known and no dearer than the path, or the path promises at least a bound. */
  lemma {:induction false} KnownOrFar(g: Problem, s: nat, st: State, bound: real, path: seq<nat>, v: nat)
    requires Consistent(g) && Sound(g, s, st, st.closed) && Leads(g, path, s, v)
    requires forall u :: u in st.open && u in st.score ==> bound <= Full(g, st, u)
    ensures Cost(g, path) + g.estimate(v) >= bound || (v in st.score && st.score[v] <= Cost(g, path))
    decreases |path|
  {
    if |path| > 1 {
      PathInit(g, path, s, v);
      var u := path[|path| - 2];
      KnownOrFar(g, s, st, bound, path[..|path| - 1], u);
      if u in st.closed && u in st.score {
        assert v in g.neighbours(u) ==> Settled(g, st, u, v);
      }
    }
  }

  /** The open node that promises most has its final score. */
  lemma LowestIsCheapest(g: Problem, s: nat, st: State, t: nat)
    requires Consistent(g) && Sound(g, s, st, st.closed) && t in st.open && t in st.score
    requires Lowest(g, st, t)
    ensures Cheapest(g, s, t, st.score[t])
  {
    forall path | Leads(g, path, s, t)
      ensures st.score[t] <= Cost(g, path)
    {
      KnownOrFar(g, s, st, Full(g, st, t), path, t);
    }
  }

  /** With nothing open all that can be reached is closed. */
  lemma {:induction false} AllClosed(g: Problem, s: nat, st: State, path: seq<nat>, v: nat)
    requires Sound(g, s, st, st.closed) && st.open == [] && Leads(g, path, s, v)
    ensures v in st.closed
    decreases |path|
  {
    if |path| > 1 {
      PathInit(g, path, s, v);
      var u := path[|path| - 2];
      AllClosed(g, s, st, path[..|path| - 1], u);
      assert v in st.score;
    }
  }

  // ---------- The steps of a round ----------

  /** The lowest open node is closed; its edges are not done yet. */
  lemma SoundClosed(g: Problem, s: nat, st: State, u: nat)
    requires Sound(g, s, st, st.closed) && u in st.open && u in st.score
    requires Lowest(g, st, u)
    ensures var now := st.(open := TakenOut(st.open, u), closed := st.closed + [u]);
            Sound(g, s, now, st.closed) && u in now.score
  {
    var now := st.(open := TakenOut(st.open, u), closed := st.closed + [u]);
    ClosedMembers(g, st, u, now);
    ClosedLinked(g, s, st, u, now);
    if Consistent(g) {
      ClosedSettled(g, st, u, now);
      ClosedOrdered(g, st, u, now);
    }
    hide Members, AllSettled, Ordered, AllLinked, Earlier, Started;
  }

  lemma ClosedSettled(g: Problem, st: State, u: nat, now: State)
    requires AllSettled(g, st, st.closed) && now == st.(open := TakenOut(st.open, u), closed := st.closed + [u])
    ensures AllSettled(g, now, st.closed)
  {
    forall w, v | w in st.closed && w in now.score && v in g.neighbours(w)
      ensures Settled(g, now, w, v)
    {
      assert Settled(g, st, w, v);
    }
  }

  lemma ClosedLinked(g: Problem, s: nat, st: State, u: nat, now: State)
    requires AllLinked(g, s, st) && Earlier(s, st) && Started(s, st) && u in st.open && u in st.score
    requires now == st.(open := TakenOut(st.open, u), closed := st.closed + [u])
    ensures AllLinked(g, s, now) && Earlier(s, now) && Started(s, now)
  {
    assert forall v :: v in st.closed ==> v in now.closed;
    forall v | v in now.score && v != s
      ensures Linked(g, s, now, v)
    {
      assert Linked(g, s, st, v);
    }
    forall i | 0 <= i < |now.closed| && now.closed[i] != s
      ensures now.closed[i] in now.from && now.from[now.closed[i]] in now.closed[..i]
    {
      if i < |st.closed| {
        assert now.closed[i] == st.closed[i] && now.closed[..i] == st.closed[..i];
      } else {
        assert Linked(g, s, st, u) && now.closed[..i] == st.closed;
      }
    }
  }

  lemma ClosedMembers(g: Problem, st: State, u: nat, now: State)
    requires Members(st) && u in st.open && u in st.score
    requires now == st.(open := TakenOut(st.open, u), closed := st.closed + [u])
    ensures Members(now)
  {
    TakenOutFacts(st.open, u);
    assert forall v :: v in now.closed <==> v in st.closed || v == u;
    forall i, j | 0 <= i < j < |now.closed|
      ensures now.closed[i] != now.closed[j]
    {
      assert j == |st.closed| ==> now.closed[i] in st.closed;
    }
  }

  lemma ClosedOrdered(g: Problem, st: State, u: nat, now: State)
    requires Members(st) && Ordered(g, st) && u in st.open && u in st.score && Lowest(g, st, u)
    requires now == st.(open := TakenOut(st.open, u), closed := st.closed + [u])
    ensures Ordered(g, now)
  {
    forall w, v | w in now.closed && v in now.open && w in now.score && v in now.score
      ensures Full(g, now, w) <= Full(g, now, v)
    {
      assert w in st.closed || w == u;
      assert w in st.closed ==> Full(g, st, w) <= Full(g, st, v);
    }
  }

  /** What one look at neighbour v of u does. */
  ghost function Looked(g: Problem, st: State, u: nat, v: nat): State
    requires u in st.score
  {
    var tentative := st.score[u] + g.distance(u, v);
    if v in st.closed || (v in st.open && v in st.score && tentative >= st.score[v]) then st
    else st.(open := WithNode(st.open, v), score := st.score[v := tentative], from := st.from[v := u])
  }

  /** What a look at the first n neighbours of u does, one after the other. */
  ghost function Expanded(g: Problem, st: State, u: nat, n: nat): (r: State)
    requires u in st.score && n <= |g.neighbours(u)|
    ensures u in r.score
  {
    if n == 0 then st else Looked(g, Expanded(g, st, u, n - 1), u, g.neighbours(u)[n - 1])
  }

  /** What a round does: an open node is closed, and its neighbours are looked at. */
  ghost function Rounded(g: Problem, st: State, u: nat): State
    requires u in st.score
  {
    Expanded(g, st.(open := TakenOut(st.open, u), closed := st.closed + [u]), u, |g.neighbours(u)|)
  }

  /** A round with an open node that promises most, other than the goal. */
  ghost predicate IsRound(g: Problem, goal: nat, st: State, now: State) {
    exists u :: u in st.open && u in st.score && u != goal && LastLowest(g, st, u) && now == Rounded(g, st, u)
  }

  function First(s: nat): State {
    State([s], [], map[s := 0.0], map[])
  }

  /** The states of a search between its rounds, up to now. */
  ghost predicate Rounds(g: Problem, s: nat, goal: nat, run: seq<State>) {
    && run != [] && run[0] == First(s)
    && forall i :: 0 <= i < |run| - 1 ==> IsRound(g, goal, run[i], run[i + 1])
  }

  lemma NoRound(g: Problem, s: nat, goal: nat)
    ensures Rounds(g, s, goal, [First(s)])
  {
  }

  lemma OneMoreRound(g: Problem, s: nat, goal: nat, run: seq<State>, u: nat)
    requires Rounds(g, s, goal, run)
    requires var st := run[|run| - 1]; u in st.open && u in st.score && u != goal && LastLowest(g, st, u)
    ensures Rounds(g, s, goal, run + [Rounded(g, run[|run| - 1], u)])
  {
    hide LastLowest, Rounded;
    var now := run + [Rounded(g, run[|run| - 1], u)];
    assert IsRound(g, goal, run[|run| - 1], Rounded(g, run[|run| - 1], u));
    forall i | 0 <= i < |now| - 1
      ensures IsRound(g, goal, now[i], now[i + 1])
    {
      if i < |run| - 1 {
        assert IsRound(g, goal, run[i], run[i + 1]);
      }
    }
  }

  ghost predicate LinkAt(st: State, path: seq<nat>, k: int) {
    0 < k < |path| && path[k] in st.from && st.from[path[k]] == path[k - 1]
  }

  /** The path goes back from its end by the links. */
  ghost predicate ByLinks(st: State, path: seq<nat>) {
    forall k :: 0 < k < |path| ==> LinkAt(st, path, k)
  }

  /** How a search ends: nothing is open any more, or the goal promises most. */
  ghost predicate Ends(g: Problem, goal: nat, st: State, r: Option<seq<nat>>) {
    if r == None then st.open == []
    else
      && goal in st.open && goal in st.score && LastLowest(g, st, goal)
      && r.value != [] && r.value[0] !in st.from && r.value[|r.value| - 1] == goal && ByLinks(st, r.value)
  }

  /** A closed neighbour needs no look: it is no farther than by way of u. */
  lemma ClosedIsSettled(g: Problem, st: State, u: nat, v: nat)
    requires Consistent(g) && v in g.neighbours(u)
    requires u in st.score && v in st.score && Full(g, st, v) <= Full(g, st, u)
    ensures Settled(g, st, u, v)
  {
  }

  /** Closed nodes promised no more than the node in hand, the last that was closed. */
  ghost predicate Before(g: Problem, st: State, done: seq<nat>, u: nat) {
    u in st.score && forall w :: w in done && w in st.score ==> Full(g, st, w) <= Full(g, st, u)
  }

  /** A look at a neighbour keeps the scores of all closed nodes. */
  lemma SoundLooked(g: Problem, s: nat, st: State, done: seq<nat>, u: nat, v: nat)
    requires Sound(g, s, st, done) && st.closed == done + [u] && u in st.score && v in g.neighbours(u)
    requires Consistent(g) ==> Before(g, st, done, u)
    ensures var now := Looked(g, st, u, v);
            && Sound(g, s, now, done) && now.closed == st.closed && u in now.score && v in now.score
            && (Consistent(g) ==> Settled(g, now, u, v) && Before(g, now, done, u))
            && (forall w :: w in st.closed && w in st.score ==> w in now.score && now.score[w] == st.score[w])
            && (forall w :: w in st.score ==> w in now.score && now.score[w] <= st.score[w])
  {
    var now := Looked(g, st, u, v);
    assert u in st.closed;
    if v in st.closed {
      assert v in done || v == u;
      assert v in st.score;
      if Consistent(g) {
        ClosedIsSettled(g, st, u, v);
      }
    } else if now != st {
      LookedSound(g, s, st, done, u, v, now);
    }
  }

  lemma LookedSound(g: Problem, s: nat, st: State, done: seq<nat>, u: nat, v: nat, now: State)
    requires Sound(g, s, st, done) && st.closed == done + [u] && u in st.score && v in g.neighbours(u)
    requires Consistent(g) ==> Before(g, st, done, u)
    requires v !in st.closed && now == Looked(g, st, u, v) && now != st
    ensures Sound(g, s, now, done) && Settled(g, now, u, v)
    ensures Consistent(g) ==> Before(g, now, done, u)
    ensures forall w :: w in st.closed && w in st.score ==> w in now.score && now.score[w] == st.score[w]
    ensures forall w :: w in st.score ==> w in now.score && now.score[w] <= st.score[w]
  {
    assert v != s by {
      assert st.closed[0] in st.closed;
    }
    assert u in st.closed && forall w :: w in done ==> w in st.closed;
    LookedMembers(g, st, done, u, v, now);
    LookedLinked(g, s, st, done, u, v, now);
    LookedScores(g, st, u, v, now);
    if Consistent(g) {
      LookedSettled(g, st, done, u, v, now);
    }
    hide Members, AllSeen, AllSettled, Ordered, AllLinked, Earlier, Started, Consistent;
  }

  lemma LookedMembers(g: Problem, st: State, done: seq<nat>, u: nat, v: nat, now: State)
    requires Members(st) && AllSeen(g, st, done) && u in st.score && v !in st.closed
    requires now == Looked(g, st, u, v) && now != st
    ensures Members(now) && AllSeen(g, now, done)
  {
  }

  lemma LookedScores(g: Problem, st: State, u: nat, v: nat, now: State)
    requires Members(st) && u in st.score && u in st.closed && v !in st.closed && now == Looked(g, st, u, v)
    requires now != st
    ensures Settled(g, now, u, v)
    ensures forall w :: w in st.closed && w in st.score ==> w in now.score && now.score[w] == st.score[w]
    ensures forall w :: w in st.score ==> w in now.score && now.score[w] <= st.score[w]
  {
  }

  lemma LookedSettled(g: Problem, st: State, done: seq<nat>, u: nat, v: nat, now: State)
    requires Consistent(g) && Members(st) && AllSettled(g, st, done) && Ordered(g, st)
    requires st.closed == done + [u] && u in st.score && v in g.neighbours(u) && Before(g, st, done, u)
    requires v !in st.closed && now == Looked(g, st, u, v) && now != st
    ensures AllSettled(g, now, done) && Ordered(g, now) && Before(g, now, done, u)
  {
    assert u in st.closed && forall w :: w in done ==> w in st.closed;
    forall w, x | w in done && w in now.score && x in g.neighbours(w)
      ensures Settled(g, now, w, x)
    {
      assert w in st.closed && Settled(g, st, w, x);
    }
    forall w, x | w in now.closed && x in now.open && w in now.score && x in now.score
      ensures Full(g, now, w) <= Full(g, now, x)
    {
      assert w in done || w == u;
      if x != v {
        assert Full(g, st, w) <= Full(g, st, x);
      }
    }
  }

  lemma LookedLinked(g: Problem, s: nat, st: State, done: seq<nat>, u: nat, v: nat, now: State)
    requires Members(st) && AllLinked(g, s, st) && Earlier(s, st) && Started(s, st)
    requires st.closed == done + [u] && u in st.score && v in g.neighbours(u) && v != s
    requires v !in st.closed && now == Looked(g, st, u, v) && now != st
    ensures AllLinked(g, s, now) && Earlier(s, now) && Started(s, now)
  {
    forall w | w in now.score && w != s
      ensures Linked(g, s, now, w)
    {
      assert u in st.closed;
      if w != v {
        assert Linked(g, s, st, w);
      }
    }
    assert now.closed == st.closed;
    forall i | 0 <= i < |now.closed| && now.closed[i] != s
      ensures now.closed[i] in now.from && now.from[now.closed[i]] in now.closed[..i]
    {
      assert now.closed[i] in st.closed;
    }
  }

  /** The first n neighbours of the node in hand have been looked at. */
  ghost predicate Looks(g: Problem, st: State, u: nat, n: nat)
    requires u in st.score
  {
    forall i :: 0 <= i < n && i < |g.neighbours(u)| ==>
      g.neighbours(u)[i] in st.score && (Consistent(g) ==> Settled(g, st, u, g.neighbours(u)[i]))
  }

  lemma LooksNext(g: Problem, st: State, now: State, u: nat, n: nat)
    requires u in st.score && u in now.score && Looks(g, st, u, n) && n < |g.neighbours(u)|
    requires g.neighbours(u)[n] in now.score && (Consistent(g) ==> Settled(g, now, u, g.neighbours(u)[n]))
    requires now.score[u] == st.score[u] && forall w :: w in st.score ==> w in now.score && now.score[w] <= st.score[w]
    ensures Looks(g, now, u, n + 1)
  {
    hide Consistent;
    forall i | 0 <= i < n + 1
      ensures g.neighbours(u)[i] in now.score && (Consistent(g) ==> Settled(g, now, u, g.neighbours(u)[i]))
    {
      if i < n && Consistent(g) {
        assert Settled(g, st, u, g.neighbours(u)[i]);
      }
    }
  }

  /** When all neighbours have been looked at the round is done. */
  lemma RoundDone(g: Problem, s: nat, st: State, done: seq<nat>, u: nat)
    requires Sound(g, s, st, done) && st.closed == done + [u] && u in st.score && Looks(g, st, u, |g.neighbours(u)|)
    ensures Sound(g, s, st, st.closed)
  {
    hide Members, AllLinked, Earlier, Started, Consistent, Ordered;
    forall w, v | w in st.closed && v in g.neighbours(w)
      ensures v in st.score && (Consistent(g) && w in st.score ==> Settled(g, st, w, v))
    {
      if w == u {
        var i :| 0 <= i < |g.neighbours(u)| && g.neighbours(u)[i] == v;
      } else {
        assert w in done;
      }
    }
  }
}
