/** Dijkstra's algorithm, one node at a time. */
module AgaDijkstra {
  import opened AgaWalks
  import opened Aga

  // ---------- The queue ----------

  predicate NoDuplicates(pq: seq<Node>) {
    forall i, j :: 0 <= i < j < |pq| ==> pq[i] != pq[j]
  }

  /** No node of the queue is nearer than the one in this place, and none after it is as near. */
  ghost predicate LastNearest(pq: seq<Node>, front: int, n: Node)
    reads pq`distance
  {
    && 0 <= front < |pq| && pq[front] == n
    && (forall k :: 0 <= k < |pq| ==> n.distance <= pq[k].distance)
    && forall k :: front < k < |pq| ==> n.distance < pq[k].distance
  }

  /** The place of the last of the nodes with the least distance. */
  method Front(pq: seq<Node>) returns (front: int)
    requires pq != []
    ensures 0 <= front < |pq| && LastNearest(pq, front, pq[front])
  {
    front := 0;
    for p := 1 to |pq|
      invariant 0 <= front < p
      invariant forall k :: 0 <= k < p ==> pq[front].distance <= pq[k].distance
      invariant forall k :: front < k < p ==> pq[front].distance < pq[k].distance
    {
      if pq[p].distance <= pq[front].distance {
        front := p;
      }
    }
  }

  lemma WithoutOne(was: seq<Node>, front: nat, now: seq<Node>)
    requires NoDuplicates(was) && front < |was| && now == was[..front] + was[front + 1..]
    ensures NoDuplicates(now) && was[front] !in now
    ensures forall v :: v in was <==> v in now || v == was[front]
  {
    assert forall k :: 0 <= k < |now| ==> now[k] == was[if k < front then k else k + 1];
    assert forall k :: 0 <= k < |was| && k != front ==> was[k] == now[if k < front then k else k - 1];
  }

  lemma NearestOfAll(pq: seq<Node>, front: int, n: Node)
    requires LastNearest(pq, front, n)
    ensures n in pq && forall v :: v in pq ==> n.distance <= v.distance
  {
  }

  ghost function Without(pq: seq<Node>, front: int): seq<Node> {
    if 0 <= front < |pq| then pq[..front] + pq[front + 1..] else pq
  }

  /** Take out the last of the nodes with the least distance. */
  method Dequeue(g: Graph) returns (n: Node?)
    requires NoDuplicates(g.pq)
    modifies g`pq
    ensures n == null <==> old(g.pq) == []
    ensures n == null ==> g.pq == []
    ensures n != null ==> n in old(g.pq) && n !in g.pq && NoDuplicates(g.pq)
    ensures n != null ==> forall v :: v in old(g.pq) <==> v in g.pq || v == n
    ensures n != null ==> exists front :: LastNearest(old(g.pq), front, n) && g.pq == Without(old(g.pq), front)
    ensures n != null ==> forall v :: v in old(g.pq) ==> n.distance <= v.distance
  {
    hide NoDuplicates, LastNearest;
    if g.pq == [] {
      return null;
    }
    var front := Front(g.pq);
    ghost var was := g.pq;
    n := g.pq[front];
    NearestOfAll(was, front, n);
    g.pq := g.pq[..front] + g.pq[front + 1..];
    WithoutOne(was, front, g.pq);
    assert LastNearest(was, front, n);
  }

  // ---------- What is known between two steps ----------

  /** The nodes with all edges gone through, without errors or negative costs. */
  ghost predicate Finished(edges: Edges, found: Labels, done: set<Node>) {
    && done <= found.Keys && found.Keys <= edges.Keys
    && forall v, i: nat :: v in done && i < |edges[v]| ==> EdgeDone(edges, found, v, i)
  }

  ghost predicate EdgeDone(edges: Edges, found: Labels, v: Node, i: nat)
    requires v in edges && i < |edges[v]| && v in found
  {
    && edges[v][i].rc == 0
    && (edges[v][i].to != null ==> edges[v][i].icost >= 0)
    && Settled(edges, found, v, i)
  }

  /** Nodes that are done are no farther than others. */
  ghost predicate Ordered(found: Labels, done: set<Node>) {
    forall v, u :: v in done && v in found && u in found && u !in done ==> found[v].distance <= found[u].distance
  }

  /** A label's path comes through the edge that it names. */
  ghost predicate Linked(edges: Edges, s: Node, found: Labels, v: Node)
    requires v in found
  {
    var l := found[v];
    if l.prev == null then v == s && l.distance == 0
    else
      && l.prev in found && l.prev in edges && 0 <= l.prevedge < |edges[l.prev]|
      && edges[l.prev][l.prevedge].to == v
      && l.distance == found[l.prev].distance + edges[l.prev][l.prevedge].icost
  }

  ghost predicate AllLinked(edges: Edges, s: Node, found: Labels, expanded: set<Node>) {
    forall v :: v in found ==> Linked(edges, s, found, v) && (found[v].prev != null ==> found[v].prev in expanded)
  }

  ghost predicate Positive(found: Labels) {
    forall v :: v in found ==> found[v].distance >= 0
  }

  /** All about the labels. The nodes in hand are neither done nor in the queue. */
  ghost predicate Frontier(edges: Edges, s: Node, found: Labels, done: set<Node>, hand: set<Node>) {
    && s in found && found[s].distance == 0 && found[s].prev == null
    && Realized(edges, s, found)
    && Finished(edges, found, done)
    && Ordered(found, done)
    && Positive(found)
    && AllLinked(edges, s, found, done + hand)
  }

  ghost predicate QueueHolds(found: Labels, done: set<Node>, hand: set<Node>, pq: seq<Node>) {
    && NoDuplicates(pq)
    && (forall v :: v in pq ==> v in found && v !in done && v !in hand)
    && (forall v :: v in found && v !in done && v !in hand ==> v in pq)
  }

  // ---------- Errors ----------

  /** The first i edges of a node are given without an error, and none is negative. */
  ghost predicate CleanUpTo(edges: Edges, v: Node, i: nat) {
    && v in edges && i <= |edges[v]|
    && forall j: nat :: j < i ==> edges[v][j].rc == 0 && (edges[v][j].to != null ==> edges[v][j].icost >= 0)
  }

  ghost predicate Clean(edges: Edges, v: Node) {
    v in edges && CleanUpTo(edges, v, |edges[v]|)
  }

  /** Going through the edges of a node stops with this error: that of the callback, or 1 for a negative cost. */
  ghost predicate StopsAt(edges: Edges, v: Node, error: int) {
    exists i: nat ::
      && CleanUpTo(edges, v, i) && i < |edges[v]|
      && if edges[v][i].rc != 0 then error == edges[v][i].rc
         else edges[v][i].to != null && edges[v][i].icost < 0 && error == 1
  }

  lemma StopsNotClean(edges: Edges, v: Node, error: int)
    requires StopsAt(edges, v, error)
    ensures v in edges && !Clean(edges, v)
  {
  }

  /** Nothing goes wrong at a node that can be reached. */
  ghost predicate AllClean(edges: Edges, s: Node) {
    forall v :: v in edges && Reachable(edges, s, v) ==> Clean(edges, v)
  }

  /** A node at which the run stops: it can be reached, and is no farther than any node that is not done. */
  ghost predicate Stopped(edges: Edges, s: Node, done: set<Node>, n: Node, cost: int, error: int) {
    && StopsAt(edges, n, error) && n !in done
    && ShortestNonNegative(edges, s, n, cost)
    && forall v, w :: v in edges && v !in done && IsWalk(edges, s, w, v) && NonNegative(edges, s, w) ==>
         cost <= Cost(edges, s, w)
  }

  // ---------- Shortest paths ----------

  /** A walk without negative edges ends where it is found and no dearer than found, or costs at least a bound. */
  lemma {:induction false} FoundOrFar(edges: Edges, s: Node, found: Labels, done: set<Node>, bound: int, w: seq<nat>,
                                      v: Node)
    requires s in found && found[s].distance <= 0 && Finished(edges, found, done)
    requires forall u :: u in found && u !in done ==> bound <= found[u].distance
    requires IsWalk(edges, s, w, v) && NonNegative(edges, s, w)
    ensures Cost(edges, s, w) >= bound || (v in found && found[v].distance <= Cost(edges, s, w))
    decreases |w|
  {
    if w != [] {
      var before, i := w[..|w| - 1], w[|w| - 1];
      var u := End(edges, s, before);
      FoundOrFar(edges, s, found, done, bound, before, u);
      if Cost(edges, s, before) < bound {
        assert u in done;
        assert EdgeDone(edges, found, u, i);
      }
    }
  }

  /** What is done has its shortest distance. */
  lemma DoneIsShortest(edges: Edges, s: Node, found: Labels, done: set<Node>, v: Node)
    requires Frontier(edges, s, found, done, {}) && v in found
    requires v in done || forall u :: u in found && u !in done ==> found[v].distance <= found[u].distance
    ensures ShortestNonNegative(edges, s, v, found[v].distance)
  {
    forall w | IsWalk(edges, s, w, v) && NonNegative(edges, s, w)
      ensures found[v].distance <= Cost(edges, s, w)
    {
      FoundOrFar(edges, s, found, done, found[v].distance, w, v);
    }
  }

  /** When all that is found is done there is nothing else to be found, and there are no negative edges. */
  lemma {:induction false} NothingElse(edges: Edges, s: Node, found: Labels, done: set<Node>, w: seq<nat>, v: Node)
    requires Finished(edges, found, done) && s in found && found.Keys == done && IsWalk(edges, s, w, v)
    ensures v in found && NonNegative(edges, s, w)
    decreases |w|
  {
    if w != [] {
      var before, i := w[..|w| - 1], w[|w| - 1];
      var u := End(edges, s, before);
      NothingElse(edges, s, found, done, before, u);
      assert EdgeDone(edges, found, u, i);
    }
  }

  /** At the end of a run: exactly what can be reached is found, with its shortest distance and path. */
  lemma AllDone(edges: Edges, s: Node, found: Labels, done: set<Node>)
    requires Frontier(edges, s, found, done, {}) && found.Keys == done
    ensures forall v :: v in found <==> Reachable(edges, s, v)
    ensures forall v :: v in found ==> Shortest(edges, s, v, found[v].distance)
    ensures forall w, v :: IsWalk(edges, s, w, v) ==> NonNegative(edges, s, w)
  {
    forall w, v | IsWalk(edges, s, w, v)
      ensures v in found && NonNegative(edges, s, w)
    {
      NothingElse(edges, s, found, done, w, v);
    }
    forall v | v in found
      ensures Shortest(edges, s, v, found[v].distance)
    {
      DoneIsShortest(edges, s, found, done, v);
    }
    forall v | v in found
      ensures Reachable(edges, s, v)
    {
      var w :| IsWalk(edges, s, w, v) && Cost(edges, s, w) == found[v].distance;
    }
  }

  /** A run that goes to its end has come upon nothing wrong. */
  lemma DoneClean(edges: Edges, s: Node, found: Labels, done: set<Node>)
    requires Finished(edges, found, done) && found.Keys == done && forall v :: v in found <==> Reachable(edges, s, v)
    ensures AllClean(edges, s)
  {
    hide Reachable, Settled;
    forall v, j: nat | v in edges && Reachable(edges, s, v) && j < |edges[v]|
      ensures edges[v][j].rc == 0 && (edges[v][j].to != null ==> edges[v][j].icost >= 0)
    {
      assert EdgeDone(edges, found, v, j);
    }
  }

  /** A negative edge that can be reached. */
  ghost predicate NegativeEdge(edges: Edges, s: Node) {
    exists v, i: nat ::
      v in edges && Reachable(edges, s, v) && i < |edges[v]| && edges[v][i].to != null && edges[v][i].icost < 0
  }

  /** If no callback fails, it is a negative edge that is wrong. */
  lemma OnlyNegative(edges: Edges, s: Node, n: Node, error: int)
    requires NoneFails(edges, s)
    ensures AllClean(edges, s) ==> !NegativeEdge(edges, s)
    ensures StopsAt(edges, n, error) && Reachable(edges, s, n) ==> error == 1 && NegativeEdge(edges, s)
  {
    hide Reachable;
    if StopsAt(edges, n, error) && Reachable(edges, s, n) {
      assert Clear(edges, n);
    }
  }

  // ---------- One edge ----------

  /** The node in hand is a nearest one, and its first edges are gone through. */
  ghost predicate InHand(edges: Edges, found: Labels, done: set<Node>, n: Node, i: nat) {
    && n in found && n in edges && n !in done && i <= |edges[n]|
    && (forall u :: u in found && u !in done ==> found[n].distance <= found[u].distance)
    && forall j: nat :: j < i ==> EdgeDone(edges, found, n, j)
  }

  /** Labels after a relaxation by which the nodes expanded keep theirs. */
  ghost predicate Better(found: Labels, now: Labels, expanded: set<Node>, v: Node, l: Label) {
    && found.Keys + {v} == now.Keys
    && (forall u :: u in found && u != v ==> now[u] == found[u])
    && (now[v] == l || (v in found && now[v] == found[v]))
    && now[v].distance <= l.distance
    && (v in found ==> now[v].distance <= found[v].distance)
    && (forall u :: u in expanded && u in found ==> now[u] == found[u])
  }

  lemma ExpandedKeep(edges: Edges, s: Node, found: Labels, done: set<Node>, n: Node, i: nat, v: Node, cost: int)
    requires Frontier(edges, s, found, done, {n}) && InHand(edges, found, done, n, i) && cost >= 0
    ensures v in done ==> v in found && found[n].distance + cost >= found[v].distance
    ensures Better(found, Relaxed(found, v, found[n].distance + cost, n, i), done + {n, s}, v,
                   Label(found[n].distance + cost, n, i))
  {
  }

  lemma BetterFinished(edges: Edges, found: Labels, now: Labels, done: set<Node>, n: Node, s: Node, i: nat, v: Node,
                       l: Label)
    requires Better(found, now, done + {n, s}, v, l) && v in edges
    requires Finished(edges, found, done) && InHand(edges, found, done, n, i) && i < |edges[n]|
    requires edges[n][i] == EdgeInfo(0, v, edges[n][i].icost) && edges[n][i].icost >= 0
    requires l.distance == found[n].distance + edges[n][i].icost
    ensures Finished(edges, now, done) && InHand(edges, now, done, n, i + 1)
  {
    forall u, j: nat | u in done && j < |edges[u]|
      ensures EdgeDone(edges, now, u, j)
    {
      assert EdgeDone(edges, found, u, j);
    }
    forall j: nat | j < i + 1
      ensures EdgeDone(edges, now, n, j)
    {
      if j < i {
        assert EdgeDone(edges, found, n, j);
      }
    }
  }

  lemma BetterOrdered(edges: Edges, s: Node, found: Labels, now: Labels, done: set<Node>, n: Node, i: nat, v: Node,
                      l: Label)
    requires Better(found, now, done + {n, s}, v, l) && InHand(edges, found, done, n, i)
    requires done <= found.Keys && Ordered(found, done) && Positive(found) && l.distance >= found[n].distance
    ensures Ordered(now, done) && Positive(now)
  {
  }

  lemma BetterLinked(edges: Edges, s: Node, found: Labels, now: Labels, done: set<Node>, n: Node, i: nat, v: Node,
                     l: Label)
    requires Better(found, now, done + {n, s}, v, l)
    requires AllLinked(edges, s, found, done + {n}) && n in found && n in edges && i < |edges[n]| && edges[n][i].to == v
    requires l == Label(found[n].distance + edges[n][i].icost, n, i)
    ensures AllLinked(edges, s, now, done + {n})
  {
  }

  /** Going over an edge of the node in hand: the nodes that are done keep their labels. */
  lemma EdgeRelaxed(edges: Edges, s: Node, found: Labels, done: set<Node>, n: Node, i: nat, v: Node, cost: int)
    requires Frontier(edges, s, found, done, {n}) && InHand(edges, found, done, n, i)
    requires i < |edges[n]| && edges[n][i] == EdgeInfo(0, v, cost) && cost >= 0 && v in edges
    ensures var now := Relaxed(found, v, found[n].distance + cost, n, i);
            && Frontier(edges, s, now, done, {n})
            && InHand(edges, now, done, n, i + 1)
            && forall u :: u in done && u in found ==> now[u] == found[u]
    ensures v in done ==> v in found && found[n].distance + cost >= found[v].distance
  {
    var l := Label(found[n].distance + cost, n, i);
    var now := Relaxed(found, v, l.distance, n, i);
    ExpandedKeep(edges, s, found, done, n, i, v, cost);
    RelaxRealized(edges, s, found, n, i, v);
    BetterFinished(edges, found, now, done, n, s, i, v, l);
    BetterOrdered(edges, s, found, now, done, n, i, v, l);
    BetterLinked(edges, s, found, now, done, n, i, v, l);
    hide Realized, Finished, Ordered, Positive, AllLinked, Relaxed, InHand;
  }

  /** No edge at all. */
  lemma EdgeMissing(edges: Edges, found: Labels, done: set<Node>, n: Node, i: nat)
    requires InHand(edges, found, done, n, i)
    requires i < |edges[n]| && edges[n][i].rc == 0 && edges[n][i].to == null
    ensures InHand(edges, found, done, n, i + 1)
  {
  }

  /** The node in hand is done when all its edges are. */
  lemma HandDone(edges: Edges, s: Node, found: Labels, done: set<Node>, n: Node)
    requires n in edges && Frontier(edges, s, found, done, {n}) && InHand(edges, found, done, n, |edges[n]|)
    ensures Frontier(edges, s, found, done + {n}, {})
  {
    hide HasWalk;
    assert done + {n} + {} == done + {n};
  }

  /** A nearest node is taken in hand. */
  lemma TakeInHand(edges: Edges, s: Node, found: Labels, done: set<Node>, n: Node)
    requires Frontier(edges, s, found, done, {}) && n in found && n !in done
    requires forall u :: u in found && u !in done ==> found[n].distance <= found[u].distance
    ensures Frontier(edges, s, found, done, {n}) && InHand(edges, found, done, n, 0)
  {
    hide HasWalk;
  }

  // ---------- The algorithm ----------

  /** The labels after the first i edges of a node. */
  ghost function Spread(edges: Edges, n: Node, i: nat, found: Labels): (r: Labels)
    requires n in edges && i <= |edges[n]| && n in found
    ensures n in r
  {
    if i == 0 then found
    else
      var now, e := Spread(edges, n, i - 1, found), edges[n][i - 1];
      if e.to == null then now else Relaxed(now, e.to, now[n].distance + e.icost, n, i - 1)
  }

  /** The queue after the first i edges of a node: new nodes come to its head. */
  ghost function Queued(edges: Edges, n: Node, i: nat, found: Labels, pq: seq<Node>): seq<Node>
    requires n in edges && i <= |edges[n]| && n in found
  {
    if i == 0 then pq
    else
      var now, e := Queued(edges, n, i - 1, found, pq), edges[n][i - 1];
      if e.to == null || e.to in Spread(edges, n, i - 1, found) then now else [e.to] + now
  }

  lemma SpreadNone(edges: Edges, n: Node, found: Labels, pq: seq<Node>)
    requires n in edges && n in found
    ensures Spread(edges, n, 0, found) == found && Queued(edges, n, 0, found, pq) == pq
  {
  }

  lemma SpreadNext(edges: Edges, n: Node, i: nat, found: Labels, pq: seq<Node>)
    requires n in edges && i < |edges[n]| && n in found
    ensures var now, queue, e := Spread(edges, n, i, found), Queued(edges, n, i, found, pq), edges[n][i];
            && Spread(edges, n, i + 1, found) ==
               (if e.to == null then now else Relaxed(now, e.to, now[n].distance + e.icost, n, i))
            && Queued(edges, n, i + 1, found, pq) == (if e.to == null || e.to in now then queue else [e.to] + queue)
  {
  }

  /** The nodes that are done are marked as complete. */
  ghost predicate Marked(g: Graph)
    reads g`done, g`found, g.edges.Keys`complete
  {
    && g.done <= g.found.Keys <= g.edges.Keys
    && forall v :: v in g.found ==> (v.complete <==> v in g.done)
  }

  /** Between two steps of a run without an error. */
  ghost predicate Running(g: Graph)
    reads g, g.edges.Keys
  {
    && g.Valid()
    && (g.AgaCheckState() ==>
        && g.source != null
        && Marked(g)
        && Frontier(g.edges, g.source, g.found, g.done, {})
        && QueueHolds(g.found, g.done, {}, g.pq))
  }

  method CandidatePath(g: Graph, node: Node, distance: int, prev: Node?, prevedge: int)
    requires g.Valid() && Marked(g) && g.sequence % 2 == 1 && node in g.edges
    requires node !in g.found ==> node !in g.done
    requires node in g.found && distance < g.found[node].distance ==> node !in g.done
    modifies g`found, g`pq, node
    ensures g.Valid()
    ensures g.found == Relaxed(old(g.found), node, distance, prev, prevedge)
    ensures Marked(g)
    ensures g.pq == if node in old(g.found) then old(g.pq) else [node] + old(g.pq)
  {
    hide Closed, Graph.Valid, Graph.Tied;
    var isNew := g.AgaUpdateNode(node);
    if isNew {
      // A new node: treat it as if it had been infinitely far.
      g.SetPath(node, distance, prev, prevedge);
      node.complete := false;
      g.pq := [node] + g.pq;
      return;
    }
    g.LabelIs(node);
    if distance < node.distance {
      assert !node.complete;
      // The queue is a list without order, so that there is nothing to reorder.
      g.SetPath(node, distance, prev, prevedge);
    }
  }

  lemma QueueFacts(found: Labels, done: set<Node>, hand: set<Node>, pq: seq<Node>)
    requires QueueHolds(found, done, hand, pq)
    ensures NoDuplicates(pq)
  {
  }

  lemma QueueRelaxed(found: Labels, done: set<Node>, n: Node, v: Node, distance: int, i: int, pq: seq<Node>)
    requires QueueHolds(found, done, {n}, pq) && n in found && done <= found.Keys
    ensures QueueHolds(Relaxed(found, v, distance, n, i), done, {n}, if v in found then pq else [v] + pq)
  {
  }

  lemma QueueEmpty(found: Labels, done: set<Node>, pq: seq<Node>)
    requires QueueHolds(found, done, {}, pq) && pq == [] && done <= found.Keys
    ensures done == found.Keys
  {
    assert forall v :: v in found ==> v in done;
  }

  lemma QueueTaken(found: Labels, done: set<Node>, n: Node, was: seq<Node>, pq: seq<Node>)
    requires QueueHolds(found, done, {}, was) && n in was && n !in pq && NoDuplicates(pq)
    requires forall v :: v in was <==> v in pq || v == n
    ensures QueueHolds(found, done, {n}, pq)
  {
  }

  lemma QueueDone(found: Labels, done: set<Node>, n: Node, pq: seq<Node>)
    requires QueueHolds(found, done, {n}, pq)
    ensures QueueHolds(found, done + {n}, {}, pq)
  {
  }

  lemma DoneFound(edges: Edges, s: Node, found: Labels, done: set<Node>, hand: set<Node>)
    requires Frontier(edges, s, found, done, hand)
    ensures done <= found.Keys
  {
  }

  lemma Nearest(g: Graph, queue: seq<Node>, done: set<Node>, n: Node)
    requires g.Valid() && QueueHolds(g.found, done, {}, queue) && n in queue
    requires forall v :: v in queue ==> n.distance <= v.distance
    ensures n in g.found && n in g.edges && n !in done
    ensures forall u :: u in g.found && u !in done ==> g.found[n].distance <= g.found[u].distance
  {
  }

  /** The node in hand is no nearer than those before it. */
  lemma DoneOrdered(edges: Edges, s: Node, found: Labels, done: set<Node>, n: Node)
    requires n in edges && Frontier(edges, s, found, done, {n}) && InHand(edges, found, done, n, |edges[n]|)
    ensures n in found && n !in done
    ensures forall v :: v in done ==> v in found && found[v].distance <= found[n].distance
  {
  }

  lemma HandFacts(edges: Edges, found: Labels, done: set<Node>, n: Node, i: nat)
    requires InHand(edges, found, done, n, i)
    ensures n in found
  {
  }

  lemma ClosedAt(edges: Edges, n: Node, i: nat)
    requires Closed(edges) && n in edges && i < |edges[n]| && edges[n][i].to != null
    ensures edges[n][i].to in edges
  {
  }

  /** Begin at a source; refused while there is a run. */
  method AgaDijkstraStart(g: Graph, source: Node) returns (rc: int)
    requires g.Valid() && source in g.edges
    modifies g, source
    ensures rc == 0 || rc == -1
    ensures rc == -1 <==> old(g.sequence) % 2 == 1
    ensures rc == -1 ==> g.sequence == old(g.sequence) && g.found == old(g.found) && g.pq == old(g.pq)
    ensures rc == 0 ==> Running(g) && g.AgaCheckState() && g.source == source && g.done == {}
  {
    rc := g.AgaStart();
    if rc < 0 {
      return;
    }
    g.pq := [];
    g.done := {};
    CandidatePath(g, source, 0, null, 0);
    g.source := source;
    NoStep(g.edges, source);
    assert g.pq == [source];
  }

  /** The nearest node that has not been returned yet; null if there is none, or after an error. */
  method AgaDijkstraStep(g: Graph) returns (r: Node?)
    requires Running(g) && NoDuplicates(g.pq)
    modifies g`pq, g`found, g`done, g`error, g.edges.Keys
    ensures Running(g) && NoDuplicates(g.pq) && g.sequence == old(g.sequence)
    ensures !old(g.AgaCheckState()) ==> r == null && g.found == old(g.found) && g.error == old(g.error)
    ensures old(g.AgaCheckState()) && !g.AgaCheckState() ==>
              && r == null && g.done == old(g.done) && g.source != null
              && exists n, cost :: Stopped(g.edges, g.source, g.done, n, cost, g.error)
    ensures r != null ==> Clean(g.edges, r)
    ensures r != null ==> exists front ::
              && old(LastNearest(g.pq, front, r)) && r in g.edges && r in old(g.found)
              && g.found == Spread(g.edges, r, |g.edges[r]|, old(g.found))
              && g.pq == Queued(g.edges, r, |g.edges[r]|, old(g.found), Without(old(g.pq), front))
    ensures r == null && g.AgaCheckState() ==>
              g.found == old(g.found) && g.done == old(g.done) && g.done == g.found.Keys
    ensures r != null ==>
              && g.AgaCheckState()
              && r in g.found && r !in old(g.done) && g.done == old(g.done) + {r}
              && ShortestNonNegative(g.edges, g.source, r, r.distance)
              && forall v :: v in old(g.done) ==> v.distance == old(v.distance) <= r.distance
  {
    hide Frontier, InHand, QueueHolds, NoDuplicates, ShortestNonNegative, Closed;
    hide Spread, Queued, LastNearest, Without, StopsAt, Clean, Stopped;
    ghost var done, s, was := g.done, g.source, g.found;
    ghost var queue := g.pq;
    var n := Dequeue(g);
    if !g.AgaCheckState() {
      return null;
    }
    if n == null {
      QueueEmpty(was, done, queue);
      return null;
    }
    Nearest(g, queue, done, n);
    TakeInHand(g.edges, s, g.found, done, n);
    QueueTaken(was, done, n, queue, g.pq);
    hide Reachable, HasWalk, IsWalk;
    StopsHere(g.edges, s, g.found, done, n);
    var ok := Expand(g, n, done);
    if !ok {
      return null;
    }
    DoneOrdered(g.edges, s, g.found, done, n);
    HandDone(g.edges, s, g.found, done, n);
    DoneIsShortest(g.edges, s, g.found, done + {n}, n);
    QueueDone(g.found, done, n, g.pq);
    n.complete := true;
    g.done := g.done + {n};
    return n;
  }

  /** If something is wrong at the node in hand, the run stops there. */
  lemma StopsHere(edges: Edges, s: Node, found: Labels, done: set<Node>, n: Node)
    requires Frontier(edges, s, found, done, {n}) && InHand(edges, found, done, n, 0)
    ensures n in found
    ensures forall error :: StopsAt(edges, n, error) ==> Stopped(edges, s, done, n, found[n].distance, error)
  {
    hide StopsAt, HasWalk;
    forall w, v | IsWalk(edges, s, w, v) && NonNegative(edges, s, w) && (v !in done || v == n)
      ensures found[n].distance <= Cost(edges, s, w)
    {
      FoundOrFar(edges, s, found, done, found[n].distance, w, v);
    }
  }

  /** Go through the edges of the node in hand; false after an error. */
  method Expand(g: Graph, n: Node, ghost done: set<Node>) returns (ok: bool)
    requires g.Valid() && g.AgaCheckState() && g.source != null && Marked(g) && g.done == done && n in g.edges
    requires Frontier(g.edges, g.source, g.found, done, {n}) && InHand(g.edges, g.found, done, n, 0)
    requires QueueHolds(g.found, done, {n}, g.pq)
    modifies g`pq, g`found, g`error, g.edges.Keys
    ensures g.Valid() && Marked(g) && g.sequence == old(g.sequence) && NoDuplicates(g.pq)
    ensures ok <==> g.AgaCheckState()
    ensures if ok then Clean(g.edges, n) else StopsAt(g.edges, n, g.error)
    ensures ok ==>
              && n in old(g.found)
              && g.found == Spread(g.edges, n, |g.edges[n]|, old(g.found))
              && g.pq == Queued(g.edges, n, |g.edges[n]|, old(g.found), old(g.pq))
    ensures ok ==> Frontier(g.edges, g.source, g.found, done, {n}) && InHand(g.edges, g.found, done, n, |g.edges[n]|)
    ensures ok ==> QueueHolds(g.found, done, {n}, g.pq)
    ensures ok ==> forall u :: u in done ==> u in old(g.found) && u in g.found && g.found[u] == old(g.found)[u]
  {
    hide Frontier, InHand, QueueHolds, NoDuplicates, Relaxed, Closed, Spread, Queued;
    ghost var s, was, queue := g.source, g.found, g.pq;
    var edges := g.edges[n];
    var i := 0;
    HandFacts(g.edges, was, done, n, 0);
    SpreadNone(g.edges, n, was, queue);
    DoneFound(g.edges, s, g.found, done, {n});
    QueueFacts(g.found, done, {n}, g.pq);
    while i < |edges| && edges[i].rc == 0
      invariant 0 <= i <= |edges|
      invariant g.Valid() && Marked(g) && g.AgaCheckState()
      invariant Frontier(g.edges, s, g.found, done, {n}) && InHand(g.edges, g.found, done, n, i)
      invariant QueueHolds(g.found, done, {n}, g.pq) && NoDuplicates(g.pq)
      invariant forall u :: u in done ==> u in was && u in g.found && g.found[u] == was[u]
      invariant CleanUpTo(g.edges, n, i)
      invariant n in was && g.found == Spread(g.edges, n, i, was) && g.pq == Queued(g.edges, n, i, was, queue)
    {
      var e := edges[i];
      ghost var found := g.found;
      HandFacts(g.edges, found, done, n, i);
      SpreadNext(g.edges, n, i, was, queue);
      if e.to != null {
        if e.icost < 0 {
          g.AgaFail(AGA_ERR_NEGATIVE_COST);
          return false;
        }
        ClosedAt(g.edges, n, i);
        EdgeRelaxed(g.edges, s, found, done, n, i, e.to, e.icost);
        QueueRelaxed(found, done, n, e.to, found[n].distance + e.icost, i, g.pq);
        CandidatePath(g, e.to, n.distance + e.icost, n, i);
        DoneFound(g.edges, s, g.found, done, {n});
        QueueFacts(g.found, done, {n}, g.pq);
      } else {
        EdgeMissing(g.edges, found, done, n, i);
      }
      i := i + 1;
    }
    if i < |edges| {
      g.AgaFail(edges[i].rc);
      return false;
    }
    return true;
  }

  /** The last step of the path that a label stands for. */
  lemma LastStep(edges: Edges, s: Node, found: Labels, done: set<Node>, v: Node)
    requires Frontier(edges, s, found, done, {}) && v in found
    ensures v == s <==> found[v].prev == null
    ensures v == s ==> found[v].distance == 0
    ensures v != s ==> Linked(edges, s, found, v) && found[v].prev in done
  {
    assert Linked(edges, s, found, v);
  }

  lemma {:induction false} FewerLeft(all: set<Node>, done: set<Node>, n: Node)
    requires n in all && n !in done
    ensures |all - (done + {n})| < |all - done|
  {
    assert all - done == (all - (done + {n})) + {n};
  }

  /** The run stops at a node that is no farther than this one. */
  ghost predicate StoppedBefore(edges: Edges, s: Node, node: Node, n: Node, cost: int, error: int) {
    && StopsAt(edges, n, error) && ShortestNonNegative(edges, s, n, cost)
    && forall w :: IsWalk(edges, s, w, node) && NonNegative(edges, s, w) ==> cost <= Cost(edges, s, w)
  }

  lemma NotClean(edges: Edges, s: Node, node: Node, done: set<Node>, n: Node, cost: int, error: int)
    requires Stopped(edges, s, done, n, cost, error) && node in edges
    ensures n in edges && Reachable(edges, s, n) && !AllClean(edges, s)
    ensures node !in done ==> StoppedBefore(edges, s, node, n, cost, error)
  {
    hide StopsAt, IsWalk, NonNegative, Clean;
    StopsNotClean(edges, n, error);
  }

  /** The least cost of a path to a node and the last step of one; false if there is none, or after an error. */
  method AgaDijkstraPath(g: Graph, node: Node) returns (ok: bool, totalCost: int, prev: Node?, prevedge: int)
    requires Running(g) && NoDuplicates(g.pq) && node in g.edges
    modifies g`pq, g`found, g`done, g`error, g.edges.Keys
    ensures Running(g) && NoDuplicates(g.pq)
    ensures ok ==> g.AgaCheckState() && node in g.done && ShortestNonNegative(g.edges, g.source, node, totalCost)
    ensures ok ==> (node == g.source <==> prev == null) && (node == g.source ==> totalCost == 0)
    ensures ok && prev != null ==>
              && prev in g.done && 0 <= prevedge < |g.edges[prev]| && g.edges[prev][prevedge].to == node
              && totalCost == prev.distance + g.edges[prev][prevedge].icost
    ensures !ok && g.AgaCheckState() ==> !Reachable(g.edges, g.source, node)
    ensures !old(g.AgaCheckState()) ==> g.found == old(g.found) && g.error == old(g.error)
    ensures old(g.AgaCheckState()) && node in old(g.done) ==> ok && g.done == old(g.done)
    ensures old(g.AgaCheckState()) && !g.AgaCheckState() ==>
              && !ok && g.source != null && !AllClean(g.edges, g.source)
              && exists n, cost :: StoppedBefore(g.edges, g.source, node, n, cost, g.error)
  {
    ok, totalCost, prev, prevedge := false, 0, null, 0;
    if !g.AgaCheckState() {
      return;
    }
    hide Frontier, QueueHolds, NoDuplicates, Closed, ShortestNonNegative, Reachable, Linked;
    while g.AgaNodeNeedsUpdate(node) || !node.complete
      invariant Running(g) && NoDuplicates(g.pq) && g.AgaCheckState()
      invariant node in old(g.done) ==> g.done == old(g.done)
      decreases |g.edges.Keys - g.done|
    {
      ghost var before := g.done;
      var r := AgaDijkstraStep(g);
      if r == null {
        if g.AgaCheckState() {
          AllDone(g.edges, g.source, g.found, g.done);
        } else {
          ghost var n, cost :| Stopped(g.edges, g.source, g.done, n, cost, g.error);
          NotClean(g.edges, g.source, node, before, n, cost, g.error);
        }
        return;
      }
      FewerLeft(g.edges.Keys, before, r);
    }
    DoneIsShortest(g.edges, g.source, g.found, g.done, node);
    LastStep(g.edges, g.source, g.found, g.done, node);
    LinkedFacts(g.edges, g.source, g.found, node);
    return true, node.distance, node.prev, node.prevedge;
  }

  lemma LinkedFacts(edges: Edges, s: Node, found: Labels, v: Node)
    requires v in found
    ensures Linked(edges, s, found, v) && found[v].prev != null ==>
              var l := found[v];
              && l.prev in found && l.prev in edges && 0 <= l.prevedge < |edges[l.prev]|
              && edges[l.prev][l.prevedge].to == v
              && l.distance == found[l.prev].distance + edges[l.prev][l.prevedge].icost
  {
  }

  lemma FinishedAll(edges: Edges, s: Node, found: Labels, done: set<Node>)
    requires Frontier(edges, s, found, done, {}) && found.Keys == done
    requires forall v :: v in found <==> Reachable(edges, s, v)
    ensures AllClean(edges, s)
  {
    hide Reachable;
    DoneClean(edges, s, found, done);
  }

  /** All that can be reached is done, at its least cost, and no edge there is negative. */
  ghost predicate Complete(g: Graph)
    reads g`source, g`done, g.edges.Keys`distance
  {
    && g.source != null
    && (forall v :: v in g.edges ==> (v in g.done <==> Reachable(g.edges, g.source, v)))
    && (forall v :: v in g.done && v in g.edges ==> Shortest(g.edges, g.source, v, v.distance))
    && (forall v, w :: v in g.edges && IsWalk(g.edges, g.source, w, v) ==> NonNegative(g.edges, g.source, w))
  }

  lemma EndsComplete(g: Graph)
    requires Running(g) && g.AgaCheckState() && g.done == g.found.Keys
    ensures Complete(g) && AllClean(g.edges, g.source)
    ensures NoneFails(g.edges, g.source) ==> !NegativeEdge(g.edges, g.source)
  {
    hide Frontier, QueueHolds, Closed, Reachable, Linked, Shortest, NoneFails, AllClean, NegativeEdge, StopsAt;
    hide NonNegative, IsWalk;
    AllDone(g.edges, g.source, g.found, g.done);
    FinishedAll(g.edges, g.source, g.found, g.done);
    if NoneFails(g.edges, g.source) {
      OnlyNegative(g.edges, g.source, g.source, 0);
    }
  }

  lemma EndsWithError(edges: Edges, s: Node, done: set<Node>, error: int)
    requires exists n, cost :: Stopped(edges, s, done, n, cost, error)
    ensures !AllClean(edges, s)
    ensures NoneFails(edges, s) ==> error == 1 && NegativeEdge(edges, s)
  {
    hide Reachable, NoneFails, AllClean, NegativeEdge;
    var n, cost :| Stopped(edges, s, done, n, cost, error);
    StopsNotClean(edges, n, error);
    NotClean(edges, s, n, done, n, cost, error);
    if NoneFails(edges, s) {
      OnlyNegative(edges, s, n, error);
    }
  }

  /** Unless there is an error all that can be reached is found, at its least cost, and no edge there is negative.
      There is an error exactly if something is wrong at a node that can be reached. */
  method AgaDijkstraComplete(g: Graph)
    requires Running(g) && NoDuplicates(g.pq)
    modifies g`pq, g`found, g`done, g`error, g.edges.Keys
    ensures Running(g)
    ensures g.AgaCheckState() ==> Complete(g)
    ensures !old(g.AgaCheckState()) ==> g.found == old(g.found) && g.error == old(g.error)
    ensures old(g.AgaCheckState()) ==> g.source != null && (g.AgaCheckState() <==> AllClean(g.edges, g.source))
    ensures old(g.AgaCheckState()) && !g.AgaCheckState() ==>
              exists n, cost :: Stopped(g.edges, g.source, g.done, n, cost, g.error)
    ensures old(g.AgaCheckState()) && NoneFails(g.edges, g.source) ==>
              g.error == if NegativeEdge(g.edges, g.source) then 1 else 0
  {
    if !g.AgaCheckState() {
      return;
    }
    hide Running, QueueHolds, NoDuplicates, NoneFails, AllClean, NegativeEdge, Stopped, Complete;
    SourceKnown(g);
    var more := true;
    while more
      invariant Running(g) && NoDuplicates(g.pq) && g.source != null && (more ==> g.AgaCheckState())
      invariant !more && g.AgaCheckState() ==> g.done == g.found.Keys
      invariant !g.AgaCheckState() ==> exists n, cost :: Stopped(g.edges, g.source, g.done, n, cost, g.error)
      decreases more, |g.edges.Keys - g.done|
    {
      ghost var before := g.done;
      var r := AgaDijkstraStep(g);
      more := r != null;
      if r != null {
        InGraph(g, r);
        FewerLeft(g.edges.Keys, before, r);
      }
    }
    if g.AgaCheckState() {
      EndsComplete(g);
    } else {
      EndsWithError(g.edges, g.source, g.done, g.error);
    }
  }

  lemma SourceKnown(g: Graph)
    requires Running(g) && g.AgaCheckState()
    ensures g.source != null
  {
  }

  lemma InGraph(g: Graph, r: Node)
    requires Running(g) && r in g.found
    ensures r in g.edges
  {
  }
}
