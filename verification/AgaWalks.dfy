/** Graphs as the edge callbacks give them, walks in them, and labels that bound or meet their cost. */
module AgaWalks {
  class Node {
    var sequence: int
    var distance: int
    var prev: Node?
    var prevedge: int
    var complete: bool
    var list: Node?

    constructor ()
      ensures sequence == 0
    {
      sequence, distance, prev, prevedge, complete, list := 0, 0, null, 0, false, null;
    }
  }

  /** What the edge callback says: an error, no edge at all, or an edge with a cost. */
  datatype EdgeInfo = EdgeInfo(rc: int, to: Node?, icost: int)

  /** The edges of each node, in the order in which they are gone through. */
  type Edges = map<Node, seq<EdgeInfo>>

  /** Callbacks return no positive number, and lead to nodes of the graph. */
  ghost predicate Closed(edges: Edges) {
    forall v, i :: v in edges && 0 <= i < |edges[v]| ==>
      edges[v][i].rc <= 0 && (edges[v][i].to != null ==> edges[v][i].to in edges)
  }

  // ---------- Walks ----------

  /** Where the edges with these numbers lead from s; null if there is no such walk. */
  ghost function End(edges: Edges, s: Node, w: seq<nat>): Node?
    decreases |w|
  {
    if w == [] then s else Next(edges, End(edges, s, w[..|w| - 1]), w[|w| - 1])
  }

  ghost function Next(edges: Edges, u: Node?, i: nat): Node? {
    if u != null && u in edges && i < |edges[u]| then edges[u][i].to else null
  }

  ghost predicate IsWalk(edges: Edges, s: Node, w: seq<nat>, v: Node) {
    End(edges, s, w) == v
  }

  ghost function StepCost(edges: Edges, u: Node?, i: nat): int {
    if u != null && u in edges && i < |edges[u]| then edges[u][i].icost else 0
  }

  ghost function Cost(edges: Edges, s: Node, w: seq<nat>): int
    decreases |w|
  {
    if w == [] then 0
    else Cost(edges, s, w[..|w| - 1]) + StepCost(edges, End(edges, s, w[..|w| - 1]), w[|w| - 1])
  }

  ghost predicate NonNegative(edges: Edges, s: Node, w: seq<nat>)
    decreases |w|
  {
    w == [] ||
    (NonNegative(edges, s, w[..|w| - 1]) && StepCost(edges, End(edges, s, w[..|w| - 1]), w[|w| - 1]) >= 0)
  }

  ghost predicate HasWalk(edges: Edges, s: Node, v: Node, cost: int) {
    exists w :: IsWalk(edges, s, w, v) && Cost(edges, s, w) == cost
  }

  ghost predicate Reachable(edges: Edges, s: Node, v: Node) {
    exists w :: IsWalk(edges, s, w, v)
  }

  /** No walk costs less, and one costs as much. */
  ghost predicate Shortest(edges: Edges, s: Node, v: Node, cost: int) {
    && HasWalk(edges, s, v, cost)
    && forall w :: IsWalk(edges, s, w, v) ==> cost <= Cost(edges, s, w)
  }

  /** The same among the walks without negative edges. */
  ghost predicate ShortestNonNegative(edges: Edges, s: Node, v: Node, cost: int) {
    && HasWalk(edges, s, v, cost)
    && forall w :: IsWalk(edges, s, w, v) && NonNegative(edges, s, w) ==> cost <= Cost(edges, s, w)
  }

  // ---------- Errors of the callbacks ----------

  /** The first i edges of a node are given without an error. */
  ghost predicate ClearUpTo(edges: Edges, v: Node, i: nat) {
    v in edges && i <= |edges[v]| && forall j :: 0 <= j < i ==> edges[v][j].rc == 0
  }

  ghost predicate Clear(edges: Edges, v: Node) {
    v in edges && ClearUpTo(edges, v, |edges[v]|)
  }

  /** The first error among the edges of a node is this one. */
  ghost predicate Fails(edges: Edges, v: Node, error: int) {
    exists i: nat :: ClearUpTo(edges, v, i) && i < |edges[v]| && edges[v][i].rc == error && error != 0
  }

  /** No callback fails for a node that can be reached. */
  ghost predicate NoneFails(edges: Edges, s: Node) {
    forall v :: v in edges && Reachable(edges, s, v) ==> Clear(edges, v)
  }

  lemma FailsNotClear(edges: Edges, v: Node, error: int)
    requires Fails(edges, v, error)
    ensures v in edges && !Clear(edges, v)
  {
  }

  lemma NoStep(edges: Edges, s: Node)
    ensures HasWalk(edges, s, s, 0)
  {
    assert IsWalk(edges, s, [], s) && Cost(edges, s, []) == 0;
  }

  lemma OneStepMore(edges: Edges, s: Node, u: Node, cost: int, i: nat, v: Node)
    requires HasWalk(edges, s, u, cost) && u in edges && i < |edges[u]| && edges[u][i].to == v
    ensures HasWalk(edges, s, v, cost + edges[u][i].icost)
  {
    var w :| IsWalk(edges, s, w, u) && Cost(edges, s, w) == cost;
    var longer := w + [i];
    assert longer[..|longer| - 1] == w;
    assert IsWalk(edges, s, longer, v) && Cost(edges, s, longer) == cost + edges[u][i].icost;
  }

  // ---------- Labels ----------

  /** What is known of a node that has been found. */
  datatype Label = Label(distance: int, prev: Node?, prevedge: int)

  type Labels = map<Node, Label>

  /** A path to a node is taken if there was none, or if it is shorter. */
  ghost function Relaxed(found: Labels, v: Node, distance: int, prev: Node?, prevedge: int): Labels {
    if v !in found || distance < found[v].distance then found[v := Label(distance, prev, prevedge)] else found
  }

  /** The edge leads to a node that is known to be no farther than by this edge. */
  ghost predicate Settled(edges: Edges, found: Labels, v: Node, i: nat)
    requires v in edges && i < |edges[v]| && v in found
  {
    var e := edges[v][i];
    e.to != null ==> e.to in found && found[e.to].distance <= found[v].distance + e.icost
  }

  ghost predicate AllSettled(edges: Edges, found: Labels) {
    forall v, i: nat :: v in found && v in edges && i < |edges[v]| ==> Settled(edges, found, v, i)
  }

  ghost predicate Realized(edges: Edges, s: Node, found: Labels) {
    forall v :: v in found ==> HasWalk(edges, s, v, found[v].distance)
  }

  /** Where every edge is settled no walk is cheaper than the difference of the labels. */
  lemma {:induction false} WalkBound(edges: Edges, found: Labels, s: Node, w: seq<nat>, v: Node)
    requires AllSettled(edges, found) && s in found && IsWalk(edges, s, w, v)
    ensures v in found && found[v].distance <= found[s].distance + Cost(edges, s, w)
    decreases |w|
  {
    if w != [] {
      var before, i := w[..|w| - 1], w[|w| - 1];
      var u := End(edges, s, before);
      WalkBound(edges, found, s, before, u);
      assert Settled(edges, found, u, i);
    }
  }

  /** Settled labels that are costs of walks are the least costs, and all that can be reached is found. */
  lemma ExactLabels(edges: Edges, found: Labels, s: Node)
    requires AllSettled(edges, found) && Realized(edges, s, found)
    requires s in found && found[s].distance <= 0
    ensures found[s].distance == 0
    ensures forall v :: v in found ==> Shortest(edges, s, v, found[v].distance)
    ensures forall v :: Reachable(edges, s, v) <==> v in found
  {
    var w :| IsWalk(edges, s, w, s) && Cost(edges, s, w) == found[s].distance;
    WalkBound(edges, found, s, w, s);
    forall v, w | IsWalk(edges, s, w, v)
      ensures v in found && found[v].distance <= Cost(edges, s, w)
    {
      WalkBound(edges, found, s, w, v);
    }
    forall v | v in found
      ensures Shortest(edges, s, v, found[v].distance)
    {
      assert HasWalk(edges, s, v, found[v].distance);
    }
  }

  /** There is no cycle of negative cost among nodes whose edges are settled. */
  lemma NoNegativeCycle(edges: Edges, found: Labels, v: Node, cycle: seq<nat>)
    requires AllSettled(edges, found) && v in found && IsWalk(edges, v, cycle, v)
    ensures Cost(edges, v, cycle) >= 0
  {
    WalkBound(edges, found, v, cycle, v);
  }

  lemma RelaxRealized(edges: Edges, s: Node, found: Labels, n: Node, i: nat, v: Node)
    requires Realized(edges, s, found) && n in found && n in edges && i < |edges[n]| && edges[n][i].to == v
    ensures Realized(edges, s, Relaxed(found, v, found[n].distance + edges[n][i].icost, n, i))
  {
    OneStepMore(edges, s, n, found[n].distance, i, v);
  }
}
