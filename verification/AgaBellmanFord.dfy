/** The Bellman-Ford algorithm. */
module AgaBellmanFord {
  import opened AgaWalks
  import opened Aga

  // ---------- The list of nodes ----------

  ghost predicate Distinct(order: seq<Node>) {
    forall i, j :: 0 <= i < j < |order| ==> order[i] != order[j]
  }

  ghost predicate Holds(order: seq<Node>, found: Labels) {
    && Distinct(order)
    && (forall k :: 0 <= k < |order| ==> order[k] in found)
    && forall v :: v in found ==> v in order
  }

  lemma HoldsMore(order: seq<Node>, found: Labels, node: Node, l: Label)
    requires Holds(order, found) && node !in found
    ensures Holds(order + [node], found[node := l])
  {
  }

  lemma NotOnList(order: seq<Node>, found: Labels, node: Node)
    requires Holds(order, found)
    ensures node !in found ==> node !in order
    ensures forall k :: 0 <= k < |order| ==> order[k] in found
  {
  }

  lemma HoldsSame(order: seq<Node>, found: Labels, node: Node, l: Label)
    requires Holds(order, found) && node in found
    ensures Holds(order, found[node := l])
  {
  }

  ghost predicate Extends(was: seq<Node>, order: seq<Node>) {
    |was| <= |order| && was == order[..|was|]
  }

  function Last(order: seq<Node>, k: nat): Node?
    requires k <= |order|
  {
    if k == 0 then null else order[k - 1]
  }

  /** The list runs through the nodes in their order, the newest first. */
  ghost predicate Chained(g: Graph)
    reads g`order, g`nodelist, g`nnodes, g.edges.Keys`list
  {
    && (forall k :: 0 <= k < |g.order| ==> g.order[k] in g.edges)
    && g.nnodes == |g.order|
    && g.nodelist == Last(g.order, |g.order|)
    && forall k :: 0 <= k < |g.order| ==> g.order[k].list == Last(g.order, k)
  }

  ghost predicate Listed(g: Graph)
    reads g`order, g`found, g`nodelist, g`nnodes, g.edges.Keys`list
  {
    Holds(g.order, g.found) && Chained(g)
  }

  method Prepend(g: Graph, node: Node)
    requires Chained(g) && node in g.edges && node !in g.order
    modifies g`order, g`nodelist, g`nnodes, node`list
    ensures Chained(g) && g.order == old(g.order) + [node]
  {
    node.list := g.nodelist;
    g.nodelist := node;
    g.nnodes := g.nnodes + 1;
    g.order := g.order + [node];
  }

  lemma {:induction false} OrderLength(order: seq<Node>, all: set<Node>)
    requires Distinct(order) && forall k :: 0 <= k < |order| ==> order[k] in all
    ensures |order| <= |all|
    decreases |order|
  {
    if order != [] {
      var last := order[|order| - 1];
      OrderLength(order[..|order| - 1], all - {last});
    }
  }

  // ---------- Labels ----------

  /** A label's path is no shorter than by the edge that it names. */
  ghost predicate Linked(edges: Edges, s: Node, found: Labels, v: Node)
    requires v in found
  {
    var l := found[v];
    if l.prev == null then v == s && l.distance == 0
    else
      && l.prev in found && l.prev in edges && 0 <= l.prevedge < |edges[l.prev]|
      && edges[l.prev][l.prevedge].to == v
      && l.distance >= found[l.prev].distance + edges[l.prev][l.prevedge].icost
      && (v == s ==> l.distance < 0)
  }

  ghost predicate AllLinked(edges: Edges, s: Node, found: Labels) {
    forall v :: v in found ==> Linked(edges, s, found, v)
  }

  ghost predicate Explored(edges: Edges, s: Node, found: Labels) {
    && s in found && found[s].distance <= 0 && found.Keys <= edges.Keys
    && Realized(edges, s, found)
    && AllLinked(edges, s, found)
  }

  lemma ExploredRelaxed(edges: Edges, s: Node, found: Labels, n: Node, i: nat, v: Node)
    requires Explored(edges, s, found) && n in found && n in edges && i < |edges[n]| && edges[n][i].to == v
    requires v in edges
    ensures Explored(edges, s, Relaxed(found, v, found[n].distance + edges[n][i].icost, n, i))
  {
    var now := Relaxed(found, v, found[n].distance + edges[n][i].icost, n, i);
    RelaxRealized(edges, s, found, n, i, v);
    hide Realized;
    forall u | u in now
      ensures Linked(edges, s, now, u)
    {
      LinkedRelaxed(edges, s, found, n, i, v, u);
    }
  }

  lemma LinkedRelaxed(edges: Edges, s: Node, found: Labels, n: Node, i: nat, v: Node, u: Node)
    requires AllLinked(edges, s, found) && s in found && found[s].distance <= 0
    requires n in found && n in edges && i < |edges[n]| && edges[n][i].to == v
    requires u in Relaxed(found, v, found[n].distance + edges[n][i].icost, n, i)
    ensures Linked(edges, s, Relaxed(found, v, found[n].distance + edges[n][i].icost, n, i), u)
  {
    if u in found {
      assert Linked(edges, s, found, u);
    }
  }

  /** The first i edges of a node lead to nodes that are found. */
  ghost predicate Known(edges: Edges, found: Labels, v: Node, i: nat) {
    v in edges && i <= |edges[v]| && forall j :: 0 <= j < i && edges[v][j].to != null ==> edges[v][j].to in found
  }

  ghost predicate AllKnown(edges: Edges, found: Labels) {
    forall v :: v in found && v in edges ==> Known(edges, found, v, |edges[v]|)
  }

  /** The labels are exact, and each is that of the node before plus the cost of the edge named. */
  ghost predicate Exact(edges: Edges, s: Node, found: Labels) {
    && (forall v :: v in edges ==> (v in found <==> Reachable(edges, s, v)))
    && (forall v :: v in found ==> Shortest(edges, s, v, found[v].distance))
    && (forall v, cycle :: v in found && IsWalk(edges, v, cycle, v) ==> Cost(edges, v, cycle) >= 0)
    && forall v :: v in found ==> ExactLink(edges, s, found, v)
  }

  /** A cycle of negative cost that can be reached. */
  ghost predicate NegativeCycle(edges: Edges, s: Node) {
    exists v, cycle :: v in edges && Reachable(edges, s, v) && IsWalk(edges, v, cycle, v) && Cost(edges, v, cycle) < 0
  }

  lemma ExactHasNone(edges: Edges, s: Node, found: Labels)
    requires Exact(edges, s, found)
    ensures !NegativeCycle(edges, s)
  {
    hide Reachable, Shortest, IsWalk;
  }

  ghost predicate ExactLink(edges: Edges, s: Node, found: Labels, v: Node)
    requires v in found
  {
    var l := found[v];
    if v == s then l.prev == null && l.distance == 0
    else
      && l.prev != null && l.prev in found && l.prev in edges && 0 <= l.prevedge < |edges[l.prev]|
      && edges[l.prev][l.prevedge].to == v
      && l.distance == found[l.prev].distance + edges[l.prev][l.prevedge].icost
  }

  /** When no edge offers a shorter path the labels are exact. */
  lemma SettledIsExact(edges: Edges, s: Node, found: Labels)
    requires Explored(edges, s, found) && AllSettled(edges, found) && s in edges
    ensures Exact(edges, s, found)
  {
    ExactLabels(edges, found, s);
    forall v, cycle | v in found && IsWalk(edges, v, cycle, v)
      ensures Cost(edges, v, cycle) >= 0
    {
      NoNegativeCycle(edges, found, v, cycle);
    }
    forall v | v in found
      ensures ExactLink(edges, s, found, v)
    {
      LinkIsExact(edges, s, found, v);
    }
  }

  lemma LinkIsExact(edges: Edges, s: Node, found: Labels, v: Node)
    requires AllLinked(edges, s, found) && AllSettled(edges, found) && v in found
    requires s in found && found[s].distance == 0
    ensures ExactLink(edges, s, found, v)
  {
    assert Linked(edges, s, found, v);
    var l := found[v];
    if l.prev != null {
      assert Settled(edges, found, l.prev, l.prevedge);
    }
  }

  // ---------- What the passes do ----------

  /** The list and the labels at some point of a pass, and whether the pass has found a new node. */
  datatype Sweep = Sweep(order: seq<Node>, found: Labels, newnode: bool)

  /** After the first i edges of a node: nothing is done with the rest once a new node is found. */
  ghost function Crossed(edges: Edges, n: Node, i: nat, sw: Sweep): (r: Sweep)
    requires n in edges && i <= |edges[n]| && n in sw.found
    ensures n in r.found
  {
    if i == 0 then sw
    else
      var now, e := Crossed(edges, n, i - 1, sw), edges[n][i - 1];
      if e.to == null || now.newnode then now
      else
        Sweep(if e.to in now.found then now.order else now.order + [e.to],
              Relaxed(now.found, e.to, now.found[n].distance + e.icost, n, i - 1),
              e.to !in now.found)
  }

  /** After the nodes of a list from its end down to place k. */
  ghost function Swept(edges: Edges, was: seq<Node>, k: nat, sw: Sweep): Sweep
    requires k <= |was|
    decreases |was| - k
  {
    if k == |was| then sw
    else
      var now := Swept(edges, was, k + 1, sw);
      if was[k] in edges && was[k] in now.found then Crossed(edges, was[k], |edges[was[k]]|, now) else now
  }

  ghost function Pass(edges: Edges, sw: Sweep): Sweep {
    Swept(edges, sw.order, 0, Sweep(sw.order, sw.found, false))
  }

  /** Another pass follows after this many. */
  ghost predicate GoesOn(npasses: int, sw: Sweep) {
    sw.newnode || npasses < |sw.order|
  }

  /** The i-th pass of a run, and what came before it. */
  ghost predicate IsPass(edges: Edges, npasses: int, run: seq<Sweep>, i: nat)
    requires 0 < i < |run|
  {
    run[i] == Pass(edges, run[i - 1]) && (i > 1 ==> GoesOn(npasses + i - 1, run[i - 1]))
  }

  /** The passes so far, when there had been npasses before. */
  ghost predicate Passes(edges: Edges, npasses: int, run: seq<Sweep>) {
    forall i: nat :: 0 < i < |run| ==> IsPass(edges, npasses, run, i)
  }

  lemma OneMorePass(edges: Edges, npasses: int, run: seq<Sweep>, sw: Sweep)
    requires run != [] && Passes(edges, npasses, run) && sw == Pass(edges, run[|run| - 1])
    requires |run| > 1 ==> GoesOn(npasses + |run| - 1, run[|run| - 1])
    ensures Passes(edges, npasses, run + [sw])
  {
    hide Pass, GoesOn;
    var now := run + [sw];
    forall i: nat | 0 < i < |now|
      ensures IsPass(edges, npasses, now, i)
    {
      if i < |run| {
        assert IsPass(edges, npasses, run, i);
      }
    }
  }

  /** In the order of a pass, the node in place k is the first for which a callback fails, with this error. */
  ghost predicate FirstFailure(edges: Edges, order: seq<Node>, k: nat, error: int) {
    k < |order| && Fails(edges, order[k], error) && ClearFrom(edges, order, k + 1)
  }

  /** No callback fails for the nodes of the list from its end down to place k. */
  ghost predicate ClearFrom(edges: Edges, order: seq<Node>, k: int) {
    forall j :: 0 <= k <= j < |order| ==> Clear(edges, order[j])
  }

  ghost predicate AllClear(edges: Edges, found: Labels) {
    forall v :: v in found ==> Clear(edges, v)
  }

  lemma ClearNext(edges: Edges, order: seq<Node>, k: nat)
    requires ClearFrom(edges, order, k + 1) && k < |order| && Clear(edges, order[k])
    ensures ClearFrom(edges, order, k)
  {
  }

  /** All on the list have been gone through without an error. */
  lemma ListClear(edges: Edges, found: Labels, order: seq<Node>)
    requires ClearFrom(edges, order, 0) && Holds(order, found)
    ensures AllClear(edges, found)
  {
  }

  lemma FoundReachable(edges: Edges, s: Node, found: Labels)
    requires Explored(edges, s, found)
    ensures forall v :: v in found ==> v in edges && Reachable(edges, s, v)
  {
    forall v | v in found
      ensures Reachable(edges, s, v)
    {
      assert HasWalk(edges, s, v, found[v].distance);
    }
  }

  // ---------- The algorithm ----------

  /** Between two passes of a run; an error leaves the list and the labels as they are. */
  ghost predicate Running(g: Graph)
    reads g`sequence, g`error, g`found, g`source, g`order, g`nodelist, g`nnodes, g.edges.Keys
  {
    && g.Valid()
    && (g.sequence % 2 == 1 ==>
        g.source != null && g.source in g.edges && Explored(g.edges, g.source, g.found) && Listed(g))
  }

  /** True if the node is new. */
  method CandidatePath(g: Graph, node: Node, distance: int, prev: Node?, prevedge: int) returns (r: bool)
    requires g.Valid() && Listed(g) && g.sequence % 2 == 1 && node in g.edges
    modifies g`found, g`order, g`nodelist, g`nnodes, node
    ensures g.Valid() && Listed(g)
    ensures r <==> node !in old(g.found)
    ensures g.found == Relaxed(old(g.found), node, distance, prev, prevedge)
    ensures g.order == if r then old(g.order) + [node] else old(g.order)
  {
    hide Closed, Graph.Valid, Graph.Tied, Holds, Chained;
    NotOnList(g.order, g.found, node);
    r := g.AgaUpdateNode(node);
    if r {
      HoldsMore(g.order, old(g.found), node, Label(distance, prev, prevedge));
      // A new node: treat it as if it had been infinitely far.
      g.SetPath(node, distance, prev, prevedge);
      assert g.found == old(g.found)[node := Label(distance, prev, prevedge)];
      Prepend(g, node);
      return;
    }
    g.LabelIs(node);
    if distance < node.distance {
      HoldsSame(g.order, g.found, node, Label(distance, prev, prevedge));
      g.SetPath(node, distance, prev, prevedge);
    }
  }

  /** Begin at a source; refused while there is a run. */
  method AgaBellmanFordStart(g: Graph, source: Node) returns (rc: int)
    requires g.Valid() && source in g.edges
    modifies g, source
    ensures rc == 0 || rc == -1
    ensures rc == -1 <==> old(g.sequence) % 2 == 1
    ensures rc == -1 ==> g.sequence == old(g.sequence) && g.found == old(g.found) && g.nodelist == old(g.nodelist)
    ensures rc == 0 ==> Running(g) && g.AgaCheckState() && g.source == source
    ensures rc == 0 ==> g.npasses == 0 && g.order == [source] && g.found == map[source := Label(0, null, 0)]
  {
    rc := g.AgaStart();
    if rc < 0 {
      return;
    }
    g.nodelist := null;
    g.order := [];
    g.nnodes := 0;
    g.npasses := 0;
    var _ := CandidatePath(g, source, 0, null, 0);
    g.source := source;
    NoStep(g.edges, source);
  }

  /** One pass over the nodes found so far; false when nothing more is to be done, or after an error. */
  method AgaBellmanFordStep(g: Graph) returns (r: bool, ghost newnode: bool)
    requires Running(g)
    modifies g`found, g`order, g`nodelist, g`nnodes, g`npasses, g`error, g.edges.Keys
    ensures Running(g)
    ensures !g.AgaCheckState() ==> !r
    ensures g.AgaCheckState() ==> old(g.AgaCheckState())
    ensures !old(g.AgaCheckState()) ==>
              g.found == old(g.found) && g.error == old(g.error) && g.npasses == old(g.npasses)
    ensures g.AgaCheckState() && !r ==> AllKnown(g.edges, g.found)
    ensures r ==> g.nnodes > old(g.nnodes) || (g.nnodes == old(g.nnodes) && old(g.npasses) < g.npasses < g.nnodes)
    ensures g.AgaCheckState() && !r ==> AllClear(g.edges, g.found)
    ensures old(g.AgaCheckState()) && !g.AgaCheckState() ==>
              exists k: nat :: FirstFailure(g.edges, old(g.order), k, g.error) && Reached(g, old(g.order)[k])
    ensures g.AgaCheckState() ==>
              && g.npasses == old(g.npasses) + 1
              && Sweep(g.order, g.found, newnode) == Pass(g.edges, Sweep(old(g.order), old(g.found), false))
              && (r <==> GoesOn(g.npasses, Sweep(g.order, g.found, newnode)))
  {
    hide *;
    newnode := false;
    if !g.AgaCheckState() {
      return false, newnode;
    }
    var ok, more := OnePass(g);
    newnode := more;
    if !ok {
      return false, newnode;
    }
    g.npasses := g.npasses + 1;
    r := more || g.npasses < g.nnodes;
    GoesOnIs(g, newnode);
  }

  /** One pass over the nodes found so far, and whether it has found another. */
  method OnePass(g: Graph) returns (ok: bool, newnode: bool)
    requires Running(g) && g.AgaCheckState()
    modifies g`found, g`order, g`nodelist, g`nnodes, g`error, g.edges.Keys
    ensures Running(g) && (ok <==> g.AgaCheckState())
    ensures ok && newnode ==> g.nnodes > old(g.nnodes)
    ensures ok && !newnode ==> g.nnodes == old(g.nnodes) && AllKnown(g.edges, g.found)
    ensures ok ==> Sweep(g.order, g.found, newnode) == Pass(g.edges, Sweep(old(g.order), old(g.found), false))
    ensures ok && !newnode ==> AllClear(g.edges, g.found)
    ensures !ok ==> exists k: nat :: FirstFailure(g.edges, old(g.order), k, g.error) && Reached(g, old(g.order)[k])
  {
    hide Explored, Listed, Closed, Graph.Valid, Known, Relaxed, Visited, Extends, AllKnown, Crossed;
    hide Clear, ClearFrom, AllClear, Fails, Holds;
    ghost var was, first := g.order, Sweep(g.order, g.found, false);
    ghost var k: nat := |was|;
    newnode := false;
    var n := g.nodelist;
    NothingVisited(g);
    NothingClear(g.edges, was);
    ListEnds(g);
    while n != null
      invariant g.Valid() && g.AgaCheckState() && Listed(g) && Explored(g.edges, g.source, g.found)
      invariant k <= |was| <= |g.order| && n == Last(was, k) && Extends(was, g.order)
      invariant newnode <==> |g.order| > |was|
      invariant !newnode ==> Visited(g.edges, g.found, was, k)
      invariant Sweep(g.order, g.found, newnode) == Swept(g.edges, was, k, first) && ClearFrom(g.edges, was, k)
      decreases k
    {
      ghost var found, order := g.found, g.order;
      OnList(g, was, k - 1);
      ok, newnode := OverEdges(g, n, newnode);
      if !ok {
        FoundReachable(g.edges, g.source, g.found);
        assert FirstFailure(g.edges, was, k - 1, g.error);
        return;
      }
      ExtendsTwice(was, order, g.order);
      ClearNext(g.edges, was, k - 1);
      if !newnode {
        VisitedNext(g.edges, found, g.found, was, k - 1);
      }
      OnList(g, was, k - 1);
      n := n.list;
      k := k - 1;
    }
    ok := true;
    ListEnds(g);
    if !newnode {
      AllOnList(g, was);
      HoldsOf(g);
      ListClear(g.edges, g.found, was);
    }
  }

  lemma NothingClear(edges: Edges, order: seq<Node>)
    ensures ClearFrom(edges, order, |order|)
  {
  }

  ghost predicate Reached(g: Graph, v: Node)
    reads g`source
  {
    v in g.edges && g.source != null && Reachable(g.edges, g.source, v)
  }

  /** Go over the edges of one node, until a new node is found. */
  method OverEdges(g: Graph, n: Node, newnode0: bool) returns (ok: bool, newnode: bool)
    requires g.Valid() && g.AgaCheckState() && Listed(g) && g.source != null && Explored(g.edges, g.source, g.found)
    requires n in g.edges && n in g.found
    modifies g`found, g`order, g`nodelist, g`nnodes, g`error, g.edges.Keys
    ensures g.Valid() && g.sequence == old(g.sequence) && (ok <==> g.AgaCheckState())
    ensures Listed(g) && Explored(g.edges, g.source, g.found)
    ensures ok ==> Extends(old(g.order), g.order)
    ensures ok ==> (newnode <==> newnode0 || |g.order| > |old(g.order)|)
    ensures ok && !newnode ==> Known(g.edges, g.found, n, |g.edges[n]|) && g.found.Keys == old(g.found).Keys
    ensures ok ==>
              Sweep(g.order, g.found, newnode) ==
              Crossed(g.edges, n, |g.edges[n]|, Sweep(old(g.order), old(g.found), newnode0))
    ensures if ok then Clear(g.edges, n) else Fails(g.edges, n, g.error) && n in g.found
  {
    hide Explored, Holds, Chained, Closed, Graph.Valid, Graph.Tied, Known, Relaxed;
    newnode := newnode0;
    ghost var first := Sweep(g.order, g.found, newnode);
    var edges := g.edges[n];
    var i := 0;
    NoneKnown(g.edges, g.found, n);
    while i < |edges| && edges[i].rc == 0
      invariant 0 <= i <= |edges| && n in g.found
      invariant g.Valid() && g.AgaCheckState() && Listed(g) && Explored(g.edges, g.source, g.found)
      invariant Extends(old(g.order), g.order)
      invariant newnode <==> newnode0 || |g.order| > |old(g.order)|
      invariant !newnode ==> Known(g.edges, g.found, n, i) && g.found.Keys == old(g.found).Keys
      invariant Sweep(g.order, g.found, newnode) == Crossed(g.edges, n, i, first) && ClearUpTo(g.edges, n, i)
    {
      var e := edges[i];
      ghost var found := g.found;
      if e.to != null {
        var dist := n.distance + e.icost;
        if !newnode {
          g.LabelIs(n);
          TargetIn(g, n, i);
          ExploredRelaxed(g.edges, g.source, found, n, i, e.to);
          RelaxedKeys(found, e.to, dist, n, i);
          newnode := CandidatePath(g, e.to, dist, n, i);
        }
      }
      if !newnode {
        KnownNext(g.edges, found, g.found, n, i);
      }
      i := i + 1;
    }
    if i < |edges| {
      g.AgaFail(edges[i].rc);
      return false, newnode;
    }
    return true, newnode;
  }

  lemma GoesOnIs(g: Graph, newnode: bool)
    requires Running(g) && g.AgaCheckState()
    ensures newnode || g.npasses < g.nnodes <==> GoesOn(g.npasses, Sweep(g.order, g.found, newnode))
  {
  }

  lemma RelaxedKeys(found: Labels, v: Node, distance: int, prev: Node?, prevedge: int)
    ensures Relaxed(found, v, distance, prev, prevedge).Keys == found.Keys + {v}
  {
  }

  lemma TargetIn(g: Graph, n: Node, i: nat)
    requires g.Valid() && n in g.edges && i < |g.edges[n]| && g.edges[n][i].to != null
    ensures g.edges[n][i].to in g.edges
  {
  }

  lemma NoneKnown(edges: Edges, found: Labels, n: Node)
    requires n in edges
    ensures Known(edges, found, n, 0)
  {
  }

  lemma KnownNext(edges: Edges, found: Labels, now: Labels, n: Node, i: nat)
    requires Known(edges, found, n, i) && found.Keys <= now.Keys && i < |edges[n]|
    requires edges[n][i].to != null ==> edges[n][i].to in now
    ensures Known(edges, now, n, i + 1)
  {
  }

  lemma ListEnds(g: Graph)
    requires Listed(g)
    ensures g.nodelist == Last(g.order, |g.order|) && g.nnodes == |g.order|
  {
  }

  lemma OnList(g: Graph, was: seq<Node>, k: nat)
    requires Listed(g) && k < |was| && Extends(was, g.order)
    ensures was[k] in g.found && was[k] in g.edges && was[k].list == Last(was, k)
  {
    assert was[k] == g.order[k];
  }

  ghost predicate Visited(edges: Edges, found: Labels, order: seq<Node>, k: int) {
    forall j :: 0 <= k <= j < |order| ==> order[j] in edges && Known(edges, found, order[j], |edges[order[j]]|)
  }

  lemma NothingVisited(g: Graph)
    ensures Visited(g.edges, g.found, g.order, |g.order|) && Extends(g.order, g.order)
  {
  }

  lemma VisitedNext(edges: Edges, found: Labels, now: Labels, order: seq<Node>, k: nat)
    requires Visited(edges, found, order, k + 1) && found.Keys == now.Keys && k < |order|
    requires order[k] in edges && Known(edges, now, order[k], |edges[order[k]]|)
    ensures Visited(edges, now, order, k)
  {
  }

  lemma ExtendsTwice(a: seq<Node>, b: seq<Node>, c: seq<Node>)
    requires Extends(a, b) && Extends(b, c)
    ensures |a| <= |b| <= |c| && Extends(a, c) && (|a| == |c| ==> |a| == |b|)
  {
  }

  /** All on the list have been gone through. */
  lemma AllOnList(g: Graph, was: seq<Node>)
    requires Listed(g) && Extends(was, g.order) && |was| == |g.order| && Visited(g.edges, g.found, was, 0)
    ensures AllKnown(g.edges, g.found) && was == g.order
  {
    assert was == g.order;
  }

  // ---------- The whole run ----------

  /** The first i edges of a node offer no shorter path. */
  ghost predicate NodeSettled(edges: Edges, found: Labels, v: Node, i: nat) {
    && v in edges && v in found && i <= |edges[v]|
    && forall j: nat :: j < i ==> Settled(edges, found, v, j)
  }

  ghost predicate ListSettled(edges: Edges, found: Labels, order: seq<Node>, k: nat) {
    forall j: nat :: k <= j < |order| ==> order[j] in edges && NodeSettled(edges, found, order[j], |edges[order[j]]|)
  }

  lemma ListSettledNext(edges: Edges, found: Labels, order: seq<Node>, k: nat)
    requires ListSettled(edges, found, order, k + 1) && k < |order|
    requires order[k] in edges && NodeSettled(edges, found, order[k], |edges[order[k]]|)
    ensures ListSettled(edges, found, order, k)
  {
    hide NodeSettled;
  }

  lemma AllOfListSettled(edges: Edges, found: Labels, order: seq<Node>)
    requires ListSettled(edges, found, order, 0) && Holds(order, found)
    ensures AllSettled(edges, found)
  {
    forall v, i: nat | v in found && v in edges && i < |edges[v]|
      ensures Settled(edges, found, v, i)
    {
      var k :| 0 <= k < |order| && order[k] == v;
      assert NodeSettled(edges, found, order[k], |edges[order[k]]|);
    }
  }

  /** The list is no longer than there are nodes. */
  lemma ListBound(g: Graph)
    requires Listed(g)
    ensures 0 <= g.nnodes == |g.order| <= |g.edges.Keys|
  {
    OrderLength(g.order, g.edges.Keys);
  }

  lemma RunIsOn(g: Graph)
    requires g.AgaCheckState()
    ensures g.sequence % 2 == 1
  {
  }

  lemma RunningParts(g: Graph)
    requires Running(g) && g.sequence % 2 == 1
    ensures g.Valid() && g.source != null && g.source in g.edges
    ensures Explored(g.edges, g.source, g.found) && Listed(g)
  {
  }

  lemma EdgeCompared(g: Graph, n: Node, i: nat)
    requires g.Valid() && AllKnown(g.edges, g.found) && NodeSettled(g.edges, g.found, n, i) && i < |g.edges[n]|
    requires var e := g.edges[n][i];
             e.to != null ==> n.distance + e.icost >= e.to.distance
    ensures NodeSettled(g.edges, g.found, n, i + 1)
  {
    var e := g.edges[n][i];
    g.LabelIs(n);
    if e.to != null {
      assert Known(g.edges, g.found, n, |g.edges[n]|);
      g.LabelIs(e.to);
    }
  }

  /** By the distances that the nodes carry, this edge offers a shorter path. */
  ghost predicate Offers(g: Graph, n: Node, i: nat)
    requires n in g.edges && i < |g.edges[n]|
    reads g.edges.Keys`distance
  {
    var e := g.edges[n][i];
    e.to != null && e.to in g.edges && n.distance + e.icost < e.to.distance
  }

  /** The first i edges of a node are given without an error and offer nothing. */
  ghost predicate QuietUpTo(g: Graph, n: Node, i: nat)
    reads g.edges.Keys`distance
  {
    ClearUpTo(g.edges, n, i) && forall j: nat :: j < i ==> !Offers(g, n, j)
  }

  /** The last look stops at this node, with this error. */
  ghost predicate StopsAt(g: Graph, n: Node, error: int)
    reads g.edges.Keys`distance
  {
    exists i: nat ::
      && QuietUpTo(g, n, i) && i < |g.edges[n]|
      && if g.edges[n][i].rc != 0 then error == g.edges[n][i].rc else Offers(g, n, i) && error == 1
  }

  ghost predicate QuietFrom(g: Graph, order: seq<Node>, k: int)
    reads g.edges.Keys`distance
  {
    forall j :: 0 <= k <= j < |order| ==> order[j] in g.edges && QuietUpTo(g, order[j], |g.edges[order[j]]|)
  }

  lemma QuietNext(g: Graph, order: seq<Node>, k: nat)
    requires QuietFrom(g, order, k + 1) && k < |order|
    requires order[k] in g.edges && QuietUpTo(g, order[k], |g.edges[order[k]]|)
    ensures QuietFrom(g, order, k)
  {
  }

  /** What the last look leaves as error: the first that it comes upon, or the one there was. */
  ghost predicate LookedAt(g: Graph, error: int, before: int)
    reads g`order, g.edges.Keys`distance
  {
    || (QuietFrom(g, g.order, 0) && error == before)
    || exists k: nat :: k < |g.order| && StopsAt(g, g.order[k], error) && QuietFrom(g, g.order, k + 1)
  }

  lemma EdgeUnsettled(g: Graph, n: Node, i: nat)
    requires g.Valid() && n in g.edges && n in g.found && i < |g.edges[n]|
    requires var e := g.edges[n][i];
             e.to != null && n.distance + e.icost < e.to.distance
    ensures !AllSettled(g.edges, g.found)
  {
    var e := g.edges[n][i];
    g.LabelIs(n);
    if e.to in g.found {
      g.LabelIs(e.to);
    }
    assert !Settled(g.edges, g.found, n, i);
  }

  /** Look for an edge that offers a shorter path; false if there is one, or after an error. */
  method ScanEdges(g: Graph, n: Node) returns (ok: bool)
    requires Running(g) && g.sequence % 2 == 1 && n in g.edges && n in g.found
    modifies g`error
    ensures Running(g)
    ensures !ok ==> g.error != AGA_ERR_NONE
    ensures !ok && Clear(g.edges, n) ==> g.error == 1 && !AllSettled(g.edges, g.found)
    ensures if ok then QuietUpTo(g, n, |g.edges[n]|) else StopsAt(g, n, g.error)
    ensures ok ==> g.error == old(g.error)
    ensures ok && AllKnown(g.edges, g.found) ==> NodeSettled(g.edges, g.found, n, |g.edges[n]|)
  {
    hide Explored, Listed, Closed, Graph.Valid, AllKnown;
    var edges := g.edges[n];
    var i := 0;
    while i < |edges| && edges[i].rc == 0
      invariant 0 <= i <= |edges| && Running(g) && g.error == old(g.error)
      invariant AllKnown(g.edges, g.found) ==> NodeSettled(g.edges, g.found, n, i)
      invariant QuietUpTo(g, n, i)
    {
      var e := edges[i];
      if e.to != null && n.distance + e.icost < e.to.distance {
        EdgeUnsettled(g, n, i);
        TargetIn(g, n, i);
        assert Offers(g, n, i);
        g.AgaFail(AGA_ERR_NEGATIVE_COST);
        return false;
      }
      if AllKnown(g.edges, g.found) {
        EdgeCompared(g, n, i);
      }
      i := i + 1;
    }
    if i < |edges| {
      g.AgaFail(edges[i].rc);
      return false;
    }
    return true;
  }

  /** Look through the whole list. */
  method ScanList(g: Graph)
    requires Running(g) && g.sequence % 2 == 1
    requires g.AgaCheckState() ==> AllKnown(g.edges, g.found)
    modifies g`error
    ensures Running(g)
    ensures g.AgaCheckState() ==> Exact(g.edges, g.source, g.found)
    ensures old(g.AgaCheckState()) && AllClear(g.edges, g.found) ==>
              g.error == if AllSettled(g.edges, g.found) then 0 else 1
    ensures LookedAt(g, g.error, old(g.error))
  {
    hide AllClear, Clear, QuietUpTo, QuietFrom, StopsAt, AllSettled, Explored, Listed, Holds, Closed, Graph.Valid;
    hide AllKnown, NodeSettled, ListSettled, Extends, Exact;
    var n := g.nodelist;
    ghost var k: nat := |g.order|;
    RunningParts(g);
    ListEnds(g);
    NothingVisited(g);
    NoneSettled(g.edges, g.found, g.order);
    NoneQuiet(g, g.order);
    while n != null
      invariant Running(g) && k <= |g.order| && n == Last(g.order, k) && Extends(g.order, g.order)
      invariant g.AgaCheckState() ==> AllKnown(g.edges, g.found) && ListSettled(g.edges, g.found, g.order, k)
      invariant g.error == old(g.error) && QuietFrom(g, g.order, k)
      decreases k
    {
      RunningParts(g);
      OnList(g, g.order, k - 1);
      if AllClear(g.edges, g.found) {
        ClearOf(g.edges, g.found, n);
      }
      var ok := ScanEdges(g, n);
      if !ok {
        return;
      }
      RunningParts(g);
      OnList(g, g.order, k - 1);
      QuietNext(g, g.order, k - 1);
      if g.AgaCheckState() {
        ListSettledNext(g.edges, g.found, g.order, k - 1);
      }
      n := n.list;
      k := k - 1;
    }
    RunningParts(g);
    if g.AgaCheckState() {
      HoldsOf(g);
      AllOfListSettled(g.edges, g.found, g.order);
      SettledIsExact(g.edges, g.source, g.found);
    }
  }

  lemma ClearOf(edges: Edges, found: Labels, n: Node)
    requires AllClear(edges, found) && n in found
    ensures Clear(edges, n)
  {
  }

  lemma HoldsOf(g: Graph)
    requires Listed(g)
    ensures Holds(g.order, g.found)
  {
  }

  lemma NoneQuiet(g: Graph, order: seq<Node>)
    ensures QuietFrom(g, order, |order|)
  {
  }

  lemma NoneSettled(edges: Edges, found: Labels, order: seq<Node>)
    ensures ListSettled(edges, found, order, |order|)
  {
  }

  /** The state of a run after its passes. */
  ghost predicate After(edges: Edges, n0: int, first: Sweep, run: seq<Sweep>, npasses: int, sw: Sweep) {
    && |run| > 1 && run[0] == first && Passes(edges, n0, run)
    && run[|run| - 1] == sw && npasses == n0 + |run| - 1
  }

  lemma FirstPass(edges: Edges, n0: int, first: Sweep, sw: Sweep)
    requires sw == Pass(edges, first)
    ensures After(edges, n0, first, [first, sw], n0 + 1, sw)
  {
    hide Pass;
    NoPass(edges, n0, first);
    OneMorePass(edges, n0, [first], sw);
    assert [first] + [sw] == [first, sw];
  }

  lemma NoPass(edges: Edges, n0: int, first: Sweep)
    ensures Passes(edges, n0, [first])
  {
  }

  /** The next pass, after a state that asks for it. */
  lemma NextPass(edges: Edges, n0: int, first: Sweep, run: seq<Sweep>, npasses: int, was: Sweep, sw: Sweep)
    requires After(edges, n0, first, run, npasses, was) && GoesOn(npasses, was)
    requires sw == Pass(edges, Sweep(was.order, was.found, false))
    ensures After(edges, n0, first, run + [sw], npasses + 1, sw)
  {
    hide GoesOn, Passes, Swept;
    assert sw == Pass(edges, was);
    OneMorePass(edges, n0, run, sw);
  }

  /** Passes as long as they are needed, and a last look for edges that offer more: an end without error is exact.
      Without errors of the callbacks, an error means just that after the last pass some edge still offers more. */
  method AgaBellmanFordComplete(g: Graph) returns (ghost run: seq<Sweep>)
    requires Running(g)
    modifies g`found, g`order, g`nodelist, g`nnodes, g`npasses, g`error, g.edges.Keys
    ensures Running(g)
    ensures g.AgaCheckState() ==> g.source != null && Exact(g.edges, g.source, g.found)
    ensures g.source != null && NegativeCycle(g.edges, g.source) ==> !g.AgaCheckState()
    ensures !old(g.AgaCheckState()) ==>
              g.found == old(g.found) && g.error == old(g.error) && g.npasses == old(g.npasses)
    ensures old(g.AgaCheckState()) && NoneFails(g.edges, g.source) ==>
              && CompleteRun(g.edges, old(g.npasses), Sweep(old(g.order), old(g.found), false), run, g.found)
              && g.error == if AllSettled(g.edges, g.found) then 0 else 1
    ensures old(g.AgaCheckState()) && !NoneFails(g.edges, g.source) ==>
              exists v, error :: Reached(g, v) && Fails(g.edges, v, error) && LookedAt(g, g.error, error)
  {
    hide *;
    run := [];
    if !g.AgaCheckState() {
      return;
    }
    RunIsOn(g);
    ghost var n0, first := g.npasses, Sweep(g.order, g.found, false);
    var more;
    ghost var newnode;
    more, newnode := AgaBellmanFordStep(g);
    RunningParts(g);
    ListBound(g);
    if !g.AgaCheckState() {
      FailedOne(g, first.order);
    }
    ghost var sw := Sweep(g.order, g.found, newnode);
    if g.AgaCheckState() {
      run := [first, sw];
      FirstPass(g.edges, n0, first, sw);
    }
    while more
      invariant Running(g) && 0 <= g.nnodes <= |g.edges.Keys|
      invariant more ==> g.AgaCheckState()
      invariant !more && g.AgaCheckState() ==> AllKnown(g.edges, g.found)
      invariant !more && g.AgaCheckState() ==> AllClear(g.edges, g.found)
      invariant !g.AgaCheckState() ==> exists v :: Reached(g, v) && Fails(g.edges, v, g.error)
      invariant g.AgaCheckState() ==> sw.order == g.order && sw.found == g.found
      invariant g.AgaCheckState() ==> After(g.edges, n0, first, run, g.npasses, sw)
      invariant g.AgaCheckState() ==> (more <==> GoesOn(g.npasses, sw))
      decreases more, |g.edges.Keys| - g.nnodes, if g.npasses < g.nnodes then g.nnodes - g.npasses else 0
    {
      ghost var was, npasses := sw, g.npasses;
      more, newnode := AgaBellmanFordStep(g);
      RunningParts(g);
      ListBound(g);
      sw := Sweep(g.order, g.found, newnode);
      if g.AgaCheckState() {
        NextPass(g.edges, n0, first, run, npasses, was, sw);
        run := run + [sw];
      } else {
        FailedOne(g, was.order);
      }
    }
    if g.AgaCheckState() {
      LastPass(g.edges, n0, first, run, g.npasses, sw);
      AllFoundClear(g);
    } else {
      FailedSomewhere(g);
    }
    ScanList(g);
    if g.AgaCheckState() {
      ExactHasNone(g.edges, g.source, g.found);
    }
  }

  lemma FailedOne(g: Graph, order: seq<Node>)
    requires exists k: nat :: FirstFailure(g.edges, order, k, g.error) && Reached(g, order[k])
    ensures exists v :: Reached(g, v) && Fails(g.edges, v, g.error)
  {
    hide Reached, Fails;
  }

  lemma FailedSomewhere(g: Graph)
    requires exists v :: Reached(g, v) && Fails(g.edges, v, g.error)
    ensures g.source != null && !NoneFails(g.edges, g.source)
  {
    hide Reachable, Clear;
    var v :| Reached(g, v) && Fails(g.edges, v, g.error);
    FailsNotClear(g.edges, v, g.error);
  }

  /** All that can be reached has been found, so that no callback fails. */
  lemma AllFoundClear(g: Graph)
    requires Running(g) && g.AgaCheckState() && AllKnown(g.edges, g.found) && AllClear(g.edges, g.found)
    ensures NoneFails(g.edges, g.source)
  {
    hide Reachable;
    RunningParts(g);
    KnownIsReachable(g.edges, g.source, g.found);
  }

  lemma KnownIsReachable(edges: Edges, s: Node, found: Labels)
    requires AllKnown(edges, found) && s in found && found.Keys <= edges.Keys
    ensures forall v :: Reachable(edges, s, v) ==> v in found
  {
    forall v | Reachable(edges, s, v)
      ensures v in found
    {
      var w :| IsWalk(edges, s, w, v);
      WalkKnown(edges, s, found, w, v);
    }
  }

  lemma {:induction false} WalkKnown(edges: Edges, s: Node, found: Labels, w: seq<nat>, v: Node)
    requires AllKnown(edges, found) && s in found && found.Keys <= edges.Keys && IsWalk(edges, s, w, v)
    ensures v in found
    decreases |w|
  {
    if w != [] {
      var before := w[..|w| - 1];
      var u := End(edges, s, before);
      WalkKnown(edges, s, found, before, u);
      assert Known(edges, found, u, |edges[u]|);
    }
  }

  /** All passes of a run that is completed, and the labels that they leave. */
  ghost predicate CompleteRun(edges: Edges, n0: int, first: Sweep, run: seq<Sweep>, found: Labels) {
    && |run| > 1 && run[0] == first && Passes(edges, n0, run)
    && !GoesOn(n0 + |run| - 1, run[|run| - 1]) && run[|run| - 1].found == found
  }

  lemma LastPass(edges: Edges, n0: int, first: Sweep, run: seq<Sweep>, npasses: int, sw: Sweep)
    requires After(edges, n0, first, run, npasses, sw) && !GoesOn(npasses, sw)
    ensures CompleteRun(edges, n0, first, run, sw.found)
  {
  }

  /** The cost of a shortest path and the last step of one; false if there is none, or after an error. */
  method AgaBellmanFordPath(g: Graph, node: Node)
    returns (ok: bool, totalCost: int, prev: Node?, prevedge: int, ghost run: seq<Sweep>)
    requires Running(g) && node in g.edges
    modifies g`found, g`order, g`nodelist, g`nnodes, g`npasses, g`error, g.edges.Keys
    ensures Running(g)
    ensures ok ==> g.AgaCheckState() && g.source != null && Shortest(g.edges, g.source, node, totalCost)
    ensures ok ==> (node == g.source <==> prev == null) && (node == g.source ==> totalCost == 0)
    ensures ok && prev != null ==>
              && prev in g.found && prev in g.edges && 0 <= prevedge < |g.edges[prev]|
              && g.edges[prev][prevedge].to == node
              && totalCost == prev.distance + g.edges[prev][prevedge].icost
              && Shortest(g.edges, g.source, prev, prev.distance)
    ensures !ok && g.AgaCheckState() ==> g.source != null && !Reachable(g.edges, g.source, node)
    ensures !old(g.AgaCheckState()) ==>
              g.found == old(g.found) && g.error == old(g.error) && g.npasses == old(g.npasses)
    ensures old(g.AgaCheckState()) && NoneFails(g.edges, g.source) ==>
              && CompleteRun(g.edges, old(g.npasses), Sweep(old(g.order), old(g.found), false), run, g.found)
              && g.error == if AllSettled(g.edges, g.found) then 0 else 1
    ensures old(g.AgaCheckState()) && !NoneFails(g.edges, g.source) ==>
              exists v, error :: Reached(g, v) && Fails(g.edges, v, error) && LookedAt(g, g.error, error)
  {
    ok, totalCost, prev, prevedge := false, 0, null, 0;
    run := AgaBellmanFordComplete(g);
    if !g.AgaCheckState() {
      return;
    }
    hide Explored, Listed, Closed, Reachable, Shortest, CompleteRun, NoneFails, Fails, AllSettled;
    if g.AgaNodeNeedsUpdate(node) {
      return;
    }
    g.LabelIs(node);
    assert ExactLink(g.edges, g.source, g.found, node);
    if node.prev != null {
      g.LabelIs(node.prev);
    }
    ok, totalCost, prev, prevedge := true, node.distance, node.prev, node.prevedge;
  }
}
