/** A graph without negative costs on which the Bellman-Ford algorithm reports one. */
module AgaMissedPath {
  import opened AgaWalks
  import opened Aga
  import opened AgaBellmanFord

  /** Two edges lead from a to b, the dearer one first, and one from b to c. */
  ghost predicate TwoWays(edges: Edges, a: Node, b: Node, c: Node) {
    && a != b && a != c && b != c
    && edges == map[a := [EdgeInfo(0, b, 1), EdgeInfo(0, b, 0)], b := [EdgeInfo(0, c, 2)], c := []]
  }

  ghost predicate NoNegativeCosts(edges: Edges) {
    forall v, i :: v in edges && 0 <= i < |edges[v]| ==> edges[v][i].icost >= 0
  }

  lemma {:induction false} NoNegativeWalk(edges: Edges, s: Node, w: seq<nat>)
    requires NoNegativeCosts(edges)
    ensures Cost(edges, s, w) >= 0
    decreases |w|
  {
    if w != [] {
      NoNegativeWalk(edges, s, w[..|w| - 1]);
    }
  }

  lemma NothingNegative(edges: Edges, s: Node)
    requires NoNegativeCosts(edges)
    ensures !NegativeCycle(edges, s)
  {
    forall v, cycle | IsWalk(edges, v, cycle, v)
      ensures Cost(edges, v, cycle) >= 0
    {
      NoNegativeWalk(edges, v, cycle);
    }
  }

  // ---------- The three passes ----------

  ghost function Passed(a: Node, b: Node, c: Node, n: nat): Sweep {
    var l := Label(0, null, 0);
    match n
    case 0 => Sweep([a], map[a := l], false)
    case 1 => Sweep([a, b], map[a := l, b := Label(1, a, 0)], true)
    case 2 => Sweep([a, b, c], map[a := l, b := Label(1, a, 0), c := Label(3, b, 0)], true)
    case _ => Sweep([a, b, c], map[a := l, b := Label(0, a, 1), c := Label(3, b, 0)], false)
  }

  lemma FirstPassed(edges: Edges, a: Node, b: Node, c: Node)
    requires TwoWays(edges, a, b, c)
    ensures Pass(edges, Passed(a, b, c, 0)) == Passed(a, b, c, 1)
  {
    var sw := Passed(a, b, c, 0);
    assert Swept(edges, [a], 1, sw) == sw;
    assert Crossed(edges, a, 1, sw) == Passed(a, b, c, 1);
    assert Crossed(edges, a, 2, sw) == Passed(a, b, c, 1);
    assert Swept(edges, [a], 0, sw) == Crossed(edges, a, 2, sw);
  }

  lemma SecondPassed(edges: Edges, a: Node, b: Node, c: Node)
    requires TwoWays(edges, a, b, c)
    ensures Pass(edges, Passed(a, b, c, 1)) == Passed(a, b, c, 2)
  {
    var sw := Passed(a, b, c, 1).(newnode := false);
    var now := Passed(a, b, c, 2);
    assert Swept(edges, [a, b], 2, sw) == sw;
    assert Crossed(edges, b, 1, sw) == now;
    assert Swept(edges, [a, b], 1, sw) == now;
    assert Crossed(edges, a, 1, now) == now;
    assert Crossed(edges, a, 2, now) == now;
    assert Swept(edges, [a, b], 0, sw) == now;
  }

  lemma ThirdPassed(edges: Edges, a: Node, b: Node, c: Node)
    requires TwoWays(edges, a, b, c)
    ensures Pass(edges, Passed(a, b, c, 2)) == Passed(a, b, c, 3)
  {
    var sw := Passed(a, b, c, 2).(newnode := false);
    assert Swept(edges, [a, b, c], 3, sw) == sw;
    assert Crossed(edges, c, 0, sw) == sw;
    assert Swept(edges, [a, b, c], 2, sw) == sw;
    assert Crossed(edges, b, 1, sw) == sw;
    assert Swept(edges, [a, b, c], 1, sw) == sw;
    assert Crossed(edges, a, 1, sw) == sw;
    assert Crossed(edges, a, 2, sw) == Passed(a, b, c, 3);
    assert Swept(edges, [a, b, c], 0, sw) == Crossed(edges, a, 2, sw);
  }

  /** There are three passes, and after them the edge from b to c still offers a shorter path. */
  lemma ThreePasses(edges: Edges, a: Node, b: Node, c: Node, run: seq<Sweep>, found: Labels)
    requires TwoWays(edges, a, b, c) && CompleteRun(edges, 0, Passed(a, b, c, 0), run, found)
    ensures found == Passed(a, b, c, 3).found && !AllSettled(edges, found)
  {
    hide Pass;
    FirstPassed(edges, a, b, c);
    SecondPassed(edges, a, b, c);
    ThirdPassed(edges, a, b, c);
    assert IsPass(edges, 0, run, 1);
    assert |run| > 2 ==> IsPass(edges, 0, run, 2);
    assert |run| > 3 ==> IsPass(edges, 0, run, 3);
    assert |run| > 4 ==> IsPass(edges, 0, run, 4);
    assert |run| == 4;
    assert !Settled(edges, found, b, 0);
  }

  lemma ThereIsAWay(edges: Edges, a: Node, b: Node, c: Node)
    requires TwoWays(edges, a, b, c)
    ensures Reachable(edges, a, c)
  {
    assert [0, 0][..1] == [0];
    assert IsWalk(edges, a, [0], b);
    assert IsWalk(edges, a, [0, 0], c);
  }

  method TwoWaysGraph() returns (g: Graph, a: Node, b: Node, c: Node)
    ensures g.Valid() && g.sequence == 0 && TwoWays(g.edges, a, b, c)
    ensures fresh(g) && fresh(g.edges.Keys)
  {
    a := new Node();
    b := new Node();
    c := new Node();
    g := new Graph(map[a := [EdgeInfo(0, b, 1), EdgeInfo(0, b, 0)], b := [EdgeInfo(0, c, 2)], c := []]);
  }

  lemma TwoWaysFacts(edges: Edges, a: Node, b: Node, c: Node)
    requires TwoWays(edges, a, b, c)
    ensures a in edges && c in edges
    ensures NoneFails(edges, a) && NoNegativeCosts(edges)
    ensures Passed(a, b, c, 0) == Sweep([a], map[a := Label(0, null, 0)], false)
  {
  }

  /** The path from a to c is not found, and the error says that a cost is negative. */
  method MissedPath() returns (g: Graph, c: Node, ok: bool)
    ensures g.source != null && Reachable(g.edges, g.source, c)
    ensures NoneFails(g.edges, g.source) && NoNegativeCosts(g.edges) && !NegativeCycle(g.edges, g.source)
    ensures !ok && g.error == 1
  {
    hide *;
    var a, b;
    g, a, b, c := TwoWaysGraph();
    TwoWaysFacts(g.edges, a, b, c);
    ThereIsAWay(g.edges, a, b, c);
    NothingNegative(g.edges, a);
    var _ := AgaBellmanFordStart(g, a);
    var found, _, _, _, run := AgaBellmanFordPath(g, c);
    ThreePasses(g.edges, a, b, c, run, g.found);
    CheckedState(g);
    ok := found;
  }

  lemma CheckedState(g: Graph)
    ensures g.error == 1 ==> !g.AgaCheckState()
  {
  }
}
