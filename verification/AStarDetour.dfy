/** A graph on which the A* search does not find a cheapest path, although the estimate never exceeds the true cost. */
module AStarDetour {
  import opened Basics
  import opened AStarContainers
  import opened AStarPaths
  import opened AStar

  const GOAL: nat := 4

  function Neighbours(n: nat): seq<nat> {
    match n
    case 1 => [2, 3]
    case 2 => [4]
    case 3 => [2]
    case _ => []
  }

  function Distance(u: nat, v: nat): real {
    if (u, v) == (1, 2) then 2.0
    else if (u, v) == (1, 3) then 1.0
    else if (u, v) == (2, 4) then 3.0
    else 0.0
  }

  function Estimate(n: nat): real {
    if n == 3 then 3.0 else 0.0
  }

  const DETOUR: Problem := Problem(Neighbours, Distance, Estimate)

  /** The estimate never exceeds the cost of a path to the goal. */
  ghost predicate Admissible(g: Problem, goal: nat) {
    forall v, path :: Leads(g, path, v, goal) ==> g.estimate(v) <= Cost(g, path)
  }

  lemma {:induction false} NoNegativeCost(path: seq<nat>)
    ensures Cost(DETOUR, path) >= 0.0
    decreases |path|
  {
    if |path| > 1 {
      NoNegativeCost(path[..|path| - 1]);
    }
  }

  lemma EstimateIsAdmissible()
    ensures Admissible(DETOUR, GOAL) && !Consistent(DETOUR)
  {
    forall v, path | Leads(DETOUR, path, v, GOAL)
      ensures DETOUR.estimate(v) <= Cost(DETOUR, path)
    {
      NoNegativeCost(path);
      if |path| > 1 {
        PathInit(DETOUR, path, v, GOAL);
        NoNegativeCost(path[..|path| - 1]);
      }
    }
    assert Neighbours(3)[0] == 2 && 2 in DETOUR.neighbours(3);
    assert DETOUR.estimate(3) > DETOUR.distance(3, 2) + DETOUR.estimate(2);
  }

  // ---------- The four states of the search ----------

  function After(n: nat): State {
    match n
    case 0 => First(1)
    case 1 => State([2, 3], [1], map[1 := 0.0, 2 := 2.0, 3 := 1.0], map[2 := 1, 3 := 1])
    case 2 => State([3, 4], [1, 2], map[1 := 0.0, 2 := 2.0, 3 := 1.0, 4 := 5.0], map[2 := 1, 3 := 1, 4 := 2])
    case _ => State([4], [1, 2, 3], map[1 := 0.0, 2 := 2.0, 3 := 1.0, 4 := 5.0], map[2 := 1, 3 := 1, 4 := 2])
  }

  lemma OneLook(st: State, u: nat)
    requires u in st.score && |Neighbours(u)| == 1
    ensures Expanded(DETOUR, st, u, 1) == Looked(DETOUR, st, u, Neighbours(u)[0])
  {
    assert Expanded(DETOUR, st, u, 0) == st;
  }

  lemma FromFirst(now: State)
    requires IsRound(DETOUR, GOAL, After(0), now)
    ensures now == After(1)
  {
    hide LastLowest, TakenOut, Cost;
    var st := After(0).(open := [], closed := [1]);
    TakenOutAt([1], 0);
    assert TakenOut(After(0).open, 1) == [] && After(0).closed + [1] == [1];
    assert Expanded(DETOUR, st, 1, 0) == st;
    assert Expanded(DETOUR, st, 1, 1) == Looked(DETOUR, st, 1, 2);
    assert Expanded(DETOUR, st, 1, 2) == Looked(DETOUR, Looked(DETOUR, st, 1, 2), 1, 3);
  }

  /** Node 2 promises 2, node 3 promises 1 + 3. */
  lemma FromSecond(now: State)
    requires IsRound(DETOUR, GOAL, After(1), now)
    ensures now == After(2)
  {
    hide LastLowest, TakenOut, Cost;
    var st := After(1).(open := [3], closed := [1, 2]);
    OnlyTwo();
    TakenOutAt([2, 3], 0);
    assert TakenOut(After(1).open, 2) == [3] && After(1).closed + [2] == [1, 2];
    OneLook(st, 2);
  }

  lemma OnlyTwo()
    ensures forall u :: u in After(1).open && u in After(1).score && LastLowest(DETOUR, After(1), u) ==> u == 2
  {
    assert 2 in After(1).open && Full(DETOUR, After(1), 2) < Full(DETOUR, After(1), 3);
  }

  lemma OnlyThree()
    ensures forall u :: u in After(2).open && u in After(2).score && LastLowest(DETOUR, After(2), u) ==> u == 3
  {
    assert 3 in After(2).open && Full(DETOUR, After(2), 3) < Full(DETOUR, After(2), 4);
  }

  /** Node 3 promises 4, node 4 promises 5; node 2, which is closed, is not looked at again. */
  lemma FromThird(now: State)
    requires IsRound(DETOUR, GOAL, After(2), now)
    ensures now == After(3)
  {
    OnlyThree();
    TakenOutAt([3, 4], 0);
    hide LastLowest, TakenOut, Cost;
    var st := After(2).(open := [4], closed := [1, 2, 3]);
    assert TakenOut(After(2).open, 3) == [4] && After(2).closed + [3] == [1, 2, 3];
    OneLook(st, 3);
  }

  /** The search can only go through these states. */
  lemma {:induction false} OnlyRun(run: seq<State>, n: nat)
    requires Rounds(DETOUR, 1, GOAL, run) && n < |run|
    ensures n <= 3 && run[n] == After(n)
  {
    if n > 0 {
      OnlyRun(run, n - 1);
      assert IsRound(DETOUR, GOAL, run[n - 1], run[n - 1 + 1]);
      match n {
        case 1 => FromFirst(run[n]);
        case 2 => FromSecond(run[n]);
        case 3 => FromThird(run[n]);
        case _ => assert false;
      }
    }
  }

  lemma OnlyPath(run: seq<State>, r: Option<seq<nat>>)
    requires Rounds(DETOUR, 1, GOAL, run) && Ends(DETOUR, GOAL, run[|run| - 1], r)
    ensures r == Some([1, 2, 4])
  {
    var n := |run| - 1;
    OnlyRun(run, n);
    var st := run[n];
    assert n == 0 ==> 1 in st.open;
    assert n in {1, 2} ==> 3 in st.open;
    assert n == 3 && 4 in st.open;
    var path := r.value;
    var k := |path| - 1;
    assert k > 0 ==> LinkAt(st, path, k);
    assert k > 1 ==> LinkAt(st, path, k - 1);
    assert k > 2 ==> LinkAt(st, path, k - 2);
    assert path == [1, 2, 4];
  }

  lemma Costs()
    ensures Cost(DETOUR, [1, 2, 4]) == 5.0
    ensures Leads(DETOUR, [1, 3, 2, 4], 1, GOAL) && Cost(DETOUR, [1, 3, 2, 4]) == 4.0
  {
    assert [1, 2, 4][..2] == [1, 2] && [1, 2][..1] == [1];
    assert [1, 3, 2, 4][..3] == [1, 3, 2] && [1, 3, 2][..2] == [1, 3] && [1, 3][..1] == [1];
    assert Cost(DETOUR, [1, 2]) == 2.0;
    assert Cost(DETOUR, [1, 3]) == 1.0;
    assert Cost(DETOUR, [1, 3, 2]) == 1.0;
  }

  /** The path found is dearer than another one. */
  method DearerPath() returns (path: seq<nat>)
    ensures Admissible(DETOUR, GOAL) && path == [1, 2, 4]
    ensures !Cheapest(DETOUR, 1, GOAL, Cost(DETOUR, path))
  {
    hide Rounds, Ends;
    EstimateIsAdmissible();
    var r, run := FindPath(1, GOAL, 4, DETOUR, {1, 2, 3, 4});
    OnlyPath(run, r);
    Costs();
    return r.value;
  }
}
