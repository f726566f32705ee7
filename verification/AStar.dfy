/** The A* search. */
module AStar {
  import opened Basics
  import opened AStarContainers
  import opened AStarPaths

  class Search {
    const g: Problem
    const openset: NodeSet
    const closedset: NodeSet
    const cameFrom: NodeMap<nat>
    const gscore: NodeMap<real>
    const fscore: NodeMap<real>
    ghost const nodes: set<nat>
    ghost var st: State

    ghost predicate Apart()
      reads this
    {
      && openset != closedset && gscore != fscore
      && cameFrom as object != gscore as object && cameFrom as object != fscore as object
    }

    ghost function Repr(): set<object>
      reads this
    {
      {openset, closedset, cameFrom, gscore, fscore}
    }

    ghost predicate Valid()
      reads this, Repr()
    {
      && Apart() && Room()
      && openset.Valid() && closedset.Valid() && cameFrom.Valid() && gscore.Valid() && fscore.Valid()
      && openset.Members() == st.open
      && closedset.Members() == st.closed
      && cameFrom.model == st.from
      && gscore.model == st.score
      && Scored(g, st, fscore.model)
      && Within(nodes, st)
    }

    /** All containers have room for all nodes. */
    ghost predicate Room()
      reads this, Repr()
    {
      && |nodes| <= |openset.node| && |nodes| <= |closedset.node|
      && |nodes| <= |cameFrom.key| && |nodes| <= |gscore.key| && |nodes| <= |fscore.key|
    }

    constructor (g: Problem, maxnodes: nat, ghost nodes: set<nat>)
      requires |nodes| <= maxnodes && NULL !in nodes
      ensures Valid() && fresh(Repr()) && this.g == g && this.nodes == nodes
      ensures st == State([], [], map[], map[])
    {
      hide Distinct, NodeSet.Valid, NodeMap.Valid, NodeSet.Members, Scored, Within;
      Nothing(g, nodes);
      this.g := g;
      this.nodes := nodes;
      st := State([], [], map[], map[]);
      openset := new NodeSet(maxnodes);
      closedset := new NodeSet(maxnodes);
      cameFrom := new NodeMap<nat>(maxnodes, NULL);
      gscore := new NodeMap<real>(maxnodes, 0.0);
      fscore := new NodeMap<real>(maxnodes, 0.0);
    }

    /** Record a score for an open node, and where it was reached from. */
    method SetScore(v: nat, score: real)
      requires Apart() && Room() && gscore.Valid() && fscore.Valid() && v in nodes && NULL !in nodes
      requires forall k :: k in gscore.model ==> k in nodes
      requires forall k :: k in fscore.model ==> k in nodes
      modifies gscore, fscore
      ensures Apart() && Room() && gscore.Valid() && fscore.Valid()
      ensures gscore.model == old(gscore.model)[v := score]
      ensures fscore.model == old(fscore.model)[v := score + g.estimate(v)]
    {
      hide Distinct, NodeSet.Valid, NodeMap.Valid;
      RoomInMap(gscore.model, nodes, v);
      RoomInMap(fscore.model, nodes, v);
      gscore.Set(v, score);
      var known := gscore.Get(v);
      fscore.Set(v, known + g.estimate(v));
    }

    method Begin(start: nat)
      requires Valid() && st == State([], [], map[], map[]) && start in nodes
      modifies this`st, Repr()
      ensures Valid() && st == State([start], [], map[start := 0.0], map[])
    {
      hide Distinct, NodeSet.Valid, NodeMap.Valid, NodeSet.Members;
      RoomFor(openset, nodes, start);
      openset.Add(start);
      SetScore(start, 0.0);
      st := State([start], [], map[start := 0.0], map[]);
    }

    /** The open node that promises most; the last of them. */
    method LowestScore() returns (lowest: nat)
      requires Valid() && Members(st) && st.open != []
      ensures lowest in st.open && lowest in st.score && lowest in nodes && LastLowest(g, st, lowest)
    {
      hide Distinct, NodeMap.Valid, Within, LowestUpTo;
      lowest := NULL;
      var lowestScore := 0.0;
      var i := 0;
      ghost var members, place := openset.Members(), 0;
      while i < openset.nmembers
        invariant 0 <= i <= |members| && members == openset.Members()
        invariant i == 0 <==> lowest == NULL
        invariant i > 0 ==> place < i && LowestUpTo(fscore.model, members, i, place) && lowest == members[place]
        invariant i > 0 ==> lowest in fscore.model && lowestScore == fscore.model[lowest]
      {
        assert openset.node[i] == members[i] && members[i] in st.open;
        OpenNode(st, nodes, members[i]);
        var score := fscore.Get(openset.node[i]);
        NextLowest(fscore.model, members, i, place);
        if !(lowest != NULL && score > lowestScore) {
          lowest, lowestScore, place := openset.node[i], score, i;
        }
        i := i + 1;
      }
      LowestIs(g, st, fscore.model, members, place);
      OpenNode(st, nodes, lowest);
    }

    /** The node in hand goes from the open nodes to the closed ones. */
    method Close(u: nat)
      requires Valid() && Members(st) && u in st.open && u in nodes
      modifies this`st, openset, closedset
      ensures Valid() && st == old(st).(open := TakenOut(old(st).open, u), closed := old(st).closed + [u])
    {
      hide Distinct, NodeSet.Valid, NodeMap.Valid, NodeSet.Members, Scored;
      ghost var was := st;
      openset.Remove(u);
      RoomFor(closedset, nodes, u);
      closedset.Add(u);
      ScoredSame(g, was, was.(open := TakenOut(was.open, u), closed := was.closed + [u]), fscore.model);
      st := st.(open := TakenOut(st.open, u), closed := st.closed + [u]);
    }

    /** Look at a neighbour of the node in hand. */
    method Look(u: nat, v: nat)
      requires Valid() && Members(st) && u in st.score && u in nodes && v in nodes
      modifies this`st, openset, cameFrom, gscore, fscore
      ensures Valid() && st == Looked(g, old(st), u, v)
    {
      hide Distinct, NodeSet.Valid, NodeMap.Valid, NodeSet.Members, Scored, Within;
      WithinFacts(nodes, st);
      var closed := closedset.Contains(v);
      if closed {
        return;
      }
      var known := gscore.Get(u);
      var tentative := known + g.distance(u, v);
      var open := openset.Contains(v);
      if open {
        var score := gscore.Get(v);
        if tentative >= score {
          return;
        }
      }
      Improve(u, v, tentative, open);
    }

    method Record(v: nat, u: nat, score: real)
      requires Apart() && Room() && cameFrom.Valid() && gscore.Valid() && fscore.Valid() && v in nodes && NULL !in nodes
      requires forall k :: k in cameFrom.model ==> k in nodes
      requires forall k :: k in gscore.model ==> k in nodes
      requires forall k :: k in fscore.model ==> k in nodes
      modifies cameFrom, gscore, fscore
      ensures Apart() && Room() && cameFrom.Valid() && gscore.Valid() && fscore.Valid()
      ensures cameFrom.model == old(cameFrom.model)[v := u]
      ensures gscore.model == old(gscore.model)[v := score]
      ensures fscore.model == old(fscore.model)[v := score + g.estimate(v)]
    {
      hide Distinct, NodeSet.Valid, NodeMap.Valid;
      RoomInMap(cameFrom.model, nodes, v);
      cameFrom.Set(v, u);
      SetScore(v, score);
    }

    method MarkOpen(v: nat, open: bool)
      requires openset.Valid() && openset.Members() == st.open && |nodes| <= |openset.node|
      requires v in nodes && (open <==> v in st.open) && forall w :: w in st.open ==> w in nodes
      modifies openset
      ensures openset.Valid() && openset.Members() == WithNode(st.open, v) && |nodes| <= |openset.node|
    {
      hide Distinct, NodeSet.Valid, NodeSet.Members;
      if !open {
        RoomFor(openset, nodes, v);
        openset.Add(v);
      }
    }

    /** Record a better way to a node, which becomes an open one. */
    method Improve(u: nat, v: nat, tentative: real, open: bool)
      requires Valid() && Members(st) && v in nodes && (open <==> v in st.open)
      modifies this`st, openset, cameFrom, gscore, fscore
      ensures Valid()
      ensures st == old(st).(open := WithNode(old(st).open, v), score := old(st).score[v := tentative],
                             from := old(st).from[v := u])
    {
      hide Distinct, NodeSet.Valid, NodeMap.Valid, NodeSet.Members, Scored, Within;
      ghost var was, full := st, fscore.model;
      WithinFacts(nodes, st);
      FullFacts(g, st, full);
      MarkOpen(v, open);
      Record(v, u, tentative);
      st := st.(open := WithNode(st.open, v), score := st.score[v := tentative], from := st.from[v := u]);
      Improved(g, nodes, was, st, u, v, tentative, full);
    }

    method Empty() returns (r: bool)
      requires Valid()
      ensures r <==> st.open == []
    {
      return openset.nmembers == 0;
    }

    /** Look at all neighbours of the node in hand. */
    method Expand(s: nat, u: nat, ghost done: seq<nat>)
      requires Valid() && Sound(g, s, st, done) && st.closed == done + [u] && u in st.score && u in nodes
      requires Closed(g, nodes) && (Consistent(g) ==> Before(g, st, done, u))
      modifies this`st, openset, cameFrom, gscore, fscore
      ensures Valid() && Sound(g, s, st, st.closed) && st.closed == old(st.closed)
      ensures st == Expanded(g, old(st), u, |g.neighbours(u)|)
    {
      hide Sound, Closed, Consistent, Before, Looked, Within, Scored, NodeSet.Valid, NodeMap.Valid, Looks;
      NoLooks(g, st, u);
      var n := 0;
      while n < |g.neighbours(u)|
        invariant 0 <= n <= |g.neighbours(u)| && Valid() && Sound(g, s, st, done)
        invariant st.closed == old(st.closed) && u in st.score && Looks(g, st, u, n)
        invariant Consistent(g) ==> Before(g, st, done, u)
        invariant st == Expanded(g, old(st), u, n)
      {
        ghost var was := st;
        var v := g.neighbours(u)[n];
        StaysInside(g, nodes, u, v);
        SoundMembers(g, s, st, done);
        SoundLooked(g, s, st, done, u, v);
        Look(u, v);
        assert u in was.closed;
        LooksNext(g, was, st, u, n);
        n := n + 1;
      }
      RoundDone(g, s, st, done, u);
    }

    /** Close the lowest open node and look at its neighbours. */
    method Round(s: nat, u: nat)
      requires Valid() && Sound(g, s, st, st.closed) && Closed(g, nodes)
      requires u in st.open && u in st.score && u in nodes && Lowest(g, st, u)
      modifies this`st, Repr()
      ensures Valid() && Sound(g, s, st, st.closed) && st.closed == old(st).closed + [u]
      ensures st == Rounded(g, old(st), u)
    {
      hide Sound, Closed, Consistent, Within, Scored, Expanded;
      hide NodeSet.Valid, NodeMap.Valid, NodeSet.Members, Before, Ordered;
      hide Lowest;
      ghost var was := st;
      SoundMembers(g, s, st, st.closed);
      SoundClosed(g, s, st, u);
      if Consistent(g) {
        SoundOrdered(g, s, st);
        BeforeClosed(g, st, u);
      }
      Close(u);
      Expand(s, u, was.closed);
    }

    /** Follow the links back to the start.  There is room for the whole path. */
    method ReconstructPath(s: nat, goal: nat, maxnodes: nat) returns (p: array<nat>, count: nat)
      requires Valid() && Sound(g, s, st, st.closed) && goal in st.open && goal in nodes && |nodes| <= maxnodes
      requires goal in st.score && LastLowest(g, st, goal)
      ensures fresh(p) && 0 < count <= p.Length && count <= maxnodes
      ensures Leads(g, Reversed(p[..count]), s, goal)
      ensures Cost(g, Reversed(p[..count])) == st.score[goal]
      ensures Ends(g, goal, st, Some(Reversed(p[..count])))
    {
      hide Sound, Within, Scored, NodeSet.Valid, NodeSet.Members, NodeMap.Valid, Reversed, Distinct;
      hide Ends, LastLowest, Leads, Cost, Trail;
      FewClosed(nodes, st, goal, g, s);
      p := new nat[maxnodes];
      p[0] := goal;
      count := 1;
      var current := goal;
      ghost var path := [goal];
      ghost var rank: nat := |st.closed|;
      NotNull(g, s, nodes, st, goal);
      TrailStart(g, s, st, goal);
      OneReversed(p[..1], goal);
      var i: nat := cameFrom.Place(current);
      while i < |cameFrom.key|
        invariant 0 < count && count + rank <= |st.closed| + 1 && |st.closed| < maxnodes && p.Length == maxnodes
        invariant Trail(g, s, st, goal, path, current, rank) && path == Reversed(p[..count])
        invariant i <= |cameFrom.key| && (i < |cameFrom.key| <==> current in st.from)
        invariant i < |cameFrom.key| ==> i < |cameFrom.value| && cameFrom.value[i] == st.from[current]
        invariant Valid() && fresh(p)
        decreases rank
      {
        var before := cameFrom.value[i];
        ghost var rank' := TrailBack(g, s, st, goal, path, current, rank);
        NotNull(g, s, nodes, st, before);
        p[count] := before;
        MoreReversed(p[..count], before);
        assert p[..count + 1] == p[..count] + [before];
        count := count + 1;
        path, rank := [before] + path, rank';
        current := before;
        i := cameFrom.Place(current);
      }
      TrailEnd(g, s, st, goal, path, current, rank);
    }
  }

  /** The list from its end. */
  function Reversed(s: seq<nat>): (r: seq<nat>)
    ensures |r| == |s|
    decreases |s|
  {
    if s == [] then [] else [s[|s| - 1]] + Reversed(s[..|s| - 1])
  }

  lemma OneReversed(s: seq<nat>, x: nat)
    requires s == [x]
    ensures Reversed(s) == [x]
  {
    assert s[..0] == [];
  }

  lemma MoreReversed(s: seq<nat>, x: nat)
    ensures Reversed(s + [x]) == [x] + Reversed(s)
  {
    assert (s + [x])[..|s|] == s;
  }

  lemma {:induction false} ReversedAt(s: seq<nat>, k: nat)
    requires k < |s|
    ensures Reversed(s)[|s| - 1 - k] == s[k]
    decreases |s|
  {
    if k < |s| - 1 {
      ReversedAt(s[..|s| - 1], k);
    }
  }

  /** A path from a node on the way back to the goal; the closed nodes before the rank are still to come. */
  ghost predicate Trail(g: Problem, s: nat, st: State, goal: nat, path: seq<nat>, current: nat, rank: nat) {
    && goal in st.score && current in st.score
    && Leads(g, path, current, goal)
    && ByLinks(st, path)
    && Cost(g, path) == st.score[goal] - st.score[current]
    && rank <= |st.closed|
    && (if rank == |st.closed| then current in st.open else st.closed[rank] == current)
  }

  lemma TrailStart(g: Problem, s: nat, st: State, goal: nat)
    requires Sound(g, s, st, st.closed) && goal in st.open
    ensures Trail(g, s, st, goal, [goal], goal, |st.closed|)
  {
    hide Sound, Cheapest;
    SoundMembers(g, s, st, st.closed);
  }

  lemma NotNull(g: Problem, s: nat, nodes: set<nat>, st: State, v: nat)
    requires Within(nodes, st) && Sound(g, s, st, st.closed) && (v in st.score || v in st.open)
    ensures v in nodes && v != NULL && v in st.score
  {
    hide Consistent;
  }

  /** The link of a node that has one leads to a node that was closed before it. */
  lemma LinkOf(g: Problem, s: nat, st: State, v: nat, rank: nat) returns (r: nat)
    requires Sound(g, s, st, st.closed) && v in st.from && rank <= |st.closed|
    requires if rank == |st.closed| then v in st.open else st.closed[rank] == v
    ensures Linked(g, s, st, v) && r < rank && st.closed[r] == st.from[v]
  {
    hide Consistent, AllSettled, Ordered, AllSeen;
    assert v != s && Linked(g, s, st, v);
    assert st.from[v] in if rank < |st.closed| then st.closed[..rank] else st.closed;
    r :| 0 <= r < rank && st.closed[r] == st.from[v];
  }

  lemma {:induction false} CostInFront(g: Problem, x: nat, path: seq<nat>)
    requires path != []
    ensures Cost(g, [x] + path) == g.distance(x, path[0]) + Cost(g, path)
    decreases |path|
  {
    var longer := [x] + path;
    if |path| > 1 {
      CostInFront(g, x, path[..|path| - 1]);
      assert longer[..|longer| - 1] == [x] + path[..|path| - 1];
    } else {
      assert longer[..1] == [x];
    }
  }

  /** One link back. */
  lemma TrailBack(g: Problem, s: nat, st: State, goal: nat, path: seq<nat>, current: nat, rank: nat) returns (r: nat)
    requires Sound(g, s, st, st.closed) && Trail(g, s, st, goal, path, current, rank) && current in st.from
    ensures st.from[current] in st.score && r < rank
    ensures Trail(g, s, st, goal, [st.from[current]] + path, st.from[current], r)
  {
    hide Sound, Cost, ByLinks;
    r := LinkOf(g, s, st, current, rank);
    LinksInFront(st, st.from[current], path);
    LeadsInFront(g, st.from[current], path, current, goal);
    CostInFront(g, st.from[current], path);
  }

  lemma LinksInFront(st: State, x: nat, path: seq<nat>)
    requires ByLinks(st, path) && path != [] && path[0] in st.from && st.from[path[0]] == x
    ensures ByLinks(st, [x] + path)
  {
    var longer := [x] + path;
    forall k | 0 < k < |longer|
      ensures LinkAt(st, longer, k)
    {
      if k > 1 {
        assert LinkAt(st, path, k - 1);
      }
    }
  }

  lemma LeadsInFront(g: Problem, x: nat, path: seq<nat>, current: nat, goal: nat)
    requires Leads(g, path, current, goal) && current in g.neighbours(x)
    ensures Leads(g, [x] + path, x, goal) && path != [] && path[0] == current
  {
    var longer := [x] + path;
    forall i | 0 <= i < |longer| - 1
      ensures longer[i + 1] in g.neighbours(longer[i])
    {
      if i > 0 {
        assert path[i - 1 + 1] in g.neighbours(path[i - 1]);
      }
    }
  }

  /** The links end at the start. */
  lemma TrailEnd(g: Problem, s: nat, st: State, goal: nat, path: seq<nat>, current: nat, rank: nat)
    requires Sound(g, s, st, st.closed) && Trail(g, s, st, goal, path, current, rank) && current !in st.from
    ensures current == s && Leads(g, path, s, goal) && Cost(g, path) == st.score[goal]
    ensures goal in st.open && LastLowest(g, st, goal) ==> Ends(g, goal, st, Some(path))
  {
    hide Consistent, LastLowest, AllSettled, AllSeen, Ordered, Earlier, Distinct, Cost;
    assert current == s || Linked(g, s, st, current);
  }

  lemma FewClosed(nodes: set<nat>, st: State, goal: nat, g: Problem, s: nat)
    requires Within(nodes, st) && Sound(g, s, st, st.closed) && goal in st.open
    ensures |st.closed| < |nodes|
  {
    hide Consistent;
    DistinctSize(st.closed + [goal], nodes);
  }

  lemma StaysInside(g: Problem, nodes: set<nat>, u: nat, v: nat)
    requires Closed(g, nodes) && u in nodes && v in g.neighbours(u)
    ensures v in nodes
  {
  }

  lemma SoundMembers(g: Problem, s: nat, st: State, done: seq<nat>)
    requires Sound(g, s, st, done)
    ensures Members(st)
  {
  }

  lemma NoLooks(g: Problem, st: State, u: nat)
    requires u in st.score
    ensures Looks(g, st, u, 0)
  {
  }

  /** The second map of scores has what each node promises. */
  ghost predicate Scored(g: Problem, st: State, full: map<nat, real>) {
    full.Keys == st.score.Keys && forall v :: v in st.score ==> full[v] == Full(g, st, v)
  }

  ghost predicate Within(nodes: set<nat>, st: State) {
    && NULL !in nodes
    && (forall v :: v in st.open ==> v in nodes)
    && (forall v :: v in st.closed ==> v in nodes)
    && (forall v :: v in st.score ==> v in nodes)
    && (forall v :: v in st.from ==> v in nodes)
  }

  lemma WithinFacts(nodes: set<nat>, st: State)
    requires Within(nodes, st) && Members(st)
    ensures NULL !in nodes
    ensures forall v :: v in st.open ==> v in nodes && v in st.score && v !in st.closed
    ensures forall v :: v in st.closed ==> v in nodes && v in st.score
    ensures forall v :: v in st.score ==> v in nodes
    ensures forall v :: v in st.from ==> v in nodes
  {
  }

  lemma ScoredSame(g: Problem, was: State, st: State, full: map<nat, real>)
    requires Scored(g, was, full) && st.score == was.score
    ensures Scored(g, st, full)
  {
  }

  lemma FullFacts(g: Problem, st: State, full: map<nat, real>)
    requires Scored(g, st, full)
    ensures full.Keys == st.score.Keys && forall v :: v in full ==> v in st.score
  {
  }

  lemma Improved(g: Problem, nodes: set<nat>, was: State, st: State, u: nat, v: nat, score: real, full: map<nat, real>)
    requires Within(nodes, was) && v in nodes && Scored(g, was, full)
    requires st == was.(open := WithNode(was.open, v), score := was.score[v := score], from := was.from[v := u])
    ensures Within(nodes, st) && Scored(g, st, full[v := score + g.estimate(v)])
  {
  }

  lemma OpenNode(st: State, nodes: set<nat>, v: nat)
    requires Within(nodes, st) && Members(st) && v in st.open
    ensures v in nodes && v != NULL && v in st.score
  {
  }

  lemma NextLowest(full: map<nat, real>, members: seq<nat>, i: nat, place: nat)
    requires i < |members| && members[i] in full && (i > 0 ==> LowestUpTo(full, members, i, place))
    ensures i > 0 ==> place < i && members[place] in full
    ensures i == 0 || full[members[i]] <= full[members[place]] ==> LowestUpTo(full, members, i + 1, i)
    ensures i > 0 && full[members[place]] < full[members[i]] ==> LowestUpTo(full, members, i + 1, place)
  {
  }

  lemma LowestIs(g: Problem, st: State, full: map<nat, real>, members: seq<nat>, place: nat)
    requires members == st.open && Scored(g, st, full) && LowestUpTo(full, members, |members|, place)
    ensures var u := members[place];
            u in st.open && u in st.score && LastLowest(g, st, u)
  {
  }

  /** Among the first i on the list, the last of the lowest is at this place. */
  ghost predicate LowestUpTo(full: map<nat, real>, members: seq<nat>, i: nat, place: nat) {
    && place < i <= |members|
    && (forall k :: 0 <= k < i ==> members[k] in full)
    && (forall k :: 0 <= k < i ==> full[members[place]] <= full[members[k]])
    && forall k :: place < k < i ==> full[members[place]] < full[members[k]]
  }

  lemma Nothing(g: Problem, nodes: set<nat>)
    requires NULL !in nodes
    ensures var st := State([], [], map[], map[]); Scored(g, st, map[]) && Within(nodes, st)
  {
  }

  lemma RoomFor(s: NodeSet, nodes: set<nat>, x: nat)
    requires s.Valid() && (forall v :: v in s.Members() ==> v in nodes) && x in nodes
    ensures x in s.Members() || s.nmembers < |nodes|
  {
    RoomInSet(s.Members(), nodes, x);
  }

  lemma RoomInSet(members: seq<nat>, nodes: set<nat>, x: nat)
    requires Distinct(members) && (forall v :: v in members ==> v in nodes) && x in nodes
    ensures x in members || |members| < |nodes|
  {
    if x !in members {
      var more := members + [x];
      assert Distinct(more);
      DistinctSize(more, nodes);
    }
  }

  lemma RoomInMap<V>(model: map<nat, V>, nodes: set<nat>, x: nat)
    requires (forall v :: v in model ==> v in nodes) && x in nodes
    ensures x in model || |model| < |nodes|
  {
    if x !in model {
      assert model.Keys + {x} <= nodes;
      Smaller(model.Keys + {x}, nodes);
      assert |model.Keys + {x}| == |model.Keys| + 1 && |model| == |model.Keys|;
    }
  }

  lemma {:induction false} Smaller(a: set<nat>, b: set<nat>)
    requires a <= b
    ensures |a| <= |b|
  {
    assert b == a + (b - a);
  }

  /** The elements of p from the last to the first. */
  method Backwards(p: array<nat>, count: nat) returns (path: array<nat>)
    requires count <= p.Length
    ensures fresh(path) && path[..] == Reversed(p[..count])
  {
    path := new nat[count];
    var i := 0;
    while i < count
      invariant 0 <= i <= count
      invariant forall k :: 0 <= k < i ==> path[count - k - 1] == p[k]
    {
      path[count - i - 1] := p[i];
      i := i + 1;
    }
    forall j | 0 <= j < count
      ensures path[j] == Reversed(p[..count])[j]
    {
      ReversedAt(p[..count], count - 1 - j);
      assert path[count - (count - 1 - j) - 1] == p[count - 1 - j];
    }
  }

  lemma NotNullInside(g: Problem, nodes: set<nat>)
    requires Closed(g, nodes)
    ensures NULL !in nodes
  {
  }

  lemma BeforeClosed(g: Problem, st: State, u: nat)
    requires Members(st) && Ordered(g, st) && u in st.open && u in st.score
    ensures Before(g, st.(open := TakenOut(st.open, u), closed := st.closed + [u]), st.closed, u)
  {
    forall w | w in st.closed && w in st.score
      ensures Full(g, st, w) <= Full(g, st, u)
    {
    }
  }

  lemma SoundOrdered(g: Problem, s: nat, st: State)
    requires Sound(g, s, st, st.closed) && Consistent(g)
    ensures Ordered(g, st)
  {
  }

  lemma ClosedFew(nodes: set<nat>, g: Problem, s: nat, st: State)
    requires Within(nodes, st) && Sound(g, s, st, st.closed)
    ensures |st.closed| <= |nodes|
  {
    hide Consistent;
    DistinctSize(st.closed, nodes);
  }

  lemma NothingOpen(g: Problem, goal: nat, st: State)
    requires st.open == []
    ensures Ends(g, goal, st, None)
  {
  }

  lemma NotReached(g: Problem, s: nat, st: State, goal: nat)
    requires Sound(g, s, st, st.closed) && st.open == [] && goal !in st.closed
    ensures forall path :: !Leads(g, path, s, goal)
  {
    hide Sound, Leads;
    forall path | Leads(g, path, s, goal)
      ensures false
    {
      AllClosed(g, s, st, path, goal);
    }
  }

  lemma LowestOfLast(g: Problem, st: State, u: nat)
    requires u in st.score && LastLowest(g, st, u)
    ensures Lowest(g, st, u)
  {
  }

  /** The path to the goal, which promises most of all open nodes. */
  method PathFound(search: Search, start: nat, goal: nat, maxnodes: nat) returns (path: seq<nat>)
    requires search.Valid() && Sound(search.g, start, search.st, search.st.closed) && |search.nodes| <= maxnodes
    requires goal in search.st.open && goal in search.nodes && goal in search.st.score
    requires LastLowest(search.g, search.st, goal)
    ensures Leads(search.g, path, start, goal) && |path| <= maxnodes && Ends(search.g, goal, search.st, Some(path))
    ensures Consistent(search.g) ==> Cheapest(search.g, start, goal, Cost(search.g, path))
  {
    hide *;
    LowestOfLast(search.g, search.st, goal);
    if Consistent(search.g) {
      LowestIsCheapest(search.g, start, search.st, goal);
    }
    var p, count := search.ReconstructPath(start, goal, maxnodes);
    ReversedSize(p[..count]);
    var a := Backwards(p, count);
    path := a[..];
  }

  lemma ReversedSize(s: seq<nat>)
    ensures |Reversed(s)| == |s|
  {
  }

  /** A cheapest path from start to goal, if the estimate is consistent; some path, if there is one, in any case. */
  method FindPath(start: nat, goal: nat, maxnodes: nat, g: Problem, ghost nodes: set<nat>)
    returns (r: Option<seq<nat>>, ghost run: seq<State>)
    requires start in nodes && Closed(g, nodes) && |nodes| <= maxnodes
    ensures r == None <==> forall path :: !Leads(g, path, start, goal)
    ensures r != None ==> Leads(g, r.value, start, goal) && |r.value| <= maxnodes
    ensures r != None && Consistent(g) ==> Cheapest(g, start, goal, Cost(g, r.value))
    ensures Rounds(g, start, goal, run) && Ends(g, goal, run[|run| - 1], r)
  {
    hide Sound, Closed, Consistent, Within, Scored, Rounded, Rounds, Lowest, Ends;
    hide NodeSet.Valid, NodeSet.Members, NodeMap.Valid, Leads, Cheapest;
    hide LastLowest, Cost;
    NotNullInside(g, nodes);
    var search := new Search(g, maxnodes, nodes);
    search.Begin(start);
    SoundFirst(g, start);
    run := [First(start)];
    NoRound(g, start, goal);
    var empty := search.Empty();
    while !empty
      invariant search.Valid() && Sound(g, start, search.st, search.st.closed)
      invariant search.g == g && search.nodes == nodes && fresh(search) && fresh(search.Repr())
      invariant empty <==> search.st.open == []
      invariant goal !in search.st.closed
      invariant run != [] && Rounds(g, start, goal, run) && run[|run| - 1] == search.st
      decreases |nodes| - |search.st.closed|
    {
      ghost var st := search.st;
      SoundMembers(g, start, st, st.closed);
      ClosedFew(nodes, g, start, st);
      var current := search.LowestScore();
      if current == goal {
        var path := PathFound(search, start, goal, maxnodes);
        return Some(path), run;
      }
      OneMoreRound(g, start, goal, run, current);
      LowestOfLast(g, st, current);
      run := run + [Rounded(g, st, current)];
      search.Round(start, current);
      empty := search.Empty();
    }
    NotReached(g, start, search.st, goal);
    NothingOpen(g, goal, search.st);
    return None, run;
  }
}
