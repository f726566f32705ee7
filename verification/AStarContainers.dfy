/** The containers of the A* search: sets and maps of pointers in arrays that are searched from the start. */
module AStarContainers {
  /** Pointers are numbers; unused places hold NULL. */
  const NULL: nat := 0

  /** The elements of s, each once. */
  ghost predicate Distinct(s: seq<nat>) {
    forall i, j :: 0 <= i < j < |s| ==> s[i] != s[j]
  }

  lemma {:induction false} DistinctSize(s: seq<nat>, all: set<nat>)
    requires Distinct(s) && forall i :: 0 <= i < |s| ==> s[i] in all
    ensures |s| <= |all|
    decreases |s|
  {
    if s != [] {
      var last := s[|s| - 1];
      DistinctSize(s[..|s| - 1], all - {last});
    }
  }

  /** The list with x at its end, if it is not on it. */
  function WithNode(s: seq<nat>, x: nat): seq<nat> {
    if x in s then s else s + [x]
  }

  /** The list without x, in whose place the last element comes. */
  ghost function TakenOut(s: seq<nat>, x: nat): seq<nat> {
    if x in s then
      var i :| 0 <= i < |s| && s[i] == x;
      s[i := s[|s| - 1]][..|s| - 1]
    else s
  }

  lemma TakenOutAt(s: seq<nat>, i: nat)
    requires Distinct(s) && i < |s|
    ensures TakenOut(s, s[i]) == s[i := s[|s| - 1]][..|s| - 1]
    ensures Distinct(TakenOut(s, s[i])) && forall y :: y in TakenOut(s, s[i]) <==> y in s && y != s[i]
  {
    assert forall j :: 0 <= j < |s| && s[j] == s[i] ==> i == j;
    Exchanged(s, i, s[i := s[|s| - 1]][..|s| - 1]);
  }

  /** The other elements, each once. */
  lemma TakenOutFacts(s: seq<nat>, x: nat)
    requires Distinct(s)
    ensures Distinct(TakenOut(s, x)) && forall y :: y in TakenOut(s, x) <==> y in s && y != x
  {
    if x in s {
      var i :| 0 <= i < |s| && s[i] == x;
      TakenOutAt(s, i);
    }
  }

  /** A set in an array of fixed size, which is part of the object. */
  class NodeSet {
    var nmembers: nat
    var node: seq<nat>

    ghost predicate Valid()
      reads this
    {
      nmembers <= |node| && Distinct(Members())
    }

    /** The members, in no order that matters. */
    ghost function Members(): seq<nat>
      reads this
    {
      if nmembers <= |node| then node[..nmembers] else []
    }

    constructor (maxmembers: nat)
      ensures Valid() && Members() == [] && |node| == maxmembers
    {
      nmembers := 0;
      node := seq(maxmembers, _ => NULL);
    }

    /** Add a node, if it is not a member; there must be room for it. */
    method Add(x: nat)
      requires Valid() && (x in Members() || nmembers < |node|)
      modifies this
      ensures Valid() && |node| == |old(node)|
      ensures Members() == WithNode(old(Members()), x)
    {
      for i := 0 to nmembers
        invariant forall k :: 0 <= k < i ==> node[k] != x
      {
        if node[i] == x {
          assert Members()[i] == x;
          return;
        }
      }
      assert nmembers < |node|;
      node := node[nmembers := x];
      nmembers := nmembers + 1;
    }

    /** Remove a node, putting the last member in its place. */
    method Remove(x: nat)
      requires Valid()
      modifies this
      ensures Valid() && x !in Members() && |node| == |old(node)|
      ensures forall y :: y in Members() <==> y in old(Members()) && y != x
      ensures Members() == TakenOut(old(Members()), x)
    {
      ghost var was := Members();
      for i := 0 to nmembers
        invariant nmembers == old(nmembers) && node == old(node)
        invariant forall k :: 0 <= k < i ==> node[k] != x
      {
        if node[i] != x {
          continue;
        }
        assert was[i] == x;
        node := node[i := node[nmembers - 1]];
        nmembers := nmembers - 1;
        node := node[nmembers := NULL];
        Exchanged(was, i, Members());
        TakenOutAt(was, i);
        return;
      }
    }

    method Contains(x: nat) returns (r: bool)
      requires Valid()
      ensures r <==> x in Members()
    {
      for i := 0 to nmembers
        invariant forall k :: 0 <= k < i ==> node[k] != x
      {
        if node[i] == x {
          assert Members()[i] == x;
          return true;
        }
      }
      return false;
    }
  }

  /** A list with an element replaced by the last one. */
  lemma Exchanged(was: seq<nat>, i: nat, now: seq<nat>)
    requires Distinct(was) && i < |was| && |now| == |was| - 1
    requires forall k :: 0 <= k < |now| ==> now[k] == was[if k == i then |was| - 1 else k]
    ensures Distinct(now)
    ensures forall y :: y in now <==> y in was && y != was[i]
  {
    forall y | y in was && y != was[i]
      ensures y in now
    {
      var k :| 0 <= k < |was| && was[k] == y;
      assert now[if k == |was| - 1 then i else k] == y;
    }
  }

  /** A map from nodes, as score_map and node_map are, in arrays that are part of the object. */
  class NodeMap<V(0)> {
    var key: seq<nat>
    var value: seq<V>
    ghost var model: map<nat, V>
    ghost var used: nat

    ghost predicate Valid()
      reads this
    {
      && |key| == |value| && used <= |key|
      && (forall i :: 0 <= i < used ==> key[i] != NULL && key[i] in model && model[key[i]] == value[i])
      && (forall i :: used <= i < |key| ==> key[i] == NULL)
      && Distinct(key[..used])
      && (forall k :: k in model ==> k in key[..used])
      && |model| == used
    }

    constructor (nelements: nat, v: V)
      ensures Valid() && model == map[] && |key| == nelements
    {
      key := seq(nelements, _ => NULL);
      value := seq(nelements, _ => v);
      model := map[];
      used := 0;
    }

    /** The place of a node; the length if it has none. */
    method Place(k: nat) returns (i: nat)
      requires Valid() && k != NULL
      ensures i <= |key| && (i < |key| <==> k in model)
      ensures i < |key| ==> i < used && i < |value| && key[i] == k && value[i] == model[k]
    {
      i := 0;
      while i < |key|
        invariant i <= |key| && forall j :: 0 <= j < i ==> key[j] != k
      {
        if key[i] == k {
          return;
        }
        i := i + 1;
      }
    }

    method Get(k: nat) returns (v: V)
      requires Valid() && k != NULL && k in model
      ensures v == model[k]
    {
      var i := Place(k);
      return value[i];
    }

    /** Set the value of a node, taking the first unused place if it has none. */
    method Set(k: nat, v: V)
      requires Valid() && k != NULL && (k in model || |model| < |key|)
      modifies this
      ensures Valid() && model == old(model)[k := v] && |key| == |old(key)|
    {
      var i := Place(k);
      if i < |key| {
        Change(i, k, v);
        return;
      }
      i := 0;
      while key[i] != NULL
        invariant i <= used
        decreases used - i
      {
        i := i + 1;
      }
      Append(i, k, v);
    }

    method Change(i: nat, k: nat, v: V)
      requires Valid() && i < used && key[i] == k
      modifies this`value, this`model
      ensures Valid() && model == old(model)[k := v]
    {
      value := value[i := v];
      model := model[k := v];
      assert forall j :: 0 <= j < used && j != i ==> key[..used][j] != key[..used][i];
    }

    method Append(i: nat, k: nat, v: V)
      requires Valid() && k != NULL && k !in model && i == used < |key|
      modifies this
      ensures Valid() && model == old(model)[k := v] && |key| == |old(key)|
    {
      ghost var keys := key[..used];
      key := key[i := k];
      value := value[i := v];
      model := model[k := v];
      used := used + 1;
      assert key[..used] == keys + [k];
    }
  }
}
