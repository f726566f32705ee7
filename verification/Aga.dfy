/** The state that graph algorithms keep: which run it is, and whether there was an error. */
module Aga {
  import opened AgaWalks

  const AGA_ERR_NONE: int := 0
  const AGA_ERR_NEGATIVE_COST: int := 1

  class Graph {
    const edges: Edges
    var sequence: int
    var error: int

    // The state of Dijkstra's algorithm.
    var pq: seq<Node>

    // The state of the Bellman-Ford algorithm.
    var nodelist: Node?
    var nnodes: int
    var npasses: int

    /** What the run knows of the nodes that it has found. */
    ghost var found: Labels
    ghost var source: Node?
    /** The nodes that Dijkstra's algorithm has returned. */
    ghost var done: set<Node>
    /** The nodes on the Bellman-Ford algorithm's list, the head last. */
    ghost var order: seq<Node>

    /** The nodes of this run are those that carry its number; there is no error unless there is a run. */
    ghost predicate Valid()
      reads this`sequence, this`error, this`found
      reads edges.Keys`sequence, edges.Keys`distance, edges.Keys`prev, edges.Keys`prevedge
    {
      && Closed(edges)
      && (sequence % 2 == 0 ==> error == AGA_ERR_NONE && found == map[])
      && found.Keys <= edges.Keys
      && forall v :: v in edges ==> Tied(v)
    }

    ghost predicate Tied(v: Node)
      reads this`sequence, this`found, v`sequence, v`distance, v`prev, v`prevedge
    {
      && v.sequence <= sequence
      && (sequence % 2 == 1 ==> (v.sequence == sequence <==> v in found))
      && (v in found ==> found[v] == Label(v.distance, v.prev, v.prevedge))
    }

    constructor (edges: Edges)
      requires Closed(edges) && forall v :: v in edges ==> v.sequence == 0
      ensures Valid() && this.edges == edges && sequence == 0 && error == AGA_ERR_NONE
    {
      this.edges := edges;
      sequence, error := 0, AGA_ERR_NONE;
      pq, nodelist, nnodes, npasses := [], null, 0, 0;
      found, source, done, order := map[], null, {}, [];
    }

    lemma LabelIs(node: Node)
      requires Valid() && node in found
      ensures node in edges && found[node] == Label(node.distance, node.prev, node.prevedge)
    {
      assert Tied(node);
    }

    /** Refused while there is a run; else a new run that has found nothing. */
    method AgaStart() returns (rc: int)
      requires Valid()
      modifies this`sequence
      ensures Valid() && (rc == 0 || rc == -1)
      ensures rc == -1 <==> old(sequence) % 2 == 1
      ensures rc == -1 ==> sequence == old(sequence)
      ensures rc == 0 ==> sequence == old(sequence) + 1 && found == map[] && error == AGA_ERR_NONE
    {
      if sequence % 2 == 1 {
        return -1;
      }
      assert error == AGA_ERR_NONE;
      sequence := sequence + 1;
      return 0;
    }

    predicate AgaCheckState()
      reads this`sequence, this`error
    {
      sequence % 2 == 1 && error == AGA_ERR_NONE
    }

    method AgaFail(err: int)
      requires Valid() && sequence % 2 == 1
      modifies this`error
      ensures Valid() && error == err
    {
      error := err;
    }

    /** End of a run: what its nodes carry means nothing any more. */
    method AgaFinish()
      requires Valid() && sequence % 2 == 1
      modifies this`sequence, this`error, this`found
      ensures Valid() && sequence == old(sequence) + 1 && error == AGA_ERR_NONE && found == map[]
    {
      error := AGA_ERR_NONE;
      sequence := sequence + 1;
      found := map[];
    }

    predicate AgaNodeNeedsUpdate(node: Node)
      reads this, node
    {
      node.sequence != sequence
    }

    /** Whether the node is new in this run; from now on it is not. */
    method AgaUpdateNode(node: Node) returns (r: bool)
      requires Valid() && node in edges && sequence % 2 == 1
      modifies this`found, node`sequence
      ensures Valid()
      ensures r <==> node !in old(found)
      ensures found == if r then old(found)[node := Label(node.distance, node.prev, node.prevedge)] else old(found)
    {
      hide Closed;
      if !AgaNodeNeedsUpdate(node) {
        return false;
      }
      node.sequence := sequence;
      found := found[node := Label(node.distance, node.prev, node.prevedge)];
      return true;
    }

    /** The path to a node found in this run. */
    method SetPath(node: Node, distance: int, prev: Node?, prevedge: int)
      requires Valid() && node in found && sequence % 2 == 1
      modifies this`found, node`distance, node`prev, node`prevedge
      ensures Valid() && found == old(found)[node := Label(distance, prev, prevedge)]
    {
      hide Closed;
      node.distance := distance;
      node.prev := prev;
      node.prevedge := prevedge;
      found := found[node := Label(distance, prev, prevedge)];
    }
  }
}
