/**
 * A directed graph with positive integer edge weights, stored as a map from
 * every vertex to the map of its out-neighbours and the weights of the edges
 * to them (fazebook/EWDGraph.java).
 *
 * The pure functions below give the meaning of each operation on the
 * adjacency map; the class EWDGraph updates its map in place and is proved
 * against them.
 */
module WeightedGraph {

  /** A Java `int`. */
  type Int32 = x: int | -0x8000_0000 <= x < 0x8000_0000

  /** The adjacency map: vertex -> (neighbour -> weight). */
  type Adjacency<V> = map<V, map<V, Int32>>

  /**
   * The invariant every mutator keeps: each neighbour is itself a vertex,
   * no vertex is its own neighbour, and every weight is positive.
   */
  ghost predicate WellFormed<V>(m: Adjacency<V>)
  {
    forall u, x | u in m && x in m[u] :: x in m && x != u && m[u][x] > 0
  }

  /** The directed edges of the graph, as ordered pairs. */
  ghost function Edges<V>(m: Adjacency<V>): set<(V, V)>
  {
    set u, x | u in m && x in m[u] :: (u, x)
  }

  /** The row of `u`, or the empty row when `u` is not a vertex. */
  function Row<V>(m: Adjacency<V>, u: V): map<V, Int32>
  {
    if u in m then m[u] else map[]
  }

  /** newEWDGraphVertex: a new vertex starts with no neighbours; a present one is left alone. */
  function InsertVertex<V>(m: Adjacency<V>, v: V): (r: Adjacency<V>)
    ensures r.Keys == m.Keys + {v}
    ensures v !in m ==> r[v] == map[]
    ensures forall u | u in m :: r[u] == m[u]
    ensures Edges(r) == Edges(m)
    ensures WellFormed(m) ==> WellFormed(r)
  {
    if v in m then m else m[v := map[]]
  }

  /**
   * newEWDGraphEdge: a non-positive weight or a self-loop is rejected and
   * changes nothing; otherwise both endpoints become vertices and the edge
   * src -> dest gets exactly `w`, overwriting any earlier weight, while
   * every other row entry keeps its weight.
   */
  function PutEdge<V>(m: Adjacency<V>, src: V, dest: V, w: Int32): (r: Adjacency<V>)
    ensures w <= 0 || src == dest ==> r == m
    ensures w > 0 && src != dest ==>
      && r.Keys == m.Keys + {src, dest}
      && r[src].Keys == Row(m, src).Keys + {dest}
      && r[src][dest] == w
    ensures forall u, x | u in m && x in m[u] && (u, x) != (src, dest) :: u in r && x in r[u] && r[u][x] == m[u][x]
    ensures forall u | u in r && u != src :: r[u] == Row(m, u)
  {
    if w <= 0 || src == dest then m
    else
      var withSrc := if src in m then m else m[src := map[]];
      var withBoth := if dest in withSrc then withSrc else withSrc[dest := map[]];
      var row: map<V, Int32> := withBoth[src][dest := w];
      withBoth[src := row]
  }

  /** An accepted edge adds exactly the pair (src, dest) to the edge set. */
  lemma {:induction false} PutEdgeEdges<V>(m: Adjacency<V>, src: V, dest: V, w: Int32)
    requires w > 0 && src != dest
    ensures Edges(PutEdge(m, src, dest, w)) == Edges(m) + {(src, dest)}
  {
    var r := PutEdge(m, src, dest, w);
    forall e | e in Edges(r) ensures e in Edges(m) + {(src, dest)} {
      var (u, x) := e;
      assert u in r && x in r[u];
      if u != src {
        assert r[u] == Row(m, u);
      }
    }
    forall e | e in Edges(m) + {(src, dest)} ensures e in Edges(r) {
      var (u, x) := e;
      if e != (src, dest) {
        assert u in m && x in m[u];
      }
    }
  }

  /** newEWDGraphEdge keeps the graph invariant. */
  lemma {:induction false} PutEdgeWellFormed<V>(m: Adjacency<V>, src: V, dest: V, w: Int32)
    requires WellFormed(m)
    ensures WellFormed(PutEdge(m, src, dest, w))
  {
    var r := PutEdge(m, src, dest, w);
    if w > 0 && src != dest {
      forall u, x | u in r && x in r[u] ensures x in r && x != u && r[u][x] > 0 {
        if (u, x) != (src, dest) {
          assert x in Row(m, u) by {
            if u == src {
              assert r[src].Keys == Row(m, src).Keys + {dest};
            } else {
              assert r[u] == Row(m, u);
            }
          }
          assert u in m && x in m[u];
        }
      }
    }
  }

  /**
   * removeEWDGraphEdge: when both endpoints are vertices and the edge
   * exists, only that edge goes; otherwise nothing changes. Vertices are
   * never removed.
   */
  function DeleteEdge<V>(m: Adjacency<V>, src: V, dest: V): (r: Adjacency<V>)
    ensures src !in m || dest !in m || dest !in m[src] ==> r == m
    ensures r.Keys == m.Keys
    ensures src in m && dest in m ==> Edges(r) == Edges(m) - {(src, dest)}
    ensures forall u, x | u in r && x in r[u] :: x in m[u] && r[u][x] == m[u][x]
    ensures WellFormed(m) ==> WellFormed(r)
  {
    if src !in m || dest !in m || dest !in m[src] then m
    else m[src := m[src] - {dest}]
  }

  /** getNeighborsOfVertex: the out-neighbours, empty for an unknown vertex. */
  function Neighbors<V>(m: Adjacency<V>, v: V): (r: set<V>)
    ensures forall x | x in r :: (v, x) in Edges(m)
    ensures forall e | e in Edges(m) && e.0 == v :: e.1 in r
    ensures v !in m ==> r == {}
  {
    var r := Row(m, v).Keys;
    assert forall x | x in r :: (v, x) in Edges(m);
    assert forall e | e in Edges(m) && e.0 == v :: e.1 in r;
    r
  }

  /**
   * The graph object. Its only state is the adjacency map, which the
   * mutators update in place; the readers return fresh sets.
   */
  class EWDGraph<V(==)> {
    var adjacencyMap: Adjacency<V>

    ghost predicate Valid()
      reads this
    {
      WellFormed(adjacencyMap)
    }

    constructor ()
      ensures Valid()
      ensures adjacencyMap == map[]
    {
      adjacencyMap := map[];
    }

    method NewEWDGraphVertex(v: V) returns (added: bool)
      requires Valid()
      modifies this
      ensures Valid()
      ensures added <==> v !in old(adjacencyMap)
      ensures adjacencyMap == InsertVertex(old(adjacencyMap), v)
    {
      added := true;
      if v !in adjacencyMap {
        adjacencyMap := adjacencyMap[v := map[]];
      } else {
        added := false;
      }
    }

    method IsEWDGraphVertex(v: V) returns (present: bool)
      ensures present <==> v in adjacencyMap
    {
      present := v in adjacencyMap;
    }

    method GetEWDGraphVertices() returns (vertices: set<V>)
      ensures vertices == adjacencyMap.Keys
    {
      vertices := adjacencyMap.Keys;
    }

    method NewEWDGraphEdge(src: V, dest: V, weight: Int32) returns (added: bool)
      requires Valid()
      modifies this
      ensures Valid()
      ensures added <==> weight > 0 && src != dest
      ensures adjacencyMap == PutEdge(old(adjacencyMap), src, dest, weight)
    {
      added := true;
      if weight <= 0 || src == dest {
        added := false;
      } else {
        if src !in adjacencyMap {
          var _ := NewEWDGraphVertex(src);
        }
        if dest !in adjacencyMap {
          var _ := NewEWDGraphVertex(dest);
        }
        var row: map<V, Int32> := adjacencyMap[src][dest := weight];
        adjacencyMap := adjacencyMap[src := row];
        assert adjacencyMap == PutEdge(old(adjacencyMap), src, dest, weight);
        PutEdgeWellFormed(old(adjacencyMap), src, dest, weight);
      }
    }

    method RemoveEWDGraphEdge(src: V, dest: V) returns (removed: bool)
      requires Valid()
      modifies this
      ensures Valid()
      ensures removed <==> src in old(adjacencyMap) && dest in old(adjacencyMap) && (src, dest) in Edges(old(adjacencyMap))
      ensures adjacencyMap == DeleteEdge(old(adjacencyMap), src, dest)
    {
      removed := true;
      if src !in adjacencyMap || dest !in adjacencyMap || dest !in adjacencyMap[src] {
        removed := false;
      } else {
        adjacencyMap := adjacencyMap[src := adjacencyMap[src] - {dest}];
      }
    }

    method GetNeighborsOfVertex(v: V) returns (neighbors: set<V>)
      ensures neighbors == Neighbors(adjacencyMap, v)
      ensures v !in adjacencyMap ==> neighbors == {}
    {
      if v !in adjacencyMap {
        neighbors := {};
        return;
      }
      neighbors := adjacencyMap[v].Keys;
    }
  }
}
