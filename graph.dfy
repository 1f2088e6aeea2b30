/**
 The graph container: a class holding an adjacency map and a vertex set, with
 one method per member function of the C++ class. The two fields are updated
 independently (adding a vertex to one does not add it to the other), so the
 class keeps no invariant tying them together; every method states its whole
 new state instead, through the functions of module `GraphSpec`.

 Statements of the C++ source that do not compile or have undefined behaviour
 are modelled by what they evidently mean: a search of an edge list for a
 destination, a set lookup used as a membership test, a two-argument
 `push_back` that appends one (destination, weight) pair, a list erase
 written as a map erase, and a map erase through `find` that does nothing
 when the key is absent.
 */
module Graphs {
  import opened GraphSpec
  import opened Persistence

  /**
   Filters one edge list the way the inner loops of `erase_edges_go_to` and
   `erase_node` do: walk the list and drop every edge going to `key`.
   */
  method EraseEdgesTo<V(==), W>(es: seq<Edge<V, W>>, key: V) returns (r: seq<Edge<V, W>>)
    ensures r == WithoutDest(es, key)
  {
    r := [];
    var i := 0;
    while i < |es|
      invariant 0 <= i <= |es|
      invariant r == WithoutDest(es[..i], key)
    {
      assert es[..i + 1] == es[..i] + [es[i]];
      WithoutDestAppend(es[..i], [es[i]], key);
      if es[i].0 != key {
        r := r + [es[i]];
      }
      i := i + 1;
    }
    assert es[..i] == es;
  }

  class Graph<V(==), W> {
    /** Each source vertex with its outgoing (destination, weight) edges, in insertion order. */
    var adj: Adjacency<V, W>
    /** The vertex identifiers the graph knows. */
    var vertices: set<V>

    /** The default constructor: no vertices, no edges. */
    constructor ()
      ensures adj == map[] && vertices == {}
    {
      adj := map[];
      vertices := {};
    }

    /** The copy constructor: both structures copied from `other`, which is left as it was. */
    constructor Copy(other: Graph<V, W>)
      ensures adj == other.adj && vertices == other.vertices
    {
      adj := other.adj;
      vertices := other.vertices;
    }

    /** The move constructor: takes `other`'s structures and leaves `other` empty. */
    constructor Move(other: Graph<V, W>)
      modifies other
      ensures adj == old(other.adj) && vertices == old(other.vertices)
      ensures other.adj == map[] && other.vertices == {}
    {
      adj := other.adj;
      vertices := other.vertices;
      new;
      other.adj := map[];
      other.vertices := {};
    }

    /**
     Copy assignment. Both structures are cleared before `other` is copied, so
     assigning a graph to itself leaves it empty.
     */
    method Assign(other: Graph<V, W>)
      modifies this
      ensures other != this ==> adj == other.adj && vertices == other.vertices
      ensures other == this ==> adj == map[] && vertices == {}
    {
      adj := map[];
      vertices := {};
      adj := other.adj;
      vertices := other.vertices;
    }

    /** Move assignment: unless `other` is this graph, take its structures and empty it. */
    method MoveAssign(other: Graph<V, W>)
      modifies this, other
      ensures adj == old(other.adj) && vertices == old(other.vertices)
      ensures other != this ==> other.adj == map[] && other.vertices == {}
    {
      if this != other {
        adj := other.adj;
        vertices := other.vertices;
        other.adj := map[];
        other.vertices := {};
      }
    }

    /** Exchanges the contents of the two graphs through a temporary copy. */
    method Swap(other: Graph<V, W>)
      modifies this, other
      ensures adj == old(other.adj) && vertices == old(other.vertices)
      ensures other.adj == old(adj) && other.vertices == old(vertices)
    {
      var temp := new Graph.Copy(this);
      Assign(other);
      other.Assign(temp);
    }

    /** `addVertex`: gives `v` an empty list unless it has one; the vertex set is not touched. */
    method AddVertex(v: V)
      modifies this
      ensures adj == WithVertex(old(adj), v) && vertices == old(vertices)
    {
      if v !in adj {
        adj := adj[v := []];
      }
    }

    /** `insert_node`: adds `node` to the vertex set; reports whether it was new. */
    method InsertNode(node: V) returns (inserted: bool)
      modifies this
      ensures inserted == (node !in old(vertices))
      ensures vertices == old(vertices) + {node} && adj == old(adj)
    {
      inserted := node !in vertices;
      vertices := vertices + {node};
    }

    /** `empty`: the vertex set is empty. */
    method Empty() returns (e: bool)
      ensures e <==> vertices == {}
    {
      e := |vertices| == 0;
    }

    /** `size`: the number of vertices. */
    method Size() returns (n: nat)
      ensures n == |vertices|
      ensures n == 0 <==> vertices == {}
    {
      n := |vertices|;
    }

    /** `clear`: empties both structures. */
    method Clear()
      modifies this
      ensures adj == map[] && vertices == {}
    {
      adj := map[];
      vertices := {};
    }

    /** `clear_edges`: drops every adjacency entry; the vertex set is untouched. */
    method ClearEdges()
      modifies this
      ensures adj == map[] && vertices == old(vertices)
    {
      adj := map[];
    }

    /**
     `degree_in`: scans every entry and counts the sources other than `key`
     whose list holds an edge to `key` (a source with several such edges counts
     once). The count is 0 when there are none.
     */
    method DegreeIn(key: V) returns (count: nat)
      ensures count == InDegree(adj, key)
      ensures count <= |adj.Keys - {key}|
      ensures count == 0 <==> forall s :: s in adj && s != key ==> !HasEdgeTo(adj[s], key)
    {
      count := 0;
      var todo := adj.Keys;
      ghost var done: set<V> := {};
      while todo != {}
        invariant todo !! done && todo + done == adj.Keys
        invariant count == |set s | s in done && s != key && HasEdgeTo(adj[s], key)|
        decreases todo
      {
        var s :| s in todo;
        ghost var before := set t | t in done && t != key && HasEdgeTo(adj[t], key);
        ghost var after := set t | t in done + {s} && t != key && HasEdgeTo(adj[t], key);
        if s != key && HasEdgeTo(adj[s], key) {
          assert after == before + {s};
          count := count + 1;
        } else {
          assert after == before;
        }
        todo := todo - {s};
        done := done + {s};
      }
      assert done == adj.Keys;
      InDegreeBound(adj, key);
    }

    /** `degree_out`: the length of `key`'s list, 0 when `key` has no entry. */
    method DegreeOut(key: V) returns (count: nat)
      ensures count == OutDegree(adj, key)
    {
      count := 0;
      if key in adj {
        count := |adj[key]|;
      }
    }

    /** `loop`: some edge of `key`'s list goes back to `key`; false when `key` has no entry. */
    method Loop(key: V) returns (result: bool)
      ensures result == SelfLoop(adj, key)
    {
      result := false;
      if key in adj {
        var es := adj[key];
        var i := 0;
        while i < |es|
          invariant 0 <= i <= |es|
          invariant result <==> exists j :: 0 <= j < i && es[j].0 == key
        {
          if es[i].0 == key {
            result := true;
          }
          i := i + 1;
        }
      }
    }

    /**
     `insert_edge(u, v, w)`: the flag says whether both endpoints are known
     vertices, but the edge (v, w) is appended to `u`'s list (created if
     absent) either way.
     */
    method InsertEdge(u: V, v: V, w: W) returns (found: bool)
      modifies this
      ensures found == (u in vertices && v in vertices)
      ensures adj == WithEdge(old(adj), u, (v, w)) && vertices == old(vertices)
    {
      found := true;
      if v !in vertices || u !in vertices {
        found := false;
      }
      var list := if u in adj then adj[u] else [];
      adj := adj[u := list + [(v, w)]];
    }

    /**
     `insert_or_assign_edge(v, u, w)`, source first: when both endpoints are
     known vertices, (u, w) is appended to `v`'s list; otherwise no edge is
     added, but the lookup of `v`'s list after the check still creates an empty
     entry for `v` when it has none.
     */
    method InsertOrAssignEdge(v: V, u: V, w: W) returns (found: bool)
      modifies this
      ensures found == (v in vertices && u in vertices)
      ensures found ==> adj == WithEdge(old(adj), v, (u, w))
      ensures !found ==> adj == WithVertex(old(adj), v)
      ensures vertices == old(vertices)
    {
      var found1 := v in vertices;
      var found2 := u in vertices;
      if found1 && found2 {
        var list := if v in adj then adj[v] else [];
        adj := adj[v := list + [(u, w)]];
      }
      if v !in adj {
        adj := adj[v := []];
      }
      found := found1 && found2;
    }

    /** `erase_edges_go_from`: removes `key`'s entry, if any; reports whether `key` is a vertex. */
    method EraseEdgesGoFrom(key: V) returns (found: bool)
      modifies this
      ensures found == (key in vertices)
      ensures adj == old(adj) - {key} && vertices == old(vertices)
    {
      found := key in vertices;
      if key in adj {
        adj := adj - {key};
      }
    }

    /** The loop shared by `erase_edges_go_to` and `erase_node`: filters every list in turn. */
    method StripEdgesTo(key: V)
      modifies this
      ensures adj == StripDest(old(adj), key) && vertices == old(vertices)
    {
      var todo := adj.Keys;
      while todo != {}
        invariant todo <= adj.Keys && adj.Keys == old(adj).Keys
        invariant forall s :: s in adj ==>
          adj[s] == if s in todo then old(adj)[s] else WithoutDest(old(adj)[s], key)
        invariant vertices == old(vertices)
        decreases todo
      {
        var s :| s in todo;
        var filtered := EraseEdgesTo(adj[s], key);
        adj := adj[s := filtered];
        todo := todo - {s};
      }
    }

    /**
     `erase_edges_go_to`: removes every edge going to `key` from every list,
     the other edges keeping their order; reports whether `key` is a vertex.
     */
    method EraseEdgesGoTo(key: V) returns (found: bool)
      modifies this
      ensures found == (key in vertices)
      ensures adj == StripDest(old(adj), key) && vertices == old(vertices)
    {
      found := key in vertices;
      StripEdgesTo(key);
    }

    /**
     `erase_node`: removes `key`'s entry, every edge going to `key` and `key`
     itself from the vertex set; reports whether `key` was a vertex.
     */
    method EraseNode(key: V) returns (found: bool)
      modifies this
      ensures found == (key in old(vertices))
      ensures adj == WithoutNode(old(adj), key)
      ensures vertices == old(vertices) - {key}
    {
      found := key in vertices;
      if key in adj {
        adj := adj - {key};
      }
      StripEdgesTo(key);
      vertices := vertices - {key};
    }

    /**
     `save_to_file` without the file: the records written, entry by entry in
     the map's key order `keys`, each list in order.
     */
    method SaveRecords(keys: seq<V>) returns (lines: seq<Record<V, W>>)
      requires EnumeratesKeys(adj, keys)
      ensures lines == Saved(adj, keys)
      ensures |lines| == SumOfLengths(adj, keys)
    {
      lines := [];
      var i := 0;
      while i < |keys|
        invariant 0 <= i <= |keys|
        invariant lines == Saved(adj, keys[..i])
      {
        var src := keys[i];
        var es := adj[src];
        var j := 0;
        while j < |es|
          invariant 0 <= j <= |es|
          invariant lines == Saved(adj, keys[..i]) + Lines(src, es[..j])
        {
          LinesSnoc(src, es[..j], es[j]);
          assert es[..j + 1] == es[..j] + [es[j]];
          lines := lines + [(src, es[j].0, es[j].1)];
          j := j + 1;
        }
        assert es[..j] == es == Outgoing(adj, src);
        SavedSnoc(adj, keys[..i], src);
        assert keys[..i + 1] == keys[..i] + [src];
        i := i + 1;
      }
      assert keys[..i] == keys;
      SavedLength(adj, keys);
    }

    /**
     `load_from_file` without the file: `insert_or_assign_edge` on each record
     in turn. The vertex set never changes, so only records whose endpoints
     are both known vertices add an edge.
     */
    method LoadRecords(records: seq<Record<V, W>>)
      modifies this
      ensures adj == Loaded(old(adj), old(vertices), records) && vertices == old(vertices)
    {
      var i := 0;
      while i < |records|
        invariant 0 <= i <= |records|
        invariant vertices == old(vertices)
        invariant Loaded(adj, vertices, records[i..]) == Loaded(old(adj), old(vertices), records)
      {
        var r := records[i];
        assert records[i..][1..] == records[i + 1..];
        var _ := InsertOrAssignEdge(r.0, r.1, r.2);
        i := i + 1;
      }
    }

    /**
     Loading as the file format intends: both endpoints of each record are
     inserted as vertices first, so every record appends its edge.
     */
    method LoadRecordsCreatingVertices(records: seq<Record<V, W>>)
      modifies this
      ensures (adj, vertices) == LoadedCreating(old(adj), old(vertices), records)
    {
      var i := 0;
      while i < |records|
        invariant 0 <= i <= |records|
        invariant LoadedCreating(adj, vertices, records[i..]) == LoadedCreating(old(adj), old(vertices), records)
      {
        var r := records[i];
        assert records[i..][1..] == records[i + 1..];
        ghost var vs := vertices + {r.0, r.1};
        ghost var next := WithEdgeIfKnown(adj, vs, r.0, r.1, r.2);
        var _ := InsertNode(r.0);
        var _ := InsertNode(r.1);
        assert vertices == vs;
        var _ := InsertOrAssignEdge(r.0, r.1, r.2);
        assert adj == next;
        i := i + 1;
      }
    }
  }
}
