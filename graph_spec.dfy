/**
 The value-level vocabulary of the graph container: its adjacency map as a
 Dafny `map` from a source vertex to the ordered list of its outgoing edges,
 and the functions that say what each operation of the container does to that
 map. The class in module `Graphs` is specified by these functions, and the
 lemmas here state what the operations promise about them.
 */
module GraphSpec {

  /** An outgoing edge as its source's list stores it: (destination, weight). */
  type Edge<V, W> = (V, W)

  /** Each source vertex with its outgoing edges, in insertion order; parallel edges allowed. */
  type Adjacency<V, W> = map<V, seq<Edge<V, W>>>

  /** The list of `u` as the map's subscript operator sees it: empty when `u` has no entry. */
  function Outgoing<V, W>(adj: Adjacency<V, W>, u: V): seq<Edge<V, W>>
  {
    if u in adj then adj[u] else []
  }

  /** Some edge of `es` goes to `key`. */
  predicate HasEdgeTo<V(==), W>(es: seq<Edge<V, W>>, key: V)
  {
    exists i :: 0 <= i < |es| && es[i].0 == key
  }

  /** The map after `v` is given an empty list unless it already has one. */
  function WithVertex<V, W>(adj: Adjacency<V, W>, v: V): (r: Adjacency<V, W>)
    ensures r.Keys == adj.Keys + {v}
    ensures r[v] == Outgoing(adj, v)
    ensures forall s :: s in adj ==> r[s] == adj[s]
  {
    if v in adj then adj else adj[v := []]
  }

  /** The map after edge `e` is appended at the end of `u`'s list (created if absent). */
  function WithEdge<V, W>(adj: Adjacency<V, W>, u: V, e: Edge<V, W>): (r: Adjacency<V, W>)
    ensures r.Keys == adj.Keys + {u}
    ensures |r[u]| == |Outgoing(adj, u)| + 1
    ensures r[u][..|Outgoing(adj, u)|] == Outgoing(adj, u) && r[u][|Outgoing(adj, u)|] == e
    ensures forall s :: s in adj && s != u ==> r[s] == adj[s]
  {
    adj[u := Outgoing(adj, u) + [e]]
  }

  /** The edges of `es` whose destination is not `key`, in their original order. */
  function WithoutDest<V(==), W>(es: seq<Edge<V, W>>, key: V): seq<Edge<V, W>>
  {
    if es == [] then []
    else (if es[0].0 == key then [] else [es[0]]) + WithoutDest(es[1..], key)
  }

  /** Every list of the map with the edges going to `key` taken out; no key is added or removed. */
  function StripDest<V(==), W>(adj: Adjacency<V, W>, key: V): (r: Adjacency<V, W>)
    ensures r.Keys == adj.Keys
  {
    map s | s in adj :: WithoutDest(adj[s], key)
  }

  /** The sources other than `key` that have at least one edge to `key`. */
  function InSources<V(==), W>(adj: Adjacency<V, W>, key: V): set<V>
  {
    set s | s in adj && s != key && HasEdgeTo(adj[s], key)
  }

  /** In-degree as the container counts it: one per other source with an edge to `key`. */
  function InDegree<V(==), W>(adj: Adjacency<V, W>, key: V): nat
  {
    |InSources(adj, key)|
  }

  /** Out-degree: the length of `key`'s list, 0 when it has none. */
  function OutDegree<V, W>(adj: Adjacency<V, W>, key: V): nat
  {
    |Outgoing(adj, key)|
  }

  /** `key` has an entry whose list holds an edge back to `key`. */
  predicate SelfLoop<V(==), W>(adj: Adjacency<V, W>, key: V)
  {
    key in adj && HasEdgeTo(adj[key], key)
  }

  /** The map after vertex `key` is erased: its own entry gone, every edge to it stripped. */
  function WithoutNode<V(==), W>(adj: Adjacency<V, W>, key: V): (r: Adjacency<V, W>)
    ensures r.Keys == adj.Keys - {key}
  {
    StripDest(adj - {key}, key)
  }

  /**
   The map after `insert_or_assign_edge` with source `v`, destination `u` and
   weight `w`: the edge is appended when both endpoints are known vertices;
   otherwise only an empty entry for `v` is created, if it had none.
   */
  function WithEdgeIfKnown<V(==), W>(adj: Adjacency<V, W>, vertices: set<V>, v: V, u: V, w: W): (r: Adjacency<V, W>)
    ensures r.Keys == adj.Keys + {v}
    ensures |r[v]| == |Outgoing(adj, v)| + (if v in vertices && u in vertices then 1 else 0)
    ensures forall s :: s in adj && s != v ==> r[s] == adj[s]
  {
    if v in vertices && u in vertices then WithEdge(adj, v, (u, w)) else WithVertex(adj, v)
  }

  // ---------------------------------------------------------------------------
  // Filtering one edge list

  /** Filtering distributes over concatenation, so it keeps the surviving edges in order. */
  lemma {:induction false} WithoutDestAppend<V, W>(a: seq<Edge<V, W>>, b: seq<Edge<V, W>>, key: V)
    ensures WithoutDest(a + b, key) == WithoutDest(a, key) + WithoutDest(b, key)
  {
    if a == [] {
      assert a + b == b;
    } else {
      assert (a + b)[0] == a[0];
      assert (a + b)[1..] == a[1..] + b;
      WithoutDestAppend(a[1..], b, key);
    }
  }

  /** An edge to `key` is dropped entirely; any other edge keeps its multiplicity. */
  lemma {:induction false} WithoutDestCount<V, W>(es: seq<Edge<V, W>>, key: V, e: Edge<V, W>)
    ensures multiset(WithoutDest(es, key))[e] == if e.0 == key then 0 else multiset(es)[e]
  {
    if es != [] {
      WithoutDestCount(es[1..], key, e);
      assert es == [es[0]] + es[1..];
    }
  }

  /** No edge to `key` survives the filter. */
  lemma {:induction false} WithoutDestHasNoEdgeTo<V, W>(es: seq<Edge<V, W>>, key: V)
    ensures !HasEdgeTo(WithoutDest(es, key), key)
  {
    if es != [] {
      WithoutDestHasNoEdgeTo(es[1..], key);
      var head := if es[0].0 == key then [] else [es[0]];
      var r := WithoutDest(es, key);
      assert r == head + WithoutDest(es[1..], key);
      forall i | 0 <= i < |r| ensures r[i].0 != key {
        if i >= |head| {
          assert r[i] == WithoutDest(es[1..], key)[i - |head|];
        }
      }
    }
  }

  /** The filter leaves a list unchanged exactly when the list has no edge to `key`. */
  lemma {:induction false} WithoutDestIdentity<V, W>(es: seq<Edge<V, W>>, key: V)
    ensures WithoutDest(es, key) == es <==> !HasEdgeTo(es, key)
  {
    WithoutDestHasNoEdgeTo(es, key);
    if es != [] {
      WithoutDestIdentity(es[1..], key);
      if !HasEdgeTo(es, key) {
        assert es[0].0 != key;
        assert !HasEdgeTo(es[1..], key) by {
          forall i | 0 <= i < |es[1..]| ensures es[1..][i].0 != key {
            assert es[1..][i] == es[i + 1];
          }
        }
        assert es == [es[0]] + es[1..];
      }
    }
  }

  /** The filtered list is never longer than the original. */
  lemma {:induction false} WithoutDestShorter<V, W>(es: seq<Edge<V, W>>, key: V)
    ensures |WithoutDest(es, key)| <= |es|
    ensures |WithoutDest(es, key)| == |es| <==> !HasEdgeTo(es, key)
  {
    if es != [] {
      WithoutDestShorter(es[1..], key);
      if es[0].0 != key && HasEdgeTo(es[1..], key) {
        var i :| 0 <= i < |es[1..]| && es[1..][i].0 == key;
        assert es[i + 1].0 == key;
      }
      if HasEdgeTo(es, key) && es[0].0 != key {
        var i :| 0 <= i < |es| && es[i].0 == key;
        assert es[1..][i - 1].0 == key;
      }
      if !HasEdgeTo(es, key) {
        assert es[0].0 != key;
        assert !HasEdgeTo(es[1..], key) by {
          forall i | 0 <= i < |es[1..]| ensures es[1..][i].0 != key {
            assert es[1..][i] == es[i + 1];
          }
        }
      }
    }
  }

  // ---------------------------------------------------------------------------
  // Whole-map properties

  /** Adding a vertex twice is the same as adding it once. */
  lemma WithVertexIdempotent<V, W>(adj: Adjacency<V, W>, v: V)
    ensures WithVertex(WithVertex(adj, v), v) == WithVertex(adj, v)
    ensures v in adj ==> WithVertex(adj, v) == adj
  {
  }

  /** After stripping, no list holds an edge to `key`; other edges keep their multiplicities. */
  lemma StripDestRemovesEdgesTo<V, W>(adj: Adjacency<V, W>, key: V)
    ensures forall s :: s in StripDest(adj, key) ==> !HasEdgeTo(StripDest(adj, key)[s], key)
    ensures forall s, e: Edge<V, W> :: s in adj && e.0 != key ==>
      multiset(StripDest(adj, key)[s])[e] == multiset(adj[s])[e]
  {
    forall s | s in adj ensures !HasEdgeTo(StripDest(adj, key)[s], key) {
      WithoutDestHasNoEdgeTo(adj[s], key);
    }
    forall s, e: Edge<V, W> | s in adj && e.0 != key
      ensures multiset(StripDest(adj, key)[s])[e] == multiset(adj[s])[e]
    {
      WithoutDestCount(adj[s], key, e);
    }
  }

  /** After stripping, `key` has in-degree 0 and no self-loop. */
  lemma StripDestIsolates<V, W>(adj: Adjacency<V, W>, key: V)
    ensures InDegree(StripDest(adj, key), key) == 0
    ensures !SelfLoop(StripDest(adj, key), key)
  {
    StripDestRemovesEdgesTo(adj, key);
    assert InSources(StripDest(adj, key), key) == {};
  }

  /**
   Erasing vertex `key`: its entry is gone, no remaining edge goes to it, and
   every other source keeps its other edges, in their order.
   */
  lemma WithoutNodeSpec<V, W>(adj: Adjacency<V, W>, key: V)
    ensures key !in WithoutNode(adj, key)
    ensures forall s :: s in WithoutNode(adj, key) ==> !HasEdgeTo(WithoutNode(adj, key)[s], key)
    ensures forall s :: s in WithoutNode(adj, key) ==>
      (!HasEdgeTo(adj[s], key) ==> WithoutNode(adj, key)[s] == adj[s])
    ensures forall s, e: Edge<V, W> :: s in WithoutNode(adj, key) && e.0 != key ==>
      multiset(WithoutNode(adj, key)[s])[e] == multiset(adj[s])[e]
    ensures InDegree(WithoutNode(adj, key), key) == 0 && OutDegree(WithoutNode(adj, key), key) == 0
  {
    StripDestRemovesEdgesTo(adj - {key}, key);
    StripDestIsolates(adj - {key}, key);
    forall s | s in WithoutNode(adj, key)
      ensures !HasEdgeTo(adj[s], key) ==> WithoutNode(adj, key)[s] == adj[s]
    {
      WithoutDestIdentity(adj[s], key);
    }
  }

  /** Stripping the edges to `key` a second time changes nothing. */
  lemma StripDestIdempotent<V, W>(adj: Adjacency<V, W>, key: V)
    ensures StripDest(StripDest(adj, key), key) == StripDest(adj, key)
  {
    forall s | s in adj ensures WithoutDest(WithoutDest(adj[s], key), key) == WithoutDest(adj[s], key) {
      WithoutDestHasNoEdgeTo(adj[s], key);
      WithoutDestIdentity(WithoutDest(adj[s], key), key);
    }
  }

  /**
   Erasing a vertex that had no entry and no incoming edge, right after its
   entry was added, gives back the original map.
   */
  lemma WithoutNodeUndoesWithVertex<V, W>(adj: Adjacency<V, W>, v: V)
    requires v !in adj
    requires forall s :: s in adj ==> !HasEdgeTo(adj[s], v)
    ensures WithoutNode(WithVertex(adj, v), v) == adj
  {
    assert WithVertex(adj, v) - {v} == adj;
    forall s | s in adj ensures WithoutDest(adj[s], v) == adj[s] {
      WithoutDestIdentity(adj[s], v);
    }
  }

  /** The in-degree counts sources, so it is bounded by the number of other entries. */
  lemma InDegreeBound<V, W>(adj: Adjacency<V, W>, key: V)
    ensures InDegree(adj, key) <= |adj.Keys - {key}|
    ensures InDegree(adj, key) == 0 <==> forall s :: s in adj && s != key ==> !HasEdgeTo(adj[s], key)
  {
    SubsetCardinality(InSources(adj, key), adj.Keys - {key});
    if InDegree(adj, key) != 0 {
      var s :| s in InSources(adj, key);
    }
  }

  /** A subset is no larger than its superset. */
  lemma {:induction false} SubsetCardinality<T>(a: set<T>, b: set<T>)
    requires a <= b
    ensures |a| <= |b|
    decreases b
  {
    if a != {} {
      var x :| x in a;
      SubsetCardinality(a - {x}, b - {x});
    }
  }

  /**
   Appending an edge u -> v raises v's in-degree by one exactly when u is not
   v and had no edge to v before: parallel edges from one source count once,
   and a self-edge is not counted at all.
   */
  lemma InDegreeAfterEdge<V, W>(adj: Adjacency<V, W>, u: V, v: V, w: W)
    ensures InDegree(WithEdge(adj, u, (v, w)), v) ==
      InDegree(adj, v) + (if u == v || HasEdgeTo(Outgoing(adj, u), v) then 0 else 1)
  {
    var r: Adjacency<V, W> := WithEdge(adj, u, (v, w));
    forall s | s in adj && s != u ensures r[s] == adj[s] {}
    if u == v {
      assert InSources(r, v) == InSources(adj, v);
    } else {
      assert r[u][|Outgoing(adj, u)|].0 == v;
      assert HasEdgeTo(r[u], v);
      if HasEdgeTo(Outgoing(adj, u), v) {
        var i :| 0 <= i < |Outgoing(adj, u)| && Outgoing(adj, u)[i].0 == v;
        assert r[u][i] == Outgoing(adj, u)[i];
        assert InSources(r, v) == InSources(adj, v);
      } else {
        assert InSources(r, v) == InSources(adj, v) + {u};
      }
    }
  }

  /** Appending an edge adds one to the out-degree of its source and to no other. */
  lemma OutDegreeAfterEdge<V, W>(adj: Adjacency<V, W>, u: V, e: Edge<V, W>, x: V)
    ensures OutDegree(WithEdge(adj, u, e), x) == OutDegree(adj, x) + (if x == u then 1 else 0)
  {
  }

  /** Inserting the edge v -> v makes `loop(v)` hold. */
  lemma SelfLoopAfterEdge<V, W>(adj: Adjacency<V, W>, v: V, w: W)
    ensures SelfLoop(WithEdge(adj, v, (v, w)), v)
  {
  }
}
