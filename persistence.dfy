/**
 The flat text format of the container, at the level of records: one record
 (source, destination, weight) per edge. Saving writes the records of every
 entry in the order the map enumerates its keys, each list in order; loading
 applies `insert_or_assign_edge` to the records one after another. Opening
 files and formatting or parsing the text are not modelled.
 */
module Persistence {
  import opened GraphSpec

  /** One saved line: (source, destination, weight). */
  type Record<V, W> = (V, V, W)

  /** `keys` lists every key of `adj` exactly once: the map's enumeration order. */
  ghost predicate EnumeratesKeys<V, W>(adj: Adjacency<V, W>, keys: seq<V>)
  {
    && adj.Keys == (set k | k in keys)
    && (forall i, j :: 0 <= i < j < |keys| ==> keys[i] != keys[j])
  }

  /** The lines written for one source: one record per edge, in list order. */
  function Lines<V, W>(src: V, es: seq<Edge<V, W>>): seq<Record<V, W>>
  {
    if es == [] then [] else [(src, es[0].0, es[0].1)] + Lines(src, es[1..])
  }

  /** `save_to_file`'s output as records: the lines of each key of `keys`, in that order. */
  function Saved<V, W>(adj: Adjacency<V, W>, keys: seq<V>): seq<Record<V, W>>
  {
    if keys == [] then [] else Lines(keys[0], Outgoing(adj, keys[0])) + Saved(adj, keys[1..])
  }

  /** `load_from_file` as written: `insert_or_assign_edge` on each record; the vertex set never changes. */
  function Loaded<V(==), W>(adj: Adjacency<V, W>, vertices: set<V>, recs: seq<Record<V, W>>): Adjacency<V, W>
    decreases |recs|
  {
    if recs == [] then adj
    else Loaded(WithEdgeIfKnown(adj, vertices, recs[0].0, recs[0].1, recs[0].2), vertices, recs[1..])
  }

  /**
   Loading as the persistence format intends it: both endpoints of each
   record become vertices before the edge is inserted, so the edge is always
   appended. Yields the new adjacency map and the new vertex set.
   */
  function LoadedCreating<V(==), W>(adj: Adjacency<V, W>, vertices: set<V>, recs: seq<Record<V, W>>)
    : (Adjacency<V, W>, set<V>)
    decreases |recs|
  {
    if recs == [] then (adj, vertices)
    else
      var vs := vertices + {recs[0].0, recs[0].1};
      LoadedCreating(WithEdgeIfKnown(adj, vs, recs[0].0, recs[0].1, recs[0].2), vs, recs[1..])
  }

  /** The entries whose lists are not empty: the only ones the saved file mentions. */
  ghost function NonEmpty<V, W>(adj: Adjacency<V, W>): Adjacency<V, W>
  {
    map s | s in adj && adj[s] != [] :: adj[s]
  }

  /** The destinations of a list. */
  ghost function Dests<V, W>(es: seq<Edge<V, W>>): set<V>
  {
    set i | 0 <= i < |es| :: es[i].0
  }

  /** Every vertex that is the source or the destination of some edge. */
  ghost function Endpoints<V, W>(adj: Adjacency<V, W>): set<V>
  {
    (set s | s in adj && adj[s] != []) + (set s, d | s in adj && d in Dests(adj[s]) :: d)
  }

  // ---------------------------------------------------------------------------
  // Saving

  /** The lines of one source carry that source and exactly the list's edges, in order. */
  lemma {:induction false} LinesSpec<V, W>(src: V, es: seq<Edge<V, W>>)
    ensures |Lines(src, es)| == |es|
    ensures forall i :: 0 <= i < |es| ==> Lines(src, es)[i] == (src, es[i].0, es[i].1)
  {
    if es != [] {
      LinesSpec(src, es[1..]);
      forall i | 0 <= i < |es| ensures Lines(src, es)[i] == (src, es[i].0, es[i].1) {
        if i > 0 {
          assert Lines(src, es)[i] == Lines(src, es[1..])[i - 1];
        }
      }
    }
  }

  /** The saved file has one line per edge: as many lines as the lists have edges together. */
  lemma {:induction false} SavedLength<V, W>(adj: Adjacency<V, W>, keys: seq<V>)
    ensures |Saved(adj, keys)| == SumOfLengths(adj, keys)
  {
    if keys != [] {
      LinesSpec(keys[0], Outgoing(adj, keys[0]));
      SavedLength(adj, keys[1..]);
    }
  }

  /** The number of edges in the lists of `keys`. */
  function SumOfLengths<V, W>(adj: Adjacency<V, W>, keys: seq<V>): nat
  {
    if keys == [] then 0 else OutDegree(adj, keys[0]) + SumOfLengths(adj, keys[1..])
  }

  /** Writing one more edge of a list adds its line at the end. */
  lemma {:induction false} LinesSnoc<V, W>(src: V, es: seq<Edge<V, W>>, e: Edge<V, W>)
    ensures Lines(src, es + [e]) == Lines(src, es) + [(src, e.0, e.1)]
    decreases |es|
  {
    if es == [] {
      assert es + [e] == [e];
    } else {
      assert (es + [e])[1..] == es[1..] + [e];
      LinesSnoc(src, es[1..], e);
    }
  }

  /** Writing the list of one more key adds its lines at the end. */
  lemma {:induction false} SavedSnoc<V, W>(adj: Adjacency<V, W>, keys: seq<V>, k: V)
    ensures Saved(adj, keys + [k]) == Saved(adj, keys) + Lines(k, Outgoing(adj, k))
    decreases |keys|
  {
    if keys == [] {
      assert keys + [k] == [k];
      assert Saved(adj, [k]) == Lines(k, Outgoing(adj, k)) + Saved(adj, []);
    } else {
      assert (keys + [k])[1..] == keys[1..] + [k];
      SavedSnoc(adj, keys[1..], k);
    }
  }

  // ---------------------------------------------------------------------------
  // Loading as written

  /** With no known vertices, every record fails and only creates an empty entry for its source. */
  lemma {:induction false} LoadWithoutVerticesAddsNoEdge<V, W>(
    adj: Adjacency<V, W>, vertices: set<V>, recs: seq<Record<V, W>>)
    requires forall s :: s in adj ==> adj[s] == []
    requires vertices == {}
    ensures forall s :: s in Loaded(adj, vertices, recs) ==> Loaded(adj, vertices, recs)[s] == []
    decreases |recs|
  {
    if recs != [] {
      var next := WithEdgeIfKnown(adj, vertices, recs[0].0, recs[0].1, recs[0].2);
      assert next == WithVertex(adj, recs[0].0);
      LoadWithoutVerticesAddsNoEdge(next, vertices, recs[1..]);
    }
  }

  /**
   Saving a one-edge graph and loading the file into a fresh container gives
   back an empty list for the source, not the edge.
   */
  lemma LoadIntoFreshGraphLosesEdges()
    ensures Saved(map[1 := [(2, 5)]], [1]) == [(1, 2, 5)]
    ensures Loaded(map[], {}, Saved(map[1 := [(2, 5)]], [1])) == map[1 := []]
    ensures Loaded(map[], {}, Saved(map[1 := [(2, 5)]], [1])) != map[1 := [(2, 5)]]
  {
  }

  // ---------------------------------------------------------------------------
  // Loading as intended

  /** Loading a concatenation is loading the first part, then the second. */
  lemma {:induction false} LoadedCreatingAppend<V, W>(
    adj: Adjacency<V, W>, vertices: set<V>, a: seq<Record<V, W>>, b: seq<Record<V, W>>)
    ensures var (adj1, vs1) := LoadedCreating(adj, vertices, a);
      LoadedCreating(adj, vertices, a + b) == LoadedCreating(adj1, vs1, b)
    decreases |a|
  {
    if a == [] {
      assert a + b == b;
    } else {
      assert (a + b)[0] == a[0];
      assert (a + b)[1..] == a[1..] + b;
      var vs := vertices + {a[0].0, a[0].1};
      LoadedCreatingAppend(WithEdgeIfKnown(adj, vs, a[0].0, a[0].1, a[0].2), vs, a[1..], b);
    }
  }

  /** The destinations of a non-empty list: its first destination and those of the rest. */
  lemma DestsCons<V, W>(es: seq<Edge<V, W>>)
    requires es != []
    ensures Dests(es) == {es[0].0} + Dests(es[1..])
  {
  }

  /** Loading the first line of a source's lines appends its first edge. */
  lemma LoadedCreatingLinesStep<V, W>(
    adj: Adjacency<V, W>, vertices: set<V>, src: V, es: seq<Edge<V, W>>)
    requires es != []
    ensures LoadedCreating(adj, vertices, Lines(src, es)) ==
      LoadedCreating(adj[src := Outgoing(adj, src) + [es[0]]], vertices + {src, es[0].0}, Lines(src, es[1..]))
  {
  }

  /** Loading the lines of one non-empty list appends the whole list and adds its endpoints. */
  lemma {:induction false} LoadedCreatingLines<V, W>(
    adj: Adjacency<V, W>, vertices: set<V>, src: V, es: seq<Edge<V, W>>)
    requires es != []
    ensures LoadedCreating(adj, vertices, Lines(src, es)) ==
      (adj[src := Outgoing(adj, src) + es], vertices + {src} + Dests(es))
    decreases |es|
  {
    var vs := vertices + {src, es[0].0};
    var adj1 := adj[src := Outgoing(adj, src) + [es[0]]];
    LoadedCreatingLinesStep(adj, vertices, src, es);
    DestsCons(es);
    if es[1..] == [] {
      assert Lines(src, es[1..]) == [];
      assert es == [es[0]];
      assert Dests(es[1..]) == {};
      assert LoadedCreating(adj1, vs, []) == (adj1, vs);
      assert adj1 == adj[src := Outgoing(adj, src) + es];
      assert vs == vertices + {src} + Dests(es);
    } else {
      LoadedCreatingLines(adj1, vs, src, es[1..]);
      MergeAppend(adj, vertices, src, es);
    }
  }

  /** The bookkeeping of one induction step of `LoadedCreatingLines`. */
  lemma MergeAppend<V, W>(adj: Adjacency<V, W>, vertices: set<V>, src: V, es: seq<Edge<V, W>>)
    requires es != [] && Dests(es) == {es[0].0} + Dests(es[1..])
    ensures var adj1 := adj[src := Outgoing(adj, src) + [es[0]]];
      && adj1[src := Outgoing(adj1, src) + es[1..]] == adj[src := Outgoing(adj, src) + es]
      && vertices + {src, es[0].0} + {src} + Dests(es[1..]) == vertices + {src} + Dests(es)
  {
    var adj1 := adj[src := Outgoing(adj, src) + [es[0]]];
    assert Outgoing(adj1, src) == Outgoing(adj, src) + [es[0]];
    assert es == [es[0]] + es[1..];
    assert Outgoing(adj1, src) + es[1..] == Outgoing(adj, src) + es;
  }

  /** The non-empty entries among `keys`. */
  ghost function NonEmptyOn<V, W>(adj: Adjacency<V, W>, keys: seq<V>): Adjacency<V, W>
  {
    map s | s in keys && s in adj && adj[s] != [] :: adj[s]
  }

  /** The endpoints of the edges of the entries among `keys`. */
  ghost function EndpointsOn<V, W>(adj: Adjacency<V, W>, keys: seq<V>): set<V>
  {
    (set s | s in keys && s in adj && adj[s] != [])
      + (set s, d | s in keys && s in adj && d in Dests(adj[s]) :: d)
  }

  /** Loading the saved lines of distinct keys into a map without those keys adds exactly their entries. */
  lemma {:induction false} LoadSavedKeys<V, W>(
    adj: Adjacency<V, W>, keys: seq<V>, acc: Adjacency<V, W>, vertices: set<V>)
    requires forall i, j :: 0 <= i < j < |keys| ==> keys[i] != keys[j]
    requires forall k :: k in keys ==> k in adj && k !in acc
    ensures LoadedCreating(acc, vertices, Saved(adj, keys)) ==
      (acc + NonEmptyOn(adj, keys), vertices + EndpointsOn(adj, keys))
    decreases |keys|
  {
    if keys == [] {
      assert Saved(adj, keys) == [];
      assert NonEmptyOn(adj, keys) == map[];
      assert acc + NonEmptyOn(adj, keys) == acc;
      assert EndpointsOn(adj, keys) == {};
      assert vertices + EndpointsOn(adj, keys) == vertices;
    } else {
      var k := keys[0];
      var es := adj[k];
      assert Saved(adj, keys) == Lines(k, es) + Saved(adj, keys[1..]);
      LoadedCreatingAppend(acc, vertices, Lines(k, es), Saved(adj, keys[1..]));
      var acc1 := if es == [] then acc else acc[k := es];
      var vs1 := if es == [] then vertices else vertices + {k} + Dests(es);
      if es == [] {
        assert Lines(k, es) == [];
      } else {
        LoadedCreatingLines(acc, vertices, k, es);
        assert Outgoing(acc, k) + es == es;
      }
      assert LoadedCreating(acc, vertices, Lines(k, es)) == (acc1, vs1);
      forall i, j | 0 <= i < j < |keys[1..]| ensures keys[1..][i] != keys[1..][j] {
        assert keys[1..][i] == keys[i + 1] && keys[1..][j] == keys[j + 1];
      }
      forall x | x in keys[1..] ensures x in adj && x !in acc1 && x != k {
        var j :| 0 <= j < |keys[1..]| && keys[1..][j] == x;
        assert keys[j + 1] == x;
      }
      LoadSavedKeys(adj, keys[1..], acc1, vs1);
      NonEmptyOnCons(adj, keys, acc);
      EndpointsOnCons(adj, keys, vertices);
    }
  }

  /** Peeling the first key off `NonEmptyOn`. */
  lemma NonEmptyOnCons<V, W>(adj: Adjacency<V, W>, keys: seq<V>, acc: Adjacency<V, W>)
    requires keys != [] && keys[0] in adj && keys[0] !in keys[1..]
    ensures var acc1 := if adj[keys[0]] == [] then acc else acc[keys[0] := adj[keys[0]]];
      acc1 + NonEmptyOn(adj, keys[1..]) == acc + NonEmptyOn(adj, keys)
  {
  }

  /** Peeling the first key off `EndpointsOn`. */
  lemma EndpointsOnCons<V, W>(adj: Adjacency<V, W>, keys: seq<V>, vertices: set<V>)
    requires keys != [] && keys[0] in adj
    ensures var vs1 := if adj[keys[0]] == [] then vertices else vertices + {keys[0]} + Dests(adj[keys[0]]);
      vs1 + EndpointsOn(adj, keys[1..]) == vertices + EndpointsOn(adj, keys)
  {
  }

  /**
   Round trip of the intended format: saving a graph and loading the file
   into a fresh container gives back every non-empty list, edge for edge and
   in order, and exactly the vertices that are endpoints of some edge.
   */
  lemma SaveLoadRoundTrip<V, W>(adj: Adjacency<V, W>, keys: seq<V>)
    requires EnumeratesKeys(adj, keys)
    ensures LoadedCreating(map[], {}, Saved(adj, keys)) == (NonEmpty(adj), Endpoints(adj))
  {
    LoadSavedKeys(adj, keys, map[], {});
    assert map[] + NonEmptyOn(adj, keys) == NonEmpty(adj);
    assert {} + EndpointsOn(adj, keys) == Endpoints(adj);
  }
}
