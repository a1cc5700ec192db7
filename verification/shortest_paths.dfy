/**
 * Shortest paths (task_3.py): an adjacency list built from a list of
 * weighted arcs, Dijkstra's algorithm over a binary heap with lazy deletion
 * of stale entries, and the walk back along the parent table.
 *
 * Vertices are integers, so the heap's order on `(distance, vertex)` pairs
 * is the lexicographic order on two integers. Weights are natural numbers
 * and an unreached vertex has distance `Inf`.
 */
module ShortestPaths {
  import opened Wrappers
  import opened Seqs

  /** An input arc `(u, v, w)`. */
  datatype Arc = Arc(from: int, to: int, weight: nat)

  /** An adjacency-list entry `(v, w)`. */
  datatype Edge = Edge(to: int, weight: nat)

  type Graph = map<int, seq<Edge>>

  datatype Dist = Inf | Fin(d: nat)

  /** A heap entry `(distance, vertex)`. */
  datatype Entry = Entry(d: nat, v: int)

  // ---------------------------------------------------------------------------
  // Building the adjacency list
  // ---------------------------------------------------------------------------

  /** Every vertex named by an arc. */
  function Endpoints(arcs: seq<Arc>): set<int>
  {
    if arcs == [] then {}
    else Endpoints(arcs[..|arcs| - 1]) + {arcs[|arcs| - 1].from, arcs[|arcs| - 1].to}
  }

  /**
   * The adjacency list of `x` described arc by arc: an arc leaving `x`
   * contributes its head, and in undirected mode an arc entering `x`
   * contributes its tail right after, both in input order.
   */
  function Incident(arcs: seq<Arc>, x: int, directed: bool): seq<Edge>
  {
    if arcs == [] then []
    else
      var a := arcs[|arcs| - 1];
      Incident(arcs[..|arcs| - 1], x, directed)
        + (if a.from == x then [Edge(a.to, a.weight)] else [])
        + (if !directed && a.to == x then [Edge(a.from, a.weight)] else [])
  }

  /** Appends `e` to the list of `x`, starting from an empty list when `x` is new. */
  function Append(g: Graph, x: int, e: Edge): (r: Graph)
    ensures r.Keys == g.Keys + {x}
    ensures r[x] == (if x in g then g[x] else []) + [e]
    ensures forall y :: y in g && y != x ==> r[y] == g[y]
  {
    g[x := (if x in g then g[x] else []) + [e]]
  }

  /** Gives `x` an empty list when it is new, and leaves the graph alone otherwise. */
  function Ensure(g: Graph, x: int): (r: Graph)
    ensures r.Keys == g.Keys + {x}
    ensures x in g ==> r == g
    ensures x !in g ==> r[x] == []
    ensures forall y :: y in g ==> r[y] == g[y]
  {
    if x in g then g else g[x := []]
  }

  /** The body of the loop of build_graph_from_edges, for the arc `a`. */
  function AddArc(g: Graph, a: Arc, directed: bool): (r: Graph)
    ensures r.Keys == g.Keys + {a.from, a.to}
  {
    var g0 := Append(g, a.from, Edge(a.to, a.weight));
    if directed then Ensure(g0, a.to) else Append(g0, a.to, Edge(a.from, a.weight))
  }

  /** Adding an arc extends the list of `x` by exactly what `Incident` says the arc contributes. */
  lemma AddArcList(g: Graph, a: Arc, directed: bool, x: int)
    requires x in g || x == a.from || x == a.to
    ensures AddArc(g, a, directed)[x] == (if x in g then g[x] else [])
      + (if a.from == x then [Edge(a.to, a.weight)] else [])
      + (if !directed && a.to == x then [Edge(a.from, a.weight)] else [])
  {
  }

  /** build_graph_from_edges: one arc at a time, in input order. */
  function BuildGraph(arcs: seq<Arc>, directed: bool): (g: Graph)
    ensures g.Keys == Endpoints(arcs)
  {
    if arcs == [] then map[]
    else AddArc(BuildGraph(arcs[..|arcs| - 1], directed), arcs[|arcs| - 1], directed)
  }

  /** The adjacency list of every vertex is the one `Incident` describes. */
  lemma {:induction false} BuildGraphLists(arcs: seq<Arc>, directed: bool, x: int)
    requires x in Endpoints(arcs)
    ensures BuildGraph(arcs, directed)[x] == Incident(arcs, x, directed)
    decreases |arcs|
  {
    var init := arcs[..|arcs| - 1];
    AddArcList(BuildGraph(init, directed), arcs[|arcs| - 1], directed, x);
    if x in Endpoints(init) {
      BuildGraphLists(init, directed, x);
    } else {
      IncidentOfUnseen(init, x, directed);
    }
  }

  lemma {:induction false} IncidentOfUnseen(arcs: seq<Arc>, x: int, directed: bool)
    requires x !in Endpoints(arcs)
    ensures Incident(arcs, x, directed) == []
    decreases |arcs|
  {
    if arcs != [] {
      IncidentOfUnseen(arcs[..|arcs| - 1], x, directed);
    }
  }

  /** Every adjacency entry names a vertex, so the lookups `dist[v]` of Dijkstra's algorithm succeed. */
  predicate Closed(g: Graph)
  {
    forall u, e :: u in g && e in g[u] ==> e.to in g
  }

  lemma {:induction false} IncidentEndpoints(arcs: seq<Arc>, x: int, directed: bool, e: Edge)
    requires e in Incident(arcs, x, directed)
    ensures e.to in Endpoints(arcs)
    decreases |arcs|
  {
    var init := arcs[..|arcs| - 1];
    if e in Incident(init, x, directed) {
      IncidentEndpoints(init, x, directed, e);
    }
  }

  lemma BuildGraphClosed(arcs: seq<Arc>, directed: bool)
    ensures Closed(BuildGraph(arcs, directed))
  {
    var g := BuildGraph(arcs, directed);
    forall u, e: Edge | u in g && e in g[u]
      ensures e.to in g
    {
      BuildGraphLists(arcs, directed, u);
      IncidentEndpoints(arcs, u, directed, e);
    }
  }

  /** In directed mode a vertex with no outgoing arc, such as a sink, gets an empty list. */
  lemma {:induction false} DirectedSinkIsEmpty(arcs: seq<Arc>, x: int)
    requires x in Endpoints(arcs)
    ensures BuildGraph(arcs, true)[x] == [] <==> forall k :: 0 <= k < |arcs| ==> arcs[k].from != x
  {
    BuildGraphLists(arcs, true, x);
    IncidentEmpty(arcs, x);
  }

  lemma {:induction false} IncidentEmpty(arcs: seq<Arc>, x: int)
    ensures Incident(arcs, x, true) == [] <==> forall k :: 0 <= k < |arcs| ==> arcs[k].from != x
    decreases |arcs|
  {
    if arcs != [] {
      var init := arcs[..|arcs| - 1];
      IncidentEmpty(init, x);
      assert forall k :: 0 <= k < |init| ==> init[k] == arcs[k];
    }
  }

  // ---------------------------------------------------------------------------
  // Distances
  // ---------------------------------------------------------------------------

  /** `a < d` where `d` may be infinite. */
  predicate Below(a: nat, d: Dist)
  {
    d.Inf? || a < d.d
  }

  /** `d <= a` where `d` may be infinite. */
  predicate AtMost(d: Dist, a: nat)
  {
    d.Fin? && d.d <= a
  }

  /** The order `heapq` keeps on `(distance, vertex)` pairs. */
  predicate EntryLe(a: Entry, b: Entry)
  {
    a.d < b.d || (a.d == b.d && a.v <= b.v)
  }

  /** The position of the entry `heappop` returns: a least one. */
  function MinEntry(heap: seq<Entry>): (i: nat)
    requires heap != []
    ensures i < |heap|
    ensures forall k :: 0 <= k < |heap| ==> EntryLe(heap[i], heap[k])
  {
    if |heap| == 1 then 0
    else
      var j := MinEntry(heap[1..]) + 1;
      if EntryLe(heap[0], heap[j]) then 0 else j
  }

  // ---------------------------------------------------------------------------
  // The loop invariant of Dijkstra's algorithm
  // ---------------------------------------------------------------------------

  /** Every edge leaving `u` is relaxed, if `u` has been reached. */
  ghost predicate Relaxed(g: Graph, dist: map<int, Dist>, u: int)
    requires u in g && dist.Keys == g.Keys && Closed(g)
  {
    dist[u].Fin? ==> forall e :: e in g[u] ==> AtMost(dist[e.to], dist[u].d + e.weight)
  }

  /**
   * A reached vertex other than `skip` either still has its current
   * distance queued, or has all its edges relaxed.
   */
  ghost predicate SettledBut(g: Graph, dist: map<int, Dist>, heap: seq<Entry>, skip: Option<int>)
    requires dist.Keys == g.Keys && Closed(g)
  {
    forall x :: x in g && skip != Some(x) && dist[x].Fin? ==> Entry(dist[x].d, x) in heap || Relaxed(g, dist, x)
  }

  /**
   * Each parent link follows an edge `(v, pw[v])` of the parent, and the
   * parent's distance plus that weight is at most the child's.
   */
  ghost predicate ParentsTight(g: Graph, dist: map<int, Dist>, parent: map<int, Option<int>>, pw: map<int, nat>)
    requires dist.Keys == g.Keys && parent.Keys == g.Keys
  {
    forall v :: v in g && parent[v].Some? ==>
      v in pw && parent[v].value in g && dist[parent[v].value].Fin? && dist[v].Fin? &&
      Edge(v, pw[v]) in g[parent[v].value] && dist[parent[v].value].d + pw[v] <= dist[v].d
  }

  ghost predicate Shape(g: Graph, source: int, dist: map<int, Dist>, parent: map<int, Option<int>>, heap: seq<Entry>)
  {
    Closed(g) && source in g && dist.Keys == g.Keys && parent.Keys == g.Keys &&
    dist[source] == Fin(0) && parent[source] == None &&
    (forall k :: 0 <= k < |heap| ==> heap[k].v in g) &&
    (forall v :: v in g && v != source && dist[v].Fin? ==> parent[v].Some?)
  }

  ghost predicate Invariant(g: Graph, source: int, dist: map<int, Dist>, parent: map<int, Option<int>>,
                            pw: map<int, nat>, heap: seq<Entry>)
  {
    Shape(g, source, dist, parent, heap) &&
    ParentsTight(g, dist, parent, pw) &&
    SettledBut(g, dist, heap, None)
  }

  /** The invariant while the edges of `u`, popped at distance `du`, are scanned: the first `j` are relaxed. */
  ghost predicate Scanning(g: Graph, source: int, dist: map<int, Dist>, parent: map<int, Option<int>>,
                           pw: map<int, nat>, heap: seq<Entry>, u: int, du: nat, j: nat)
  {
    Shape(g, source, dist, parent, heap) &&
    ParentsTight(g, dist, parent, pw) &&
    SettledBut(g, dist, heap, Some(u)) &&
    u in g && dist[u] == Fin(du) && j <= |g[u]| &&
    forall k :: 0 <= k < j ==> AtMost(dist[g[u][k].to], du + g[u][k].weight)
  }

  lemma Start(g: Graph, source: int, dist: map<int, Dist>, parent: map<int, Option<int>>)
    requires Closed(g) && source in g
    requires dist == (map v | v in g :: Inf)[source := Fin(0)]
    requires parent == map v | v in g :: None
    ensures Invariant(g, source, dist, parent, map[], [Entry(0, source)])
  {
  }

  /** Popping an entry that is not the vertex's current distance loses nothing. */
  lemma PopStale(g: Graph, source: int, dist: map<int, Dist>, parent: map<int, Option<int>>,
                 pw: map<int, nat>, heap: seq<Entry>, i: nat)
    requires Invariant(g, source, dist, parent, pw, heap) && i < |heap|
    requires Fin(heap[i].d) != dist[heap[i].v]
    ensures Invariant(g, source, dist, parent, pw, RemoveAt(heap, i))
  {
    var rest := RemoveAt(heap, i);
    forall x | x in g && dist[x].Fin? && Entry(dist[x].d, x) in heap
      ensures Entry(dist[x].d, x) in rest
    {
      var k :| 0 <= k < |heap| && heap[k] == Entry(dist[x].d, x);
      assert k != i;
      assert rest[if k < i then k else k - 1] == heap[k];
    }
  }

  /** Popping a current entry starts the scan of its vertex's edges. */
  lemma PopCurrent(g: Graph, source: int, dist: map<int, Dist>, parent: map<int, Option<int>>,
                   pw: map<int, nat>, heap: seq<Entry>, i: nat)
    requires Invariant(g, source, dist, parent, pw, heap) && i < |heap|
    requires Fin(heap[i].d) == dist[heap[i].v]
    ensures Scanning(g, source, dist, parent, pw, RemoveAt(heap, i), heap[i].v, heap[i].d, 0)
  {
    var rest := RemoveAt(heap, i);
    var u := heap[i].v;
    forall x | x in g && x != u && dist[x].Fin? && Entry(dist[x].d, x) in heap
      ensures Entry(dist[x].d, x) in rest
    {
      var k :| 0 <= k < |heap| && heap[k] == Entry(dist[x].d, x);
      assert k != i;
      assert rest[if k < i then k else k - 1] == heap[k];
    }
  }

  /** An edge that does not improve its head is already relaxed. */
  lemma ScanKeep(g: Graph, source: int, dist: map<int, Dist>, parent: map<int, Option<int>>,
                 pw: map<int, nat>, heap: seq<Entry>, u: int, du: nat, j: nat)
    requires Scanning(g, source, dist, parent, pw, heap, u, du, j) && j < |g[u]|
    requires !Below(du + g[u][j].weight, dist[g[u][j].to])
    ensures Scanning(g, source, dist, parent, pw, heap, u, du, j + 1)
  {
  }

  /** Lowering `v` to `alt` through the `j`-th edge of `u` keeps every part of the invariant. */
  lemma ScanLower(g: Graph, source: int, dist: map<int, Dist>, parent: map<int, Option<int>>,
                  pw: map<int, nat>, heap: seq<Entry>, u: int, du: nat, j: nat)
    requires Scanning(g, source, dist, parent, pw, heap, u, du, j) && j < |g[u]|
    requires Below(du + g[u][j].weight, dist[g[u][j].to])
    ensures var v, alt := g[u][j].to, du + g[u][j].weight;
      Scanning(g, source, dist[v := Fin(alt)], parent[v := Some(u)], pw[v := g[u][j].weight],
               heap + [Entry(alt, v)], u, du, j + 1)
  {
    var e := g[u][j];
    var v, alt := e.to, du + e.weight;
    var dist', parent', pw', heap' := dist[v := Fin(alt)], parent[v := Some(u)], pw[v := e.weight], heap + [Entry(alt, v)];
    assert e in g[u];
    assert v != u && v != source;
    LowerShape(g, source, dist, parent, heap, v, alt, u);
    LowerParents(g, dist, parent, pw, u, e, alt);
    LowerSettled(g, dist, heap, u, v, alt);
    LowerPrefix(g, dist, u, du, j);
  }

  /** Lowering the head of the `j`-th edge of `u` makes it relaxed and keeps the earlier ones relaxed. */
  lemma LowerPrefix(g: Graph, dist: map<int, Dist>, u: int, du: nat, j: nat)
    requires dist.Keys == g.Keys && Closed(g) && u in g && j < |g[u]|
    requires forall k :: 0 <= k < j ==> AtMost(dist[g[u][k].to], du + g[u][k].weight)
    requires Below(du + g[u][j].weight, dist[g[u][j].to])
    ensures var dist' := dist[g[u][j].to := Fin(du + g[u][j].weight)];
      forall k :: 0 <= k < j + 1 ==> AtMost(dist'[g[u][k].to], du + g[u][k].weight)
  {
    var dist' := dist[g[u][j].to := Fin(du + g[u][j].weight)];
    forall k | 0 <= k < j + 1
      ensures AtMost(dist'[g[u][k].to], du + g[u][k].weight)
    {
      if k < j {
        assert AtMost(dist[g[u][k].to], du + g[u][k].weight);
      }
    }
  }

  lemma LowerShape(g: Graph, source: int, dist: map<int, Dist>, parent: map<int, Option<int>>,
                   heap: seq<Entry>, v: int, alt: nat, u: int)
    requires Shape(g, source, dist, parent, heap) && v in g && v != source
    ensures Shape(g, source, dist[v := Fin(alt)], parent[v := Some(u)], heap + [Entry(alt, v)])
  {
  }

  lemma LowerParents(g: Graph, dist: map<int, Dist>, parent: map<int, Option<int>>, pw: map<int, nat>,
                     u: int, e: Edge, alt: nat)
    requires dist.Keys == g.Keys && parent.Keys == g.Keys && Closed(g)
    requires ParentsTight(g, dist, parent, pw)
    requires u in g && e in g[u] && e.to != u && dist[u].Fin? && alt == dist[u].d + e.weight
    requires Below(alt, dist[e.to])
    ensures ParentsTight(g, dist[e.to := Fin(alt)], parent[e.to := Some(u)], pw[e.to := e.weight])
  {
    var v := e.to;
    var dist', parent', pw' := dist[v := Fin(alt)], parent[v := Some(u)], pw[v := e.weight];
    forall y | y in g && parent'[y].Some?
      ensures y in pw' && parent'[y].value in g && dist'[parent'[y].value].Fin? && dist'[y].Fin? &&
        Edge(y, pw'[y]) in g[parent'[y].value] && dist'[parent'[y].value].d + pw'[y] <= dist'[y].d
    {
      if y != v {
        assert parent'[y] == parent[y];
      }
    }
  }

  lemma LowerSettled(g: Graph, dist: map<int, Dist>, heap: seq<Entry>, u: int, v: int, alt: nat)
    requires dist.Keys == g.Keys && Closed(g) && v in g && v != u
    requires SettledBut(g, dist, heap, Some(u)) && Below(alt, dist[v])
    ensures SettledBut(g, dist[v := Fin(alt)], heap + [Entry(alt, v)], Some(u))
  {
    var dist', heap' := dist[v := Fin(alt)], heap + [Entry(alt, v)];
    forall x | x in g && x != u && dist'[x].Fin?
      ensures Entry(dist'[x].d, x) in heap' || Relaxed(g, dist', x)
    {
      if x == v {
        assert heap'[|heap|] == Entry(alt, v);
      } else if Entry(dist[x].d, x) in heap {
        assert Entry(dist'[x].d, x) in heap';
      } else {
        assert Relaxed(g, dist, x);
        forall e | e in g[x]
          ensures AtMost(dist'[e.to], dist'[x].d + e.weight)
        {
          assert AtMost(dist[e.to], dist[x].d + e.weight);
        }
      }
    }
  }

  /** After the last edge of `u`, `u` is relaxed and the outer invariant holds again. */
  lemma ScanDone(g: Graph, source: int, dist: map<int, Dist>, parent: map<int, Option<int>>,
                 pw: map<int, nat>, heap: seq<Entry>, u: int, du: nat)
    requires u in g && Scanning(g, source, dist, parent, pw, heap, u, du, |g[u]|)
    ensures Invariant(g, source, dist, parent, pw, heap)
  {
    forall e | e in g[u]
      ensures AtMost(dist[e.to], du + e.weight)
    {
      var k :| 0 <= k < |g[u]| && g[u][k] == e;
    }
    assert Relaxed(g, dist, u);
  }

  // ---------------------------------------------------------------------------
  // What the tables are known to reach
  // ---------------------------------------------------------------------------

  /** Some walk from the source ends at `v` and has length `d`. */
  ghost predicate Attained(g: Graph, source: int, v: int, d: nat)
  {
    exists steps :: IsWalk(g, source, steps) && From(source, steps, |steps|) == v && Length(steps) == d
  }

  /** Following parent links from `v` stops after finitely many steps. */
  ghost predicate ChainEnds(parent: map<int, Option<int>>, v: int)
  {
    exists n :: Ends(parent, Some(v), n)
  }

  /** Every finite distance is the length of a walk from the source, and every parent chain ends. */
  ghost predicate Reaching(g: Graph, source: int, dist: map<int, Dist>, parent: map<int, Option<int>>)
    requires dist.Keys == g.Keys && parent.Keys == g.Keys
  {
    (forall v :: v in g && dist[v].Fin? ==> Attained(g, source, v, dist[v].d)) &&
    (forall v :: v in g ==> ChainEnds(parent, v))
  }

  lemma ReachStart(g: Graph, source: int, dist: map<int, Dist>, parent: map<int, Option<int>>)
    requires source in g
    requires dist == (map v | v in g :: Inf)[source := Fin(0)]
    requires parent == map v | v in g :: None
    ensures Reaching(g, source, dist, parent)
  {
    var none: seq<Edge> := [];
    assert IsWalk(g, source, none) && From(source, none, 0) == source && Length(none) == 0;
    forall v | v in g
      ensures ChainEnds(parent, v)
    {
      assert Ends(parent, Some(v), 1);
    }
  }

  /** A walk to `u` followed by an edge of `u` is a walk to that edge's head, longer by its weight. */
  lemma WalkExtend(g: Graph, source: int, steps: seq<Edge>, e: Edge)
    requires IsWalk(g, source, steps) && From(source, steps, |steps|) in g && e in g[From(source, steps, |steps|)]
    ensures IsWalk(g, source, steps + [e])
    ensures From(source, steps + [e], |steps| + 1) == e.to
    ensures Length(steps + [e]) == Length(steps) + e.weight
  {
    var s := steps + [e];
    assert s[..|s| - 1] == steps;
    assert s[|s| - 1] == e;
    WalkSnoc(g, source, steps, e);
  }

  lemma WalkSnoc(g: Graph, source: int, steps: seq<Edge>, e: Edge)
    requires IsWalk(g, source, steps) && From(source, steps, |steps|) in g && e in g[From(source, steps, |steps|)]
    ensures IsWalk(g, source, steps + [e])
  {
    var s := steps + [e];
    forall k | 0 <= k < |s|
      ensures From(source, s, k) in g && s[k] in g[From(source, s, k)]
    {
      if k < |steps| {
        assert s[k] == steps[k];
        assert From(source, s, k) == From(source, steps, k);
      } else {
        assert s[k] == e;
        assert From(source, s, k) == From(source, steps, |steps|);
      }
    }
  }

  /**
   * A chain that starts at a distance of at most `d` only meets vertices at
   * distance at most `d`, so it never meets `v`, whose distance is above `d`,
   * and re-linking `v` does not change it.
   */
  lemma {:induction false} ChainAvoids(g: Graph, dist: map<int, Dist>, parent: map<int, Option<int>>, pw: map<int, nat>,
                                       y: int, n: nat, v: int, u: int, d: nat)
    requires dist.Keys == g.Keys && parent.Keys == g.Keys && ParentsTight(g, dist, parent, pw)
    requires y in g && dist[y].Fin? && dist[y].d <= d && v in g && Below(d, dist[v])
    requires Ends(parent, Some(y), n)
    ensures Ends(parent[v := Some(u)], Some(y), n)
    decreases n
  {
    assert y != v;
    if parent[y].Some? {
      ChainAvoids(g, dist, parent, pw, parent[y].value, n - 1, v, u, d);
    }
  }

  /** Linking `v` to `u`, whose chain ends and whose distance is below `v`'s new one, keeps every chain finite. */
  lemma {:induction false} ChainAfterLink(g: Graph, dist: map<int, Dist>, parent: map<int, Option<int>>, pw: map<int, nat>,
                                          x: int, n: nat, v: int, u: int, alt: nat)
    requires dist.Keys == g.Keys && parent.Keys == g.Keys && ParentsTight(g, dist, parent, pw)
    requires u in g && v in g && dist[u].Fin? && dist[u].d <= alt && Below(alt, dist[v])
    requires ChainEnds(parent, u)
    requires Ends(parent, Some(x), n)
    ensures ChainEnds(parent[v := Some(u)], x)
    decreases n
  {
    var parent' := parent[v := Some(u)];
    if x == v {
      var m: nat :| Ends(parent, Some(u), m);
      ChainAvoids(g, dist, parent, pw, u, m, v, u, alt);
      assert Ends(parent', Some(v), m + 1);
    } else if parent[x].None? {
      assert Ends(parent', Some(x), 1);
    } else {
      var z := parent[x].value;
      ChainAfterLink(g, dist, parent, pw, z, n - 1, v, u, alt);
      var m: nat :| Ends(parent', Some(z), m);
      assert Ends(parent', Some(x), m + 1);
    }
  }

  /** Lowering the head of edge `e` of `u` to `du` plus its weight keeps every distance attained and every chain finite. */
  lemma LowerReaching(g: Graph, source: int, dist: map<int, Dist>, parent: map<int, Option<int>>,
                      pw: map<int, nat>, u: int, du: nat, e: Edge)
    requires dist.Keys == g.Keys && parent.Keys == g.Keys && ParentsTight(g, dist, parent, pw)
    requires u in g && dist[u] == Fin(du) && e in g[u] && e.to in g && Below(du + e.weight, dist[e.to])
    requires Reaching(g, source, dist, parent)
    ensures Reaching(g, source, dist[e.to := Fin(du + e.weight)], parent[e.to := Some(u)])
  {
    LowerAttained(g, source, dist, u, du, e);
    var v, alt := e.to, du + e.weight;
    var parent' := parent[v := Some(u)];
    forall x | x in g
      ensures ChainEnds(parent', x)
    {
      var n: nat :| Ends(parent, Some(x), n);
      ChainAfterLink(g, dist, parent, pw, x, n, v, u, alt);
    }
  }

  lemma LowerAttained(g: Graph, source: int, dist: map<int, Dist>, u: int, du: nat, e: Edge)
    requires dist.Keys == g.Keys && u in g && dist[u] == Fin(du) && e in g[u] && e.to in g
    requires forall v :: v in g && dist[v].Fin? ==> Attained(g, source, v, dist[v].d)
    ensures var dist' := dist[e.to := Fin(du + e.weight)];
      forall v :: v in g && dist'[v].Fin? ==> Attained(g, source, v, dist'[v].d)
  {
    var dist' := dist[e.to := Fin(du + e.weight)];
    forall v | v in g && dist'[v].Fin?
      ensures Attained(g, source, v, dist'[v].d)
    {
      if v == e.to {
        var steps :| IsWalk(g, source, steps) && From(source, steps, |steps|) == u && Length(steps) == du;
        WalkExtend(g, source, steps, e);
        assert From(source, steps + [e], |steps + [e]|) == e.to;
      } else {
        assert dist'[v] == dist[v];
      }
    }
  }

  /**
   * The shortest distance from the source to `v`: `Inf` when no walk
   * reaches `v`, otherwise the length of some walk to `v` that no walk to
   * `v` undercuts.
   */
  ghost predicate ShortestDistance(g: Graph, source: int, v: int, dv: Dist)
  {
    (dv.Inf? ==> forall steps :: IsWalk(g, source, steps) ==> From(source, steps, |steps|) != v) &&
    (dv.Fin? ==>
      Attained(g, source, v, dv.d) &&
      forall steps :: IsWalk(g, source, steps) && From(source, steps, |steps|) == v ==> dv.d <= Length(steps))
  }

  /** Relaxed edges and attained distances together make every entry the shortest distance. */
  lemma DistancesAreShortest(g: Graph, source: int, dist: map<int, Dist>)
    requires Closed(g) && source in g && dist.Keys == g.Keys && dist[source] == Fin(0)
    requires AllRelaxed(g, dist)
    requires forall v :: v in g && dist[v].Fin? ==> Attained(g, source, v, dist[v].d)
    ensures forall v :: v in g ==> ShortestDistance(g, source, v, dist[v])
  {
    forall steps | IsWalk(g, source, steps)
      ensures From(source, steps, |steps|) in g && AtMost(dist[From(source, steps, |steps|)], Length(steps))
    {
      NoShorterWalk(g, source, dist, steps);
    }
  }

  // ---------------------------------------------------------------------------
  // Termination
  // ---------------------------------------------------------------------------

  /** Lists the elements of a finite set, in some order. */
  ghost function Enumerate(s: set<int>): (r: seq<int>)
    ensures forall x :: x in s ==> x in r
    decreases |s|
  {
    if s == {} then []
    else
      Inhabited(s);
      var x :| x in s;
      [x] + Enumerate(s - {x})
  }

  lemma Inhabited(s: set<int>)
    ensures s == {} || exists x :: x in s
  {
    if !exists x :: x in s {
      assert s == {};
    }
  }

  /** How many entries of `ks` are unreached. */
  ghost function InfCount(ks: seq<int>, dist: map<int, Dist>): nat
  {
    if ks == [] then 0
    else (if ks[0] !in dist || dist[ks[0]].Inf? then 1 else 0) + InfCount(ks[1..], dist)
  }

  /** The sum of the finite distances of the entries of `ks`. */
  ghost function FinSum(ks: seq<int>, dist: map<int, Dist>): nat
  {
    if ks == [] then 0
    else (if ks[0] in dist && dist[ks[0]].Fin? then dist[ks[0]].d else 0) + FinSum(ks[1..], dist)
  }

  ghost predicate LexLess(c: nat, s: nat, c0: nat, s0: nat)
  {
    c < c0 || (c == c0 && s < s0)
  }

  /** Lowering a distance never adds an unreached vertex, and reaching one removes one. */
  lemma {:induction false} LowerCount(ks: seq<int>, dist: map<int, Dist>, v: int, alt: nat)
    requires v in dist && Below(alt, dist[v])
    ensures InfCount(ks, dist[v := Fin(alt)]) <= InfCount(ks, dist)
    ensures dist[v].Inf? && v in ks ==> InfCount(ks, dist[v := Fin(alt)]) < InfCount(ks, dist)
    ensures dist[v].Fin? ==> InfCount(ks, dist[v := Fin(alt)]) == InfCount(ks, dist)
  {
    if ks != [] {
      LowerCount(ks[1..], dist, v, alt);
      assert v in ks ==> ks[0] == v || v in ks[1..];
    }
  }

  /** Lowering a finite distance lowers the sum. */
  lemma {:induction false} LowerSum(ks: seq<int>, dist: map<int, Dist>, v: int, alt: nat)
    requires v in dist && dist[v].Fin? && alt < dist[v].d
    ensures FinSum(ks, dist[v := Fin(alt)]) <= FinSum(ks, dist)
    ensures v in ks ==> FinSum(ks, dist[v := Fin(alt)]) < FinSum(ks, dist)
  {
    if ks != [] {
      LowerSum(ks[1..], dist, v, alt);
      assert v in ks ==> ks[0] == v || v in ks[1..];
    }
  }

  lemma LowerMeasure(ks: seq<int>, dist: map<int, Dist>, v: int, alt: nat)
    requires v in dist && v in ks && Below(alt, dist[v])
    ensures LexLess(InfCount(ks, dist[v := Fin(alt)]), FinSum(ks, dist[v := Fin(alt)]),
                    InfCount(ks, dist), FinSum(ks, dist))
  {
    LowerCount(ks, dist, v, alt);
    if dist[v].Fin? {
      LowerSum(ks, dist, v, alt);
    }
  }

  // ---------------------------------------------------------------------------
  // The algorithm
  // ---------------------------------------------------------------------------

  /**
   * Between two states, a distance has only been lowered, and a vertex
   * whose distance changed took `u` as its parent while every other parent
   * stayed put.
   */
  ghost predicate Lowered(g: Graph, dist0: map<int, Dist>, parent0: map<int, Option<int>>,
                          dist: map<int, Dist>, parent: map<int, Option<int>>, u: int)
  {
    dist0.Keys == g.Keys && parent0.Keys == g.Keys && dist.Keys == g.Keys && parent.Keys == g.Keys &&
    forall x :: x in g ==>
      if dist[x] == dist0[x] then parent[x] == parent0[x]
      else dist[x].Fin? && Below(dist[x].d, dist0[x]) && parent[x] == Some(u)
  }

  /** One more lowering keeps `Lowered` and moves the measure strictly below where the scan started. */
  lemma LowerProgress(g: Graph, ks: seq<int>, dist0: map<int, Dist>, parent0: map<int, Option<int>>, heap0: seq<Entry>,
                      dist: map<int, Dist>, parent: map<int, Option<int>>, heap: seq<Entry>, u: int, v: int, alt: nat)
    requires Lowered(g, dist0, parent0, dist, parent, u)
    requires v in g && (forall x :: x in g ==> x in ks) && Below(alt, dist[v])
    requires LexLess(InfCount(ks, dist), FinSum(ks, dist), InfCount(ks, dist0), FinSum(ks, dist0)) ||
      (dist == dist0 && heap == heap0)
    ensures Lowered(g, dist0, parent0, dist[v := Fin(alt)], parent[v := Some(u)], u)
    ensures LexLess(InfCount(ks, dist[v := Fin(alt)]), FinSum(ks, dist[v := Fin(alt)]),
                    InfCount(ks, dist0), FinSum(ks, dist0))
  {
    LowerMeasure(ks, dist, v, alt);
    assert Below(alt, dist0[v]);
  }

  /** What the scan of `u`'s edges keeps after its first `j` edges, relative to the tables it started from. */
  ghost predicate ScanProgress(g: Graph, source: int, ks: seq<int>, dist0: map<int, Dist>, parent0: map<int, Option<int>>,
                               heap0: seq<Entry>, dist: map<int, Dist>, parent: map<int, Option<int>>,
                               pw: map<int, nat>, heap: seq<Entry>, u: int, du: nat, j: nat)
  {
    Scanning(g, source, dist, parent, pw, heap, u, du, j) &&
    (LexLess(InfCount(ks, dist), FinSum(ks, dist), InfCount(ks, dist0), FinSum(ks, dist0)) ||
     (dist == dist0 && heap == heap0)) &&
    Lowered(g, dist0, parent0, dist, parent, u) &&
    Reaching(g, source, dist, parent)
  }

  lemma ScanStepLower(g: Graph, source: int, ks: seq<int>, dist0: map<int, Dist>, parent0: map<int, Option<int>>,
                      heap0: seq<Entry>, dist: map<int, Dist>, parent: map<int, Option<int>>,
                      pw: map<int, nat>, heap: seq<Entry>, u: int, du: nat, j: nat)
    requires ScanProgress(g, source, ks, dist0, parent0, heap0, dist, parent, pw, heap, u, du, j) && j < |g[u]|
    requires forall x :: x in g ==> x in ks
    requires Below(du + g[u][j].weight, dist[g[u][j].to])
    ensures var v, alt := g[u][j].to, du + g[u][j].weight;
      ScanProgress(g, source, ks, dist0, parent0, heap0, dist[v := Fin(alt)], parent[v := Some(u)],
                   pw[v := g[u][j].weight], heap + [Entry(alt, v)], u, du, j + 1)
  {
    ScanLower(g, source, dist, parent, pw, heap, u, du, j);
    LowerReaching(g, source, dist, parent, pw, u, du, g[u][j]);
    LowerProgress(g, ks, dist0, parent0, heap0, dist, parent, heap, u, g[u][j].to, du + g[u][j].weight);
  }

  lemma ScanStepKeep(g: Graph, source: int, ks: seq<int>, dist0: map<int, Dist>, parent0: map<int, Option<int>>,
                     heap0: seq<Entry>, dist: map<int, Dist>, parent: map<int, Option<int>>,
                     pw: map<int, nat>, heap: seq<Entry>, u: int, du: nat, j: nat)
    requires ScanProgress(g, source, ks, dist0, parent0, heap0, dist, parent, pw, heap, u, du, j) && j < |g[u]|
    requires !Below(du + g[u][j].weight, dist[g[u][j].to])
    ensures ScanProgress(g, source, ks, dist0, parent0, heap0, dist, parent, pw, heap, u, du, j + 1)
  {
    ScanKeep(g, source, dist, parent, pw, heap, u, du, j);
  }

  /**
   * The inner loop of dijkstra_heap: relaxes the edges of `u`, popped at its
   * current distance `du`, pushing every improved vertex.
   */
  method ScanEdges(g: Graph, source: int, dist0: map<int, Dist>, parent0: map<int, Option<int>>,
                   ghost pw0: map<int, nat>, heap0: seq<Entry>, u: int, du: nat, ghost ks: seq<int>)
    returns (dist: map<int, Dist>, parent: map<int, Option<int>>, ghost pw: map<int, nat>, heap: seq<Entry>)
    requires Scanning(g, source, dist0, parent0, pw0, heap0, u, du, 0)
    requires forall x :: x in g ==> x in ks
    requires Reaching(g, source, dist0, parent0)
    ensures Invariant(g, source, dist, parent, pw, heap)
    ensures Reaching(g, source, dist, parent)
    ensures LexLess(InfCount(ks, dist), FinSum(ks, dist), InfCount(ks, dist0), FinSum(ks, dist0)) ||
      (dist == dist0 && heap == heap0)
    ensures Lowered(g, dist0, parent0, dist, parent, u)
  {
    dist, parent, pw, heap := dist0, parent0, pw0, heap0;
    var j := 0;
    while j < |g[u]|
      invariant ScanProgress(g, source, ks, dist0, parent0, heap0, dist, parent, pw, heap, u, du, j)
    {
      var e := g[u][j];
      var alt := du + e.weight;
      if Below(alt, dist[e.to]) {
        ScanStepLower(g, source, ks, dist0, parent0, heap0, dist, parent, pw, heap, u, du, j);
        dist, parent, pw, heap := dist[e.to := Fin(alt)], parent[e.to := Some(u)], pw[e.to := e.weight], heap + [Entry(alt, e.to)];
      } else {
        ScanStepKeep(g, source, ks, dist0, parent0, heap0, dist, parent, pw, heap, u, du, j);
      }
      j := j + 1;
    }
    ScanDone(g, source, dist, parent, pw, heap, u, du);
  }

  /** Every edge leaving a reached vertex is relaxed. */
  ghost predicate AllRelaxed(g: Graph, dist: map<int, Dist>)
    requires dist.Keys == g.Keys && Closed(g)
  {
    forall u, e :: u in g && e in g[u] && dist[u].Fin? ==> AtMost(dist[e.to], dist[u].d + e.weight)
  }

  /** Every parent link is an edge whose weight is exactly the difference of the two distances. */
  ghost predicate TightParents(g: Graph, dist: map<int, Dist>, parent: map<int, Option<int>>)
    requires dist.Keys == g.Keys && parent.Keys == g.Keys
  {
    forall v :: v in g && parent[v].Some? ==>
      var u := parent[v].value;
      u in g && dist[u].Fin? && dist[v].Fin? && dist[u].d <= dist[v].d && Edge(v, dist[v].d - dist[u].d) in g[u]
  }

  /** Every reached vertex other than the source has a parent. */
  ghost predicate ReachedHaveParents(g: Graph, source: int, dist: map<int, Dist>, parent: map<int, Option<int>>)
    requires dist.Keys == g.Keys && parent.Keys == g.Keys
  {
    forall v :: v in g && v != source && dist[v].Fin? ==> parent[v].Some?
  }

  /**
   * One iteration of the main loop of dijkstra_heap: pops a least entry,
   * skips it when it is stale and otherwise scans the popped vertex's edges.
   */
  method Step(g: Graph, source: int, dist0: map<int, Dist>, parent0: map<int, Option<int>>,
              ghost pw0: map<int, nat>, heap0: seq<Entry>, ghost ks: seq<int>)
    returns (dist: map<int, Dist>, parent: map<int, Option<int>>, ghost pw: map<int, nat>, heap: seq<Entry>)
    requires Invariant(g, source, dist0, parent0, pw0, heap0) && heap0 != []
    requires forall x :: x in g ==> x in ks
    requires Reaching(g, source, dist0, parent0)
    ensures Invariant(g, source, dist, parent, pw, heap)
    ensures Reaching(g, source, dist, parent)
    ensures LexLess(InfCount(ks, dist), FinSum(ks, dist), InfCount(ks, dist0), FinSum(ks, dist0)) ||
      (dist == dist0 && |heap| < |heap0|)
    ensures var top := heap0[MinEntry(heap0)];
      if Fin(top.d) != dist0[top.v] then dist == dist0 && parent == parent0
      else Lowered(g, dist0, parent0, dist, parent, top.v)
  {
    var i := MinEntry(heap0);
    var top := heap0[i];
    if Fin(top.d) != dist0[top.v] {
      PopStale(g, source, dist0, parent0, pw0, heap0, i);
      dist, parent, pw, heap := dist0, parent0, pw0, RemoveAt(heap0, i);
    } else {
      PopCurrent(g, source, dist0, parent0, pw0, heap0, i);
      dist, parent, pw, heap := ScanEdges(g, source, dist0, parent0, pw0, RemoveAt(heap0, i), top.v, top.d, ks);
    }
  }

  /**
   * dijkstra_heap. On return every entry of `dist` is the shortest distance
   * from the source, every parent link is an edge whose weight is exactly
   * the difference of the two distances, every reached vertex other than
   * the source has a parent, and following parents from any vertex stops.
   */
  method Dijkstra(g: Graph, source: int) returns (dist: map<int, Dist>, parent: map<int, Option<int>>)
    requires Closed(g) && source in g
    ensures dist.Keys == g.Keys && parent.Keys == g.Keys
    ensures dist[source] == Fin(0) && parent[source] == None
    ensures forall v :: v in g ==> ShortestDistance(g, source, v, dist[v])
    ensures AllRelaxed(g, dist)
    ensures TightParents(g, dist, parent)
    ensures ReachedHaveParents(g, source, dist, parent)
    ensures forall v :: v in g ==> ChainEnds(parent, v)
  {
    dist := (map v | v in g :: Inf)[source := Fin(0)];
    parent := map v | v in g :: None;
    var heap := [Entry(0, source)];
    ghost var pw: map<int, nat> := map[];
    ghost var ks := Enumerate(g.Keys);
    Start(g, source, dist, parent);
    ReachStart(g, source, dist, parent);
    while heap != []
      invariant Invariant(g, source, dist, parent, pw, heap)
      invariant Reaching(g, source, dist, parent)
      decreases InfCount(ks, dist), FinSum(ks, dist), |heap|
    {
      dist, parent, pw, heap := Step(g, source, dist, parent, pw, heap, ks);
    }
    Finish(g, source, dist, parent, pw);
    DistancesAreShortest(g, source, dist);
  }

  lemma Finish(g: Graph, source: int, dist: map<int, Dist>, parent: map<int, Option<int>>, pw: map<int, nat>)
    requires Invariant(g, source, dist, parent, pw, [])
    ensures AllRelaxed(g, dist)
    ensures TightParents(g, dist, parent)
  {
    forall u, e: Edge | u in g && e in g[u] && dist[u].Fin?
      ensures AtMost(dist[e.to], dist[u].d + e.weight)
    {
      assert Relaxed(g, dist, u);
    }
    forall v | v in g && parent[v].Some?
      ensures var u := parent[v].value;
        u in g && dist[u].Fin? && dist[v].Fin? && dist[u].d <= dist[v].d && Edge(v, dist[v].d - dist[u].d) in g[u]
    {
      var u := parent[v].value;
      assert Edge(v, pw[v]) in g[u];
      assert AtMost(dist[v], dist[u].d + pw[v]);
    }
  }

  // ---------------------------------------------------------------------------
  // Paths
  // ---------------------------------------------------------------------------

  /** Following parent links from `cur` reaches `None` within `n` steps, every vertex met being a key. */
  predicate Ends(parent: map<int, Option<int>>, cur: Option<int>, n: nat)
    decreases n
  {
    cur.None? || (n > 0 && cur.value in parent && Ends(parent, parent[cur.value], n - 1))
  }

  /**
   * reconstruct_path: collects `target`, its parent, its grandparent and so
   * on until a vertex without parent, then reverses the list. The source
   * loops forever on a cyclic parent table and fails on a missing key, so
   * the chain from `target` is required to end, as it does for every vertex
   * of the table `Dijkstra` returns.
   */
  method ReconstructPath(parent: map<int, Option<int>>, target: int) returns (path: seq<int>)
    requires ChainEnds(parent, target)
    ensures |path| >= 1 && path[|path| - 1] == target
    ensures forall k :: 0 <= k < |path| ==> path[k] in parent
    ensures parent[path[0]] == None
    ensures forall k :: 0 <= k < |path| - 1 ==> parent[path[k + 1]] == Some(path[k])
  {
    var back: seq<int> := [];
    var cur := Some(target);
    ghost var fuel :| Ends(parent, cur, fuel);
    while cur.Some?
      invariant Ends(parent, cur, fuel)
      invariant back == [] ==> cur == Some(target)
      invariant forall k :: 0 <= k < |back| ==> back[k] in parent
      invariant back != [] ==> back[0] == target && cur == parent[back[|back| - 1]]
      invariant forall k :: 0 <= k < |back| - 1 ==> parent[back[k]] == Some(back[k + 1])
      decreases fuel
    {
      back := back + [cur.value];
      cur := parent[cur.value];
      fuel := fuel - 1;
    }
    path := Reverse(back);
  }

  /** The vertex the `k`-th edge of a walk from `start` leaves. */
  function From(start: int, steps: seq<Edge>, k: nat): int
    requires k <= |steps|
  {
    if k == 0 then start else steps[k - 1].to
  }

  /** `steps` is a walk leaving `start`: each edge leaves the head of the one before. */
  ghost predicate IsWalk(g: Graph, start: int, steps: seq<Edge>)
  {
    start in g &&
    forall k :: 0 <= k < |steps| ==> From(start, steps, k) in g && steps[k] in g[From(start, steps, k)]
  }

  function Length(steps: seq<Edge>): nat
  {
    if steps == [] then 0 else Length(steps[..|steps| - 1]) + steps[|steps| - 1].weight
  }

  /** With every edge relaxed, no walk from the source ends below the distance of its last vertex. */
  lemma {:induction false} NoShorterWalk(g: Graph, source: int, dist: map<int, Dist>, steps: seq<Edge>)
    requires Closed(g) && source in g && dist.Keys == g.Keys && dist[source] == Fin(0)
    requires AllRelaxed(g, dist)
    requires IsWalk(g, source, steps)
    ensures From(source, steps, |steps|) in g && AtMost(dist[From(source, steps, |steps|)], Length(steps))
    decreases |steps|
  {
    if steps != [] {
      var n := |steps|;
      var init := steps[..n - 1];
      forall k | 0 <= k < |init|
        ensures From(source, init, k) in g && init[k] in g[From(source, init, k)]
      {
        assert From(source, init, k) == From(source, steps, k);
      }
      NoShorterWalk(g, source, dist, init);
      assert From(source, init, n - 1) == From(source, steps, n - 1);
    }
  }

  /**
   * The walk a parent path stands for: each vertex is reached from the one
   * before by the edge whose weight is the difference of their distances.
   */
  function PathSteps(dist: map<int, Dist>, path: seq<int>): (steps: seq<Edge>)
    requires |path| >= 1 && forall k :: 0 <= k < |path| ==> path[k] in dist && dist[path[k]].Fin?
    ensures |steps| == |path| - 1
    ensures forall k :: 0 <= k < |steps| ==> steps[k].to == path[k + 1]
  {
    seq(|path| - 1, k requires 0 <= k < |path| - 1 =>
      Edge(path[k + 1], if dist[path[k + 1]].d >= dist[path[k]].d then dist[path[k + 1]].d - dist[path[k]].d else 0))
  }

  /** A parent path to a reached vertex meets only reached vertices, and starts at the source. */
  lemma ParentPathReached(g: Graph, source: int, dist: map<int, Dist>, parent: map<int, Option<int>>, path: seq<int>)
    requires dist.Keys == g.Keys && parent.Keys == g.Keys
    requires TightParents(g, dist, parent) && ReachedHaveParents(g, source, dist, parent)
    requires |path| >= 1 && forall k :: 0 <= k < |path| ==> path[k] in parent
    requires parent[path[0]] == None
    requires forall k :: 0 <= k < |path| - 1 ==> parent[path[k + 1]] == Some(path[k])
    requires dist[path[|path| - 1]].Fin?
    ensures forall k :: 0 <= k < |path| ==> dist[path[k]].Fin?
    ensures path[0] == source
  {
    var n := |path|;
    var j := n - 1;
    while j > 0
      invariant 0 <= j < n
      invariant forall k :: j <= k < n ==> dist[path[k]].Fin?
    {
      var v := path[j];
      assert v in g && parent[v] == Some(path[j - 1]);
      j := j - 1;
    }
  }

  /** Each step of a parent path from the source is a parent link, hence an edge of the graph. */
  lemma PathStepsWalk(g: Graph, source: int, dist: map<int, Dist>, parent: map<int, Option<int>>, path: seq<int>)
    requires dist.Keys == g.Keys && parent.Keys == g.Keys && source in g
    requires TightParents(g, dist, parent)
    requires |path| >= 1 && path[0] == source
    requires forall k :: 0 <= k < |path| ==> path[k] in parent && dist[path[k]].Fin?
    requires forall k :: 0 <= k < |path| - 1 ==> parent[path[k + 1]] == Some(path[k])
    ensures IsWalk(g, source, PathSteps(dist, path))
  {
    var steps := PathSteps(dist, path);
    forall k | 0 <= k < |steps|
      ensures From(source, steps, k) in g && steps[k] in g[From(source, steps, k)]
    {
      assert From(source, steps, k) == path[k];
      var v := path[k + 1];
      assert v in g && parent[v] == Some(path[k]);
    }
  }

  /** The length of a parent path telescopes to the difference of its end distances. */
  lemma {:induction false} PathStepsLength(dist: map<int, Dist>, path: seq<int>)
    requires |path| >= 1 && forall k :: 0 <= k < |path| ==> path[k] in dist && dist[path[k]].Fin?
    requires forall k :: 0 <= k < |path| - 1 ==> dist[path[k]].d <= dist[path[k + 1]].d
    ensures Length(PathSteps(dist, path)) == dist[path[|path| - 1]].d - dist[path[0]].d
    decreases |path|
  {
    var n := |path|;
    if n > 1 {
      var init := path[..n - 1];
      assert forall k :: 0 <= k < |init| ==> init[k] == path[k];
      PathStepsLength(dist, init);
      PathStepsPrefix(dist, path);
      var steps := PathSteps(dist, path);
      assert Length(steps) == Length(steps[..n - 2]) + steps[n - 2].weight;
    }
  }

  /** Dropping the last vertex of a parent path drops the last step of its walk. */
  lemma PathStepsPrefix(dist: map<int, Dist>, path: seq<int>)
    requires |path| >= 2 && forall k :: 0 <= k < |path| ==> path[k] in dist && dist[path[k]].Fin?
    ensures PathSteps(dist, path[..|path| - 1]) == PathSteps(dist, path)[..|path| - 2]
  {
    var a, b := PathSteps(dist, path[..|path| - 1]), PathSteps(dist, path)[..|path| - 2];
    assert |a| == |b|;
    forall k | 0 <= k < |a|
      ensures a[k] == b[k]
    {
    }
  }

  /**
   * The path reconstructed to a reached target starts at the source, follows
   * edges of the graph, and is exactly as long as the target's distance: with
   * `NoShorterWalk`, a shortest path.
   */
  lemma ParentPathIsShortest(g: Graph, source: int, dist: map<int, Dist>,
                             parent: map<int, Option<int>>, path: seq<int>)
    requires source in g && dist.Keys == g.Keys && parent.Keys == g.Keys && dist[source] == Fin(0)
    requires TightParents(g, dist, parent) && ReachedHaveParents(g, source, dist, parent)
    requires |path| >= 1 && forall k :: 0 <= k < |path| ==> path[k] in parent
    requires parent[path[0]] == None
    requires forall k :: 0 <= k < |path| - 1 ==> parent[path[k + 1]] == Some(path[k])
    requires dist[path[|path| - 1]].Fin?
    ensures path[0] == source
    ensures forall k :: 0 <= k < |path| ==> dist[path[k]].Fin?
    ensures IsWalk(g, source, PathSteps(dist, path))
    ensures Length(PathSteps(dist, path)) == dist[path[|path| - 1]].d
  {
    ParentPathReached(g, source, dist, parent, path);
    PathStepsWalk(g, source, dist, parent, path);
    forall k | 0 <= k < |path| - 1
      ensures dist[path[k]].d <= dist[path[k + 1]].d
    {
      var v := path[k + 1];
      assert v in g && parent[v] == Some(path[k]);
    }
    PathStepsLength(dist, path);
  }
  /**
   * The demonstration at the end of task_3.py: run dijkstra_heap from
   * `source`, then reconstruct_path to `target`. A reached target gets a
   * walk from the source along graph edges whose length is its distance,
   * which no walk to it undercuts; an unreached one gets the path holding
   * only itself.
   */
  method ShortestPath(g: Graph, source: int, target: int) returns (dist: map<int, Dist>, path: seq<int>)
    requires Closed(g) && source in g && target in g
    ensures dist.Keys == g.Keys && |path| >= 1 && path[|path| - 1] == target
    ensures forall k :: 0 <= k < |path| ==> path[k] in dist
    ensures ShortestDistance(g, source, target, dist[target])
    ensures dist[target].Inf? ==> path == [target]
    ensures dist[target].Fin? ==>
      path[0] == source && (forall k :: 0 <= k < |path| ==> dist[path[k]].Fin?) &&
      IsWalk(g, source, PathSteps(dist, path)) && Length(PathSteps(dist, path)) == dist[target].d
  {
    var parent;
    dist, parent := Dijkstra(g, source);
    path := ReconstructPath(parent, target);
    ReconstructedPath(g, source, dist, parent, path);
  }

  /** What a parent path out of `Dijkstra`'s tables is: a shortest walk for a reached end, the end alone otherwise. */
  lemma ReconstructedPath(g: Graph, source: int, dist: map<int, Dist>, parent: map<int, Option<int>>, path: seq<int>)
    requires source in g && dist.Keys == g.Keys && parent.Keys == g.Keys && dist[source] == Fin(0)
    requires TightParents(g, dist, parent) && ReachedHaveParents(g, source, dist, parent)
    requires |path| >= 1 && forall k :: 0 <= k < |path| ==> path[k] in parent
    requires parent[path[0]] == None
    requires forall k :: 0 <= k < |path| - 1 ==> parent[path[k + 1]] == Some(path[k])
    ensures dist[path[|path| - 1]].Inf? ==> path == [path[|path| - 1]]
    ensures dist[path[|path| - 1]].Fin? ==>
      path[0] == source && (forall k :: 0 <= k < |path| ==> dist[path[k]].Fin?) &&
      IsWalk(g, source, PathSteps(dist, path)) && Length(PathSteps(dist, path)) == dist[path[|path| - 1]].d
  {
    if dist[path[|path| - 1]].Fin? {
      ParentPathIsShortest(g, source, dist, parent, path);
    } else {
      LinkedTargetReached(g, dist, parent, path);
      assert path == [path[0]];
    }
  }

  /** A parent path longer than one vertex ends at a reached vertex, since only reached vertices get parents. */
  lemma LinkedTargetReached(g: Graph, dist: map<int, Dist>, parent: map<int, Option<int>>, path: seq<int>)
    requires dist.Keys == g.Keys && parent.Keys == g.Keys && TightParents(g, dist, parent)
    requires |path| >= 1 && forall k :: 0 <= k < |path| ==> path[k] in parent
    requires forall k :: 0 <= k < |path| - 1 ==> parent[path[k + 1]] == Some(path[k])
    ensures |path| > 1 ==> dist[path[|path| - 1]].Fin?
  {
    if |path| > 1 {
      var v := path[|path| - 1];
      assert v in g && parent[v] == Some(path[|path| - 2]);
    }
  }
}
