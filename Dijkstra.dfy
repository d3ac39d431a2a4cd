/** Dijkstra.py: single-source shortest distances over a dictionary from a
    vertex to its list of `(neighbour, weight)` pairs, with a distance map
    and a min-heap of `(distance, vertex)` entries from which stale entries
    are skipped when popped.

    The heap is a multiset of entries from which any entry of least distance
    is popped; the distance `float('infinity')` is `Infinity`. */
module Dijkstra {
  import opened Graphs

  type WeightedGraph = map<Node, seq<(Node, nat)>>

  /** A recorded distance: a path length, or infinity for "no path found". */
  datatype Dist = Fin(d: nat) | Infinity

  /** `a < b`, infinity being above every length. */
  predicate Less(a: Dist, b: Dist)
  {
    a.Fin? && (b.Infinity? || a.d < b.d)
  }

  /** `a <= b`. */
  predicate AtMost(a: Dist, b: Dist)
  {
    b.Infinity? || (a.Fin? && a.d <= b.d)
  }

  /** A path from `s` is a sequence of hops, each a `(neighbour, weight)`
      pair listed for the vertex the previous hop reached. */
  function From(s: Node, hops: seq<(Node, nat)>, k: nat): Node
    requires k <= |hops|
  {
    if k == 0 then s else hops[k - 1].0
  }

  function End(s: Node, hops: seq<(Node, nat)>): Node
  {
    From(s, hops, |hops|)
  }

  ghost predicate IsPath(g: WeightedGraph, s: Node, hops: seq<(Node, nat)>)
  {
    forall k :: 0 <= k < |hops| ==> From(s, hops, k) in g && hops[k] in g[From(s, hops, k)]
  }

  /** Total weight of a path. */
  function Cost(hops: seq<(Node, nat)>): nat
  {
    if hops == [] then 0 else Cost(hops[..|hops| - 1]) + hops[|hops| - 1].1
  }

  /** `v` can be reached from `s`. */
  ghost predicate Reaches(g: WeightedGraph, s: Node, v: Node)
  {
    exists hops :: IsPath(g, s, hops) && End(s, hops) == v
  }

  /** Some path from `s` to `v` weighs `n`. */
  ghost predicate PathOfCost(g: WeightedGraph, s: Node, v: Node, n: nat)
  {
    exists hops :: IsPath(g, s, hops) && End(s, hops) == v && Cost(hops) == n
  }

  /** No path from `s` to `v` weighs less than `n`. */
  ghost predicate NoShorter(g: WeightedGraph, s: Node, v: Node, n: nat)
  {
    forall hops :: IsPath(g, s, hops) && End(s, hops) == v ==> n <= Cost(hops)
  }

  /** `dv` is the shortest distance from `s` to `v`: the least weight of a
      path, or infinity when there is no path. */
  ghost predicate Shortest(g: WeightedGraph, s: Node, v: Node, dv: Dist)
  {
    match dv
    case Fin(n) => PathOfCost(g, s, v, n) && NoShorter(g, s, v, n)
    case Infinity => !Reaches(g, s, v)
  }

  /** The shortest distance is unique. */
  lemma ShortestUnique(g: WeightedGraph, s: Node, v: Node, a: Dist, b: Dist)
    requires Shortest(g, s, v, a) && Shortest(g, s, v, b)
    ensures a == b
  {
    if a.Fin? && b.Fin? {
      var p :| IsPath(g, s, p) && End(s, p) == v && Cost(p) == a.d;
      var q :| IsPath(g, s, q) && End(s, q) == v && Cost(q) == b.d;
    }
  }

  lemma EmptyPath(g: WeightedGraph, s: Node)
    ensures IsPath(g, s, []) && End(s, []) == s && Cost([]) == 0
  {
  }

  /** A path followed by one more listed pair is a path, one weight heavier. */
  lemma PathExtend(g: WeightedGraph, s: Node, hops: seq<(Node, nat)>, h: (Node, nat))
    requires IsPath(g, s, hops) && End(s, hops) in g && h in g[End(s, hops)]
    ensures IsPath(g, s, hops + [h]) && End(s, hops + [h]) == h.0
    ensures Cost(hops + [h]) == Cost(hops) + h.1
  {
    var hops' := hops + [h];
    assert hops'[..|hops'| - 1] == hops;
    forall k | 0 <= k < |hops'|
      ensures From(s, hops', k) in g && hops'[k] in g[From(s, hops', k)]
    {
      if k < |hops| {
        assert From(s, hops', k) == From(s, hops, k);
      }
    }
  }

  /** A non-empty path is a shorter path followed by its last hop. */
  lemma PathLast(g: WeightedGraph, s: Node, hops: seq<(Node, nat)>)
    requires IsPath(g, s, hops) && hops != []
    ensures var prefix := hops[..|hops| - 1];
            IsPath(g, s, prefix) && End(s, prefix) in g && hops[|hops| - 1] in g[End(s, prefix)]
            && Cost(hops) == Cost(prefix) + hops[|hops| - 1].1
  {
    var prefix := hops[..|hops| - 1];
    forall k | 0 <= k < |prefix|
      ensures From(s, prefix, k) in g && prefix[k] in g[From(s, prefix, k)]
    {
      assert From(s, prefix, k) == From(s, hops, k);
    }
    assert From(s, hops, |hops| - 1) == End(s, prefix);
  }

  /** A potential that is 0 at `s` and grows by at most an edge's weight
      along every edge bounds every path's weight from below. */
  lemma {:induction false} PotentialBound(g: WeightedGraph, s: Node, pot: map<Node, nat>, hops: seq<(Node, nat)>)
    requires s in pot && pot[s] == 0
    requires forall u, h :: u in pot && u in g && h in g[u] ==> h.0 in pot && pot[h.0] <= pot[u] + h.1
    requires IsPath(g, s, hops)
    ensures End(s, hops) in pot && pot[End(s, hops)] <= Cost(hops)
    decreases |hops|
  {
    if hops != [] {
      PathLast(g, s, hops);
      PotentialBound(g, s, pot, hops[..|hops| - 1]);
    }
  }

  /** The state of the relaxation loop over one vertex's list. */
  datatype Frontier = Frontier(dist: map<Node, Dist>, queue: multiset<(nat, Node)>)

  /** One pass of the inner loop's body for the pair `(b, w)`, reached from a
      vertex at distance `d`: when `d + w` beats the recorded distance of
      `b`, it is recorded and pushed. */
  function Step(f: Frontier, d: nat, h: (Node, nat)): (f': Frontier)
    requires h.0 in f.dist
    ensures f'.dist.Keys == f.dist.Keys && f.queue <= f'.queue
    ensures AtMost(f'.dist[h.0], Fin(d + h.1))
    ensures Less(Fin(d + h.1), f.dist[h.0]) ==> f'.dist[h.0] == Fin(d + h.1) && f'.queue == f.queue + multiset{(d + h.1, h.0)}
    ensures !Less(Fin(d + h.1), f.dist[h.0]) ==> f' == f
  {
    if Less(Fin(d + h.1), f.dist[h.0]) then Frontier(f.dist[h.0 := Fin(d + h.1)], f.queue + multiset{(d + h.1, h.0)})
    else f
  }

  /** The inner loop from position `j` of `edges` on: each pair in turn, or
      `KeyError` at the first neighbour with no recorded distance. */
  function RelaxFrom(f: Frontier, d: nat, edges: seq<(Node, nat)>, j: nat): (r: Result<Frontier>)
    requires j <= |edges|
    ensures r.Ok? <==> forall k :: j <= k < |edges| ==> edges[k].0 in f.dist
    ensures r.KeyError? ==> r.key !in f.dist && exists k :: j <= k < |edges| && edges[k].0 == r.key
    decreases |edges| - j
  {
    if j == |edges| then Ok(f)
    else if edges[j].0 !in f.dist then KeyError(edges[j].0)
    else RelaxFrom(Step(f, d, edges[j]), d, edges, j + 1)
  }

  /** `b`'s distance was lowered, to `d` plus the weight of one of its pairs
      in `edges[j..]`, and exactly one entry for the new distance was
      pushed. */
  ghost predicate Lowered(f: Frontier, f': Frontier, d: nat, edges: seq<(Node, nat)>, j: nat, b: Node)
    requires b in f.dist && b in f'.dist
  {
    && Less(f'.dist[b], f.dist[b])
    && f'.dist[b].Fin?
    && (exists k :: j <= k < |edges| && edges[k].0 == b && f'.dist[b].d == d + edges[k].1)
    && f'.queue[(f'.dist[b].d, b)] == f.queue[(f'.dist[b].d, b)] + 1
  }

  /** What relaxing `edges[j..]` from distance `d` does: the same keys, no
      distance raised, every pair's target within `d` plus its weight, any
      changed distance `Lowered`, and pushes only for changed vertices, at or
      above their final distance. */
  ghost predicate Relaxed(f: Frontier, f': Frontier, d: nat, edges: seq<(Node, nat)>, j: nat)
  {
    && f'.dist.Keys == f.dist.Keys
    && f.queue <= f'.queue
    && (forall b :: b in f.dist && b in f'.dist ==> AtMost(f'.dist[b], f.dist[b]))
    && (forall k :: j <= k < |edges| && edges[k].0 in f'.dist ==> AtMost(f'.dist[edges[k].0], Fin(d + edges[k].1)))
    && (forall b :: b in f.dist && b in f'.dist && f'.dist[b] != f.dist[b] ==> Lowered(f, f', d, edges, j, b))
    && (forall e :: e in f'.queue - f.queue ==>
          e.1 in f.dist && e.1 in f'.dist && f'.dist[e.1] != f.dist[e.1] && AtMost(f'.dist[e.1], Fin(e.0)))
  }

  /** A successful relaxation is `Relaxed`. */
  lemma {:induction false} RelaxFromRelaxed(f: Frontier, d: nat, edges: seq<(Node, nat)>, j: nat)
    requires j <= |edges| && RelaxFrom(f, d, edges, j).Ok?
    ensures Relaxed(f, RelaxFrom(f, d, edges, j).value, d, edges, j)
    decreases |edges| - j
  {
    if j < |edges| {
      var f1 := Step(f, d, edges[j]);
      RelaxFromRelaxed(f1, d, edges, j + 1);
      RelaxedCompose(f, f1, RelaxFrom(f1, d, edges, j + 1).value, d, edges, j);
    }
  }

  /** One step followed by the rest. */
  lemma RelaxedCompose(f: Frontier, f1: Frontier, f2: Frontier, d: nat, edges: seq<(Node, nat)>, j: nat)
    requires j < |edges| && edges[j].0 in f.dist && f1 == Step(f, d, edges[j])
    requires Relaxed(f1, f2, d, edges, j + 1)
    ensures Relaxed(f, f2, d, edges, j)
  {
    var (b, w) := edges[j];
    forall v | v in f.dist && v in f2.dist && f2.dist[v] != f.dist[v]
      ensures Lowered(f, f2, d, edges, j, v)
    {
      ComposeLowered(f, f1, f2, d, edges, j, v);
    }
    ComposePushed(f, f1, f2, d, edges, j);
  }

  lemma ComposePushed(f: Frontier, f1: Frontier, f2: Frontier, d: nat, edges: seq<(Node, nat)>, j: nat)
    requires j < |edges| && edges[j].0 in f.dist && f1 == Step(f, d, edges[j])
    requires f2.dist.Keys == f1.dist.Keys && f1.queue <= f2.queue
    requires forall b :: b in f1.dist && b in f2.dist ==> AtMost(f2.dist[b], f1.dist[b])
    requires forall e :: e in f2.queue - f1.queue ==>
               e.1 in f1.dist && e.1 in f2.dist && f2.dist[e.1] != f1.dist[e.1] && AtMost(f2.dist[e.1], Fin(e.0))
    ensures forall e :: e in f2.queue - f.queue ==>
              e.1 in f.dist && e.1 in f2.dist && f2.dist[e.1] != f.dist[e.1] && AtMost(f2.dist[e.1], Fin(e.0))
  {
    var (b, w) := edges[j];
    forall e | e in f2.queue - f.queue
      ensures e.1 in f.dist && e.1 in f2.dist && f2.dist[e.1] != f.dist[e.1] && AtMost(f2.dist[e.1], Fin(e.0))
    {
      if e !in f2.queue - f1.queue {
        assert e == (d + w, b);
      }
    }
  }

  lemma ComposeLowered(f: Frontier, f1: Frontier, f2: Frontier, d: nat, edges: seq<(Node, nat)>, j: nat, v: Node)
    requires j < |edges| && edges[j].0 in f.dist && f1 == Step(f, d, edges[j])
    requires Relaxed(f1, f2, d, edges, j + 1)
    requires v in f.dist && v in f2.dist && f2.dist[v] != f.dist[v]
    ensures Lowered(f, f2, d, edges, j, v)
  {
    var (b, w) := edges[j];
    var n := f2.dist[v];
    if f2.dist[v] != f1.dist[v] {
      assert Lowered(f1, f2, d, edges, j + 1, v);
      if v == b && Less(Fin(d + w), f.dist[b]) {
        assert (d + w, b) != (n.d, v);
      }
    } else {
      assert v == b && Less(Fin(d + w), f.dist[b]);
      assert (f2.queue - f1.queue)[(n.d, v)] == 0;
    }
  }

  /** The inner loop of `dijkstra`: `for neighbor, weight in
      graph[current_vertex]`, recording and pushing every improvement;
      looking up a neighbour with no recorded distance raises `KeyError`. */
  method Relax(dist: map<Node, Dist>, queue: multiset<(nat, Node)>, d: nat, edges: seq<(Node, nat)>)
    returns (r: Result<Frontier>)
    ensures r == RelaxFrom(Frontier(dist, queue), d, edges, 0)
  {
    var distances, heap := dist, queue;
    for k := 0 to |edges|
      invariant RelaxFrom(Frontier(distances, heap), d, edges, k) == RelaxFrom(Frontier(dist, queue), d, edges, 0)
    {
      var (neighbor, weight) := edges[k];
      var distance := d + weight;
      if neighbor !in distances {
        return KeyError(neighbor);
      }
      if Less(Fin(distance), distances[neighbor]) {
        distances := distances[neighbor := Fin(distance)];
        heap := heap + multiset{(distance, neighbor)};
      }
    }
    return Ok(Frontier(distances, heap));
  }

  /** The keys of `distances`: the vertices of the graph and the start. */
  ghost predicate Keys(g: WeightedGraph, s: Node, dist: map<Node, Dist>)
  {
    forall v :: v in dist <==> v in g || v == s
  }

  /** Every finite recorded distance is the weight of some path. */
  ghost predicate Sound(g: WeightedGraph, s: Node, dist: map<Node, Dist>)
  {
    forall v :: v in dist && dist[v].Fin? ==> PathOfCost(g, s, v, dist[v].d)
  }

  /** No heap entry lies below the recorded distance of its vertex. */
  ghost predicate QueueAbove(dist: map<Node, Dist>, queue: multiset<(nat, Node)>)
  {
    forall e :: e in queue ==> e.1 in dist && AtMost(dist[e.1], Fin(e.0))
  }

  /** A vertex with a finite distance that is not expanded yet has exactly
      one heap entry at that distance; an expanded one has none. */
  ghost predicate Current(dist: map<Node, Dist>, queue: multiset<(nat, Node)>, done: set<Node>)
  {
    forall v :: v in dist && dist[v].Fin? ==> queue[(dist[v].d, v)] == if v in done then 0 else 1
  }

  /** Expanded vertices are keys with a final distance, and every pair listed
      for them has been relaxed. */
  ghost predicate Expanded(g: WeightedGraph, s: Node, dist: map<Node, Dist>, done: set<Node>)
  {
    && (forall u :: u in done ==> u in g && u in dist && dist[u].Fin? && NoShorter(g, s, u, dist[u].d))
    && (forall u, h :: u in done && u in g && h in g[u] && u in dist && dist[u].Fin? ==>
          h.0 in dist && AtMost(dist[h.0], Fin(dist[u].d + h.1)))
  }

  /** The invariant of the `while` loop. `done` is the set of vertices whose
      neighbours have been relaxed. */
  ghost predicate Inv(g: WeightedGraph, s: Node, dist: map<Node, Dist>, queue: multiset<(nat, Node)>, done: set<Node>)
  {
    && Keys(g, s, dist)
    && s in dist && dist[s] == Fin(0)
    && Sound(g, s, dist)
    && QueueAbove(dist, queue)
    && Current(dist, queue, done)
    && Expanded(g, s, dist, done)
  }

  /** `e` has the least distance in the heap. */
  predicate Least(queue: multiset<(nat, Node)>, e: (nat, Node))
  {
    e in queue && forall e' :: e' in queue ==> e.0 <= e'.0
  }

  /** A non-empty heap has an entry of least distance. */
  lemma {:induction false} LeastExists(queue: multiset<(nat, Node)>)
    requires queue != multiset{}
    ensures exists e :: Least(queue, e)
    decreases |queue|
  {
    var x :| x in queue;
    var rest := queue - multiset{x};
    assert forall e' :: e' in queue ==> e' == x || e' in rest;
    if rest == multiset{} {
      assert Least(queue, x);
    } else {
      LeastExists(rest);
      var m :| Least(rest, m);
      if x.0 <= m.0 {
        assert Least(queue, x);
      } else {
        assert Least(queue, m);
      }
    }
  }

  lemma Init(g: WeightedGraph, s: Node)
    ensures Inv(g, s, (map v | v in g :: Infinity)[s := Fin(0)], multiset{(0, s)}, {})
  {
    EmptyPath(g, s);
  }

  /** Every path from the start ends at an expanded vertex or weighs at
      least `d`, when no heap entry lies below `d`: follow the path while it
      stays among expanded vertices; the first vertex that is not expanded
      has a finite distance no larger than the weight so far, and so a heap
      entry at that distance. */
  lemma {:induction false} PathBound(g: WeightedGraph, s: Node, dist: map<Node, Dist>, queue: multiset<(nat, Node)>,
                                     done: set<Node>, d: nat, hops: seq<(Node, nat)>)
    requires s in dist && dist[s] == Fin(0)
    requires Current(dist, queue, done) && Expanded(g, s, dist, done)
    requires forall e :: e in queue ==> d <= e.0
    requires IsPath(g, s, hops)
    ensures End(s, hops) in done || d <= Cost(hops)
    decreases |hops|
  {
    if hops == [] {
      assert queue[(0, s)] == if s in done then 0 else 1;
    } else {
      var prefix := hops[..|hops| - 1];
      PathLast(g, s, hops);
      PathBound(g, s, dist, queue, done, d, prefix);
      var x, h := End(s, prefix), hops[|hops| - 1];
      if x in done && h.0 !in done {
        assert queue[(dist[h.0].d, h.0)] == 1;
      }
    }
  }

  /** An entry of least distance that is current for a vertex not yet
      expanded gives that vertex's shortest distance. */
  lemma PoppedShortest(g: WeightedGraph, s: Node, dist: map<Node, Dist>, queue: multiset<(nat, Node)>,
                       done: set<Node>, e: (nat, Node))
    requires s in dist && dist[s] == Fin(0)
    requires Current(dist, queue, done) && Expanded(g, s, dist, done)
    requires Least(queue, e) && e.1 !in done
    ensures NoShorter(g, s, e.1, e.0)
  {
    forall hops | IsPath(g, s, hops) && End(s, hops) == e.1
      ensures e.0 <= Cost(hops)
    {
      PathBound(g, s, dist, queue, done, e.0, hops);
    }
  }

  /** Popping an entry above its vertex's recorded distance and skipping it. */
  lemma DropStale(g: WeightedGraph, s: Node, dist: map<Node, Dist>, queue: multiset<(nat, Node)>, done: set<Node>,
                  e: (nat, Node), queue': multiset<(nat, Node)>)
    requires Inv(g, s, dist, queue, done)
    requires e in queue && e.1 in dist && Less(dist[e.1], Fin(e.0))
    requires queue' == queue - multiset{e}
    ensures Inv(g, s, dist, queue', done)
  {
    forall v | v in dist && dist[v].Fin?
      ensures queue'[(dist[v].d, v)] == queue[(dist[v].d, v)]
    {
      assert (dist[v].d, v) != e;
    }
  }

  /** Popping the current entry of a vertex: it is not expanded yet. */
  lemma PoppedFresh(dist: map<Node, Dist>, queue: multiset<(nat, Node)>, done: set<Node>, e: (nat, Node))
    requires Current(dist, queue, done)
    requires e in queue && e.1 in dist && dist[e.1] == Fin(e.0)
    ensures e.1 !in done
  {
    assert queue[(dist[e.1].d, e.1)] >= 1;
  }

  /** Expanding the vertex of a least, current entry: after its list is
      relaxed it is expanded for good. */
  lemma Expand(g: WeightedGraph, s: Node, dist: map<Node, Dist>, queue: multiset<(nat, Node)>, done: set<Node>,
               e: (nat, Node), f': Frontier)
    requires Inv(g, s, dist, queue, done)
    requires Least(queue, e) && e.1 in dist && dist[e.1] == Fin(e.0) && e.1 in g
    requires RelaxFrom(Frontier(dist, queue - multiset{e}), e.0, g[e.1], 0) == Ok(f')
    ensures Inv(g, s, f'.dist, f'.queue, done + {e.1}) && f'.dist.Keys == dist.Keys
  {
    var (d, u) := e;
    var f := Frontier(dist, queue - multiset{e});
    PoppedFresh(dist, queue, done, e);
    PoppedShortest(g, s, dist, queue, done, e);
    RelaxFromRelaxed(f, d, g[u], 0);
    LoweredFresh(g, s, dist, queue, done, e, f');
    ExpandSound(g, s, dist, e, f, f');
    ExpandAbove(dist, queue, e, f, f');
    ExpandCurrent(dist, queue, done, e, g[u], f, f');
    ExpandDone(g, s, dist, done, e, f, f');
  }

  /** A lowered vertex is neither expanded nor the vertex being expanded:
      `d` plus a weight is the weight of a path to it, and the distances of
      expanded vertices are already the least. */
  lemma LoweredFresh(g: WeightedGraph, s: Node, dist: map<Node, Dist>, queue: multiset<(nat, Node)>, done: set<Node>,
                     e: (nat, Node), f': Frontier)
    requires Sound(g, s, dist) && Expanded(g, s, dist, done)
    requires e.1 in dist && dist[e.1] == Fin(e.0) && e.1 in g
    requires Relaxed(Frontier(dist, queue - multiset{e}), f', e.0, g[e.1], 0)
    ensures forall v :: v in dist && v in f'.dist && f'.dist[v] != dist[v] ==> v !in done && v != e.1
  {
    var (d, u) := e;
    var f := Frontier(dist, queue - multiset{e});
    forall v | v in dist && v in f'.dist && f'.dist[v] != dist[v]
      ensures v !in done && v != u
    {
      assert Lowered(f, f', d, g[u], 0, v);
      var k :| 0 <= k < |g[u]| && g[u][k].0 == v && f'.dist[v].d == d + g[u][k].1;
      if v in done {
        var p :| IsPath(g, s, p) && End(s, p) == u && Cost(p) == d;
        PathExtend(g, s, p, g[u][k]);
      }
    }
  }

  lemma ExpandSound(g: WeightedGraph, s: Node, dist: map<Node, Dist>, e: (nat, Node), f: Frontier, f': Frontier)
    requires Sound(g, s, dist) && Keys(g, s, dist) && s in dist && dist[s] == Fin(0)
    requires e.1 in dist && dist[e.1] == Fin(e.0) && e.1 in g && f.dist == dist
    requires Relaxed(f, f', e.0, g[e.1], 0)
    ensures Keys(g, s, f'.dist) && s in f'.dist && f'.dist[s] == Fin(0) && Sound(g, s, f'.dist)
  {
    assert AtMost(f'.dist[s], dist[s]);
    forall v | v in f'.dist && f'.dist[v].Fin? && f'.dist[v] != dist[v]
      ensures PathOfCost(g, s, v, f'.dist[v].d)
    {
      LoweredSound(g, s, dist, e, f, f', v);
    }
  }

  /** A lowered distance is the weight of a path: one to the expanded
      vertex, then one pair. */
  lemma LoweredSound(g: WeightedGraph, s: Node, dist: map<Node, Dist>, e: (nat, Node), f: Frontier, f': Frontier, v: Node)
    requires Sound(g, s, dist)
    requires e.1 in dist && dist[e.1] == Fin(e.0) && e.1 in g && f.dist == dist
    requires v in dist && v in f'.dist && f'.dist[v] != dist[v]
    requires Lowered(f, f', e.0, g[e.1], 0, v)
    ensures PathOfCost(g, s, v, f'.dist[v].d)
  {
    var (d, u) := e;
    var k :| 0 <= k < |g[u]| && g[u][k].0 == v && f'.dist[v].d == d + g[u][k].1;
    var p :| IsPath(g, s, p) && End(s, p) == u && Cost(p) == d;
    PathExtend(g, s, p, g[u][k]);
  }
  /** No heap entry lies below its vertex's distance after relaxing: old
      entries sit above a distance that only dropped, new ones were pushed
      at or above the final distance. */
  lemma ExpandAbove(dist: map<Node, Dist>, queue: multiset<(nat, Node)>, e: (nat, Node), f: Frontier, f': Frontier)
    requires QueueAbove(dist, queue)
    requires f == Frontier(dist, queue - multiset{e}) && f.queue <= f'.queue && f'.dist.Keys == dist.Keys
    requires forall b :: b in f.dist && b in f'.dist ==> AtMost(f'.dist[b], f.dist[b])
    requires forall x :: x in f'.queue - f.queue ==> x.1 in f'.dist && AtMost(f'.dist[x.1], Fin(x.0))
    ensures QueueAbove(f'.dist, f'.queue)
  {
    forall x | x in f'.queue
      ensures x.1 in f'.dist && AtMost(f'.dist[x.1], Fin(x.0))
    {
      if x !in f'.queue - f.queue {
        assert x in queue;
        assert AtMost(f'.dist[x.1], dist[x.1]);
      }
    }
  }

  /** After relaxing, every vertex with a finite distance that is not
      expanded has exactly one entry at it, and the expanded ones none. */
  lemma ExpandCurrent(dist: map<Node, Dist>, queue: multiset<(nat, Node)>, done: set<Node>, e: (nat, Node),
                      edges: seq<(Node, nat)>, f: Frontier, f': Frontier)
    requires QueueAbove(dist, queue) && Current(dist, queue, done)
    requires e in queue && e.1 in dist && dist[e.1] == Fin(e.0) && e.1 !in done
    requires f == Frontier(dist, queue - multiset{e}) && Relaxed(f, f', e.0, edges, 0)
    requires forall v :: v in dist && v in f'.dist && f'.dist[v] != dist[v] ==> v !in done && v != e.1
    ensures Current(f'.dist, f'.queue, done + {e.1})
  {
    forall v | v in f'.dist && f'.dist[v].Fin?
      ensures f'.queue[(f'.dist[v].d, v)] == if v in done + {e.1} then 0 else 1
    {
      CurrentAt(dist, queue, done, e, edges, f, f', v);
    }
  }

  lemma CurrentAt(dist: map<Node, Dist>, queue: multiset<(nat, Node)>, done: set<Node>, e: (nat, Node),
                  edges: seq<(Node, nat)>, f: Frontier, f': Frontier, v: Node)
    requires QueueAbove(dist, queue) && Current(dist, queue, done)
    requires e in queue && e.1 in dist && dist[e.1] == Fin(e.0) && e.1 !in done
    requires f == Frontier(dist, queue - multiset{e}) && f'.dist.Keys == dist.Keys && f.queue <= f'.queue
    requires forall x :: x in f'.queue - f.queue ==> x.1 in f.dist && x.1 in f'.dist && f'.dist[x.1] != f.dist[x.1]
    requires v in f'.dist && f'.dist[v].Fin?
    requires f'.dist[v] != dist[v] ==> v !in done && v != e.1 && Lowered(f, f', e.0, edges, 0, v)
    ensures f'.queue[(f'.dist[v].d, v)] == if v in done + {e.1} then 0 else 1
  {
    if f'.dist[v] != dist[v] {
      LoweredCurrent(dist, queue, e, edges, f, f', v);
    } else {
      KeptCurrent(dist, queue, done, e, f, f', v);
    }
  }

  /** A lowered vertex has exactly one entry at its new distance: the one
      just pushed, since no older entry lies below its old distance. */
  lemma LoweredCurrent(dist: map<Node, Dist>, queue: multiset<(nat, Node)>, e: (nat, Node),
                       edges: seq<(Node, nat)>, f: Frontier, f': Frontier, v: Node)
    requires QueueAbove(dist, queue)
    requires f == Frontier(dist, queue - multiset{e})
    requires v in dist && v in f'.dist && f'.dist[v] != dist[v]
    requires Lowered(f, f', e.0, edges, 0, v)
    ensures f'.queue[(f'.dist[v].d, v)] == 1
  {
    assert (f'.dist[v].d, v) !in queue;
  }

  /** A vertex whose distance stayed keeps its entries: nothing was pushed
      for it, and the popped entry was the expanded vertex's. */
  lemma KeptCurrent(dist: map<Node, Dist>, queue: multiset<(nat, Node)>, done: set<Node>, e: (nat, Node),
                    f: Frontier, f': Frontier, v: Node)
    requires Current(dist, queue, done)
    requires e in queue && e.1 in dist && dist[e.1] == Fin(e.0) && e.1 !in done
    requires f == Frontier(dist, queue - multiset{e}) && f.queue <= f'.queue
    requires forall x :: x in f'.queue - f.queue ==> x.1 in f.dist && x.1 in f'.dist && f'.dist[x.1] != f.dist[x.1]
    requires v in dist && v in f'.dist && f'.dist[v] == dist[v] && dist[v].Fin?
    ensures f'.queue[(dist[v].d, v)] == if v in done + {e.1} then 0 else 1
  {
    var x := (dist[v].d, v);
    assert (f'.queue - f.queue)[x] == 0;
    assert f'.queue[x] == f.queue[x];
  }
  lemma ExpandDone(g: WeightedGraph, s: Node, dist: map<Node, Dist>, done: set<Node>, e: (nat, Node), f: Frontier, f': Frontier)
    requires Expanded(g, s, dist, done)
    requires e.1 in dist && dist[e.1] == Fin(e.0) && e.1 in g && NoShorter(g, s, e.1, e.0)
    requires forall h :: h in g[e.1] ==> h.0 in dist
    requires f.dist == dist && Relaxed(f, f', e.0, g[e.1], 0)
    requires forall v :: v in dist && v in f'.dist && f'.dist[v] != dist[v] ==> v !in done && v != e.1
    ensures Expanded(g, s, f'.dist, done + {e.1})
  {
    var (d, u) := e;
    forall w, h | w in done + {u} && w in g && h in g[w] && w in f'.dist && f'.dist[w].Fin?
      ensures h.0 in f'.dist && AtMost(f'.dist[h.0], Fin(f'.dist[w].d + h.1))
    {
      if w == u {
        RelaxedOwn(g, dist, e, f, f', h);
      } else {
        RelaxedKept(g, dist, done, f, f', w, h);
      }
    }
  }

  /** The pairs of the expanded vertex are relaxed. */
  lemma RelaxedOwn(g: WeightedGraph, dist: map<Node, Dist>, e: (nat, Node), f: Frontier, f': Frontier, h: (Node, nat))
    requires e.1 in dist && dist[e.1] == Fin(e.0) && e.1 in g && h in g[e.1] && h.0 in dist
    requires f.dist == dist && Relaxed(f, f', e.0, g[e.1], 0)
    requires e.1 in f'.dist && f'.dist[e.1] == dist[e.1]
    ensures h.0 in f'.dist && AtMost(f'.dist[h.0], Fin(f'.dist[e.1].d + h.1))
  {
    var k :| 0 <= k < |g[e.1]| && g[e.1][k] == h;
  }

  /** Pairs relaxed before stay relaxed: their source kept its distance and
      their target's can only have dropped. */
  lemma RelaxedKept(g: WeightedGraph, dist: map<Node, Dist>, done: set<Node>, f: Frontier, f': Frontier, w: Node, h: (Node, nat))
    requires forall u, h :: u in done && u in g && h in g[u] && u in dist && dist[u].Fin? ==>
               h.0 in dist && AtMost(dist[h.0], Fin(dist[u].d + h.1))
    requires w in done && w in g && h in g[w] && w in dist && dist[w].Fin?
    requires f.dist == dist && f'.dist.Keys == dist.Keys
    requires forall b :: b in f.dist && b in f'.dist ==> AtMost(f'.dist[b], f.dist[b])
    requires w in f'.dist && f'.dist[w] == dist[w]
    ensures h.0 in f'.dist && AtMost(f'.dist[h.0], Fin(f'.dist[w].d + h.1))
  {
    assert AtMost(f'.dist[h.0], dist[h.0]);
  }

  /** With the heap empty every vertex reachable from the start is expanded,
      and every recorded distance is the shortest. */
  lemma Finished(g: WeightedGraph, s: Node, dist: map<Node, Dist>, done: set<Node>)
    requires Inv(g, s, dist, multiset{}, done)
    ensures forall v :: Reaches(g, s, v) ==> v in done && v in g
    ensures forall v :: v in dist ==> Shortest(g, s, v, dist[v])
    ensures dist.Keys == g.Keys
  {
    EmptyPath(g, s);
    forall v | Reaches(g, s, v)
      ensures v in done && v in g
    {
      var hops :| IsPath(g, s, hops) && End(s, hops) == v;
      PathBound(g, s, dist, multiset{}, done, Cost(hops) + 1, hops);
    }
    forall v | v in dist
      ensures Shortest(g, s, v, dist[v])
    {
      if dist[v].Fin? {
        assert multiset{}[(dist[v].d, v)] == 0;
      }
    }
  }

  /** A vertex with a finite recorded distance is reachable. */
  lemma FiniteReached(g: WeightedGraph, s: Node, dist: map<Node, Dist>, v: Node)
    requires Sound(g, s, dist) && v in dist && dist[v].Fin?
    ensures Reaches(g, s, v)
  {
  }

  /** A neighbour listed for a vertex with a finite recorded distance is
      reachable. */
  lemma NeighbourReached(g: WeightedGraph, s: Node, dist: map<Node, Dist>, u: Node, k: nat)
    requires Sound(g, s, dist) && u in dist && dist[u].Fin? && u in g && k < |g[u]|
    ensures Reaches(g, s, g[u][k].0)
  {
    var p :| IsPath(g, s, p) && End(s, p) == u && Cost(p) == dist[u].d;
    PathExtend(g, s, p, g[u][k]);
  }

  /** `dijkstra(graph, start)`: every vertex starts at infinity and the start
      at 0, with the heap holding `(0, start)`. While the heap is not empty,
      an entry of least distance is popped; an entry above its vertex's
      recorded distance is skipped, otherwise the vertex's list is relaxed.
      Looking up a vertex that is not a key of `graph`, or a neighbour with
      no recorded distance, raises `KeyError`. On success the distances are
      the shortest ones, infinity marking the vertices that cannot be
      reached. */
  method Dijkstra(graph: WeightedGraph, start: Node) returns (r: Result<map<Node, Dist>>)
    ensures r.Ok? ==> r.value.Keys == graph.Keys && start in r.value && r.value[start] == Fin(0)
    ensures r.Ok? ==> forall v :: v in r.value ==> Shortest(graph, start, v, r.value[v])
    ensures r.KeyError? ==> r.key !in graph && Reaches(graph, start, r.key)
    ensures r.Ok? <==> forall v :: Reaches(graph, start, v) ==> v in graph
  {
    var distances := (map v | v in graph :: Infinity)[start := Fin(0)];
    var queue := multiset{(0, start)};
    ghost var done: set<Node> := {};
    ghost var keys := distances.Keys;
    Init(graph, start);
    while queue != multiset{}
      invariant Inv(graph, start, distances, queue, done)
      invariant distances.Keys == keys
      decreases |keys - done|, |queue|
    {
      LeastExists(queue);
      var entry :| Least(queue, entry);
      var (d, u) := entry;
      ghost var queue0 := queue;
      queue := queue - multiset{entry};
      if Less(distances[u], Fin(d)) {
        DropStale(graph, start, distances, queue0, done, entry, queue);
        continue;
      }
      if u !in graph {
        FiniteReached(graph, start, distances, u);
        return KeyError(u);
      }
      var relaxed := Relax(distances, queue, d, graph[u]);
      if relaxed.KeyError? {
        var k :| 0 <= k < |graph[u]| && graph[u][k].0 == relaxed.key;
        NeighbourReached(graph, start, distances, u, k);
        return KeyError(relaxed.key);
      }
      ghost var distances0, done0 := distances, done;
      PoppedFresh(distances, queue0, done, entry);
      VisitShrinks(keys, done, u);
      distances, queue, done := relaxed.value.dist, relaxed.value.queue, done + {u};
      Expand(graph, start, distances0, queue0, done0, entry, relaxed.value);
    }
    Finished(graph, start, distances, done);
    r := Ok(distances);
  }

  /** The graph of the demonstration. */
  function SampleWeightedGraph(): WeightedGraph
  {
    map["A" := [("B", 1), ("C", 4)],
        "B" := [("A", 1), ("C", 2), ("D", 5)],
        "C" := [("A", 4), ("B", 2), ("D", 1)],
        "D" := [("B", 5), ("C", 1)]]
  }

  /** The distances the demonstration prints. */
  function SampleDistances(): map<Node, Dist>
  {
    map["A" := Fin(0), "B" := Fin(1), "C" := Fin(3), "D" := Fin(4)]
  }

  /** The demonstration's distances as lengths. */
  function SamplePotential(): map<Node, nat>
  {
    map["A" := 0, "B" := 1, "C" := 3, "D" := 4]
  }

  /** Along every pair of the demonstration graph the potential grows by at
      most the pair's weight. */
  lemma SampleTriangle()
    ensures forall u, h :: u in SamplePotential() && u in SampleWeightedGraph() && h in SampleWeightedGraph()[u] ==>
              h.0 in SamplePotential() && SamplePotential()[h.0] <= SamplePotential()[u] + h.1
  {
    var g, pot := SampleWeightedGraph(), SamplePotential();
    forall u, h: (Node, nat) | u in pot && u in g && h in g[u]
      ensures h.0 in pot && pot[h.0] <= pot[u] + h.1
    {
      assert u == "A" || u == "B" || u == "C" || u == "D";
    }
  }

  /** Every path from `A` in the demonstration graph ends at a key and
      weighs at least the potential of its end. */
  lemma SampleLower(hops: seq<(Node, nat)>)
    requires IsPath(SampleWeightedGraph(), "A", hops)
    ensures End("A", hops) in SamplePotential() && SamplePotential()[End("A", hops)] <= Cost(hops)
  {
    SampleTriangle();
    PotentialBound(SampleWeightedGraph(), "A", SamplePotential(), hops);
  }

  /** Every vertex reachable from `A` is a key of the demonstration graph. */
  lemma SampleClosed()
    ensures forall v :: Reaches(SampleWeightedGraph(), "A", v) ==> v in SampleWeightedGraph()
  {
    forall v | Reaches(SampleWeightedGraph(), "A", v)
      ensures v in SampleWeightedGraph()
    {
      var hops :| IsPath(SampleWeightedGraph(), "A", hops) && End("A", hops) == v;
      SampleLower(hops);
    }
  }

  /** The potential of a vertex bounds every path to it. */
  lemma SampleNoShorter(v: Node)
    requires v in SamplePotential()
    ensures NoShorter(SampleWeightedGraph(), "A", v, SamplePotential()[v])
  {
    forall hops | IsPath(SampleWeightedGraph(), "A", hops) && End("A", hops) == v
      ensures SamplePotential()[v] <= Cost(hops)
    {
      SampleLower(hops);
    }
  }

  /** The paths A, A-B, A-B-C and A-B-C-D weigh 0, 1, 3 and 4. */
  lemma SamplePaths()
    ensures PathOfCost(SampleWeightedGraph(), "A", "A", 0)
    ensures PathOfCost(SampleWeightedGraph(), "A", "B", 1)
    ensures PathOfCost(SampleWeightedGraph(), "A", "C", 3)
    ensures PathOfCost(SampleWeightedGraph(), "A", "D", 4)
  {
    var g := SampleWeightedGraph();
    EmptyPath(g, "A");
    PathExtend(g, "A", [], ("B", 1));
    assert [] + [("B", 1)] == [("B", 1)];
    PathExtend(g, "A", [("B", 1)], ("C", 2));
    assert [("B", 1)] + [("C", 2)] == [("B", 1), ("C", 2)];
    PathExtend(g, "A", [("B", 1), ("C", 2)], ("D", 1));
  }

  /** The shortest distance of a demonstration vertex is the one printed. */
  lemma SampleAt(v: Node, dv: Dist)
    requires v in SamplePotential() && Shortest(SampleWeightedGraph(), "A", v, dv)
    ensures dv == Fin(SamplePotential()[v])
  {
    SamplePaths();
    SampleNoShorter(v);
    ShortestUnique(SampleWeightedGraph(), "A", v, dv, Fin(SamplePotential()[v]));
  }

  /** A map over the demonstration's vertices holding shortest distances is
      the printed one. */
  lemma SampleResult(m: map<Node, Dist>)
    requires m.Keys == SampleWeightedGraph().Keys
    requires forall v :: v in m ==> Shortest(SampleWeightedGraph(), "A", v, m[v])
    ensures m == SampleDistances()
  {
    SampleAt("A", m["A"]);
    SampleAt("B", m["B"]);
    SampleAt("C", m["C"]);
    SampleAt("D", m["D"]);
    SampleMap(m);
  }

  lemma SampleMap(m: map<Node, Dist>)
    requires m.Keys == SampleWeightedGraph().Keys
    requires m["A"] == Fin(0) && m["B"] == Fin(1) && m["C"] == Fin(3) && m["D"] == Fin(4)
    ensures m == SampleDistances()
  {
    assert m.Keys == SampleDistances().Keys;
  }

  /** The demonstration: from `A` the distances are 0, 1, 3 and 4. */
  method DijkstraSample() returns (r: Result<map<Node, Dist>>)
    ensures r == Ok(SampleDistances())
  {
    r := Dijkstra(SampleWeightedGraph(), "A");
    SampleClosed();
    SampleResult(r.value);
  }
}
