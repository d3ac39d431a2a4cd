/** Adjacency-list graphs as the traversal tutorials use them: a dictionary
    from a node name to the list of its neighbours. */
module Graphs {
  import opened Wrappers

  type Node = string

  type Graph = map<Node, seq<Node>>

  /** The outcome of a traversal: the list it returns, or the `KeyError`
      raised when a node that is not a key of the dictionary is looked up. */
  datatype Result<T> = Ok(value: T) | KeyError(key: Node)

  /** `b` is listed among the neighbours of `a`. */
  ghost predicate Edge(g: Graph, a: Node, b: Node)
  {
    a in g && b in g[a]
  }

  /** A non-empty sequence of nodes, each consecutive pair joined by an edge. */
  ghost predicate IsWalk(g: Graph, w: seq<Node>)
  {
    |w| >= 1 && forall k :: 0 <= k < |w| - 1 ==> Edge(g, w[k], w[k + 1])
  }

  /** `v` can be reached from `s` by following edges. */
  ghost predicate Reachable(g: Graph, s: Node, v: Node)
  {
    exists w :: IsWalk(g, w) && w[0] == s && w[|w| - 1] == v
  }

  /** `v` can be reached from `s` by following at most `n` edges. */
  ghost predicate WithinHops(g: Graph, s: Node, v: Node, n: nat)
  {
    exists w :: IsWalk(g, w) && w[0] == s && w[|w| - 1] == v && |w| <= n + 1
  }

  /** Every listed neighbour is itself a key of the dictionary. */
  ghost predicate Closed(g: Graph)
  {
    forall a, b :: a in g && b in g[a] ==> b in g
  }

  /** The start node and every node listed as a neighbour: all a traversal
      can ever put in its queue or stack. */
  ghost function Mentioned(g: Graph, start: Node): set<Node>
  {
    {start} + set a, b | a in g && b in g[a] :: b
  }

  lemma MentionedNeighbour(g: Graph, start: Node, a: Node, b: Node)
    requires a in g && b in g[a]
    ensures b in Mentioned(g, start)
  {
  }

  /** Visiting a mentioned node not visited before leaves one node fewer to
      visit: the measure that makes the traversals terminate. */
  lemma VisitShrinks(mentioned: set<Node>, visited: set<Node>, x: Node)
    requires x in mentioned && x !in visited
    ensures |mentioned - (visited + {x})| < |mentioned - visited|
  {
    assert mentioned - visited == (mentioned - (visited + {x})) + {x};
  }

  /** The start is reached by following no edge. */
  lemma StartWithin(g: Graph, s: Node)
    ensures WithinHops(g, s, s, 0)
  {
    assert IsWalk(g, [s]);
  }

  /** One more edge costs one more hop. */
  lemma ExtendWithin(g: Graph, s: Node, a: Node, b: Node, n: nat)
    requires WithinHops(g, s, a, n) && Edge(g, a, b)
    ensures WithinHops(g, s, b, n + 1)
  {
    var w :| IsWalk(g, w) && w[0] == s && w[|w| - 1] == a && |w| <= n + 1;
    var w' := w + [b];
    assert IsWalk(g, w') by {
      forall k | 0 <= k < |w'| - 1
        ensures Edge(g, w'[k], w'[k + 1])
      {
        if k < |w| - 1 {
          assert w'[k] == w[k] && w'[k + 1] == w[k + 1];
        }
      }
    }
    assert w'[0] == s && w'[|w'| - 1] == b;
  }

  /** Following one more edge from a reachable node reaches its neighbour. */
  lemma ReachableStep(g: Graph, s: Node, a: Node, b: Node)
    requires Reachable(g, s, a) && Edge(g, a, b)
    ensures Reachable(g, s, b)
  {
    var w :| IsWalk(g, w) && w[0] == s && w[|w| - 1] == a;
    ExtendWithin(g, s, a, b, |w| - 1);
  }

  /** A bound on the hops can always be loosened. */
  lemma WithinMore(g: Graph, s: Node, v: Node, n: nat, m: nat)
    requires WithinHops(g, s, v, n) && n <= m
    ensures WithinHops(g, s, v, m)
  {
  }

  lemma WithinReachable(g: Graph, s: Node, v: Node, n: nat)
    requires WithinHops(g, s, v, n)
    ensures Reachable(g, s, v)
  {
  }

  /** A set that holds the start and is closed under edges holds the end of
      every walk from the start. */
  lemma {:induction false} WalkStaysInside(g: Graph, w: seq<Node>, inside: set<Node>)
    requires IsWalk(g, w) && w[0] in inside
    requires forall a, b :: a in inside && Edge(g, a, b) ==> b in inside
    ensures w[|w| - 1] in inside
    decreases |w|
  {
    if |w| > 1 {
      var prefix := w[..|w| - 1];
      assert IsWalk(g, prefix) by {
        forall k | 0 <= k < |prefix| - 1
          ensures Edge(g, prefix[k], prefix[k + 1])
        {
          assert Edge(g, w[k], w[k + 1]);
        }
      }
      WalkStaysInside(g, prefix, inside);
      assert Edge(g, w[|w| - 2], w[|w| - 1]);
    }
  }

  /** Such a set holds every node reachable from the start. */
  lemma ClosedSetHoldsReachable(g: Graph, s: Node, inside: set<Node>, v: Node)
    requires s in inside
    requires forall a, b :: a in inside && Edge(g, a, b) ==> b in inside
    requires Reachable(g, s, v)
    ensures v in inside
  {
    var w :| IsWalk(g, w) && w[0] == s && w[|w| - 1] == v;
    WalkStaysInside(g, w, inside);
  }

  /** Every node reachable from a start that is a key of a closed graph is
      itself a key. */
  lemma ClosedReachableKeys(g: Graph, start: Node)
    requires Closed(g) && start in g
    ensures forall v :: Reachable(g, start, v) ==> v in g
  {
    forall v | Reachable(g, start, v)
      ensures v in g
    {
      ClosedSetHoldsReachable(g, start, g.Keys, v);
    }
  }

  /** The first node of `neighbors` that does not occur in `seen`. */
  function FirstFresh(neighbors: seq<Node>, seen: seq<Node>): (r: Option<Node>)
    ensures r.Some? ==> r.value in neighbors && r.value !in seen
    ensures r.None? <==> forall b :: b in neighbors ==> b in seen
  {
    if neighbors == [] then None
    else if neighbors[0] !in seen then Some(neighbors[0])
    else FirstFresh(neighbors[1..], seen)
  }

  /** The neighbour at position `q` is the first fresh one when it is fresh
      and every one before it is not. */
  lemma {:induction false} FirstFreshAt(neighbors: seq<Node>, seen: seq<Node>, q: nat)
    requires q < |neighbors| && neighbors[q] !in seen
    requires forall p :: 0 <= p < q ==> neighbors[p] in seen
    ensures FirstFresh(neighbors, seen) == Some(neighbors[q])
    decreases q
  {
    if q > 0 {
      FirstFreshAt(neighbors[1..], seen, q - 1);
    }
  }

  /** The graph of the traversal demonstrations. */
  function SampleGraph(): (g: Graph)
    ensures Closed(g)
  {
    map["A" := ["B", "C"], "B" := ["D", "E"], "C" := ["F"], "D" := [], "E" := ["F"], "F" := []]
  }
}
