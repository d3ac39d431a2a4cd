/** Depth_First.py: iterative depth-first traversal with a LIFO stack, a
    visited set and a result list. Neighbours are pushed in reverse order so
    that the first-listed one is popped first. */
module DepthFirst {
  import opened Wrappers
  import opened Graphs

  /** Depth-first order, independently of any stack: after visiting `done`,
      the next node is the first fresh neighbour of the latest node of
      `done[..k]` that still has a fresh neighbour. */
  function LatestFresh(g: Graph, done: seq<Node>, k: nat): (r: Option<Node>)
    requires k <= |done|
    ensures r.Some? ==> r.value !in done
    ensures r.None? <==> forall o, b :: 0 <= o < k && done[o] in g && b in g[done[o]] ==> b in done
  {
    if k == 0 then None
    else if done[k - 1] in g && FirstFresh(g[done[k - 1]], done).Some? then FirstFresh(g[done[k - 1]], done)
    else LatestFresh(g, done, k - 1)
  }

  /** The node depth-first order visits after `done`, if any. */
  function DfsNext(g: Graph, done: seq<Node>): Option<Node>
  {
    LatestFresh(g, done, |done|)
  }

  /** What `DfsNext` picks after `result[..i + 1]` is what `result` holds
      next: `result[i + 1]`, or nothing when `result[i]` is the last. */
  ghost predicate NextAt(g: Graph, result: seq<Node>, i: nat)
    requires i < |result|
  {
    DfsNext(g, result[..i + 1]) == (if i + 1 < |result| then Some(result[i + 1]) else None)
  }

  /** `result` is in depth-first order: each node is the one `DfsNext`
      picks after the nodes before it, and after the last one nothing is
      left to pick. */
  ghost predicate DfsOrder(g: Graph, result: seq<Node>)
  {
    forall i :: 0 <= i < |result| ==> NextAt(g, result, i)
  }

  /** The same for every node but the last. */
  ghost predicate DfsPrefix(g: Graph, result: seq<Node>)
  {
    forall i :: 0 <= i < |result| - 1 ==> NextAt(g, result, i)
  }

  /** `trail` is how depth-first order from `start` begins: it starts at
      `start`, every node but the last is a key of `g`, and each later node
      is the one `DfsNext` picks after the nodes before it. */
  ghost predicate DfsTrail(g: Graph, start: Node, trail: seq<Node>)
  {
    && |trail| >= 1 && trail[0] == start
    && (forall i :: 0 <= i < |trail| - 1 ==> trail[i] in g)
    && DfsPrefix(g, trail)
  }

  /** `key` is the first node depth-first order from `start` reaches that
      is not a key of `g`: the node whose lookup raises `KeyError`. */
  ghost predicate FirstMissing(g: Graph, start: Node, key: Node)
  {
    key !in g && exists trail :: DfsTrail(g, start, trail) && trail[|trail| - 1] == key
  }

  /** Two trails agree wherever both are defined. */
  lemma {:induction false} TrailsAgree(g: Graph, start: Node, t1: seq<Node>, t2: seq<Node>, i: nat)
    requires DfsTrail(g, start, t1) && DfsTrail(g, start, t2)
    requires i < |t1| && i < |t2|
    ensures t1[..i + 1] == t2[..i + 1]
  {
    if i > 0 {
      TrailsAgree(g, start, t1, t2, i - 1);
      assert NextAt(g, t1, i - 1) && NextAt(g, t2, i - 1);
      assert t1[..i + 1] == t1[..i] + [t1[i]];
      assert t2[..i + 1] == t2[..i] + [t2[i]];
    }
  }

  /** The node a failing traversal names is determined: only one node can
      be the first one missing. */
  lemma MissingUnique(g: Graph, start: Node, k1: Node, k2: Node)
    requires FirstMissing(g, start, k1) && FirstMissing(g, start, k2)
    ensures k1 == k2
  {
    var t1 :| DfsTrail(g, start, t1) && t1[|t1| - 1] == k1;
    var t2 :| DfsTrail(g, start, t2) && t2[|t2| - 1] == k2;
    var m := if |t1| <= |t2| then |t1| - 1 else |t2| - 1;
    TrailsAgree(g, start, t1, t2, m);
    assert t1[m] == t1[..m + 1][m] == t2[..m + 1][m] == t2[m];
  }

  /** `result` lists the visited nodes without repeats, starting at `start`,
      and every node pushed so far was reachable. */
  ghost predicate Common(g: Graph, start: Node, stack: seq<Node>, visited: set<Node>, result: seq<Node>)
  {
    && (forall x :: x in result <==> x in visited)
    && (forall i, j :: 0 <= i < j < |result| ==> result[i] != result[j])
    && (result == [] ==> stack == [start])
    && (result != [] ==> result[0] == start)
    && (forall i :: 0 <= i < |stack| ==> Reachable(g, start, stack[i]))
    && (forall x :: x in visited ==> Reachable(g, start, x))
    && (forall x :: x in visited ==> x in g)
    && visited <= Mentioned(g, start)
    && (forall i :: 0 <= i < |stack| ==> stack[i] in Mentioned(g, start))
  }

  /** Each stack entry is tagged `(o, q)`: it was pushed while visiting
      `result[o]` and is that node's neighbour at position `q`. Tags are
      ordered: later nodes' entries lie above earlier ones', and a node's
      entries lie in reverse list order, earliest neighbour on top. */
  ghost predicate TagsOrdered(tags: seq<(nat, nat)>)
  {
    && (forall s, t :: 0 <= s < t < |tags| ==> tags[s].0 <= tags[t].0)
    && (forall s, t :: 0 <= s < t < |tags| && tags[s].0 == tags[t].0 ==> tags[s].1 > tags[t].1)
  }

  ghost predicate TagsListed(g: Graph, stack: seq<Node>, tags: seq<(nat, nat)>, result: seq<Node>)
    requires |tags| == |stack|
  {
    forall s :: 0 <= s < |stack| ==>
      tags[s].0 < |result| && result[tags[s].0] in g && tags[s].1 < |g[result[tags[s].0]]| &&
      stack[s] == g[result[tags[s].0]][tags[s].1]
  }

  /** Every neighbour of a visited node that is not visited yet is still on
      the stack with its tag. */
  ghost predicate FreshOnStack(g: Graph, tags: seq<(nat, nat)>, result: seq<Node>)
  {
    forall o, q :: 0 <= o < |result| && result[o] in g && 0 <= q < |g[result[o]]| && g[result[o]][q] !in result ==>
      (o, q) in tags
  }

  ghost predicate Tagged(g: Graph, stack: seq<Node>, tags: seq<(nat, nat)>, result: seq<Node>)
  {
    && |tags| == |stack|
    && TagsOrdered(tags)
    && (result != [] ==> TagsListed(g, stack, tags, result))
    && FreshOnStack(g, tags, result)
  }

  /** The invariant of the `while` loop. */
  ghost predicate Outer(g: Graph, start: Node, stack: seq<Node>, tags: seq<(nat, nat)>, visited: set<Node>, result: seq<Node>)
  {
    && Common(g, start, stack, visited, result)
    && Tagged(g, stack, tags, result)
    && DfsPrefix(g, result)
  }

  /** `LatestFresh` finds node `o` when nothing after it has a fresh
      neighbour. */
  lemma {:induction false} LatestAt(g: Graph, done: seq<Node>, k: nat, o: nat)
    requires o < k <= |done| && done[o] in g && FirstFresh(g[done[o]], done).Some?
    requires forall p :: o < p < k && done[p] in g ==> FirstFresh(g[done[p]], done).None?
    ensures LatestFresh(g, done, k) == FirstFresh(g[done[o]], done)
    decreases k
  {
    if o < k - 1 {
      LatestAt(g, done, k - 1, o);
    }
  }

  lemma Init(g: Graph, start: Node)
    ensures Outer(g, start, [start], [(0, 0)], {}, [])
  {
    StartWithin(g, start);
    WithinReachable(g, start, start, 0);
  }

  /** A fresh node on top of the stack is exactly the node depth-first order
      visits next. */
  lemma TopIsNext(g: Graph, start: Node, stack: seq<Node>, tags: seq<(nat, nat)>, visited: set<Node>, result: seq<Node>)
    requires Outer(g, start, stack, tags, visited, result)
    requires result != [] && stack != [] && stack[|stack| - 1] !in visited
    ensures DfsNext(g, result) == Some(stack[|stack| - 1])
  {
    TopFirst(g, stack, tags, result);
    LaterExhausted(g, stack, tags, result);
    LatestAt(g, result, |result|, tags[|tags| - 1].0);
  }

  /** The top entry is the first fresh neighbour of the node that pushed it. */
  lemma TopFirst(g: Graph, stack: seq<Node>, tags: seq<(nat, nat)>, result: seq<Node>)
    requires Tagged(g, stack, tags, result)
    requires result != [] && stack != [] && stack[|stack| - 1] !in result
    ensures var (o, q) := tags[|tags| - 1];
            o < |result| && result[o] in g && FirstFresh(g[result[o]], result) == Some(stack[|stack| - 1])
  {
    var top := |stack| - 1;
    var (o, q) := tags[top];
    assert stack[top] == g[result[o]][q];
    EarlierSeen(g, tags, result, o, q);
    FirstFreshAt(g[result[o]], result, q);
  }

  /** Every neighbour listed before the top entry's is visited: a fresh one
      would have a tag above the top. */
  lemma EarlierSeen(g: Graph, tags: seq<(nat, nat)>, result: seq<Node>, o: nat, q: nat)
    requires TagsOrdered(tags) && FreshOnStack(g, tags, result)
    requires tags != [] && tags[|tags| - 1] == (o, q)
    requires o < |result| && result[o] in g && q < |g[result[o]]|
    ensures forall p :: 0 <= p < q ==> g[result[o]][p] in result
  {
  }

  /** No node visited after that one has a fresh neighbour: its tag would
      lie above the top. */
  lemma LaterExhausted(g: Graph, stack: seq<Node>, tags: seq<(nat, nat)>, result: seq<Node>)
    requires Tagged(g, stack, tags, result)
    requires result != [] && stack != []
    ensures forall p :: tags[|tags| - 1].0 < p < |result| && result[p] in g ==> FirstFresh(g[result[p]], result).None?
  {
    forall p | tags[|tags| - 1].0 < p < |result| && result[p] in g
      ensures FirstFresh(g[result[p]], result).None?
    {
      LaterSeen(g, tags, result, p);
    }
  }

  lemma LaterSeen(g: Graph, tags: seq<(nat, nat)>, result: seq<Node>, p: nat)
    requires TagsOrdered(tags) && FreshOnStack(g, tags, result)
    requires tags != [] && tags[|tags| - 1].0 < p < |result| && result[p] in g
    ensures forall b :: b in g[result[p]] ==> b in result
  {
    forall b | b in g[result[p]]
      ensures b in result
    {
      var q :| 0 <= q < |g[result[p]]| && g[result[p]][q] == b;
    }
  }

  /** A top node that is neither visited nor a key is the first node
      depth-first order finds missing. */
  lemma MissingTop(g: Graph, start: Node, stack: seq<Node>, tags: seq<(nat, nat)>, visited: set<Node>, result: seq<Node>)
    requires Outer(g, start, stack, tags, visited, result)
    requires stack != [] && stack[|stack| - 1] !in visited && stack[|stack| - 1] !in g
    ensures FirstMissing(g, start, stack[|stack| - 1])
  {
    if result != [] {
      TopIsNext(g, start, stack, tags, visited, result);
    }
    VisitPrefix(g, result, stack[|stack| - 1]);
    assert DfsTrail(g, start, result + [stack[|stack| - 1]]);
  }

  /** Popping a node that was already visited. */
  lemma DropVisited(g: Graph, start: Node, stack: seq<Node>, tags: seq<(nat, nat)>, visited: set<Node>, result: seq<Node>)
    requires Outer(g, start, stack, tags, visited, result)
    requires stack != [] && stack[|stack| - 1] in visited
    ensures Outer(g, start, stack[..|stack| - 1], tags[..|tags| - 1], visited, result)
  {
    var stack', tags' := stack[..|stack| - 1], tags[..|tags| - 1];
    assert forall i :: 0 <= i < |stack'| ==> stack'[i] == stack[i];
    DropTagged(g, stack, tags, result);
  }

  lemma DropTagged(g: Graph, stack: seq<Node>, tags: seq<(nat, nat)>, result: seq<Node>)
    requires Tagged(g, stack, tags, result)
    requires stack != [] && stack[|stack| - 1] in result
    ensures Tagged(g, stack[..|stack| - 1], tags[..|tags| - 1], result)
  {
    var stack', tags' := stack[..|stack| - 1], tags[..|tags| - 1];
    assert forall i :: 0 <= i < |stack'| ==> stack'[i] == stack[i] && tags'[i] == tags[i];
    forall o, q | 0 <= o < |result| && result[o] in g && 0 <= q < |g[result[o]]| && g[result[o]][q] !in result
      ensures (o, q) in tags'
    {
      var s :| 0 <= s < |tags| && tags[s] == (o, q);
      assert s < |tags'|;
    }
  }

  /** What the inner loop pushes for `nbrs[j..]`: going through them
      backwards, each one not in `visited`. */
  function Pushes(nbrs: seq<Node>, visited: set<Node>, j: nat): seq<Node>
    requires j <= |nbrs|
    decreases |nbrs| - j
  {
    if j == |nbrs| then []
    else Pushes(nbrs, visited, j + 1) + (if nbrs[j] !in visited then [nbrs[j]] else [])
  }

  /** The tags of those pushes, for the node at position `o` of the result:
      one per push, naming the neighbour's position, decreasing towards the
      top, and one for every fresh neighbour. */
  function PushTags(nbrs: seq<Node>, visited: set<Node>, j: nat, o: nat): (ts: seq<(nat, nat)>)
    requires j <= |nbrs|
    ensures |ts| == |Pushes(nbrs, visited, j)|
    ensures forall t :: 0 <= t < |ts| ==>
              ts[t].0 == o && j <= ts[t].1 < |nbrs| && Pushes(nbrs, visited, j)[t] == nbrs[ts[t].1]
    ensures forall t, u :: 0 <= t < u < |ts| ==> ts[t].1 > ts[u].1
    ensures forall q :: j <= q < |nbrs| && nbrs[q] !in visited ==> (o, q) in ts
    decreases |nbrs| - j
  {
    if j == |nbrs| then []
    else if nbrs[j] !in visited then PushTags(nbrs, visited, j + 1, o) + [(o, j)]
    else PushTags(nbrs, visited, j + 1, o)
  }

  /** Visiting `y`, the fresh node on top: `y` is popped, marked and
      appended, and its fresh neighbours are pushed with their tags. */
  lemma Visit(g: Graph, start: Node, stack: seq<Node>, tags: seq<(nat, nat)>, visited: set<Node>, result: seq<Node>)
    requires Outer(g, start, stack, tags, visited, result)
    requires stack != [] && stack[|stack| - 1] !in visited && stack[|stack| - 1] in g
    ensures var y := stack[|stack| - 1];
            Outer(g, start, stack[..|stack| - 1] + Pushes(g[y], visited + {y}, 0),
                  tags[..|tags| - 1] + PushTags(g[y], visited + {y}, 0, |result|),
                  visited + {y}, result + [y])
  {
    var y := stack[|stack| - 1];
    var popped, visited', result' := stack[..|stack| - 1], visited + {y}, result + [y];
    var p := Pushes(g[y], visited', 0);
    var pt := PushTags(g[y], visited', 0, |result|);
    if result != [] {
      TopIsNext(g, start, stack, tags, visited, result);
    }
    VisitPrefix(g, result, y);
    VisitCommon(g, start, stack, visited, result);
    assert y in result';
    forall b | b in p
      ensures Reachable(g, start, b) && b in Mentioned(g, start)
    {
      var t :| 0 <= t < |p| && p[t] == b;
      assert b == g[y][pt[t].1];
      MentionedNeighbour(g, start, y, b);
      ReachableStep(g, start, y, b);
    }
    PushCommon(g, start, popped, visited', result', p);
    VisitTagged(g, stack, tags, visited, result);
  }

  lemma VisitPrefix(g: Graph, result: seq<Node>, y: Node)
    requires DfsPrefix(g, result)
    requires result != [] ==> DfsNext(g, result) == Some(y)
    ensures DfsPrefix(g, result + [y])
  {
    var result' := result + [y];
    forall i | 0 <= i < |result'| - 1
      ensures NextAt(g, result', i)
    {
      assert result'[..i + 1] == result[..i + 1];
      if i == |result| - 1 {
        assert result[..i + 1] == result;
      } else {
        assert NextAt(g, result, i);
      }
    }
  }

  lemma VisitCommon(g: Graph, start: Node, stack: seq<Node>, visited: set<Node>, result: seq<Node>)
    requires Common(g, start, stack, visited, result)
    requires stack != [] && stack[|stack| - 1] !in visited && stack[|stack| - 1] in g
    ensures Common(g, start, stack[..|stack| - 1], visited + {stack[|stack| - 1]}, result + [stack[|stack| - 1]])
  {
    var y := stack[|stack| - 1];
    var stack', result' := stack[..|stack| - 1], result + [y];
    assert forall i :: 0 <= i < |stack'| ==> stack'[i] == stack[i];
    forall i, j | 0 <= i < j < |result'|
      ensures result'[i] != result'[j]
    {
      assert result'[i] == result[i] && result[i] in visited;
    }
  }

  /** Pushing reachable, mentioned nodes keeps `Common`. */
  lemma PushCommon(g: Graph, start: Node, stack: seq<Node>, visited: set<Node>, result: seq<Node>, p: seq<Node>)
    requires Common(g, start, stack, visited, result) && result != []
    requires forall b :: b in p ==> Reachable(g, start, b) && b in Mentioned(g, start)
    ensures Common(g, start, stack + p, visited, result)
  {
    var stack' := stack + p;
    forall i | 0 <= i < |stack'|
      ensures Reachable(g, start, stack'[i]) && stack'[i] in Mentioned(g, start)
    {
      if i >= |stack| {
        assert stack'[i] == p[i - |stack|];
      } else {
        assert stack'[i] == stack[i];
      }
    }
  }

  /** The tags stay ordered, listed and complete across a visit. */
  lemma VisitTagged(g: Graph, stack: seq<Node>, tags: seq<(nat, nat)>, visited: set<Node>, result: seq<Node>)
    requires Tagged(g, stack, tags, result)
    requires forall x :: x in result <==> x in visited
    requires result == [] ==> |stack| == 1
    requires stack != [] && stack[|stack| - 1] !in visited && stack[|stack| - 1] in g
    ensures var y := stack[|stack| - 1];
            Tagged(g, stack[..|stack| - 1] + Pushes(g[y], visited + {y}, 0),
                   tags[..|tags| - 1] + PushTags(g[y], visited + {y}, 0, |result|), result + [y])
  {
    var y := stack[|stack| - 1];
    var pt := PushTags(g[y], visited + {y}, 0, |result|);
    assert forall s :: 0 <= s < |tags| - 1 ==> tags[s].0 < |result|;
    OrderedAppend(tags[..|tags| - 1], pt, |result|);
    ListedAppend(g, stack, tags, result, y, visited + {y});
    FreshAppend(g, stack, tags, visited, result);
  }

  lemma OrderedAppend(tags: seq<(nat, nat)>, pt: seq<(nat, nat)>, o: nat)
    requires TagsOrdered(tags)
    requires forall s :: 0 <= s < |tags| ==> tags[s].0 < o
    requires forall t :: 0 <= t < |pt| ==> pt[t].0 == o
    requires forall t, u :: 0 <= t < u < |pt| ==> pt[t].1 > pt[u].1
    ensures TagsOrdered(tags + pt)
  {
    var tags', n := tags + pt, |tags|;
    forall s, t | 0 <= s < t < |tags'|
      ensures tags'[s].0 <= tags'[t].0
      ensures tags'[s].0 == tags'[t].0 ==> tags'[s].1 > tags'[t].1
    {
      if t < n {
        assert tags'[s] == tags[s] && tags'[t] == tags[t];
      } else if s < n {
        assert tags'[s] == tags[s] && tags'[t] == pt[t - n];
      } else {
        assert tags'[s] == pt[s - n] && tags'[t] == pt[t - n];
      }
    }
  }

  lemma ListedAppend(g: Graph, stack: seq<Node>, tags: seq<(nat, nat)>, result: seq<Node>, y: Node, visited': set<Node>)
    requires |tags| == |stack| && stack != []
    requires result != [] ==> TagsListed(g, stack, tags, result)
    requires result == [] ==> |stack| == 1
    requires y in g
    ensures TagsListed(g, stack[..|stack| - 1] + Pushes(g[y], visited', 0),
                       tags[..|tags| - 1] + PushTags(g[y], visited', 0, |result|), result + [y])
  {
    var p := Pushes(g[y], visited', 0);
    var pt := PushTags(g[y], visited', 0, |result|);
    var stack', tags', result' := stack[..|stack| - 1] + p, tags[..|tags| - 1] + pt, result + [y];
    var n := |tags| - 1;
    forall s | 0 <= s < |stack'|
      ensures tags'[s].0 < |result'| && result'[tags'[s].0] in g && tags'[s].1 < |g[result'[tags'[s].0]]|
      ensures stack'[s] == g[result'[tags'[s].0]][tags'[s].1]
    {
      if s >= n {
        assert tags'[s] == pt[s - n] && stack'[s] == p[s - n];
      } else {
        assert tags'[s] == tags[s] && stack'[s] == stack[s];
        assert result'[tags[s].0] == result[tags[s].0];
      }
    }
  }

  lemma FreshAppend(g: Graph, stack: seq<Node>, tags: seq<(nat, nat)>, visited: set<Node>, result: seq<Node>)
    requires |tags| == |stack| && FreshOnStack(g, tags, result)
    requires result != [] ==> TagsListed(g, stack, tags, result)
    requires forall x :: x in result <==> x in visited
    requires stack != [] && stack[|stack| - 1] !in visited && stack[|stack| - 1] in g
    ensures var y := stack[|stack| - 1];
            FreshOnStack(g, tags[..|tags| - 1] + PushTags(g[y], visited + {y}, 0, |result|), result + [y])
  {
    var y := stack[|stack| - 1];
    var pt := PushTags(g[y], visited + {y}, 0, |result|);
    var tags', result' := tags[..|tags| - 1] + pt, result + [y];
    var n := |tags| - 1;
    forall o, q | 0 <= o < |result'| && result'[o] in g && 0 <= q < |g[result'[o]]| && g[result'[o]][q] !in result'
      ensures (o, q) in tags'
    {
      if o < |result| {
        assert result'[o] == result[o];
        var s :| 0 <= s < |tags| && tags[s] == (o, q);
        assert stack[s] == g[result[o]][q];
        assert s < n;
        assert tags'[s] == (o, q);
      } else {
        assert (o, q) in pt;
        var t :| 0 <= t < |pt| && pt[t] == (o, q);
        assert tags'[n + t] == (o, q);
      }
    }
  }

  /** The loop has ended with an empty stack: no visited node has a fresh
      neighbour, so the visited nodes are exactly the nodes reachable from
      the start, and depth-first order has nothing left to pick. */
  lemma Finished(g: Graph, start: Node, tags: seq<(nat, nat)>, visited: set<Node>, result: seq<Node>)
    requires Outer(g, start, [], tags, visited, result)
    ensures |result| >= 1 && result[0] == start
    ensures forall i, j :: 0 <= i < j < |result| ==> result[i] != result[j]
    ensures forall i :: 0 <= i < |result| ==> Reachable(g, start, result[i])
    ensures forall v :: Reachable(g, start, v) ==> v in result
    ensures forall v :: Reachable(g, start, v) ==> v in g
    ensures DfsOrder(g, result)
  {
    forall o, b | 0 <= o < |result| && result[o] in g && b in g[result[o]]
      ensures b in result
    {
      var q :| 0 <= q < |g[result[o]]| && g[result[o]][q] == b;
    }
    forall a, b | a in visited && Edge(g, a, b)
      ensures b in visited
    {
      var o :| 0 <= o < |result| && result[o] == a;
    }
    forall v | Reachable(g, start, v)
      ensures v in result
    {
      ClosedSetHoldsReachable(g, start, visited, v);
    }
    assert result[..|result|] == result;
  }

  /** The inner `for` loop over `reversed(graph[node])`: each neighbour not
      in `visited` is pushed. */
  method PushUnvisited(stack: seq<Node>, neighbors: seq<Node>, visited: set<Node>) returns (stack': seq<Node>)
    ensures stack' == stack + Pushes(neighbors, visited, 0)
  {
    stack' := stack;
    for k := 0 to |neighbors|
      invariant stack' == stack + Pushes(neighbors, visited, |neighbors| - k)
    {
      var neighbor := neighbors[|neighbors| - k - 1];
      if neighbor !in visited {
        stack' := stack' + [neighbor];
      }
    }
  }

  /** `dfs_iterative(graph, start)`. Pop from the top; a node not yet
      visited is marked, appended to the result, and its neighbours not yet
      visited are pushed in reverse order. Looking up a node that is not a
      key of `graph` raises `KeyError`, which ends the traversal.

      The result starts at `start`, has no repeats, holds only nodes
      reachable from `start` and, when no lookup fails, every such node, in
      depth-first order. A lookup fails exactly when some node reachable from
      `start` is not a key, and it fails at the first such node depth-first
      order reaches. */
  method DfsIterative(graph: Graph, start: Node) returns (r: Result<seq<Node>>)
    ensures r.Ok? ==> |r.value| >= 1 && r.value[0] == start
    ensures r.Ok? ==> forall i, j :: 0 <= i < j < |r.value| ==> r.value[i] != r.value[j]
    ensures r.Ok? ==> forall i :: 0 <= i < |r.value| ==> Reachable(graph, start, r.value[i])
    ensures r.Ok? ==> forall v :: Reachable(graph, start, v) ==> v in r.value
    ensures r.Ok? ==> DfsOrder(graph, r.value)
    ensures r.KeyError? ==> FirstMissing(graph, start, r.key) && Reachable(graph, start, r.key)
    ensures r.Ok? <==> forall v :: Reachable(graph, start, v) ==> v in graph
  {
    var visited: set<Node> := {};
    var stack := [start];
    var result: seq<Node> := [];
    ghost var tags: seq<(nat, nat)> := [(0, 0)];
    ghost var mentioned := Mentioned(graph, start);
    Init(graph, start);
    while stack != []
      invariant Outer(graph, start, stack, tags, visited, result)
      decreases |mentioned - visited|, |stack|
    {
      var node := stack[|stack| - 1];
      if node in visited {
        DropVisited(graph, start, stack, tags, visited, result);
        stack := stack[..|stack| - 1];
        tags := tags[..|tags| - 1];
      } else {
        if node !in graph {
          MissingTop(graph, start, stack, tags, visited, result);
          return KeyError(node);
        }
        Visit(graph, start, stack, tags, visited, result);
        VisitShrinks(mentioned, visited, node);
        tags := tags[..|tags| - 1] + PushTags(graph[node], visited + {node}, 0, |result|);
        stack := stack[..|stack| - 1];
        visited := visited + {node};
        result := result + [node];
        stack := PushUnvisited(stack, graph[node], visited);
      }
    }
    Finished(graph, start, tags, visited, result);
    return Ok(result);
  }

  /** Neighbours are pushed in reverse, so a visited node's first neighbour
      not yet visited is the very next node visited. */
  lemma FirstFreshIsNext(g: Graph, result: seq<Node>, i: nat)
    requires DfsOrder(g, result) && i < |result|
    requires result[i] in g && FirstFresh(g[result[i]], result[..i + 1]).Some?
    ensures i + 1 < |result| && result[i + 1] == FirstFresh(g[result[i]], result[..i + 1]).value
  {
    assert NextAt(g, result, i);
    assert result[..i + 1][i] == result[i];
  }

  /** The demonstration: from 'A' on the sample graph. */
  method DfsSample() returns (r: Result<seq<Node>>)
    ensures r == Ok(["A", "B", "D", "E", "F", "C"])
  {
    r := DfsIterative(SampleGraph(), "A");
    ClosedReachableKeys(SampleGraph(), "A");
    SampleOrder(r.value);
  }

  /** On the sample graph, depth-first order from 'A' is unique. */
  lemma SampleOrder(r: seq<Node>)
    requires |r| >= 1 && r[0] == "A" && DfsOrder(SampleGraph(), r)
    ensures r == ["A", "B", "D", "E", "F", "C"]
  {
    assert r[..1] == ["A"];
    SampleSteps1to3(r);
    SampleSteps4to6(r);
  }

  lemma SampleSteps1to3(r: seq<Node>)
    requires DfsOrder(SampleGraph(), r) && 0 < |r| && r[..1] == ["A"]
    ensures 3 < |r| && r[..4] == ["A", "B", "D", "E"]
  {
    var g := SampleGraph();
    SampleNext1();
    StepTo(g, r, 0, ["A"], "B");
    SampleNext2();
    StepTo(g, r, 1, ["A", "B"], "D");
    SampleNext3();
    StepTo(g, r, 2, ["A", "B", "D"], "E");
  }

  lemma SampleSteps4to6(r: seq<Node>)
    requires DfsOrder(SampleGraph(), r) && 3 < |r| && r[..4] == ["A", "B", "D", "E"]
    ensures r == ["A", "B", "D", "E", "F", "C"]
  {
    var g := SampleGraph();
    SampleNext4();
    StepTo(g, r, 3, ["A", "B", "D", "E"], "F");
    SampleNext5();
    StepTo(g, r, 4, ["A", "B", "D", "E", "F"], "C");
    SampleNext6();
    EndAt(g, r, 5, ["A", "B", "D", "E", "F", "C"]);
  }

  /** The last step: when `DfsNext` picks nothing after a prefix, the
      prefix is the whole order. */
  lemma EndAt(g: Graph, r: seq<Node>, i: nat, prefix: seq<Node>)
    requires DfsOrder(g, r) && i < |r| && r[..i + 1] == prefix
    requires DfsNext(g, prefix) == None
    ensures r == prefix
  {
    assert NextAt(g, r, i);
    assert r == r[..i + 1];
  }

  /** One step of depth-first order: what `DfsNext` picks after a prefix is
      the next element. */
  lemma StepTo(g: Graph, r: seq<Node>, i: nat, prefix: seq<Node>, next: Node)
    requires DfsOrder(g, r) && i < |r| && r[..i + 1] == prefix
    requires DfsNext(g, prefix) == Some(next)
    ensures i + 1 < |r| && r[..i + 2] == prefix + [next]
  {
    assert NextAt(g, r, i);
    assert r[..i + 2] == r[..i + 1] + [r[i + 1]];
  }

  lemma SampleNext1()
    ensures DfsNext(SampleGraph(), ["A"]) == Some("B")
  {
  }

  lemma SampleNext2()
    ensures DfsNext(SampleGraph(), ["A", "B"]) == Some("D")
  {
  }

  lemma SampleNext3()
    ensures DfsNext(SampleGraph(), ["A", "B", "D"]) == Some("E")
  {
    var g, done := SampleGraph(), ["A", "B", "D"];
    assert g["D"] == [] && g["B"] == ["D", "E"];
    assert FirstFresh(g["B"], done) == Some("E");
    assert LatestFresh(g, done, 3) == LatestFresh(g, done, 2);
  }

  lemma SampleNext4()
    ensures DfsNext(SampleGraph(), ["A", "B", "D", "E"]) == Some("F")
  {
    var g, done := SampleGraph(), ["A", "B", "D", "E"];
    assert g["E"] == ["F"];
    assert FirstFresh(g["E"], done) == Some("F");
  }

  lemma SampleNext5()
    ensures DfsNext(SampleGraph(), ["A", "B", "D", "E", "F"]) == Some("C")
  {
    var g, done := SampleGraph(), ["A", "B", "D", "E", "F"];
    assert g["F"] == [] && g["E"] == ["F"] && g["D"] == [] && g["B"] == ["D", "E"] && g["A"] == ["B", "C"];
    assert FirstFresh(g["E"], done) == None;
    assert FirstFresh(g["B"], done) == None;
    assert FirstFresh(g["A"], done) == Some("C");
    assert LatestFresh(g, done, 5) == LatestFresh(g, done, 4) == LatestFresh(g, done, 3) == LatestFresh(g, done, 2) == LatestFresh(g, done, 1);
  }

  lemma SampleNext6()
    ensures DfsNext(SampleGraph(), ["A", "B", "D", "E", "F", "C"]) == None
  {
    var g, done := SampleGraph(), ["A", "B", "D", "E", "F", "C"];
    assert forall x :: x in g ==> x in done;
  }
}
