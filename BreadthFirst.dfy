/** BreadthFirst.py: breadth-first traversal with a FIFO queue, a visited
    set and a result list.

    The proof gives every queue entry two ghost annotations. A level: the
    start is queued at level 0 and a neighbour is queued one level above the
    node that queued it; levels along the queue never decrease and span at
    most one, so nodes are visited level by level, and each node's level
    bounds its hop distance from the start from both sides. And a tag
    `(o, q)`: the entry is neighbour `q` of `result[o]`; tags ascend along
    the queue, so the front is always the node breadth-first order picks
    next. */
module BreadthFirst {
  import opened Wrappers
  import opened Graphs

  /** Breadth-first order, independently of any queue: after visiting
      `done`, the next node is the first fresh neighbour of the earliest
      node of `done[k..]` that still has a fresh neighbour. */
  function EarliestFresh(g: Graph, done: seq<Node>, k: nat): (r: Option<Node>)
    requires k <= |done|
    ensures r.Some? ==> r.value !in done
    ensures r.None? <==> forall o, b :: k <= o < |done| && done[o] in g && b in g[done[o]] ==> b in done
    decreases |done| - k
  {
    if k == |done| then None
    else if done[k] in g && FirstFresh(g[done[k]], done).Some? then FirstFresh(g[done[k]], done)
    else EarliestFresh(g, done, k + 1)
  }

  /** The node breadth-first order visits after `done`, if any. */
  function BfsNext(g: Graph, done: seq<Node>): Option<Node>
  {
    EarliestFresh(g, done, 0)
  }

  /** What `BfsNext` picks after `result[..i + 1]` is what `result` holds
      next: `result[i + 1]`, or nothing when `result[i]` is the last. */
  ghost predicate NextAt(g: Graph, result: seq<Node>, i: nat)
    requires i < |result|
  {
    BfsNext(g, result[..i + 1]) == (if i + 1 < |result| then Some(result[i + 1]) else None)
  }

  /** `result` is in breadth-first order. */
  ghost predicate BfsOrder(g: Graph, result: seq<Node>)
  {
    forall i :: 0 <= i < |result| ==> NextAt(g, result, i)
  }

  /** The same for every node but the last. */
  ghost predicate BfsPrefix(g: Graph, result: seq<Node>)
  {
    forall i :: 0 <= i < |result| - 1 ==> NextAt(g, result, i)
  }

  /** `trail` is how breadth-first order from `start` begins: it starts at
      `start`, every node but the last is a key of `g`, and each later node
      is the one `BfsNext` picks after the nodes before it. */
  ghost predicate BfsTrail(g: Graph, start: Node, trail: seq<Node>)
  {
    && |trail| >= 1 && trail[0] == start
    && (forall i :: 0 <= i < |trail| - 1 ==> trail[i] in g)
    && BfsPrefix(g, trail)
  }

  /** `key` is the first node breadth-first order from `start` reaches that
      is not a key of `g`: the node whose lookup raises `KeyError`. */
  ghost predicate FirstMissing(g: Graph, start: Node, key: Node)
  {
    key !in g && exists trail :: BfsTrail(g, start, trail) && trail[|trail| - 1] == key
  }

  /** Two trails agree wherever both are defined. */
  lemma {:induction false} TrailsAgree(g: Graph, start: Node, t1: seq<Node>, t2: seq<Node>, i: nat)
    requires BfsTrail(g, start, t1) && BfsTrail(g, start, t2)
    requires i < |t1| && i < |t2|
    ensures t1[..i + 1] == t2[..i + 1]
  {
    if i > 0 {
      TrailsAgree(g, start, t1, t2, i - 1);
      assert NextAt(g, t1, i - 1) && NextAt(g, t2, i - 1);
      assert t1[..i + 1] == t1[..i] + [t1[i]];
      assert t2[..i + 1] == t2[..i] + [t2[i]];
    }
  }

  /** The node a failing traversal names is determined: only one node can
      be the first one missing. */
  lemma MissingUnique(g: Graph, start: Node, k1: Node, k2: Node)
    requires FirstMissing(g, start, k1) && FirstMissing(g, start, k2)
    ensures k1 == k2
  {
    var t1 :| BfsTrail(g, start, t1) && t1[|t1| - 1] == k1;
    var t2 :| BfsTrail(g, start, t2) && t2[|t2| - 1] == k2;
    var m := if |t1| <= |t2| then |t1| - 1 else |t2| - 1;
    TrailsAgree(g, start, t1, t2, m);
    assert t1[m] == t1[..m + 1][m] == t2[..m + 1][m] == t2[m];
  }

  /** `b` is waiting in the queue with a level of at most `bound`. */
  ghost predicate Pending(queue: seq<Node>, levels: seq<nat>, b: Node, bound: nat)
    requires |levels| == |queue|
  {
    exists i :: 0 <= i < |queue| && queue[i] == b && levels[i] <= bound
  }

  /** The edge from the visited node `a` to `b` is taken care of: `b` is
      visited at most one level above `a`, or waits in the queue to be. */
  ghost predicate Settled(queue: seq<Node>, levels: seq<nat>, level: map<Node, nat>, a: Node, b: Node)
    requires |levels| == |queue| && a in level
  {
    (b in level && level[b] <= level[a] + 1) || Pending(queue, levels, b, level[a] + 1)
  }

  /** What holds between any two steps of `bfs`. `levels` runs parallel to
      `queue`; `level` records the level each visited node was visited at. */
  ghost predicate Common(g: Graph, start: Node, queue: seq<Node>, levels: seq<nat>,
                         visited: set<Node>, level: map<Node, nat>, result: seq<Node>)
  {
    && Shape(start, queue, levels, visited, level, result)
    && Sound(g, start, queue, levels, level)
    && Ordered(levels, level, result)
    && Bounded(g, start, queue, visited)
  }

  /** `result` lists the visited nodes without repeats, starting at `start`. */
  ghost predicate Shape(start: Node, queue: seq<Node>, levels: seq<nat>,
                        visited: set<Node>, level: map<Node, nat>, result: seq<Node>)
  {
    && |levels| == |queue|
    && visited == level.Keys
    && (forall x :: x in result <==> x in visited)
    && (forall i, j :: 0 <= i < j < |result| ==> result[i] != result[j])
    && (result == [] ==> queue == [start] && levels == [0])
    && (result != [] ==> result[0] == start && start in level && level[start] == 0)
  }

  /** Every level is the length of some walk from the start. */
  ghost predicate Sound(g: Graph, start: Node, queue: seq<Node>, levels: seq<nat>, level: map<Node, nat>)
  {
    && |levels| == |queue|
    && (forall i :: 0 <= i < |queue| ==> WithinHops(g, start, queue[i], levels[i]))
    && (forall x :: x in level ==> WithinHops(g, start, x, level[x]))
  }

  /** Nodes were visited in order of level, and none above a level still
      queued. */
  ghost predicate Ordered(levels: seq<nat>, level: map<Node, nat>, result: seq<Node>)
  {
    && (forall i, j :: 0 <= i < j < |result| && result[i] in level && result[j] in level ==>
          level[result[i]] <= level[result[j]])
    && (forall x, i :: x in level && 0 <= i < |levels| ==> level[x] <= levels[i])
  }

  /** Visited nodes are keys, and everything is drawn from a finite set. */
  ghost predicate Bounded(g: Graph, start: Node, queue: seq<Node>, visited: set<Node>)
  {
    && (forall x :: x in visited ==> x in g)
    && visited <= Mentioned(g, start)
    && (forall i :: 0 <= i < |queue| ==> queue[i] in Mentioned(g, start))
  }

  /** Levels along the queue never decrease and span at most one. */
  ghost predicate Spread(levels: seq<nat>)
  {
    forall i, j :: 0 <= i <= j < |levels| ==> levels[i] <= levels[j] <= levels[i] + 1
  }

  /** `n` queue levels, all equal to `l`. */
  function Raised(n: nat, l: nat): (s: seq<nat>)
    ensures |s| == n && forall i :: 0 <= i < n ==> s[i] == l
  {
    seq(n, _ => l)
  }

  /** Every edge out of a visited node is settled. */
  ghost predicate AllSettled(g: Graph, queue: seq<Node>, levels: seq<nat>, level: map<Node, nat>)
    requires |levels| == |queue|
  {
    forall a, b :: a in level && a in g && b in g[a] ==> Settled(queue, levels, level, a, b)
  }

  /** No visited node has a level above `lv`. */
  ghost predicate VisitedAtMost(level: map<Node, nat>, lv: nat)
  {
    forall y :: y in level ==> level[y] <= lv
  }

  /** Tags ascend along the queue: entries of earlier nodes come first, and
      a node's entries come in list order. */
  ghost predicate TagsOrdered(tags: seq<(nat, nat)>)
  {
    && (forall s, t :: 0 <= s < t < |tags| ==> tags[s].0 <= tags[t].0)
    && (forall s, t :: 0 <= s < t < |tags| && tags[s].0 == tags[t].0 ==> tags[s].1 < tags[t].1)
  }

  /** The entry tagged `(o, q)` is neighbour `q` of `result[o]`. */
  ghost predicate TagsListed(g: Graph, queue: seq<Node>, tags: seq<(nat, nat)>, result: seq<Node>)
    requires |tags| == |queue|
  {
    forall s :: 0 <= s < |queue| ==>
      tags[s].0 < |result| && result[tags[s].0] in g && tags[s].1 < |g[result[tags[s].0]]| &&
      queue[s] == g[result[tags[s].0]][tags[s].1]
  }

  /** Every neighbour of a visited node that is not visited yet still waits
      in the queue with its tag. */
  ghost predicate FreshQueued(g: Graph, tags: seq<(nat, nat)>, result: seq<Node>)
  {
    forall o, q :: 0 <= o < |result| && result[o] in g && 0 <= q < |g[result[o]]| && g[result[o]][q] !in result ==>
      (o, q) in tags
  }

  ghost predicate Tagged(g: Graph, queue: seq<Node>, tags: seq<(nat, nat)>, result: seq<Node>)
  {
    && |tags| == |queue|
    && TagsOrdered(tags)
    && (result != [] ==> TagsListed(g, queue, tags, result))
    && FreshQueued(g, tags, result)
  }

  /** The invariant of the `while` loop. */
  ghost predicate Outer(g: Graph, start: Node, queue: seq<Node>, levels: seq<nat>, tags: seq<(nat, nat)>,
                        visited: set<Node>, level: map<Node, nat>, result: seq<Node>)
  {
    && Common(g, start, queue, levels, visited, level, result)
    && Spread(levels)
    && AllSettled(g, queue, levels, level)
    && Tagged(g, queue, tags, result)
    && BfsPrefix(g, result)
  }

  lemma Init(g: Graph, start: Node)
    ensures Outer(g, start, [start], [0], [(0, 0)], {}, map[], [])
  {
    StartWithin(g, start);
  }

  /** `EarliestFresh` finds node `o` when nothing before it has a fresh
      neighbour. */
  lemma {:induction false} EarliestAt(g: Graph, done: seq<Node>, k: nat, o: nat)
    requires k <= o < |done| && done[o] in g && FirstFresh(g[done[o]], done).Some?
    requires forall p :: k <= p < o && done[p] in g ==> FirstFresh(g[done[p]], done).None?
    ensures EarliestFresh(g, done, k) == FirstFresh(g[done[o]], done)
    decreases o - k
  {
    if k < o {
      EarliestAt(g, done, k + 1, o);
    }
  }

  /** A fresh node at the front of the queue is exactly the node
      breadth-first order visits next. */
  lemma FrontIsNext(g: Graph, queue: seq<Node>, tags: seq<(nat, nat)>, result: seq<Node>)
    requires Tagged(g, queue, tags, result)
    requires result != [] && queue != [] && queue[0] !in result
    ensures BfsNext(g, result) == Some(queue[0])
  {
    FrontFirst(g, queue, tags, result);
    EarlierExhausted(g, queue, tags, result);
    EarliestAt(g, result, 0, tags[0].0);
  }

  /** The front entry is the first fresh neighbour of the node that queued it. */
  lemma FrontFirst(g: Graph, queue: seq<Node>, tags: seq<(nat, nat)>, result: seq<Node>)
    requires Tagged(g, queue, tags, result)
    requires result != [] && queue != [] && queue[0] !in result
    ensures var (o, q) := tags[0];
            o < |result| && result[o] in g && FirstFresh(g[result[o]], result) == Some(queue[0])
  {
    var (o, q) := tags[0];
    assert queue[0] == g[result[o]][q];
    EarlierSeen(g, tags, result, o, q);
    FirstFreshAt(g[result[o]], result, q);
  }

  /** Every neighbour listed before the front entry's is visited: a fresh
      one would have a tag before the front. */
  lemma EarlierSeen(g: Graph, tags: seq<(nat, nat)>, result: seq<Node>, o: nat, q: nat)
    requires TagsOrdered(tags) && FreshQueued(g, tags, result)
    requires tags != [] && tags[0] == (o, q)
    requires o < |result| && result[o] in g && q < |g[result[o]]|
    ensures forall p :: 0 <= p < q ==> g[result[o]][p] in result
  {
  }

  /** No node visited before that one has a fresh neighbour: its tag would
      come before the front. */
  lemma EarlierExhausted(g: Graph, queue: seq<Node>, tags: seq<(nat, nat)>, result: seq<Node>)
    requires Tagged(g, queue, tags, result)
    requires result != [] && queue != []
    ensures forall p :: 0 <= p < tags[0].0 && p < |result| && result[p] in g ==> FirstFresh(g[result[p]], result).None?
  {
    forall p | 0 <= p < tags[0].0 && p < |result| && result[p] in g
      ensures FirstFresh(g[result[p]], result).None?
    {
      EarlierNodeSeen(g, tags, result, p);
    }
  }

  lemma EarlierNodeSeen(g: Graph, tags: seq<(nat, nat)>, result: seq<Node>, p: nat)
    requires TagsOrdered(tags) && FreshQueued(g, tags, result)
    requires tags != [] && p < tags[0].0 && p < |result| && result[p] in g
    ensures forall b :: b in g[result[p]] ==> b in result
  {
    forall b | b in g[result[p]]
      ensures b in result
    {
      var q :| 0 <= q < |g[result[p]]| && g[result[p]][q] == b;
    }
  }

  /** Removing the front entry keeps an edge settled when the front node is
      (now) visited no higher than its entry's level. */
  lemma SettledDrop(queue: seq<Node>, levels: seq<nat>, level: map<Node, nat>, level': map<Node, nat>, a: Node, b: Node)
    requires |levels| == |queue| && queue != [] && a in level
    requires Settled(queue, levels, level, a, b)
    requires forall y :: y in level ==> y in level' && level'[y] == level[y]
    requires queue[0] in level' && level'[queue[0]] <= levels[0]
    ensures Settled(queue[1..], levels[1..], level', a, b)
  {
    if !(b in level && level[b] <= level[a] + 1) {
      var i :| 0 <= i < |queue| && queue[i] == b && levels[i] <= level[a] + 1;
      if i > 0 {
        assert queue[1..][i - 1] == b && levels[1..][i - 1] == levels[i];
      }
    }
  }

  /** Appending to the queue keeps an edge settled. */
  lemma SettledAppend(queue: seq<Node>, levels: seq<nat>, level: map<Node, nat>, a: Node, b: Node, p: seq<Node>, l: nat)
    requires |levels| == |queue| && a in level
    requires Settled(queue, levels, level, a, b)
    ensures Settled(queue + p, levels + Raised(|p|, l), level, a, b)
  {
    if !(b in level && level[b] <= level[a] + 1) {
      var i :| 0 <= i < |queue| && queue[i] == b && levels[i] <= level[a] + 1;
      assert (queue + p)[i] == b && (levels + Raised(|p|, l))[i] == levels[i];
    }
  }

  /** Dequeuing a node that was already visited. */
  lemma DropVisited(g: Graph, start: Node, queue: seq<Node>, levels: seq<nat>, tags: seq<(nat, nat)>,
                    visited: set<Node>, level: map<Node, nat>, result: seq<Node>,
                    queue': seq<Node>, levels': seq<nat>, tags': seq<(nat, nat)>)
    requires Outer(g, start, queue, levels, tags, visited, level, result)
    requires queue != [] && queue[0] in visited
    requires queue' == queue[1..] && levels' == levels[1..] && tags' == tags[1..]
    ensures Outer(g, start, queue', levels', tags', visited, level, result)
  {
    forall a, b | a in level && a in g && b in g[a]
      ensures Settled(queue[1..], levels[1..], level, a, b)
    {
      SettledDrop(queue, levels, level, level, a, b);
    }
    DropTagged(g, queue, tags, result);
  }

  lemma DropTagged(g: Graph, queue: seq<Node>, tags: seq<(nat, nat)>, result: seq<Node>)
    requires Tagged(g, queue, tags, result)
    requires queue != [] && queue[0] in result
    ensures Tagged(g, queue[1..], tags[1..], result)
  {
    var queue', tags' := queue[1..], tags[1..];
    assert forall i :: 0 <= i < |queue'| ==> queue'[i] == queue[i + 1] && tags'[i] == tags[i + 1];
    forall o, q | 0 <= o < |result| && result[o] in g && 0 <= q < |g[result[o]]| && g[result[o]][q] !in result
      ensures (o, q) in tags'
    {
      var s :| 0 <= s < |tags| && tags[s] == (o, q);
      assert tags'[s - 1] == (o, q);
    }
  }

  /** What the inner loop appends for `nbrs[..k]`: in order, each one not in
      `visited`. */
  function AppendsTo(nbrs: seq<Node>, visited: set<Node>, k: nat): seq<Node>
    requires k <= |nbrs|
  {
    if k == 0 then []
    else AppendsTo(nbrs, visited, k - 1) + (if nbrs[k - 1] !in visited then [nbrs[k - 1]] else [])
  }

  /** The tags of those entries, for the node at position `o` of the result:
      one per entry, naming the neighbour's position, ascending, and one for
      every fresh neighbour. */
  function AppendTags(nbrs: seq<Node>, visited: set<Node>, k: nat, o: nat): (ts: seq<(nat, nat)>)
    requires k <= |nbrs|
    ensures |ts| == |AppendsTo(nbrs, visited, k)|
    ensures forall t :: 0 <= t < |ts| ==>
              ts[t].0 == o && ts[t].1 < k && AppendsTo(nbrs, visited, k)[t] == nbrs[ts[t].1]
    ensures forall t, u :: 0 <= t < u < |ts| ==> ts[t].1 < ts[u].1
    ensures forall q :: 0 <= q < k && nbrs[q] !in visited ==> (o, q) in ts
  {
    if k == 0 then []
    else if nbrs[k - 1] !in visited then AppendTags(nbrs, visited, k - 1, o) + [(o, k - 1)]
    else AppendTags(nbrs, visited, k - 1, o)
  }

  /** Dequeuing `x`, a node not yet visited: it is visited at the level of
      its queue entry, the lowest in the queue, and its fresh neighbours are
      queued one level above, with their tags. */
  lemma Visit(g: Graph, start: Node, queue: seq<Node>, levels: seq<nat>, tags: seq<(nat, nat)>,
              visited: set<Node>, level: map<Node, nat>, result: seq<Node>,
              queue': seq<Node>, levels': seq<nat>, tags': seq<(nat, nat)>,
              visited': set<Node>, level': map<Node, nat>, result': seq<Node>)
    requires Outer(g, start, queue, levels, tags, visited, level, result)
    requires queue != [] && queue[0] !in visited && queue[0] in g
    requires visited' == visited + {queue[0]} && level' == level[queue[0] := levels[0]] && result' == result + [queue[0]]
    requires queue' == queue[1..] + AppendsTo(g[queue[0]], visited', |g[queue[0]]|)
    requires levels' == levels[1..] + Raised(|AppendsTo(g[queue[0]], visited', |g[queue[0]]|)|, levels[0] + 1)
    requires tags' == tags[1..] + AppendTags(g[queue[0]], visited', |g[queue[0]]|, |result|)
    ensures Outer(g, start, queue', levels', tags', visited', level', result')
  {
    var p := AppendsTo(g[queue[0]], visited', |g[queue[0]]|);
    VisitAppend(g, start, queue, levels, visited, level, result, p);
    AppendSpread(levels, |p|);
    VisitSettled(g, queue, levels, level, p);
    VisitOrder(g, queue, tags, visited, result);
  }

  /** A visit keeps `Common`: the visited node joins at the level of its
      entry, and its fresh neighbours are queued one level above it. */
  lemma VisitAppend(g: Graph, start: Node, queue: seq<Node>, levels: seq<nat>,
                    visited: set<Node>, level: map<Node, nat>, result: seq<Node>, p: seq<Node>)
    requires Common(g, start, queue, levels, visited, level, result) && Spread(levels)
    requires queue != [] && queue[0] !in visited && queue[0] in g
    requires p == AppendsTo(g[queue[0]], visited + {queue[0]}, |g[queue[0]]|)
    ensures Common(g, start, queue[1..] + p, levels[1..] + Raised(|p|, levels[0] + 1),
                   visited + {queue[0]}, level[queue[0] := levels[0]], result + [queue[0]])
  {
    var x, lv := queue[0], levels[0];
    var visited', level', result' := visited + {x}, level[x := lv], result + [x];
    VisitCommon(g, start, queue, levels, visited, level, result);
    AppendedWithin(g, start, x, lv, visited', p);
    AppendCommon(g, start, queue[1..], levels[1..], visited', level', result', p, lv + 1);
  }  /** Every node queued by a visit of `x` at level `lv` is within `lv + 1`
      hops of the start. */
  lemma AppendedWithin(g: Graph, start: Node, x: Node, lv: nat, visited': set<Node>, p: seq<Node>)
    requires WithinHops(g, start, x, lv) && x in g
    requires p == AppendsTo(g[x], visited', |g[x]|)
    ensures forall b :: b in p ==> WithinHops(g, start, b, lv + 1) && b in Mentioned(g, start)
  {
    var pt := AppendTags(g[x], visited', |g[x]|, 0);
    forall b | b in p
      ensures WithinHops(g, start, b, lv + 1) && b in Mentioned(g, start)
    {
      var t :| 0 <= t < |p| && p[t] == b;
      assert b == g[x][pt[t].1];
      MentionedNeighbour(g, start, x, b);
      ExtendWithin(g, start, x, b, lv);
    }
  }

  /** A front node that is neither visited nor a key is the first node
      breadth-first order finds missing. */
  lemma MissingFront(g: Graph, start: Node, queue: seq<Node>, levels: seq<nat>, tags: seq<(nat, nat)>,
                     visited: set<Node>, level: map<Node, nat>, result: seq<Node>)
    requires Outer(g, start, queue, levels, tags, visited, level, result)
    requires queue != [] && queue[0] !in visited && queue[0] !in g
    ensures FirstMissing(g, start, queue[0])
  {
    assert forall i :: 0 <= i < |result| ==> result[i] in g by {
      assert Shape(start, queue, levels, visited, level, result) && Bounded(g, start, queue, visited);
    }
    MissingTrail(g, start, queue, tags, result);
  }

  lemma MissingTrail(g: Graph, start: Node, queue: seq<Node>, tags: seq<(nat, nat)>, result: seq<Node>)
    requires Tagged(g, queue, tags, result) && BfsPrefix(g, result)
    requires result == [] ==> queue == [start]
    requires result != [] ==> result[0] == start
    requires forall i :: 0 <= i < |result| ==> result[i] in g
    requires queue != [] && queue[0] !in result && queue[0] !in g
    ensures FirstMissing(g, start, queue[0])
  {
    if result != [] {
      FrontIsNext(g, queue, tags, result);
    }
    VisitPrefix(g, result, queue[0]);
    assert BfsTrail(g, start, result + [queue[0]]);
  }

  /** The order half of a visit: the dequeued node is the one breadth-first
      order picks, and the tags follow the queue. */
  lemma VisitOrder(g: Graph, queue: seq<Node>, tags: seq<(nat, nat)>, visited: set<Node>, result: seq<Node>)
    requires Tagged(g, queue, tags, result) && BfsPrefix(g, result)
    requires forall x :: x in result <==> x in visited
    requires result == [] ==> |queue| == 1
    requires queue != [] && queue[0] !in visited && queue[0] in g
    ensures var x := queue[0];
            && Tagged(g, queue[1..] + AppendsTo(g[x], visited + {x}, |g[x]|),
                      tags[1..] + AppendTags(g[x], visited + {x}, |g[x]|, |result|), result + [x])
            && BfsPrefix(g, result + [x])
  {
    if result != [] {
      FrontIsNext(g, queue, tags, result);
    }
    VisitPrefix(g, result, queue[0]);
    VisitTagged(g, queue, tags, visited, result);
  }

  lemma VisitPrefix(g: Graph, result: seq<Node>, y: Node)
    requires BfsPrefix(g, result)
    requires result != [] ==> BfsNext(g, result) == Some(y)
    ensures BfsPrefix(g, result + [y])
  {
    var result' := result + [y];
    forall i | 0 <= i < |result'| - 1
      ensures NextAt(g, result', i)
    {
      assert result'[..i + 1] == result[..i + 1];
      if i == |result| - 1 {
        assert result[..i + 1] == result;
      } else {
        assert NextAt(g, result, i);
      }
    }
  }

  lemma VisitCommon(g: Graph, start: Node, queue: seq<Node>, levels: seq<nat>,
                    visited: set<Node>, level: map<Node, nat>, result: seq<Node>)
    requires Common(g, start, queue, levels, visited, level, result)
    requires Spread(levels)
    requires queue != [] && queue[0] !in visited && queue[0] in g
    ensures Common(g, start, queue[1..], levels[1..], visited + {queue[0]},
                   level[queue[0] := levels[0]], result + [queue[0]] )
    ensures forall i :: 0 <= i < |levels[1..]| ==> levels[0] <= levels[1..][i] <= levels[0] + 1
    ensures VisitedAtMost(level[queue[0] := levels[0]], levels[0])
  {
    var x, lv := queue[0], levels[0];
    VisitShape(start, queue, levels, visited, level, result);
    VisitOrdered(queue, levels, level, result);
    assert Sound(g, start, queue[1..], levels[1..], level[x := lv]);
    assert Bounded(g, start, queue[1..], visited + {x});
  }

  lemma VisitShape(start: Node, queue: seq<Node>, levels: seq<nat>,
                   visited: set<Node>, level: map<Node, nat>, result: seq<Node>)
    requires Shape(start, queue, levels, visited, level, result)
    requires queue != [] && queue[0] !in visited
    ensures Shape(start, queue[1..], levels[1..], visited + {queue[0]}, level[queue[0] := levels[0]], result + [queue[0]])
  {
    var result' := result + [queue[0]];
    forall i, j | 0 <= i < j < |result'|
      ensures result'[i] != result'[j]
    {
      assert result'[i] == result[i] && result[i] in visited;
    }
  }

  lemma VisitOrdered(queue: seq<Node>, levels: seq<nat>, level: map<Node, nat>, result: seq<Node>)
    requires Ordered(levels, level, result) && queue != [] && |levels| == |queue|
    requires forall y :: y in result ==> y in level
    requires queue[0] !in level
    requires Spread(levels)
    ensures Ordered(levels[1..], level[queue[0] := levels[0]], result + [queue[0]])
    ensures VisitedAtMost(level[queue[0] := levels[0]], levels[0])
  {
    var x, lv := queue[0], levels[0];
    var level', result' := level[x := lv], result + [x];
    forall i, j | 0 <= i < j < |result'| && result'[i] in level' && result'[j] in level'
      ensures level'[result'[i]] <= level'[result'[j]]
    {
      assert result'[i] == result[i] && result[i] in level && result[i] != x;
      if j < |result| {
        assert result'[j] == result[j] && result[j] != x;
      } else {
        assert level[result[i]] <= levels[0];
      }
    }
  }

  /** Appending nodes at level `l`, each within `l` hops, no visited node
      being above `l`, keeps `Common`. */
  lemma AppendCommon(g: Graph, start: Node, queue: seq<Node>, levels: seq<nat>,
                     visited: set<Node>, level: map<Node, nat>, result: seq<Node>, p: seq<Node>, l: nat)
    requires Common(g, start, queue, levels, visited, level, result)
    requires result != [] && VisitedAtMost(level, l)
    requires forall b :: b in p ==> WithinHops(g, start, b, l) && b in Mentioned(g, start)
    ensures Common(g, start, queue + p, levels + Raised(|p|, l), visited, level, result)
  {
    var queue', levels' := queue + p, levels + Raised(|p|, l);
    forall i | 0 <= i < |queue'|
      ensures WithinHops(g, start, queue'[i], levels'[i]) && queue'[i] in Mentioned(g, start)
    {
      if i >= |queue| {
        assert queue'[i] == p[i - |queue|] && levels'[i] == l;
      } else {
        assert queue'[i] == queue[i] && levels'[i] == levels[i];
      }
    }
    assert Ordered(levels', level, result);
  }

  lemma AppendSpread(levels: seq<nat>, n: nat)
    requires Spread(levels) && levels != []
    ensures Spread(levels[1..] + Raised(n, levels[0] + 1))
  {
    assert forall i :: 0 <= i < |levels| - 1 ==> levels[1..][i] == levels[i + 1];
  }
  /** After the visit every edge out of a visited node is settled: those of
      `x` because its fresh neighbours were queued one level above it. */
  lemma VisitSettled(g: Graph, queue: seq<Node>, levels: seq<nat>, level: map<Node, nat>, p: seq<Node>)
    requires |levels| == |queue| && queue != [] && AllSettled(g, queue, levels, level)
    requires queue[0] in g && queue[0] !in level
    requires VisitedAtMost(level, levels[0])
    requires p == AppendsTo(g[queue[0]], level.Keys + {queue[0]}, |g[queue[0]]|)
    ensures AllSettled(g, queue[1..] + p, levels[1..] + Raised(|p|, levels[0] + 1), level[queue[0] := levels[0]])
  {
    var x, lv := queue[0], levels[0];
    var level' := level[x := lv];
    forall a, b | a in level' && a in g && b in g[a]
      ensures Settled(queue[1..] + p, levels[1..] + Raised(|p|, lv + 1), level', a, b)
    {
      if a != x {
        SettledDrop(queue, levels, level, level', a, b);
        SettledAppend(queue[1..], levels[1..], level', a, b, p, lv + 1);
      } else {
        SettledOwn(g, queue, levels, level, p, b);
      }
    }
  }

  /** An edge out of the node just visited is settled: its end is visited,
      or was queued one level above. */
  lemma SettledOwn(g: Graph, queue: seq<Node>, levels: seq<nat>, level: map<Node, nat>, p: seq<Node>, b: Node)
    requires |levels| == |queue| && queue != [] && queue[0] in g && b in g[queue[0]]
    requires VisitedAtMost(level, levels[0])
    requires p == AppendsTo(g[queue[0]], level.Keys + {queue[0]}, |g[queue[0]]|)
    ensures Settled(queue[1..] + p, levels[1..] + Raised(|p|, levels[0] + 1), level[queue[0] := levels[0]], queue[0], b)
  {
    var x, lv := queue[0], levels[0];
    var level' := level[x := lv];
    if b in level || b == x {
      assert b in level' && level'[b] <= level'[x] + 1;
    } else {
      var pt := AppendTags(g[x], level.Keys + {x}, |g[x]|, 0);
      var q :| 0 <= q < |g[x]| && g[x][q] == b;
      assert (0, q) in pt;
      var t :| 0 <= t < |pt| && pt[t] == (0, q);
      assert p[t] == b;
      PendingAppended(queue[1..], levels[1..], p, lv + 1, t);
    }
  }

  /** An appended entry waits in the queue at the level it was appended with. */
  lemma PendingAppended(queue: seq<Node>, levels: seq<nat>, p: seq<Node>, l: nat, t: nat)
    requires |levels| == |queue| && t < |p|
    ensures Pending(queue + p, levels + Raised(|p|, l), p[t], l)
  {
    var i := |queue| + t;
    assert (queue + p)[i] == p[t];
    assert (levels + Raised(|p|, l))[i] == l;
  }
  /** The tags stay ordered, listed and complete across a visit. */
  lemma VisitTagged(g: Graph, queue: seq<Node>, tags: seq<(nat, nat)>, visited: set<Node>, result: seq<Node>)
    requires Tagged(g, queue, tags, result)
    requires forall x :: x in result <==> x in visited
    requires result == [] ==> |queue| == 1
    requires queue != [] && queue[0] !in visited && queue[0] in g
    ensures var x := queue[0];
            Tagged(g, queue[1..] + AppendsTo(g[x], visited + {x}, |g[x]|),
                   tags[1..] + AppendTags(g[x], visited + {x}, |g[x]|, |result|), result + [x])
  {
    var x := queue[0];
    var pt := AppendTags(g[x], visited + {x}, |g[x]|, |result|);
    assert forall s :: 0 < s < |tags| ==> tags[s].0 < |result|;
    OrderedAppend(tags[1..], pt, |result|);
    ListedAppend(g, queue, tags, result, x, visited + {x});
    FreshAppend(g, queue, tags, visited, result);
  }

  lemma OrderedAppend(tags: seq<(nat, nat)>, pt: seq<(nat, nat)>, o: nat)
    requires TagsOrdered(tags)
    requires forall s :: 0 <= s < |tags| ==> tags[s].0 < o
    requires forall t :: 0 <= t < |pt| ==> pt[t].0 == o
    requires forall t, u :: 0 <= t < u < |pt| ==> pt[t].1 < pt[u].1
    ensures TagsOrdered(tags + pt)
  {
    var tags', n := tags + pt, |tags|;
    forall s, t | 0 <= s < t < |tags'|
      ensures tags'[s].0 <= tags'[t].0
      ensures tags'[s].0 == tags'[t].0 ==> tags'[s].1 < tags'[t].1
    {
      if t < n {
        assert tags'[s] == tags[s] && tags'[t] == tags[t];
      } else if s < n {
        assert tags'[s] == tags[s] && tags'[t] == pt[t - n];
      } else {
        assert tags'[s] == pt[s - n] && tags'[t] == pt[t - n];
      }
    }
  }

  lemma ListedAppend(g: Graph, queue: seq<Node>, tags: seq<(nat, nat)>, result: seq<Node>, x: Node, visited': set<Node>)
    requires |tags| == |queue| && queue != []
    requires result != [] ==> TagsListed(g, queue, tags, result)
    requires result == [] ==> |queue| == 1
    requires x in g
    ensures TagsListed(g, queue[1..] + AppendsTo(g[x], visited', |g[x]|),
                       tags[1..] + AppendTags(g[x], visited', |g[x]|, |result|), result + [x])
  {
    var result' := result + [x];
    if result != [] {
      ListedDrop(g, queue, tags, result);
      ListedExtend(g, queue[1..], tags[1..], result, x);
    }
    ListedJoin(g, queue[1..], tags[1..], AppendsTo(g[x], visited', |g[x]|),
               AppendTags(g[x], visited', |g[x]|, |result|), result');
  }

  lemma ListedDrop(g: Graph, queue: seq<Node>, tags: seq<(nat, nat)>, result: seq<Node>)
    requires |tags| == |queue| && queue != [] && TagsListed(g, queue, tags, result)
    ensures TagsListed(g, queue[1..], tags[1..], result)
  {
    assert forall s :: 0 <= s < |queue| - 1 ==> queue[1..][s] == queue[s + 1] && tags[1..][s] == tags[s + 1];
  }

  lemma ListedExtend(g: Graph, queue: seq<Node>, tags: seq<(nat, nat)>, result: seq<Node>, x: Node)
    requires |tags| == |queue| && TagsListed(g, queue, tags, result)
    ensures TagsListed(g, queue, tags, result + [x])
  {
    assert forall o :: 0 <= o < |result| ==> (result + [x])[o] == result[o];
  }

  lemma ListedJoin(g: Graph, queue: seq<Node>, tags: seq<(nat, nat)>, p: seq<Node>, pt: seq<(nat, nat)>, result: seq<Node>)
    requires |tags| == |queue| && |pt| == |p|
    requires queue != [] ==> TagsListed(g, queue, tags, result)
    requires TagsListed(g, p, pt, result)
    ensures TagsListed(g, queue + p, tags + pt, result)
  {
    var n := |queue|;
    assert forall s :: 0 <= s < n ==> (queue + p)[s] == queue[s] && (tags + pt)[s] == tags[s];
    assert forall s :: n <= s < n + |p| ==> (queue + p)[s] == p[s - n] && (tags + pt)[s] == pt[s - n];
  }

  lemma FreshAppend(g: Graph, queue: seq<Node>, tags: seq<(nat, nat)>, visited: set<Node>, result: seq<Node>)
    requires |tags| == |queue| && FreshQueued(g, tags, result)
    requires result != [] ==> TagsListed(g, queue, tags, result)
    requires forall x :: x in result <==> x in visited
    requires queue != [] && queue[0] !in visited && queue[0] in g
    ensures FreshQueued(g, tags[1..] + AppendTags(g[queue[0]], visited + {queue[0]}, |g[queue[0]]|, |result|), result + [queue[0]])
  {
    var x := queue[0];
    var pt := AppendTags(g[x], visited + {x}, |g[x]|, |result|);
    var result' := result + [x];
    forall o, q | 0 <= o < |result'| && result'[o] in g && 0 <= q < |g[result'[o]]| && g[result'[o]][q] !in result'
      ensures (o, q) in tags[1..] + pt
    {
      if o < |result| {
        assert result'[o] == result[o];
        FreshKept(g, queue, tags, result, o, q);
      } else {
        assert (o, q) in pt;
      }
    }
  }

  /** A fresh neighbour of an earlier node, other than the dequeued one,
      keeps its tag behind the front. */
  lemma FreshKept(g: Graph, queue: seq<Node>, tags: seq<(nat, nat)>, result: seq<Node>, o: nat, q: nat)
    requires |tags| == |queue| && FreshQueued(g, tags, result) && TagsListed(g, queue, tags, result)
    requires queue != [] && o < |result| && result[o] in g && q < |g[result[o]]|
    requires g[result[o]][q] !in result && g[result[o]][q] != queue[0]
    ensures (o, q) in tags[1..]
  {
    var s :| 0 <= s < |tags| && tags[s] == (o, q);
    assert queue[s] == g[result[o]][q];
    assert tags[1..][s - 1] == (o, q);
  }
  /** A walk from the start through visited nodes, in a visited set closed
      under edges with levels growing by at most one per edge, ends at a node
      whose level is at most the walk's number of edges. */
  lemma {:induction false} LevelAtMostHops(g: Graph, start: Node, level: map<Node, nat>, w: seq<Node>)
    requires start in level && level[start] == 0
    requires forall a, b :: a in level && Edge(g, a, b) ==> b in level && level[b] <= level[a] + 1
    requires IsWalk(g, w) && w[0] == start
    ensures w[|w| - 1] in level && level[w[|w| - 1]] <= |w| - 1
    decreases |w|
  {
    if |w| > 1 {
      var prefix := w[..|w| - 1];
      assert IsWalk(g, prefix) by {
        forall k | 0 <= k < |prefix| - 1
          ensures Edge(g, prefix[k], prefix[k + 1])
        {
          assert Edge(g, w[k], w[k + 1]);
        }
      }
      LevelAtMostHops(g, start, level, prefix);
      assert Edge(g, w[|w| - 2], w[|w| - 1]);
    }
  }

  /** The loop has ended with an empty queue: every visited node's edges lead
      to visited nodes at most one level up, so the visited nodes are exactly
      the reachable ones and each level is the exact hop distance; and
      breadth-first order has nothing left to pick. */
  lemma Finished(g: Graph, start: Node, tags: seq<(nat, nat)>, visited: set<Node>, level: map<Node, nat>, result: seq<Node>)
    requires Outer(g, start, [], [], tags, visited, level, result)
    ensures |result| >= 1 && result[0] == start
    ensures forall i, j :: 0 <= i < j < |result| ==> result[i] != result[j]
    ensures forall i :: 0 <= i < |result| ==> Reachable(g, start, result[i])
    ensures forall v :: Reachable(g, start, v) ==> v in result
    ensures forall v :: Reachable(g, start, v) ==> v in g
    ensures forall i, j, n :: 0 <= i < j < |result| && WithinHops(g, start, result[j], n) ==> WithinHops(g, start, result[i], n)
    ensures BfsOrder(g, result)
  {
    assert forall a, b :: a in level && Edge(g, a, b) ==> b in level && level[b] <= level[a] + 1 by {
      forall a, b | a in level && Edge(g, a, b)
        ensures b in level && level[b] <= level[a] + 1
      {
        assert Settled([], [], level, a, b);
      }
    }
    forall v | Reachable(g, start, v)
      ensures v in result
    {
      ClosedSetHoldsReachable(g, start, visited, v);
    }
    forall i | 0 <= i < |result|
      ensures Reachable(g, start, result[i])
    {
      WithinReachable(g, start, result[i], level[result[i]]);
    }
    forall i, j, n: nat | 0 <= i < j < |result| && WithinHops(g, start, result[j], n)
      ensures WithinHops(g, start, result[i], n)
    {
      var w :| IsWalk(g, w) && w[0] == start && w[|w| - 1] == result[j] && |w| <= n + 1;
      LevelAtMostHops(g, start, level, w);
      WithinMore(g, start, result[i], level[result[i]], n);
    }
    FinishedOrder(g, tags, result);
  }

  lemma FinishedOrder(g: Graph, tags: seq<(nat, nat)>, result: seq<Node>)
    requires result != [] && BfsPrefix(g, result) && Tagged(g, [], tags, result)
    ensures BfsOrder(g, result)
  {
    forall o, b | 0 <= o < |result| && result[o] in g && b in g[result[o]]
      ensures b in result
    {
      var q :| 0 <= q < |g[result[o]]| && g[result[o]][q] == b;
    }
    assert result[..|result|] == result;
    assert NextAt(g, result, |result| - 1);
  }

  /** The inner `for` loop over `graph[node]`: each neighbour not in
      `visited` is appended. */
  method EnqueueUnvisited(queue: seq<Node>, neighbors: seq<Node>, visited: set<Node>) returns (queue': seq<Node>)
    ensures queue' == queue + AppendsTo(neighbors, visited, |neighbors|)
  {
    queue' := queue;
    for k := 0 to |neighbors|
      invariant queue' == queue + AppendsTo(neighbors, visited, k)
    {
      var neighbor := neighbors[k];
      if neighbor !in visited {
        queue' := queue' + [neighbor];
      }
    }
  }

  /** `bfs(graph, start)`. Dequeue from the front; a node not yet visited is
      marked, appended to the result, and its neighbours not yet visited are
      queued in order. Looking up a node that is not a key of `graph` raises
      `KeyError`, which ends the traversal.

      The result starts at `start`, has no repeats, holds only nodes
      reachable from `start` and, when no lookup fails, every such node, in
      breadth-first order and so in order of their hop distance from
      `start`. A lookup fails exactly when some node reachable from `start`
      is not a key, and it fails at the first such node breadth-first order
      reaches. */
  method Bfs(graph: Graph, start: Node) returns (r: Result<seq<Node>>)
    ensures r.Ok? ==> |r.value| >= 1 && r.value[0] == start
    ensures r.Ok? ==> forall i, j :: 0 <= i < j < |r.value| ==> r.value[i] != r.value[j]
    ensures r.Ok? ==> forall i :: 0 <= i < |r.value| ==> Reachable(graph, start, r.value[i])
    ensures r.Ok? ==> forall v :: Reachable(graph, start, v) ==> v in r.value
    ensures r.Ok? ==> forall i, j, n :: 0 <= i < j < |r.value| && WithinHops(graph, start, r.value[j], n) ==>
                        WithinHops(graph, start, r.value[i], n)
    ensures r.Ok? ==> BfsOrder(graph, r.value)
    ensures r.KeyError? ==> FirstMissing(graph, start, r.key) && Reachable(graph, start, r.key)
    ensures r.Ok? <==> forall v :: Reachable(graph, start, v) ==> v in graph
  {
    var visited: set<Node> := {};
    var queue := [start];
    var result: seq<Node> := [];
    ghost var levels: seq<nat> := [0];
    ghost var tags: seq<(nat, nat)> := [(0, 0)];
    ghost var level: map<Node, nat> := map[];
    ghost var mentioned := Mentioned(graph, start);
    Init(graph, start);
    while queue != []
      invariant Outer(graph, start, queue, levels, tags, visited, level, result)
      decreases |mentioned - visited|, |queue|
    {
      var node := queue[0];
      if node in visited {
        ghost var queue0, levels0, tags0 := queue, levels, tags;
        queue, levels, tags := queue[1..], levels[1..], tags[1..];
        DropVisited(graph, start, queue0, levels0, tags0, visited, level, result, queue, levels, tags);
      } else {
        if node !in graph {
          WithinReachable(graph, start, node, levels[0]);
          MissingFront(graph, start, queue, levels, tags, visited, level, result);
          return KeyError(node);
        }
        ghost var queue0, levels0, tags0, visited0, level0, result0 := queue, levels, tags, visited, level, result;
        ghost var p := AppendsTo(graph[node], visited + {node}, |graph[node]|);
        VisitShrinks(mentioned, visited, node);
        levels := levels[1..] + Raised(|p|, levels[0] + 1);
        tags := tags[1..] + AppendTags(graph[node], visited + {node}, |graph[node]|, |result|);
        queue := queue[1..];
        visited := visited + {node};
        result := result + [node];
        level := level[node := levels0[0]];
        queue := EnqueueUnvisited(queue, graph[node], visited);
        Visit(graph, start, queue0, levels0, tags0, visited0, level0, result0, queue, levels, tags, visited, level, result);
      }
    }
    Finished(graph, start, tags, visited, level, result);
    return Ok(result);
  }

  /** The demonstration: from 'A' on the sample graph. */
  method BfsSample() returns (r: Result<seq<Node>>)
    ensures r == Ok(["A", "B", "C", "D", "E", "F"])
  {
    r := Bfs(SampleGraph(), "A");
    ClosedReachableKeys(SampleGraph(), "A");
    SampleOrder(r.value);
  }

  /** On the sample graph, breadth-first order from 'A' is unique. */
  lemma SampleOrder(r: seq<Node>)
    requires |r| >= 1 && r[0] == "A" && BfsOrder(SampleGraph(), r)
    ensures r == ["A", "B", "C", "D", "E", "F"]
  {
    assert r[..1] == ["A"];
    SampleSteps1to3(r);
    SampleStep4(r);
    SampleStep5(r);
    SampleNext6();
    EndAt(SampleGraph(), r, 5, ["A", "B", "C", "D", "E", "F"]);
  }

  lemma SampleSteps1to3(r: seq<Node>)
    requires BfsOrder(SampleGraph(), r) && 0 < |r| && r[..1] == ["A"]
    ensures 3 < |r| && r[..4] == ["A", "B", "C", "D"]
  {
    var g := SampleGraph();
    SampleNext1();
    StepTo(g, r, 0, ["A"], "B");
    SampleNext2();
    StepTo(g, r, 1, ["A", "B"], "C");
    SampleNext3();
    StepTo(g, r, 2, ["A", "B", "C"], "D");
  }

  lemma SampleStep4(r: seq<Node>)
    requires BfsOrder(SampleGraph(), r) && 3 < |r| && r[..4] == ["A", "B", "C", "D"]
    ensures 4 < |r| && r[..5] == ["A", "B", "C", "D", "E"]
  {
    SampleNext4();
    StepTo(SampleGraph(), r, 3, ["A", "B", "C", "D"], "E");
  }

  lemma SampleStep5(r: seq<Node>)
    requires BfsOrder(SampleGraph(), r) && 4 < |r| && r[..5] == ["A", "B", "C", "D", "E"]
    ensures 5 < |r| && r[..6] == ["A", "B", "C", "D", "E", "F"]
  {
    SampleNext5();
    StepTo(SampleGraph(), r, 4, ["A", "B", "C", "D", "E"], "F");
  }

  /** The last step: when `BfsNext` picks nothing after a prefix, the
      prefix is the whole order. */
  lemma EndAt(g: Graph, r: seq<Node>, i: nat, prefix: seq<Node>)
    requires BfsOrder(g, r) && i < |r| && r[..i + 1] == prefix
    requires BfsNext(g, prefix) == None
    ensures r == prefix
  {
    assert NextAt(g, r, i);
    assert r == r[..i + 1];
  }

  /** One step of breadth-first order: what `BfsNext` picks after a prefix
      is the next element. */
  lemma StepTo(g: Graph, r: seq<Node>, i: nat, prefix: seq<Node>, next: Node)
    requires BfsOrder(g, r) && i < |r| && r[..i + 1] == prefix
    requires BfsNext(g, prefix) == Some(next)
    ensures i + 1 < |r| && r[..i + 2] == prefix + [next]
  {
    assert NextAt(g, r, i);
    assert r[..i + 2] == r[..i + 1] + [r[i + 1]];
  }

  lemma SampleNext1()
    ensures BfsNext(SampleGraph(), ["A"]) == Some("B")
  {
  }

  lemma SampleNext2()
    ensures BfsNext(SampleGraph(), ["A", "B"]) == Some("C")
  {
  }

  lemma SampleNext3()
    ensures BfsNext(SampleGraph(), ["A", "B", "C"]) == Some("D")
  {
    var g, done := SampleGraph(), ["A", "B", "C"];
    assert g["A"] == ["B", "C"] && g["B"] == ["D", "E"];
    assert FirstFresh(g["A"], done) == None;
    assert EarliestFresh(g, done, 0) == EarliestFresh(g, done, 1);
  }

  lemma SampleNext4()
    ensures BfsNext(SampleGraph(), ["A", "B", "C", "D"]) == Some("E")
  {
    var g, done := SampleGraph(), ["A", "B", "C", "D"];
    assert g["A"] == ["B", "C"] && g["B"] == ["D", "E"];
    assert FirstFresh(g["A"], done) == None;
    assert FirstFresh(g["B"], done) == Some("E");
    assert EarliestFresh(g, done, 0) == EarliestFresh(g, done, 1);
  }

  lemma SampleNext5()
    ensures BfsNext(SampleGraph(), ["A", "B", "C", "D", "E"]) == Some("F")
  {
    var g, done := SampleGraph(), ["A", "B", "C", "D", "E"];
    assert g["A"] == ["B", "C"] && g["B"] == ["D", "E"] && g["C"] == ["F"];
    assert FirstFresh(g["A"], done) == None;
    assert FirstFresh(g["B"], done) == None;
    assert FirstFresh(g["C"], done) == Some("F");
    assert EarliestFresh(g, done, 0) == EarliestFresh(g, done, 1) == EarliestFresh(g, done, 2);
  }

  lemma SampleNext6()
    ensures BfsNext(SampleGraph(), ["A", "B", "C", "D", "E", "F"]) == None
  {
    var g, done := SampleGraph(), ["A", "B", "C", "D", "E", "F"];
    assert forall x :: x in g ==> x in done;
  }
}
