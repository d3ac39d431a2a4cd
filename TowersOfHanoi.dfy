/** TowersofHanoi.py: the recursive solution of the Towers of Hanoi. The
    original prints one line per move; here the moves are returned as a
    sequence, in printing order. */
module TowersOfHanoi {

  /** A peg is named by the label the caller passes ('A', 'B', 'C' in the
      demonstration). */
  type Peg = string

  /** "Move disk `disk` from `from` to `to`"; disks are numbered 1 (smallest)
      to n (largest). */
  datatype Move = Move(disk: nat, from: Peg, to: Peg)

  /** 2^n. */
  function Pow2(n: nat): nat
  {
    if n == 0 then 1 else 2 * Pow2(n - 1)
  }

  /** `towers_of_hanoi(n, source, auxiliary, target)`: the moves it prints.
      n must be at least 1: for n == 0 the recursion steps to -1, -2, ... and
      never meets its base case. The contract gives the move count 2^n - 1
      and the middle move, the largest disk going straight from source to
      target. */
  function Hanoi(n: nat, source: Peg, auxiliary: Peg, target: Peg): (moves: seq<Move>)
    requires n >= 1
    ensures |moves| == Pow2(n) - 1
    ensures moves[Pow2(n - 1) - 1] == Move(n, source, target)
  {
    if n == 1 then
      [Move(1, source, target)]
    else
      Hanoi(n - 1, source, target, auxiliary)
      + [Move(n, source, target)]
      + Hanoi(n - 1, auxiliary, source, target)
  }

  /** The disks on one peg, smallest first (index 0 is the top). */
  type Stack = seq<nat>

  /** The disks 1..n stacked in order, 1 on top. */
  function Tower(n: nat): (t: Stack)
    ensures |t| == n
  {
    if n == 0 then [] else Tower(n - 1) + [n]
  }

  /** Every disk on the stack is larger than `n`. */
  ghost predicate AllAbove(s: Stack, n: nat)
  {
    forall k :: 0 <= k < |s| ==> s[k] > n
  }

  /** A move is legal in a configuration when both pegs exist, the disk is
      the top disk of its peg, and the peg it goes to is empty or has a
      larger disk on top. */
  ghost predicate Legal(pegs: map<Peg, Stack>, m: Move)
  {
    && m.from in pegs && m.to in pegs && m.from != m.to
    && pegs[m.from] != [] && pegs[m.from][0] == m.disk
    && (pegs[m.to] == [] || pegs[m.to][0] > m.disk)
  }

  /** The configuration after a legal move: the top disk of `from` is put
      on top of `to`. */
  ghost function After(pegs: map<Peg, Stack>, m: Move): map<Peg, Stack>
    requires Legal(pegs, m)
  {
    pegs[m.from := pegs[m.from][1..]][m.to := [m.disk] + pegs[m.to]]
  }

  /** Plays the moves one by one, stopping at the first illegal one. */
  ghost function Play(pegs: map<Peg, Stack>, moves: seq<Move>): map<Peg, Stack>
    decreases |moves|
  {
    if moves == [] || !Legal(pegs, moves[0]) then pegs
    else Play(After(pegs, moves[0]), moves[1..])
  }

  /** Every move of the sequence is legal when played from `pegs`. */
  ghost predicate AllLegal(pegs: map<Peg, Stack>, moves: seq<Move>)
    decreases |moves|
  {
    moves == [] || (Legal(pegs, moves[0]) && AllLegal(After(pegs, moves[0]), moves[1..]))
  }

  /** Playing a concatenation is playing the two halves in turn. */
  lemma {:induction false} PlayAppend(pegs: map<Peg, Stack>, xs: seq<Move>, ys: seq<Move>)
    requires AllLegal(pegs, xs)
    ensures AllLegal(pegs, xs + ys) == AllLegal(Play(pegs, xs), ys)
    ensures Play(pegs, xs + ys) == Play(Play(pegs, xs), ys)
    decreases |xs|
  {
    if xs == [] {
      assert xs + ys == ys;
    } else {
      assert (xs + ys)[0] == xs[0] && (xs + ys)[1..] == xs[1..] + ys;
      PlayAppend(After(pegs, xs[0]), xs[1..], ys);
    }
  }

  /** One legal move, played on its own. */
  lemma SingleMove(pegs: map<Peg, Stack>, m: Move)
    requires Legal(pegs, m)
    ensures AllLegal(pegs, [m]) && Play(pegs, [m]) == After(pegs, m)
  {
    assert [m][1..] == [];
    assert Play(pegs, [m]) == Play(After(pegs, m), []);
    assert AllLegal(After(pegs, m), []);
  }

  /** Playing `xs`, then one legal move `m`, then `ys`. */
  lemma PlayThree(pegs: map<Peg, Stack>, xs: seq<Move>, m: Move, ys: seq<Move>,
                  p1: map<Peg, Stack>, p3: map<Peg, Stack>)
    requires AllLegal(pegs, xs) && Play(pegs, xs) == p1 && Legal(p1, m)
    requires AllLegal(After(p1, m), ys) && Play(After(p1, m), ys) == p3
    ensures AllLegal(pegs, xs + [m] + ys) && Play(pegs, xs + [m] + ys) == p3
  {
    SingleMove(p1, m);
    PlayAppend(pegs, xs, [m]);
    PlayAppend(pegs, xs + [m], ys);
  }

  /** The position Hanoi(n, source, auxiliary, target) starts from: three
      distinct pegs, disks 1..n on top of `source`, and only disks larger
      than n anywhere else. */
  ghost predicate Ready(n: nat, source: Peg, auxiliary: Peg, target: Peg, pegs: map<Peg, Stack>)
  {
    && source != auxiliary && auxiliary != target && source != target
    && source in pegs && auxiliary in pegs && target in pegs
    && |pegs[source]| >= n && pegs[source][..n] == Tower(n)
    && AllAbove(pegs[source][n..], n) && AllAbove(pegs[auxiliary], n) && AllAbove(pegs[target], n)
  }

  /** The position Hanoi(n, ...) leaves behind: the n disks moved from the
      top of `source` to the top of `target`, nothing else changed. */
  function Solved(n: nat, source: Peg, target: Peg, pegs: map<Peg, Stack>): map<Peg, Stack>
    requires source in pegs && target in pegs && |pegs[source]| >= n
  {
    pegs[source := pegs[source][n..]][target := Tower(n) + pegs[target]]
  }

  /** Before step 1 of Hanoi(n, ...), the first recursive call is ready. */
  lemma ReadyFirst(n: nat, source: Peg, auxiliary: Peg, target: Peg, pegs: map<Peg, Stack>)
    requires n >= 2 && Ready(n, source, auxiliary, target, pegs)
    ensures Ready(n - 1, source, target, auxiliary, pegs)
    ensures pegs[source][n - 1..] == [n] + pegs[source][n..]
  {
    var s := pegs[source];
    assert Tower(n) == Tower(n - 1) + [n];
    assert s[..n - 1] == s[..n][..n - 1] == Tower(n)[..n - 1] == Tower(n - 1);
    assert s[n - 1..] == [n] + s[n..] by { assert s[n - 1] == Tower(n)[n - 1] == n; }
  }

  /** After step 1, disk n may move, and after it the second recursive call
      is ready. */
  lemma ReadySecond(n: nat, source: Peg, auxiliary: Peg, target: Peg, pegs: map<Peg, Stack>)
    requires n >= 2 && Ready(n, source, auxiliary, target, pegs)
    ensures Legal(Solved(n - 1, source, auxiliary, pegs), Move(n, source, target))
    ensures Ready(n - 1, auxiliary, source, target, After(Solved(n - 1, source, auxiliary, pegs), Move(n, source, target)))
  {
    ReadyFirst(n, source, auxiliary, target, pegs);
    var s, a, t := pegs[source], pegs[auxiliary], pegs[target];
    var p1 := Solved(n - 1, source, auxiliary, pegs);
    assert p1[source] == [n] + s[n..] && p1[auxiliary] == Tower(n - 1) + a && p1[target] == t;
    var p2 := After(p1, Move(n, source, target));
    assert p2[auxiliary][..n - 1] == Tower(n - 1) && p2[auxiliary][n - 1..] == a;
  }

  /** After step 3, the position is the solved one. */
  lemma SolvedAfterThree(n: nat, source: Peg, auxiliary: Peg, target: Peg, pegs: map<Peg, Stack>)
    requires n >= 2 && Ready(n, source, auxiliary, target, pegs)
    ensures Legal(Solved(n - 1, source, auxiliary, pegs), Move(n, source, target))
    ensures var p2 := After(Solved(n - 1, source, auxiliary, pegs), Move(n, source, target));
            |p2[auxiliary]| >= n - 1 &&
            Solved(n - 1, auxiliary, target, p2) == Solved(n, source, target, pegs)
  {
    ReadySecond(n, source, auxiliary, target, pegs);
    var s, a, t := pegs[source], pegs[auxiliary], pegs[target];
    var p1 := Solved(n - 1, source, auxiliary, pegs);
    var p2 := After(p1, Move(n, source, target));
    var p3 := Solved(n - 1, auxiliary, target, p2);
    assert Tower(n - 1) + ([n] + t) == Tower(n) + t;
    assert p3.Keys == pegs.Keys;
    assert p3[source] == s[n..] && p3[auxiliary] == a && p3[target] == Tower(n) + t;
  }

  /** The puzzle's rules are kept and the job is done: from a Ready
      position, every move of Hanoi(n, ...) takes the top disk of its peg
      and never puts a larger disk on a smaller one, and at the end the n
      disks sit on top of `target` with everything else as it was. */
  lemma {:induction false} HanoiSolves(n: nat, source: Peg, auxiliary: Peg, target: Peg, pegs: map<Peg, Stack>)
    requires n >= 1 && Ready(n, source, auxiliary, target, pegs)
    ensures AllLegal(pegs, Hanoi(n, source, auxiliary, target))
    ensures Play(pegs, Hanoi(n, source, auxiliary, target)) == Solved(n, source, target, pegs)
    decreases n, 1
  {
    if n == 1 {
      SingleMove(pegs, Move(1, source, target));
      assert Tower(1) == [1];
    } else {
      var m := Move(n, source, target);
      var p1 := Solved(n - 1, source, auxiliary, pegs);
      StepOne(n, source, auxiliary, target, pegs);
      StepThree(n, source, auxiliary, target, pegs);
      PlayThree(pegs, Hanoi(n - 1, source, target, auxiliary), m, Hanoi(n - 1, auxiliary, source, target),
                p1, Solved(n, source, target, pegs));
    }
  }

  /** Step 1 of Hanoi(n, ...): the n - 1 smaller disks go to the auxiliary
      peg, legally. */
  lemma {:induction false} StepOne(n: nat, source: Peg, auxiliary: Peg, target: Peg, pegs: map<Peg, Stack>)
    requires n >= 2 && Ready(n, source, auxiliary, target, pegs)
    ensures AllLegal(pegs, Hanoi(n - 1, source, target, auxiliary))
    ensures Play(pegs, Hanoi(n - 1, source, target, auxiliary)) == Solved(n - 1, source, auxiliary, pegs)
    decreases n, 0
  {
    ReadyFirst(n, source, auxiliary, target, pegs);
    HanoiSolves(n - 1, source, target, auxiliary, pegs);
  }

  /** Steps 2 and 3 of Hanoi(n, ...): disk n goes straight to the target,
      then the n - 1 smaller disks follow it from the auxiliary peg, legally,
      ending in the solved position. */
  lemma {:induction false} StepThree(n: nat, source: Peg, auxiliary: Peg, target: Peg, pegs: map<Peg, Stack>)
    requires n >= 2 && Ready(n, source, auxiliary, target, pegs)
    ensures Legal(Solved(n - 1, source, auxiliary, pegs), Move(n, source, target))
    ensures var p2 := After(Solved(n - 1, source, auxiliary, pegs), Move(n, source, target));
            && AllLegal(p2, Hanoi(n - 1, auxiliary, source, target))
            && Play(p2, Hanoi(n - 1, auxiliary, source, target)) == Solved(n, source, target, pegs)
    decreases n, 0
  {
    ReadySecond(n, source, auxiliary, target, pegs);
    var p2 := After(Solved(n - 1, source, auxiliary, pegs), Move(n, source, target));
    HanoiSolves(n - 1, auxiliary, source, target, p2);
    SolvedAfterThree(n, source, auxiliary, target, pegs);
  }

  /** From the starting position (all n disks on `source`, the other pegs
      empty) the moves are all legal and finish with all n disks on `target`
      and the other two pegs empty. */
  lemma SolvesPuzzle(n: nat, source: Peg, auxiliary: Peg, target: Peg)
    requires n >= 1
    requires source != auxiliary && auxiliary != target && source != target
    ensures var start := map[source := Tower(n), auxiliary := [], target := []];
            AllLegal(start, Hanoi(n, source, auxiliary, target)) &&
            Play(start, Hanoi(n, source, auxiliary, target))
              == map[source := [], auxiliary := [], target := Tower(n)]
  {
    var start := map[source := Tower(n), auxiliary := [], target := []];
    assert start[source][..n] == Tower(n) && start[source][n..] == [];
    assert Ready(n, source, auxiliary, target, start);
    HanoiSolves(n, source, auxiliary, target, start);
    var final := Solved(n, source, target, start);
    assert final[source] == [] && final[auxiliary] == [] && final[target] == Tower(n) by {
      assert Tower(n) + [] == Tower(n);
    }
    assert final.Keys == {source, auxiliary, target};
  }

  /** The demonstration's three-disk solution. */
  lemma ThreeDisks()
    ensures Hanoi(3, "A", "B", "C") == [
      Move(1, "A", "C"), Move(2, "A", "B"), Move(1, "C", "B"), Move(3, "A", "C"),
      Move(1, "B", "A"), Move(2, "B", "C"), Move(1, "A", "C")]
  {
  }
}
