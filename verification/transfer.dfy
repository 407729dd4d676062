/** The classic recursive transfer of a stack of disks (`_calculateMoves`) and
    the choice of the auxiliary rod (`_getAuxiliaryRod`). Each generated move
    is applied to the working rods as it is generated, and whether that move
    was refused is ignored, exactly as the game does.
 */
module HanoiTransfer {
  import opened HanoiState
  import opened HanoiCompaction

  function Pow2(n: nat): (p: nat)
    ensures p >= 1
  {
    if n == 0 then 1 else 2 * Pow2(n - 1)
  }

  /** `_getAuxiliaryRod(source, target)`: for two different rods, the third one. */
  function AuxiliaryRod(source: int, target: int): (r: int)
    ensures 0 <= source < 3 && 0 <= target < 3 && source != target ==>
      0 <= r < 3 && {0, 1, 2} - {source, target} == {r}
  {
    3 - source - target
  }

  /** `_calculateMoves(n, source, target, auxiliary)`: move n-1 disks out of
      the way, the n-th disk across, and the n-1 disks back on top of it.
      The source recurses forever for n < 1, hence the precondition. */
  function MoveStack(rods: Rods, n: int, source: RodIndex, target: RodIndex, auxiliary: RodIndex): (r: Trace)
    requires n >= 1
    ensures |r.moves| == Pow2(n) - 1
    decreases n
  {
    if n == 1 then
      Trace([Move(source, target)], MoveDisk(rods, source, target).1)
    else
      var first := MoveStack(rods, n - 1, source, auxiliary, target);
      var middle := MoveDisk(first.rods, source, target).1;
      var last := MoveStack(middle, n - 1, auxiliary, target, source);
      Trace(first.moves + [Move(source, target)] + last.moves, last.rods)
  }

  /** `s` starts with the disks 1..n in order. */
  predicate StackOnTop(s: seq<int>, n: nat)
  {
    |s| >= n && s[..n] == Stack(n)
  }

  /** What a stack transfer needs: three different rods, disks 1..n on top of
      the source, and every other disk on any rod larger than n. */
  predicate CanTransfer(rods: Rods, n: int, source: RodIndex, target: RodIndex, auxiliary: RodIndex)
  {
    && n >= 1
    && source != target && source != auxiliary && target != auxiliary
    && StackOnTop(rods[source], n)
    && Above(rods[source][n..], n)
    && Above(rods[target], n)
    && Above(rods[auxiliary], n)
  }

  lemma StackGrowsOnto(n: nat, rest: seq<int>)
    requires n >= 1
    ensures Stack(n - 1) + ([n] + rest) == Stack(n) + rest
  {
    assert Stack(n - 1) + [n] == Stack(n);
    assert Stack(n - 1) + ([n] + rest) == (Stack(n - 1) + [n]) + rest;
  }

  lemma AppendAssoc<T>(a: seq<T>, b: seq<T>, c: seq<T>)
    ensures a + b + c == a + (b + c)
  {
  }

  /** When a transfer's preconditions hold, every generated move is accepted,
      and the result is the source without its top n disks, the target with
      disks 1..n on top, and the auxiliary rod as it was. */
  lemma {:induction false} MoveStackSolves(rods: Rods, n: int, source: RodIndex, target: RodIndex, auxiliary: RodIndex)
    requires CanTransfer(rods, n, source, target, auxiliary)
    ensures var r := MoveStack(rods, n, source, target, auxiliary);
      && Apply(rods, r.moves) == Some(r.rods)
      && r.rods[source] == rods[source][n..]
      && r.rods[target] == Stack(n) + rods[target]
      && r.rods[auxiliary] == rods[auxiliary]
    decreases n
  {
    if n == 1 {
      SingleDiskTransfer(rods, source, target, auxiliary);
    } else {
      SmallerTransfer(rods, n, source, target, auxiliary);
      MoveStackSolves(rods, n - 1, source, auxiliary, target);
      var first := MoveStack(rods, n - 1, source, auxiliary, target);
      LargestDiskMove(rods, first.rods, n, source, target, auxiliary);
      var mid := MoveDisk(first.rods, source, target).1;
      MoveStackSolves(mid, n - 1, auxiliary, target, source);
      var last := MoveStack(mid, n - 1, auxiliary, target, source);
      ComposeTransfer(rods, n, source, target, auxiliary, first, mid, last);
    }
  }

  /** The three stages of a transfer of n >= 2 disks (n-1 disks aside, disk n
      across, n-1 disks back on top) compose into the transfer of n disks. */
  lemma ComposeTransfer(rods: Rods, n: int, source: RodIndex, target: RodIndex, auxiliary: RodIndex,
                        first: Trace, mid: Rods, last: Trace)
    requires n >= 2 && |rods[source]| >= n
    requires Apply(rods, first.moves) == Some(first.rods)
    requires MoveDisk(first.rods, source, target) == (true, mid)
    requires Apply(mid, last.moves) == Some(last.rods)
    requires last.rods[source] == rods[source][n..]
    requires last.rods[target] == Stack(n - 1) + ([n] + rods[target])
    requires last.rods[auxiliary] == (Stack(n - 1) + rods[auxiliary])[n - 1..]
    ensures var moves := first.moves + [Move(source, target)] + last.moves;
      && Apply(rods, moves) == Some(last.rods)
      && last.rods[source] == rods[source][n..]
      && last.rods[target] == Stack(n) + rods[target]
      && last.rods[auxiliary] == rods[auxiliary]
  {
    ApplyJoin(rods, first.moves, first.rods, Move(source, target), last.moves, last.rods);
    StackGrowsOnto(n, rods[target]);
  }

  /** Replaying `a`, then the accepted move `m`, then `b` is replaying the
      concatenation. */
  lemma ApplyJoin(rods: Rods, a: seq<Move>, mid: Rods, m: Move, b: seq<Move>, end: Rods)
    requires Apply(rods, a) == Some(mid)
    requires MoveDisk(mid, m.from, m.to).0
    requires Apply(MoveDisk(mid, m.from, m.to).1, b) == Some(end)
    ensures Apply(rods, a + [m] + b) == Some(end)
  {
    AppendAssoc(a, [m], b);
    ApplyAppend(rods, a, [m] + b);
    ApplyCons(mid, m, b);
  }

  /** Replaying a list that starts with `m` is making `m`, then replaying the rest. */
  lemma ApplyCons(rods: Rods, m: Move, ms: seq<Move>)
    ensures var step := MoveDisk(rods, m.from, m.to);
      Apply(rods, [m] + ms) == if step.0 then Apply(step.1, ms) else None
  {
    assert ([m] + ms)[0] == m && ([m] + ms)[1..] == ms;
  }

  /** The n-1 smallest disks of a transferable stack can go to the auxiliary rod. */
  lemma SmallerTransfer(rods: Rods, n: int, source: RodIndex, target: RodIndex, auxiliary: RodIndex)
    requires n >= 2 && CanTransfer(rods, n, source, target, auxiliary)
    ensures CanTransfer(rods, n - 1, source, auxiliary, target)
  {
    assert rods[source][..n - 1] == rods[source][..n][..n - 1];
    assert rods[source][n - 1] == rods[source][..n][n - 1];
    assert rods[source][n - 1..] == [n] + rods[source][n..];
  }

  /** Once disks 1..n-1 are parked on the auxiliary rod, disk n moves onto the
      target, and disks 1..n-1 can then follow it there. */
  lemma LargestDiskMove(rods: Rods, mid: Rods, n: int, source: RodIndex, target: RodIndex, auxiliary: RodIndex)
    requires n >= 2 && CanTransfer(rods, n, source, target, auxiliary)
    requires mid[source] == rods[source][n - 1..]
    requires mid[target] == rods[target]
    requires mid[auxiliary] == Stack(n - 1) + rods[auxiliary]
    ensures var step := MoveDisk(mid, source, target);
      && step.0
      && step.1[source] == rods[source][n..]
      && step.1[target] == [n] + rods[target]
      && step.1[auxiliary] == mid[auxiliary]
      && CanTransfer(step.1, n - 1, auxiliary, target, source)
  {
    assert rods[source][n - 1] == rods[source][..n][n - 1];
    assert mid[source] == [n] + rods[source][n..];
    if |rods[target]| > 0 {
      assert rods[target][0] in rods[target];
    }
    var step := MoveDisk(mid, source, target);
    assert step.0;
    assert step.1[auxiliary][..n - 1] == Stack(n - 1);
    assert step.1[auxiliary][n - 1..] == rods[auxiliary];
  }

  /** A transfer of the single disk 1 is one accepted move. */
  lemma SingleDiskTransfer(rods: Rods, source: RodIndex, target: RodIndex, auxiliary: RodIndex)
    requires CanTransfer(rods, 1, source, target, auxiliary)
    ensures var r := MoveStack(rods, 1, source, target, auxiliary);
      && Apply(rods, r.moves) == Some(r.rods)
      && r.rods[source] == rods[source][1..]
      && r.rods[target] == Stack(1) + rods[target]
      && r.rods[auxiliary] == rods[auxiliary]
  {
    assert rods[source][..1] == [1];
    if |rods[target]| > 0 {
      assert rods[target][0] in rods[target];
    }
    var step := MoveDisk(rods, source, target);
    assert step.0;
    assert Apply(step.1, []) == Some(step.1);
  }

  /** A transfer between three different rods starts from the source, ends on
      the target, and never makes a move that the next move takes back, so
      compaction leaves it alone. */
  lemma {:induction false} MoveStackIrredundant(rods: Rods, n: int, source: RodIndex, target: RodIndex, auxiliary: RodIndex)
    requires n >= 1 && source != target && source != auxiliary && target != auxiliary
    ensures var ms := MoveStack(rods, n, source, target, auxiliary).moves;
      && |ms| > 0
      && ms[0].from == source
      && ms[|ms| - 1].to == target
      && NoBackAndForth(ms)
    decreases n
  {
    if n > 1 {
      var m := Move(source, target);
      var first := MoveStack(rods, n - 1, source, auxiliary, target);
      var middle := MoveDisk(first.rods, source, target).1;
      var last := MoveStack(middle, n - 1, auxiliary, target, source);
      var head := first.moves + [m];
      MoveStackIrredundant(rods, n - 1, source, auxiliary, target);
      MoveStackIrredundant(middle, n - 1, auxiliary, target, source);
      JoinNoBackAndForth(first.moves, [m]);
      assert head[|head| - 1] == m;
      JoinNoBackAndForth(head, last.moves);
      var ms := head + last.moves;
      assert MoveStack(rods, n, source, target, auxiliary).moves == ms;
      assert ms[0] == first.moves[0];
      assert ms[|ms| - 1] == last.moves[|last.moves| - 1];
    }
  }

  /** A transfer between three different rods never moves a rod onto itself. */
  lemma {:induction false} MoveStackNoSelfMoves(rods: Rods, n: int, source: RodIndex, target: RodIndex, auxiliary: RodIndex)
    requires n >= 1 && source != target && source != auxiliary && target != auxiliary
    ensures NoSelfMoves(MoveStack(rods, n, source, target, auxiliary).moves)
    decreases n
  {
    if n > 1 {
      var first := MoveStack(rods, n - 1, source, auxiliary, target);
      var middle := MoveDisk(first.rods, source, target).1;
      MoveStackNoSelfMoves(rods, n - 1, source, auxiliary, target);
      MoveStackNoSelfMoves(middle, n - 1, auxiliary, target, source);
    }
  }
}
