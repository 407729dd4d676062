/** The game's solver from an arbitrary valid arrangement (`calculateMoves`):
    phase one (`_startMoves`) gathers disks 1..i+1 onto one rod for
    i = 1..n-1, phase two transfers the whole stack to rod 2, and the joined
    move list is compacted. The game state is threaded through as a value:
    `Trace.rods` is what the game's rods hold once the call returns.
 */
module HanoiSolver {
  import opened HanoiState
  import opened HanoiCompaction
  import opened HanoiTransfer
  import opened HanoiSetup

  /** Disks 1..i lie in order on top of the rod that holds disk i. */
  predicate Gathered(rods: Rods, i: nat)
  {
    var k := FindRodWithDisk(rods, i);
    0 <= k && StackOnTop(rods[k], i)
  }

  /** One round of `_startMoves` for disk i: if disk i+1 lies on another rod,
      the stack 1..i is transferred onto it; either way 1..i+1 end up gathered.
      The round keeps the game's invariant and every move it makes is accepted. */
  lemma GatherStep(rods: Rods, n: int, i: int)
    requires 1 <= i < n && Valid(rods, n) && Gathered(rods, i)
    ensures var from := FindRodWithDisk(rods, i);
      var to := FindRodWithDisk(rods, i + 1);
      && 0 <= to
      && (from == to ==> Gathered(rods, i + 1))
      && (from != to ==>
            var step := MoveStack(rods, i, from, to, AuxiliaryRod(from, to));
            && Apply(rods, step.moves) == Some(step.rods)
            && Valid(step.rods, n)
            && Gathered(step.rods, i + 1))
  {
    var from := FindRodWithDisk(rods, i);
    var to := FindRodWithDisk(rods, i + 1);
    assert Holders(rods, i + 1) == 1;
    if from == to {
      NextOnTop(rods[from], i);
    } else {
      GatherByTransfer(rods, n, i);
    }
  }

  /** Below a gathered stack 1..i, and on the two other rods, every disk is
      larger than i. */
  lemma OthersAbove(rods: Rods, n: int, i: int)
    requires 1 <= i <= n && Valid(rods, n) && Gathered(rods, i)
    ensures var from := FindRodWithDisk(rods, i);
      && Above(rods[from][i..], i)
      && forall k: RodIndex :: k != from ==> Above(rods[k], i)
  {
    var from := FindRodWithDisk(rods, i);
    var src := rods[from];
    assert forall m :: 0 <= m < i ==> src[m] == m + 1 by {
      forall m | 0 <= m < i
        ensures src[m] == m + 1
      {
        assert src[m] == src[..i][m];
      }
    }
    forall x | x in src[i..]
      ensures x > i
    {
      var j :| 0 <= j < |src[i..]| && src[i..][j] == x;
      assert src[i + j] == x;
      assert src[i - 1] < src[i + j];
    }
    forall k: RodIndex, x | k != from && x in rods[k]
      ensures x > i
    {
      if x <= i {
        assert 1 <= x;
        assert src[x - 1] == x;
        HoldersAnyOrder(rods, x, from, k, 3 - from - k);
        assert false;
      }
    }
  }

  /** The round of `_startMoves` in which disk i+1 lies on another rod. */
  lemma GatherByTransfer(rods: Rods, n: int, i: int)
    requires 1 <= i < n && Valid(rods, n) && Gathered(rods, i)
    requires FindRodWithDisk(rods, i) != FindRodWithDisk(rods, i + 1)
    ensures var from := FindRodWithDisk(rods, i);
      var to := FindRodWithDisk(rods, i + 1);
      && 0 <= to
      && var step := MoveStack(rods, i, from, to, AuxiliaryRod(from, to));
      && Apply(rods, step.moves) == Some(step.rods)
      && Valid(step.rods, n)
      && Gathered(step.rods, i + 1)
  {
    var from := FindRodWithDisk(rods, i);
    var to := FindRodWithDisk(rods, i + 1);
    var aux: RodIndex := AuxiliaryRod(from, to);
    assert CanTransfer(rods, i, from, to, aux) && rods[to][0] == i + 1 by {
      assert Holders(rods, i + 1) == 1;
      OthersAbove(rods, n, i);
      SmallestOnTop(rods[to], i + 1);
    }
    TransferOntoNext(rods, n, i, from, to, aux);
  }

  /** Transferring 1..i onto the rod whose top disk is i+1 gathers 1..i+1
      there, with every move accepted and the invariant kept. */
  lemma TransferOntoNext(rods: Rods, n: int, i: int, from: RodIndex, to: RodIndex, aux: RodIndex)
    requires i < n && Valid(rods, n) && CanTransfer(rods, i, from, to, aux)
    requires |rods[to]| > 0 && rods[to][0] == i + 1
    ensures var step := MoveStack(rods, i, from, to, aux);
      && Apply(rods, step.moves) == Some(step.rods)
      && Valid(step.rods, n)
      && Gathered(step.rods, i + 1)
  {
    var step := MoveStack(rods, i, from, to, aux);
    MoveStackSolves(rods, i, from, to, aux);
    ApplyPreservesValid(rods, n, step.moves);
    GrownStackGathered(step.rods, n, to, i, rods[to]);
  }

  /** Disks 1..i put on top of a rod whose top disk is i+1 make 1..i+1
      gathered there. */
  lemma GrownStackGathered(after: Rods, n: int, to: RodIndex, i: int, below: seq<int>)
    requires 1 <= i < n && Valid(after, n)
    requires |below| > 0 && below[0] == i + 1 && after[to] == Stack(i) + below
    ensures Gathered(after, i + 1)
  {
    assert below == [i + 1] + below[1..];
    StackGrowsOnto(i + 1, below[1..]);
    GatheredOn(after, n, to, i + 1);
  }

  /** Disks 1..i on top of rod k, in a valid arrangement, are gathered there. */
  lemma GatheredOn(rods: Rods, n: int, k: RodIndex, i: int)
    requires 1 <= i <= n && Valid(rods, n) && StackOnTop(rods[k], i)
    ensures FindRodWithDisk(rods, i) == k
    ensures Gathered(rods, i)
  {
    assert rods[k][i - 1] == rods[k][..i][i - 1] == i;
    assert Holders(rods, i) == 1;
  }

  /** On an ordered rod whose disks are all at least d, a disk d is on top. */
  lemma SmallestOnTop(s: seq<int>, d: int)
    requires Ascending(s) && d in s && Above(s, d - 1)
    ensures s[0] == d
  {
    assert s[0] in s;
  }

  /** On an ordered rod topped by 1..i, a disk i+1 comes right after them. */
  lemma NextOnTop(s: seq<int>, i: nat)
    requires i >= 1 && Ascending(s) && StackOnTop(s, i) && i + 1 in s
    ensures StackOnTop(s, i + 1)
  {
    assert s == s[..i] + s[i..];
    assert i + 1 in s[i..];
    assert s[i - 1] == s[..i][i - 1] == i;
    forall x | x in s[i..]
      ensures x > i
    {
      var j :| 0 <= j < |s[i..]| && s[i..][j] == x;
      assert s[i - 1] < s[i + j];
    }
    SmallestOnTop(s[i..], i + 1);
    assert s[..i + 1] == s[..i] + [s[i]];
    assert Stack(i) + [i + 1] == Stack(i + 1);
  }

  lemma ElementIn(s: seq<int>, k: int)
    ensures 0 <= k < |s| ==> s[k] in s
  {
  }

  /** `_startMoves` from round i on: the concatenated moves of the rounds
      i..n-1, and the rods they leave. Afterwards all n disks are gathered,
      the invariant still holds, and every move it made is accepted. */
  function StartMovesFrom(rods: Rods, n: int, i: int): (r: Trace)
    requires 1 <= i <= n && Valid(rods, n) && Gathered(rods, i)
    ensures Valid(r.rods, n) && Gathered(r.rods, n)
    ensures Apply(rods, r.moves) == Some(r.rods)
    decreases n - i
  {
    if i == n then
      Trace([], rods)
    else
      var from := FindRodWithDisk(rods, i);
      var to := FindRodWithDisk(rods, i + 1);
      GatherStep(rods, n, i);
      if from == to then
        StartMovesFrom(rods, n, i + 1)
      else
        var step := MoveStack(rods, i, from, to, AuxiliaryRod(from, to));
        var rest := StartMovesFrom(step.rods, n, i + 1);
        ApplyAppend(rods, step.moves, rest.moves);
        Trace(step.moves + rest.moves, rest.rods)
  }

  /** With at least one disk, disk 1 is on top of its rod. */
  lemma FirstGathered(rods: Rods, n: int)
    requires n >= 1 && Valid(rods, n)
    ensures Gathered(rods, 1)
  {
    var k := FindRodWithDisk(rods, 1);
    assert Holders(rods, 1) == 1;
    SmallestOnTop(rods[k], 1);
    assert rods[k][..1] == [1];
  }

  /** `_startMoves`: rounds 1..n-1. */
  function StartMoves(rods: Rods, n: int): (r: Trace)
    requires n >= 1 && Valid(rods, n)
    ensures Valid(r.rods, n) && Gathered(r.rods, n)
    ensures Apply(rods, r.moves) == Some(r.rods)
  {
    FirstGathered(rods, n);
    StartMovesFrom(rods, n, 1)
  }

  /** Once all n disks are gathered, they form the whole of one rod in order
      and the other two rods are empty. */
  lemma AllGathered(rods: Rods, n: int)
    requires n >= 1 && Valid(rods, n) && Gathered(rods, n)
    ensures var k := FindRodWithDisk(rods, n);
      && rods[k] == Stack(n)
      && forall j: RodIndex :: j != k ==> rods[j] == []
  {
    var k := FindRodWithDisk(rods, n);
    var s := rods[k];
    assert s[n - 1] == s[..n][n - 1] == n;
    if |s| > n {
      ElementIn(s, n);
      assert false;
    }
    assert s == s[..n];
    forall j: RodIndex | j != k
      ensures rods[j] == []
    {
      if |rods[j]| > 0 {
        var x := rods[j][0];
        assert x in rods[j];
        assert s[x - 1] == s[..n][x - 1] == x;
        HoldersAnyOrder(rods, x, k, j, 3 - k - j);
        assert false;
      }
    }
  }

  /** `calculateMoves` for a game of n disks, as the game runs it: when phase
      one already leaves the stack on rod 2 the phase-one moves are returned
      as they are and the rods keep the phase-one result; otherwise the final
      transfer is appended, the list compacted and the rods restored. */
  function CalculateMoves(rods: Rods, n: int): (r: Trace)
    requires n >= 1 && Valid(rods, n)
  {
    var phase1 := StartMoves(rods, n);
    var from := FindRodWithDisk(phase1.rods, n);
    if from == 2 then
      phase1
    else
      var whole := MoveStack(phase1.rods, n, from, 2, AuxiliaryRod(from, 2));
      Trace(RemoveBackAndForthMoves(phase1.moves + whole.moves), rods)
  }

  /** A gathered stack on rod 2 is the solved arrangement. */
  lemma GatheredOnLastRod(rods: Rods, n: int)
    requires n >= 1 && Valid(rods, n) && Gathered(rods, n)
    requires FindRodWithDisk(rods, n) == 2
    ensures rods == SolvedRods(n)
  {
    AllGathered(rods, n);
    var solved := SolvedRods(n);
    assert rods[0] == [] == solved[0];
    assert rods[1] == [] == solved[1];
    SameRods(rods, solved, 0, 1);
  }

  /** The final transfer moves the gathered stack from its rod onto rod 2. */
  lemma FinalTransfer(rods: Rods, n: int)
    requires n >= 1 && Valid(rods, n) && Gathered(rods, n)
    requires FindRodWithDisk(rods, n) != 2
    ensures var from := FindRodWithDisk(rods, n);
      var whole := MoveStack(rods, n, from, 2, AuxiliaryRod(from, 2));
      && Apply(rods, whole.moves) == Some(whole.rods)
      && whole.rods == SolvedRods(n)
  {
    var from := FindRodWithDisk(rods, n);
    AllGathered(rods, n);
    StackToLastRod(rods, n, from, AuxiliaryRod(from, 2));
  }

  /** A stack 1..n alone on one rod goes whole onto an empty rod 2. */
  lemma StackToLastRod(rods: Rods, n: int, from: RodIndex, aux: RodIndex)
    requires n >= 1 && from != 2 && aux != 2 && from != aux
    requires rods[from] == Stack(n) && rods[aux] == [] && rods[2] == []
    ensures var whole := MoveStack(rods, n, from, 2, aux);
      && Apply(rods, whole.moves) == Some(whole.rods)
      && whole.rods == SolvedRods(n)
  {
    assert rods[from][..n] == Stack(n) && rods[from][n..] == [];
    assert CanTransfer(rods, n, from, 2, aux);
    MoveStackSolves(rods, n, from, 2, aux);
    var whole := MoveStack(rods, n, from, 2, aux);
    var solved := SolvedRods(n);
    assert whole.rods[from] == [] == solved[from];
    assert whole.rods[aux] == [] == solved[aux];
    assert whole.rods[2] == Stack(n) == solved[2];
    SameRods(whole.rods, solved, from, aux);
  }

  /** Two arrangements that agree rod by rod, listed in any order, are equal. */
  lemma SameRods(a: Rods, b: Rods, x: RodIndex, y: RodIndex)
    requires x != y && x != 2 && y != 2
    requires a[x] == b[x] && a[y] == b[y] && a[2] == b[2]
    ensures a == b
  {
    assert a[0] == b[0] && a[1] == b[1];
  }

  /** From any valid arrangement of n >= 1 disks, replaying the returned moves
      through `move` never fails and ends with every disk on rod 2 in order, so
      `isSolved` holds. On the early return the result is phase one's trace
      unchanged, whose rods are that solved end state; otherwise the game's
      rods are the arrangement the call started from and the list is
      compact. */
  lemma CalculateMovesSolves(rods: Rods, n: int)
    requires n >= 1 && Valid(rods, n)
    ensures var r := CalculateMoves(rods, n);
      && Apply(rods, r.moves) == Some(SolvedRods(n))
      && IsSolved(Apply(rods, r.moves).value, n)
    ensures var r := CalculateMoves(rods, n);
      var phase1 := StartMoves(rods, n);
      && (FindRodWithDisk(phase1.rods, n) == 2 ==> r == phase1 && r.rods == SolvedRods(n))
      && (FindRodWithDisk(phase1.rods, n) != 2 ==> r.rods == rods && NoBackAndForth(r.moves))
  {
    var phase1 := StartMoves(rods, n);
    var from := FindRodWithDisk(phase1.rods, n);
    if from == 2 {
      GatheredOnLastRod(phase1.rods, n);
    } else {
      FinalTransfer(phase1.rods, n);
      var whole := MoveStack(phase1.rods, n, from, 2, AuxiliaryRod(from, 2));
      ApplyAppend(rods, phase1.moves, whole.moves);
      CompactionPreservesReplay(rods, phase1.moves + whole.moves);
    }
  }

  /** Once all n disks are gathered on one rod, every later round of phase
      one finds disks i and i+1 together and makes no move. */
  lemma {:induction false} GatheredPhaseOneIdle(rods: Rods, n: int, i: int)
    requires 1 <= i <= n && Valid(rods, n) && Gathered(rods, n)
    ensures Gathered(rods, i)
    ensures StartMovesFrom(rods, n, i) == Trace([], rods)
    decreases n - i
  {
    GatheredBelow(rods, n, i);
    if i == n {
      LastRoundIdle(rods, n);
    } else {
      GatheredBelow(rods, n, i + 1);
      GatheredPhaseOneIdle(rods, n, i + 1);
      SharedRodIdle(rods, n, i);
    }
  }

  /** A gathered stack of n disks has every smaller stack gathered on the
      same rod. */
  lemma GatheredBelow(rods: Rods, n: int, i: int)
    requires 1 <= i <= n && Valid(rods, n) && Gathered(rods, n)
    ensures Gathered(rods, i)
    ensures FindRodWithDisk(rods, i) == FindRodWithDisk(rods, n)
  {
    var k := FindRodWithDisk(rods, n);
    assert rods[k][i - 1] == rods[k][..n][i - 1] == i;
    assert Holders(rods, i) == 1;
    assert rods[k][..i] == rods[k][..n][..i];
  }

  /** Phase one from round n on makes no move. */
  lemma LastRoundIdle(rods: Rods, n: int)
    requires 1 <= n && Valid(rods, n) && Gathered(rods, n)
    ensures StartMovesFrom(rods, n, n) == Trace([], rods)
  {
  }

  /** A round that finds disks i and i+1 on the same rod makes no move. */
  lemma SharedRodIdle(rods: Rods, n: int, i: int)
    requires 1 <= i < n && Valid(rods, n) && Gathered(rods, i)
    requires FindRodWithDisk(rods, i) == FindRodWithDisk(rods, i + 1)
    ensures Gathered(rods, i + 1)
    ensures StartMovesFrom(rods, n, i) == StartMovesFrom(rods, n, i + 1)
  {
    GatherStep(rods, n, i);
  }

  /** On the canonical arrangement all n disks are gathered on rod 0. */
  lemma CanonicalGathered(n: int)
    requires 1 <= n
    ensures Valid(OrderedRods(n), n)
    ensures FindRodWithDisk(OrderedRods(n), n) == 0
    ensures Gathered(OrderedRods(n), n)
  {
    var rods: Rods := OrderedRods(n);
    CanonicalValid(n);
    assert rods[0][n - 1] == n;
    assert rods[0][..n] == Stack(n);
  }

  /** The canonical arrangement satisfies the game's invariant. */
  lemma CanonicalValid(n: int)
    requires n >= 0
    ensures Valid(OrderedRods(n), n)
  {
    var rods: Rods := OrderedRods(n);
    forall d | 1 <= d <= n
      ensures Holders(rods, d) == 1
    {
      assert rods[0][d - 1] == d;
    }
  }

  /** From the canonical arrangement the result is the plain recursive
      solution: phase one is idle, compaction removes nothing, there are
      exactly 2^n - 1 moves, and the rods are restored. */
  lemma CanonicalSolution(n: int)
    requires n >= 1
    ensures Valid(OrderedRods(n), n)
    ensures var r := CalculateMoves(OrderedRods(n), n);
      && r.moves == MoveStack(OrderedRods(n), n, 0, 2, 1).moves
      && |r.moves| == Pow2(n) - 1
      && r.rods == OrderedRods(n)
  {
    var rods: Rods := OrderedRods(n);
    CanonicalGathered(n);
    GatheredPhaseOneIdle(rods, n, 1);
    assert StartMoves(rods, n) == Trace([], rods);
    var whole := MoveStack(rods, n, 0, 2, 1);
    MoveStackIrredundant(rods, n, 0, 2, 1);
    assert [] + whole.moves == whole.moves;
  }

  /** One disk: the single move from rod 0 to rod 2. */
  lemma OneDiskExample()
    ensures CalculateMoves([[1], [], []], 1).moves == [Move(0, 2)]
  {
    assert OrderedRods(1) == [[1], [], []] by {
      assert Stack(1) == [1];
    }
    CanonicalSolution(1);
  }

  /** Two disks: rod 0 to 1, rod 0 to 2, rod 1 to 2. */
  lemma TwoDiskExample()
    ensures var rods: Rods := [[1, 2], [], []];
      && Valid(rods, 2)
      && CalculateMoves(rods, 2).moves == [Move(0, 1), Move(0, 2), Move(1, 2)]
  {
    var rods: Rods := [[1, 2], [], []];
    assert OrderedRods(2) == rods by {
      assert Stack(2) == [1, 2];
    }
    CanonicalSolution(2);
    TwoDiskTransfer(rods);
  }

  lemma TwoDiskTransfer(rods: Rods)
    ensures MoveStack(rods, 2, 0, 2, 1).moves == [Move(0, 1), Move(0, 2), Move(1, 2)]
  {
    var first := MoveStack(rods, 1, 0, 1, 2);
    var last := MoveStack(MoveDisk(first.rods, 0, 2).1, 1, 1, 2, 0);
    assert first.moves == [Move(0, 1)];
    assert last.moves == [Move(1, 2)];
  }

  /** The early return as the game runs it: from disk 1 on rod 0, disk 2 on
      rod 1 and disk 3 on rod 2, phase one already ends on rod 2, so the call
      returns four moves of which the first two cancel, and the game's rods
      are left solved instead of restored. */
  lemma EarlyReturnKeepsPhaseOne()
    ensures Valid([[1], [2], [3]], 3)
    ensures var r := CalculateMoves([[1], [2], [3]], 3);
      && r.moves == [Move(0, 1), Move(1, 0), Move(1, 2), Move(0, 2)]
      && !NoBackAndForth(r.moves)
      && r.rods == SolvedRods(3)
      && r.rods != [[1], [2], [3]]
  {
    var rods: Rods := [[1], [2], [3]];
    ScatteredPhaseOne();
    SolvedHolder(3);
    assert CalculateMoves(rods, 3) == StartMoves(rods, 3);
    assert SolvedRods(3)[0] != rods[0];
    FirstStepsCancel();
  }

  /** Phase one on the scattered three-disk example. */
  lemma ScatteredPhaseOne()
    ensures Valid([[1], [2], [3]], 3)
    ensures StartMoves([[1], [2], [3]], 3) == Trace([Move(0, 1), Move(1, 0), Move(1, 2), Move(0, 2)], SolvedRods(3))
  {
    var rods: Rods := [[1], [2], [3]];
    var mid: Rods := [[], [1, 2], [3]];
    ScatteredFirstRound();
    ScatteredLastRound();
    assert FindRodWithDisk(rods, 1) == 0 && FindRodWithDisk(rods, 2) == 1;
    assert StartMovesFrom(rods, 3, 1) == Trace([Move(0, 1)] + StartMovesFrom(mid, 3, 2).moves, SolvedRods(3));
  }

  /** The first phase-one round of the scattered example moves disk 1 onto disk 2. */
  lemma ScatteredFirstRound()
    ensures Valid([[1], [2], [3]], 3) && Gathered([[1], [2], [3]], 1)
    ensures MoveStack([[1], [2], [3]], 1, 0, 1, 2) == Trace([Move(0, 1)], [[], [1, 2], [3]])
    ensures Valid([[], [1, 2], [3]], 3) && Gathered([[], [1, 2], [3]], 2)
  {
    var rods: Rods := [[1], [2], [3]];
    assert Holders(rods, 1) == 1 && Holders(rods, 2) == 1 && Holders(rods, 3) == 1;
    assert Gathered(rods, 1) by {
      assert rods[0][..1] == [1] == Stack(1);
    }
    MoveDiskConcrete(rods, 0, 1, [[], [1, 2], [3]]);
    GatherStep(rods, 3, 1);
  }

  /** The last phase-one round of the scattered example carries 1 and 2 onto disk 3. */
  lemma ScatteredLastRound()
    requires Valid([[], [1, 2], [3]], 3) && Gathered([[], [1, 2], [3]], 2)
    ensures StartMovesFrom([[], [1, 2], [3]], 3, 2) == Trace([Move(1, 0), Move(1, 2), Move(0, 2)], SolvedRods(3))
  {
    var mid: Rods := [[], [1, 2], [3]];
    ScatteredSecondRound(mid);
    var second := MoveStack(mid, 2, 1, 2, 0);
    assert Stack(3) == [1, 2, 3];
    assert second.rods == SolvedRods(3);
    assert FindRodWithDisk(mid, 2) == 1 && FindRodWithDisk(mid, 3) == 2;
    assert second.moves + [] == second.moves;
  }

  /** The second phase-one round of the scattered three-disk example. */
  lemma ScatteredSecondRound(mid: Rods)
    requires mid == [[], [1, 2], [3]]
    ensures var second := MoveStack(mid, 2, 1, 2, 0);
      && second.moves == [Move(1, 0), Move(1, 2), Move(0, 2)]
      && second.rods == [[], [], [1, 2, 3]]
  {
    var a := MoveStack(mid, 1, 1, 0, 2);
    MoveDiskConcrete(mid, 1, 0, [[1], [2], [3]]);
    assert a == Trace([Move(1, 0)], [[1], [2], [3]]);
    var b := MoveDisk(a.rods, 1, 2).1;
    MoveDiskConcrete(a.rods, 1, 2, [[1], [], [2, 3]]);
    var c := MoveStack(b, 1, 0, 2, 1);
    MoveDiskConcrete(b, 0, 2, [[], [], [1, 2, 3]]);
    assert c == Trace([Move(0, 2)], [[], [], [1, 2, 3]]);
  }

  /** A made move between two different rods, checked against an expected result. */
  lemma MoveDiskConcrete(rods: Rods, from: RodIndex, to: RodIndex, expected: Rods)
    requires from != to && |rods[from]| > 0
    requires |rods[to]| == 0 || rods[from][0] <= rods[to][0]
    requires expected[from] == rods[from][1..]
    requires expected[to] == [rods[from][0]] + rods[to]
    requires expected[3 - from - to] == rods[3 - from - to]
    ensures MoveDisk(rods, from, to) == (true, expected)
  {
    var r := MoveDisk(rods, from, to).1;
    forall k: RodIndex
      ensures r[k] == expected[k]
    {
      if k != from && k != to {
        assert k == 3 - from - to;
      }
    }
    assert r == expected;
  }

  lemma FirstStepsCancel()
    ensures !NoBackAndForth([Move(0, 1), Move(1, 0), Move(1, 2), Move(0, 2)])
  {
    var moves := [Move(0, 1), Move(1, 0), Move(1, 2), Move(0, 2)];
    assert IsInverse(moves[0], moves[0 + 1]);
  }

  /** `calculateMoves` as its own comments intend it: the rods are restored and
      the move list compacted on every path, the early return included. */
  function CalculateMovesRestoring(rods: Rods, n: int): (r: Trace)
    requires n >= 1 && Valid(rods, n)
  {
    var phase1 := StartMoves(rods, n);
    var from := FindRodWithDisk(phase1.rods, n);
    var moves :=
      if from == 2 then phase1.moves
      else phase1.moves + MoveStack(phase1.rods, n, from, 2, AuxiliaryRod(from, 2)).moves;
    Trace(RemoveBackAndForthMoves(moves), rods)
  }

  /** The corrected call solves the puzzle like `CalculateMoves`, always leaves the
      game's rods as they were, and always returns a compact list. */
  lemma CalculateMovesRestoringSolves(rods: Rods, n: int)
    requires n >= 1 && Valid(rods, n)
    ensures var r := CalculateMovesRestoring(rods, n);
      && Apply(rods, r.moves) == Some(SolvedRods(n))
      && IsSolved(Apply(rods, r.moves).value, n)
      && r.rods == rods
      && NoBackAndForth(r.moves)
  {
    var phase1 := StartMoves(rods, n);
    var from := FindRodWithDisk(phase1.rods, n);
    if from == 2 {
      GatheredOnLastRod(phase1.rods, n);
      CompactionPreservesReplay(rods, phase1.moves);
    } else {
      FinalTransfer(phase1.rods, n);
      var whole := MoveStack(phase1.rods, n, from, 2, AuxiliaryRod(from, 2));
      ApplyAppend(rods, phase1.moves, whole.moves);
      CompactionPreservesReplay(rods, phase1.moves + whole.moves);
    }
  }

  /** Phase one from round i never moves a rod onto itself: a round either
      makes no move or transfers between three different rods. */
  lemma {:induction false} StartMovesFromNoSelf(rods: Rods, n: int, i: int)
    requires 1 <= i <= n && Valid(rods, n) && Gathered(rods, i)
    ensures NoSelfMoves(StartMovesFrom(rods, n, i).moves)
    decreases n - i
  {
    if i < n {
      var from := FindRodWithDisk(rods, i);
      var to := FindRodWithDisk(rods, i + 1);
      GatherStep(rods, n, i);
      if from == to {
        StartMovesFromNoSelf(rods, n, i + 1);
      } else {
        var step := MoveStack(rods, i, from, to, AuxiliaryRod(from, to));
        MoveStackNoSelfMoves(rods, i, from, to, AuxiliaryRod(from, to));
        StartMovesFromNoSelf(step.rods, n, i + 1);
      }
    }
  }

  /** Neither `calculateMoves` nor its corrected form ever returns a move
      from a rod onto the same rod: phase one and the final transfer make
      none, and compaction only drops moves. */
  lemma CalculateMovesNoSelf(rods: Rods, n: int)
    requires n >= 1 && Valid(rods, n)
    ensures NoSelfMoves(CalculateMoves(rods, n).moves)
    ensures NoSelfMoves(CalculateMovesRestoring(rods, n).moves)
  {
    var phase1 := StartMoves(rods, n);
    var from := FindRodWithDisk(phase1.rods, n);
    FirstGathered(rods, n);
    StartMovesFromNoSelf(rods, n, 1);
    if from == 2 {
      RemoveKeepsFrom(phase1.moves);
    } else {
      var whole := MoveStack(phase1.rods, n, from, 2, AuxiliaryRod(from, 2));
      MoveStackNoSelfMoves(phase1.rods, n, from, 2, AuxiliaryRod(from, 2));
      RemoveKeepsFrom(phase1.moves + whole.moves);
    }
  }

  /** A game that starts solved: `calculateMoves` returns no move and leaves
      the rods as they are, and so does the corrected call. */
  lemma SolvedStartNoMoves(n: int)
    requires n >= 1
    ensures Valid(SolvedRods(n), n)
    ensures CalculateMoves(SolvedRods(n), n) == Trace([], SolvedRods(n))
    ensures CalculateMovesRestoring(SolvedRods(n), n) == Trace([], SolvedRods(n))
  {
    var rods: Rods := SolvedRods(n);
    forall d | 1 <= d <= n
      ensures Holders(rods, d) == 1
    {
      assert rods[2][d - 1] == d;
    }
    assert rods[2][..n] == Stack(n);
    GatheredOn(rods, n, 2, n);
    GatheredPhaseOneIdle(rods, n, 1);
    FirstGathered(rods, n);
    assert StartMoves(rods, n) == Trace([], rods);
    assert NoBackAndForth([]);
  }

  /** On the scattered three-disk example the corrected call returns the two
      moves that remain once the cancelling pair is gone. */
  lemma EarlyReturnCorrected()
    ensures Valid([[1], [2], [3]], 3)
    ensures CalculateMovesRestoring([[1], [2], [3]], 3) == Trace([Move(1, 2), Move(0, 2)], [[1], [2], [3]])
  {
    var rods: Rods := [[1], [2], [3]];
    var moves := [Move(0, 1), Move(1, 0), Move(1, 2), Move(0, 2)];
    assert Valid(rods, 3) && StartMoves(rods, 3).moves == moves && StartMoves(rods, 3).rods == SolvedRods(3) by {
      ScatteredPhaseOne();
    }
    SolvedHolder(3);
    ScatteredCompaction();
  }

  /** In the solved arrangement disk n lies on rod 2. */
  lemma SolvedHolder(n: nat)
    requires n >= 1
    ensures FindRodWithDisk(SolvedRods(n), n) == 2
  {
    assert SolvedRods(n)[2][n - 1] == n;
  }

  /** Compaction of the scattered example's phase-one moves drops the first
      two, which cancel, in one pass, and the second pass finds nothing. */
  lemma ScatteredCompaction()
    ensures RemoveBackAndForthMoves([Move(0, 1), Move(1, 0), Move(1, 2), Move(0, 2)]) == [Move(1, 2), Move(0, 2)]
  {
    var moves := [Move(0, 1), Move(1, 0), Move(1, 2), Move(0, 2)];
    var rest := [Move(1, 2), Move(0, 2)];
    assert NoBackAndForth(rest);
    assert moves[2..] == rest;
    assert CompactionPass(moves) == (rest, true);
  }

  /** A new game of n >= 1 disks, ordered or drawn from `choice`, followed by
      `calculateMoves`: the rods are the constructor's arrangement, the moves
      are the ones `calculateMoves` returns for it, and replaying them never
      fails and leaves every disk on rod 2. */
  method SolveNewGame(n: nat, randomize: bool, choice: seq<RodIndex>) returns (rods: Rods, moves: seq<Move>)
    requires n >= 1
    requires randomize ==> |choice| == n
    ensures Valid(rods, n)
    ensures !randomize ==> rods == OrderedRods(n)
    ensures randomize ==> forall j :: 0 <= j < n ==> j + 1 in rods[choice[j]]
    ensures moves == CalculateMoves(rods, n).moves
    ensures !randomize ==> |moves| == Pow2(n) - 1
    ensures Apply(rods, moves) == Some(SolvedRods(n))
  {
    rods := Initialize(n, randomize, choice);
    moves := CalculateMoves(rods, n).moves;
    CalculateMovesSolves(rods, n);
    if !randomize {
      CanonicalSolution(n);
    }
  }
}
