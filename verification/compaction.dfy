/** The post-processing of a move list that deletes adjacent pairs of moves
    undoing each other (`_removeBackAndForthMoves`), iterated until a pass
    deletes nothing.
 */
module HanoiCompaction {
  import opened HanoiState

  /** `next` takes straight back what `m` moved: A to B followed by B to A. */
  predicate IsInverse(m: Move, next: Move)
  {
    m.from == next.to && m.to == next.from
  }

  /** No two adjacent moves undo each other. */
  predicate NoBackAndForth(moves: seq<Move>)
  {
    forall i :: 0 <= i < |moves| - 1 ==> !IsInverse(moves[i], moves[i + 1])
  }

  /** One left-to-right scan of the inner loop: an inverse pair at the scan
      position is skipped as a whole, any other move is kept. The second
      component is the `changesMade` flag. */
  function CompactionPass(moves: seq<Move>): (r: (seq<Move>, bool))
    ensures |r.0| <= |moves| && (|moves| - |r.0|) % 2 == 0
    ensures r.1 <==> |r.0| < |moves|
    ensures !r.1 <==> NoBackAndForth(moves)
    ensures !r.1 ==> r.0 == moves
    decreases |moves|
  {
    if |moves| == 0 then
      ([], false)
    else if |moves| >= 2 && IsInverse(moves[0], moves[1]) then
      (CompactionPass(moves[2..]).0, true)
    else
      var rest := CompactionPass(moves[1..]);
      assert NoBackAndForth(moves) <==> NoBackAndForth(moves[1..]) by {
        if NoBackAndForth(moves[1..]) {
          forall i | 0 <= i < |moves| - 1
            ensures !IsInverse(moves[i], moves[i + 1])
          {
            if i > 0 {
              assert moves[1..][i - 1] == moves[i];
            }
          }
        }
        if NoBackAndForth(moves) {
          forall i | 0 <= i < |moves[1..]| - 1
            ensures !IsInverse(moves[1..][i], moves[1..][i + 1])
          {
            assert moves[1..][i] == moves[i + 1];
          }
        }
      }
      assert !rest.1 ==> [moves[0]] + rest.0 == moves;
      ([moves[0]] + rest.0, rest.1)
  }

  /** `_removeBackAndForthMoves`: passes until one makes no change. The result
      has no adjacent inverse pair, is no longer than the input, is shorter by
      an even number of moves, and leaves an already compact list alone. */
  function RemoveBackAndForthMoves(moves: seq<Move>): (r: seq<Move>)
    ensures NoBackAndForth(r)
    ensures |r| <= |moves| && (|moves| - |r|) % 2 == 0
    ensures NoBackAndForth(moves) ==> r == moves
    decreases |moves|
  {
    var pass := CompactionPass(moves);
    if !pass.1 then
      pass.0
    else
      var r := RemoveBackAndForthMoves(pass.0);
      EvenDifference(|moves|, |pass.0|, |r|);
      r
  }

  /** Two even drops in a row make an even drop. */
  lemma EvenDifference(a: int, b: int, c: int)
    requires (a - b) % 2 == 0 && (b - c) % 2 == 0
    ensures (a - c) % 2 == 0
  {
    assert a - c == (a - b) + (b - c);
  }

  /** Compacting twice is compacting once. */
  lemma CompactionIdempotent(moves: seq<Move>)
    ensures RemoveBackAndForthMoves(RemoveBackAndForthMoves(moves)) == RemoveBackAndForthMoves(moves)
  {
  }

  /** A made move followed by a made move straight back restores the rods. */
  lemma InversePairCancels(rods: Rods, m: Move, next: Move)
    requires IsInverse(m, next)
    requires MoveDisk(rods, m.from, m.to).0
    requires MoveDisk(MoveDisk(rods, m.from, m.to).1, next.from, next.to).0
    ensures MoveDisk(MoveDisk(rods, m.from, m.to).1, next.from, next.to).1 == rods
  {
    if m.from != m.to {
      var mid := MoveDisk(rods, m.from, m.to).1;
      var back := MoveDisk(mid, next.from, next.to).1;
      assert back[m.from] == rods[m.from] by {
        assert rods[m.from] == [rods[m.from][0]] + rods[m.from][1..];
      }
      assert back[m.to] == rods[m.to];
      assert back[3 - m.from - m.to] == rods[3 - m.from - m.to];
      assert back == rods by {
        assert forall k: RodIndex :: back[k] == rods[k];
      }
    }
  }

  /** One pass does not change where a successful replay ends. */
  lemma {:induction false} PassPreservesReplay(rods: Rods, moves: seq<Move>)
    requires Apply(rods, moves).Some?
    ensures Apply(rods, CompactionPass(moves).0) == Apply(rods, moves)
    decreases |moves|
  {
    if |moves| >= 2 && IsInverse(moves[0], moves[1]) {
      var mid := MoveDisk(rods, moves[0].from, moves[0].to);
      assert moves[1..][0] == moves[1] && moves[1..][1..] == moves[2..];
      var back := MoveDisk(mid.1, moves[1].from, moves[1].to);
      InversePairCancels(rods, moves[0], moves[1]);
      PassPreservesReplay(rods, moves[2..]);
    } else if |moves| > 0 {
      var rest := CompactionPass(moves[1..]).0;
      var step := MoveDisk(rods, moves[0].from, moves[0].to);
      PassPreservesReplay(step.1, moves[1..]);
      assert ([moves[0]] + rest)[0] == moves[0] && ([moves[0]] + rest)[1..] == rest;
    }
  }

  /** Compaction does not change where a successful replay ends: the compacted
      list, replayed from the same rods, succeeds and reaches the same rods. */
  lemma {:induction false} CompactionPreservesReplay(rods: Rods, moves: seq<Move>)
    requires Apply(rods, moves).Some?
    ensures Apply(rods, RemoveBackAndForthMoves(moves)) == Apply(rods, moves)
    decreases |moves|
  {
    var pass := CompactionPass(moves);
    PassPreservesReplay(rods, moves);
    if pass.1 {
      CompactionPreservesReplay(rods, pass.0);
    }
  }

  /** One pass only drops moves: what it keeps is a sub-multiset of its input. */
  lemma {:induction false} PassKeepsFrom(moves: seq<Move>)
    ensures multiset(CompactionPass(moves).0) <= multiset(moves)
    decreases |moves|
  {
    if |moves| >= 2 && IsInverse(moves[0], moves[1]) {
      PassKeepsFrom(moves[2..]);
      assert moves == moves[..2] + moves[2..];
      assert multiset(moves) == multiset(moves[..2]) + multiset(moves[2..]);
    } else if |moves| > 0 {
      var rest := CompactionPass(moves[1..]).0;
      PassKeepsFrom(moves[1..]);
      assert CompactionPass(moves).0 == [moves[0]] + rest;
      assert moves == [moves[0]] + moves[1..];
      assert multiset(moves) == multiset([moves[0]]) + multiset(moves[1..]);
    }
  }

  /** Compaction only drops moves: every move of the result, with its
      multiplicity, comes from the input. */
  lemma {:induction false} RemoveKeepsFrom(moves: seq<Move>)
    ensures multiset(RemoveBackAndForthMoves(moves)) <= multiset(moves)
    ensures forall m :: m in RemoveBackAndForthMoves(moves) ==> m in moves
    decreases |moves|
  {
    var pass := CompactionPass(moves);
    PassKeepsFrom(moves);
    if pass.1 {
      RemoveKeepsFrom(pass.0);
    }
    var r := RemoveBackAndForthMoves(moves);
    forall m | m in r
      ensures m in moves
    {
      assert m in multiset(r);
    }
  }

  /** Joining two compact lists whose seam is not an inverse pair gives a
      compact list. */
  lemma JoinNoBackAndForth(a: seq<Move>, b: seq<Move>)
    requires NoBackAndForth(a) && NoBackAndForth(b)
    requires |a| > 0 && |b| > 0 ==> !IsInverse(a[|a| - 1], b[0])
    ensures NoBackAndForth(a + b)
  {
    var ab := a + b;
    forall i | 0 <= i < |ab| - 1
      ensures !IsInverse(ab[i], ab[i + 1])
    {
      if i < |a| - 1 {
        assert ab[i] == a[i] && ab[i + 1] == a[i + 1];
      } else if i == |a| - 1 {
        assert ab[i] == a[|a| - 1] && ab[i + 1] == b[0];
      } else {
        assert ab[i] == b[i - |a|] && ab[i + 1] == b[i - |a| + 1];
      }
    }
  }
}
