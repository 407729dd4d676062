/** The arrangement of disks on the three rods of a Tower of Hanoi game, the
    guarded single-disk move, and the replay of a move list against an
    arrangement. Disks are positive integers (larger number, larger disk);
    each rod is listed top first, so index 0 of a rod is its top disk.
 */
module HanoiState {

  /** One of the three rods; rod 2 is the one the solver fills. */
  type RodIndex = i: int | 0 <= i < 3

  /** A request to move the top disk of rod `from` onto rod `to`. */
  datatype Move = Move(from: RodIndex, to: RodIndex)

  /** The three rods, each listed from its top disk down. */
  type Rods = r: seq<seq<int>> | |r| == 3 witness [[], [], []]

  datatype Option<T> = None | Some(value: T)

  /** The moves a solver step produced and the working arrangement it left behind. */
  datatype Trace = Trace(moves: seq<Move>, rods: Rods)

  /** The disks 1..k listed top first, i.e. a canonical stack of k disks. */
  function Stack(k: nat): (s: seq<int>)
    ensures |s| == k
    ensures forall i :: 0 <= i < k ==> s[i] == i + 1
  {
    seq(k, i => i + 1)
  }

  /** Every move goes between two different rods. */
  predicate NoSelfMoves(moves: seq<Move>)
  {
    forall m :: m in moves ==> m.from != m.to
  }

  /** Every disk on rod 0, in order: the game's ordered starting arrangement. */
  function OrderedRods(n: nat): Rods
  {
    [Stack(n), [], []]
  }

  /** Every disk on rod 2, in order: the arrangement the solver aims for. */
  function SolvedRods(n: nat): Rods
  {
    [[], [], Stack(n)]
  }

  /** Strictly increasing from the top: no disk rests on a smaller one. */
  predicate Ascending(s: seq<int>)
  {
    forall i, j :: 0 <= i < j < |s| ==> s[i] < s[j]
  }

  /** Every disk of `s` is larger than `n`. */
  predicate Above(s: seq<int>, n: int)
  {
    forall x :: x in s ==> x > n
  }

  /** The number of rods that hold disk `d`. */
  function Holders(rods: Rods, d: int): nat
  {
    (if d in rods[0] then 1 else 0) + (if d in rods[1] then 1 else 0) + (if d in rods[2] then 1 else 0)
  }

  /** Holders counts the rods in any order. */
  lemma HoldersAnyOrder(rods: Rods, d: int, a: RodIndex, b: RodIndex, c: RodIndex)
    requires a != b && a != c && b != c
    ensures Holders(rods, d) == (if d in rods[a] then 1 else 0) + (if d in rods[b] then 1 else 0) + (if d in rods[c] then 1 else 0)
  {
  }

  /** All disks on all rods, as a multiset. */
  function Disks(rods: Rods): multiset<int>
  {
    multiset(rods[0]) + multiset(rods[1]) + multiset(rods[2])
  }

  /** The game's invariant for `n` disks: every rod is ordered smallest on top,
      only disks 1..n occur, and each of them lies on exactly one rod. */
  predicate Valid(rods: Rods, n: int)
  {
    && Ascending(rods[0]) && Ascending(rods[1]) && Ascending(rods[2])
    && (forall k: RodIndex, x :: x in rods[k] ==> 1 <= x <= n)
    && (forall d :: 1 <= d <= n ==> Holders(rods, d) == 1)
  }

  /** `move(fromRod, toRod)`: the first component says whether the move was
      made, the second is the arrangement afterwards. A refused move leaves
      every rod as it was; a made move shifts the top disk off `from` and
      pushes it onto `to`. */
  function MoveDisk(rods: Rods, from: RodIndex, to: RodIndex): (r: (bool, Rods))
    ensures r.0 <==> |rods[from]| > 0 && (|rods[to]| == 0 || rods[from][0] <= rods[to][0])
    ensures !r.0 ==> r.1 == rods
    ensures r.0 && from == to ==> r.1 == rods
    ensures r.0 && from != to ==>
      && r.1[from] == rods[from][1..]
      && r.1[to] == [rods[from][0]] + rods[to]
      && forall k: RodIndex :: k != from && k != to ==> r.1[k] == rods[k]
  {
    if |rods[from]| == 0 then
      (false, rods)
    else
      var disk := rods[from][0];
      if |rods[to]| > 0 && rods[to][0] < disk then
        (false, rods)
      else
        assert rods[from] == [disk] + rods[from][1..];
        var shifted := rods[from := rods[from][1..]];
        (true, shifted[to := [disk] + shifted[to]])
  }

  /** A move, made or refused, neither creates nor destroys a disk. */
  lemma MoveDiskConservesDisks(rods: Rods, from: RodIndex, to: RodIndex)
    ensures Disks(MoveDisk(rods, from, to).1) == Disks(rods)
  {
    var r := MoveDisk(rods, from, to);
    if r.0 && from != to {
      assert rods[from] == [rods[from][0]] + rods[from][1..];
    }
  }

  /** Replays `moves` one `move` call at a time; None as soon as one is refused. */
  function Apply(rods: Rods, moves: seq<Move>): Option<Rods>
    decreases |moves|
  {
    if |moves| == 0 then
      Some(rods)
    else
      var step := MoveDisk(rods, moves[0].from, moves[0].to);
      if step.0 then Apply(step.1, moves[1..]) else None
  }

  /** The `isSolved` getter: the last rod holds as many disks as the game has. */
  predicate IsSolved(rods: Rods, diskCount: int)
  {
    |rods[2]| == diskCount
  }

  /** `getDisks(rodNumber)`: the disks of an existing rod, and an empty list
      for any other rod number. */
  function GetDisks(rods: Rods, rodNumber: int): (r: seq<int>)
    ensures 0 <= rodNumber < 3 ==> r == rods[rodNumber]
    ensures !(0 <= rodNumber < 3) ==> r == []
  {
    if 0 <= rodNumber < 3 then rods[rodNumber] else []
  }

  /** What a renderer drawing each rod top first relies on: under the
      invariant every list `getDisks` hands out, for any rod number, is
      ordered smallest first and holds only disks 1..n. */
  lemma GetDisksValid(rods: Rods, n: int, rodNumber: int)
    requires Valid(rods, n)
    ensures Ascending(GetDisks(rods, rodNumber))
    ensures forall x :: x in GetDisks(rods, rodNumber) ==> 1 <= x <= n
  {
  }

  /** `_findRodWithDisk(diskSize)`: the first rod holding the disk, or -1. */
  function FindRodWithDisk(rods: Rods, d: int): (r: int)
    ensures -1 <= r < 3
    ensures r == -1 <==> Holders(rods, d) == 0
    ensures r >= 0 ==> d in rods[r] && forall k: RodIndex :: k < r ==> d !in rods[k]
    ensures Holders(rods, d) == 1 ==> forall k: RodIndex :: d in rods[k] <==> k == r
  {
    if d in rods[0] then 0
    else if d in rods[1] then 1
    else if d in rods[2] then 2
    else -1
  }

  /** Replaying a concatenation is replaying the first part, then the second. */
  lemma {:induction false} ApplyAppend(rods: Rods, a: seq<Move>, b: seq<Move>)
    ensures Apply(rods, a + b) == (match Apply(rods, a) case None => None case Some(mid) => Apply(mid, b))
    decreases |a|
  {
    if |a| == 0 {
      assert a + b == b;
    } else {
      assert (a + b)[0] == a[0];
      assert (a + b)[1..] == a[1..] + b;
      var step := MoveDisk(rods, a[0].from, a[0].to);
      if step.0 {
        ApplyAppend(step.1, a[1..], b);
      }
    }
  }

  /** A made move keeps the game's invariant: rods stay ordered and every disk
      stays on exactly one rod. */
  lemma MoveDiskPreservesValid(rods: Rods, n: int, from: RodIndex, to: RodIndex)
    requires Valid(rods, n)
    ensures Valid(MoveDisk(rods, from, to).1, n)
  {
    var r := MoveDisk(rods, from, to);
    if r.0 && from != to {
      var d := rods[from][0];
      var other: RodIndex := 3 - from - to;
      assert rods[from] == [d] + rods[from][1..];
      ShiftKeepsValid(rods, r.1, n, from, to, other);
    }
  }

  /** The effect of a made move between two different rods, stated on the
      three rods, keeps the invariant. */
  lemma ShiftKeepsValid(rods: Rods, after: Rods, n: int, from: RodIndex, to: RodIndex, other: RodIndex)
    requires Valid(rods, n)
    requires from != to && from != other && to != other
    requires |rods[from]| > 0 && rods[from] == [rods[from][0]] + rods[from][1..]
    requires |rods[to]| > 0 ==> rods[from][0] <= rods[to][0]
    requires after[from] == rods[from][1..]
    requires after[to] == [rods[from][0]] + rods[to]
    requires after[other] == rods[other]
    ensures Valid(after, n)
  {
    var d := rods[from][0];
    assert d in rods[from];
    assert d !in rods[to] && d !in rods[other] by {
      HoldersAnyOrder(rods, d, from, to, other);
    }
    assert Ascending(after[0]) && Ascending(after[1]) && Ascending(after[2]) by {
      if |rods[to]| > 0 {
        assert rods[to][0] in rods[to];
      }
      MovedRodsStayOrdered(rods[from], rods[to]);
    }
    forall k: RodIndex, x | x in after[k]
      ensures 1 <= x <= n
    {
      assert x in rods[k] || x in rods[from];
    }
    forall e | 1 <= e <= n
      ensures Holders(after, e) == 1
    {
      assert e in after[from] <==> e in rods[from] && e != d;
      assert e in after[to] <==> e in rods[to] || e == d;
      HoldersAnyOrder(rods, e, from, to, other);
      HoldersAnyOrder(after, e, from, to, other);
    }
  }

  /** Shifting the top disk off one ordered rod and pushing it onto another
      ordered rod whose top is not smaller keeps both ordered. */
  lemma MovedRodsStayOrdered(src: seq<int>, dst: seq<int>)
    requires |src| > 0 && Ascending(src) && Ascending(dst)
    requires |dst| > 0 ==> src[0] < dst[0]
    ensures Ascending(src[1..]) && Ascending([src[0]] + dst)
  {
  }

  /** Every successful replay keeps the game's invariant. */
  lemma {:induction false} ApplyPreservesValid(rods: Rods, n: int, moves: seq<Move>)
    requires Valid(rods, n)
    requires Apply(rods, moves).Some?
    ensures Valid(Apply(rods, moves).value, n)
    decreases |moves|
  {
    if |moves| > 0 {
      MoveDiskPreservesValid(rods, n, moves[0].from, moves[0].to);
      ApplyPreservesValid(MoveDisk(rods, moves[0].from, moves[0].to).1, n, moves[1..]);
    }
  }

  /** Under the invariant, `isSolved` holds exactly when every disk sits, in
      order, on the last rod and the other two are empty. */
  lemma SolvedIffAllOnTarget(rods: Rods, n: int)
    requires n >= 0 && Valid(rods, n)
    ensures IsSolved(rods, n) <==> rods == SolvedRods(n)
  {
    if IsSolved(rods, n) {
      var s := rods[2];
      assert n >= 0;
      forall i | 0 <= i < n
        ensures s[i] == i + 1
      {
        AscendingBounds(s, n, i);
      }
      assert s == Stack(n);
      forall k: RodIndex | k != 2
        ensures rods[k] == []
      {
        if |rods[k]| > 0 {
          var x := rods[k][0];
          assert x in rods[k];
          assert 1 <= x <= n;
          assert x in rods[k] && x in rods[2] by {
            assert s[x - 1] == x;
          }
          HoldersAnyOrder(rods, x, k, 2, 1 - k);
          assert false;
        }
      }
    }
  }

  /** n distinct ordered values taken from 1..n must be exactly 1..n. */
  lemma AscendingBounds(s: seq<int>, n: int, i: int)
    requires Ascending(s) && |s| == n && 0 <= i < n
    requires forall x :: x in s ==> 1 <= x <= n
    ensures s[i] == i + 1
  {
    AscendingLower(s, i);
    AscendingUpper(s, n, i);
  }

  lemma {:induction false} AscendingLower(s: seq<int>, i: int)
    requires Ascending(s) && 0 <= i < |s|
    requires forall x :: x in s ==> 1 <= x
    ensures s[i] >= i + 1
    decreases i
  {
    assert s[i] in s;
    if i > 0 {
      AscendingLower(s, i - 1);
    }
  }

  lemma {:induction false} AscendingUpper(s: seq<int>, n: int, i: int)
    requires Ascending(s) && |s| == n && 0 <= i < n
    requires forall x :: x in s ==> x <= n
    ensures s[i] <= i + 1
    decreases n - i
  {
    assert s[i] in s;
    if i < n - 1 {
      AscendingUpper(s, n, i + 1);
    }
  }
}
