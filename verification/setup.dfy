/** The game's starting arrangements (`_initializeOrdered`,
    `_initializeRandom`, and the constructor's choice between them). The
    random rod drawn for each disk is an input: `choice[j]` is the rod drawn
    for disk j + 1.
 */
module HanoiSetup {
  import opened HanoiState

  /** `_initializeOrdered`: disks n down to 1 are pushed onto rod 0, giving the
      canonical stack 1..n there and two empty rods. */
  method InitializeOrdered(n: nat) returns (rods: Rods)
    ensures rods == OrderedRods(n)
    ensures Valid(rods, n)
  {
    rods := [[], [], []];
    var i := n;
    while i >= 1
      invariant 0 <= i <= n
      invariant rods[1] == [] && rods[2] == []
      invariant |rods[0]| == n - i
      invariant forall j :: 0 <= j < n - i ==> rods[0][j] == i + 1 + j
    {
      rods := rods[0 := [i] + rods[0]];
      i := i - 1;
    }
    assert rods[0] == Stack(n);
    forall d | 1 <= d <= n
      ensures Holders(rods, d) == 1
    {
      assert rods[0][d - 1] == d;
    }
  }

  /** `_initializeRandom`: disks n down to 1 are each pushed onto the rod drawn
      for them. Every disk ends on its drawn rod, every rod is ordered, and
      each disk lies on exactly one rod. */
  method InitializeRandom(n: nat, choice: seq<RodIndex>) returns (rods: Rods)
    requires |choice| == n
    ensures Valid(rods, n)
    ensures forall j :: 0 <= j < n ==> j + 1 in rods[choice[j]]
  {
    rods := [[], [], []];
    var i := n;
    while i >= 1
      invariant 0 <= i <= n
      invariant Ascending(rods[0]) && Ascending(rods[1]) && Ascending(rods[2])
      invariant forall k: RodIndex, x :: x in rods[k] ==> i < x <= n
      invariant forall d :: i < d <= n ==> Holders(rods, d) == 1
      invariant forall j :: i <= j < n ==> j + 1 in rods[choice[j]]
    {
      var k := choice[i - 1];
      var before := rods;
      rods := rods[k := [i] + rods[k]];
      PushSmallest(before, k, i, n);
      i := i - 1;
    }
  }

  /** Pushing a disk smaller than all others onto a rod keeps it ordered, gives
      that disk exactly one rod, and moves no other disk. */
  lemma PushSmallest(before: Rods, k: RodIndex, i: int, n: int)
    requires Ascending(before[0]) && Ascending(before[1]) && Ascending(before[2])
    requires forall j: RodIndex, x :: x in before[j] ==> i < x <= n
    ensures var after := before[k := [i] + before[k]];
      && Ascending(after[0]) && Ascending(after[1]) && Ascending(after[2])
      && Holders(after, i) == 1
      && i in after[k]
      && forall d :: d != i ==> Holders(after, d) == Holders(before, d) && forall j: RodIndex :: d in after[j] <==> d in before[j]
  {
    var after := before[k := [i] + before[k]];
    assert Ascending(after[k]) by {
      forall a, b | 0 <= a < b < |after[k]|
        ensures after[k][a] < after[k][b]
      {
        if a == 0 {
          assert after[k][b] == before[k][b - 1];
          assert before[k][b - 1] in before[k];
        }
      }
    }
    assert i !in before[0] && i !in before[1] && i !in before[2];
    forall d | d != i
      ensures Holders(after, d) == Holders(before, d)
      ensures forall j: RodIndex :: d in after[j] <==> d in before[j]
    {
      assert d in after[k] <==> d in before[k];
    }
  }

  /** The constructor: the ordered arrangement, or the random one drawn from
      `choice`; either satisfies the game's invariant. */
  method Initialize(n: nat, randomize: bool, choice: seq<RodIndex>) returns (rods: Rods)
    requires randomize ==> |choice| == n
    ensures Valid(rods, n)
    ensures !randomize ==> rods == OrderedRods(n)
    ensures randomize ==> forall j :: 0 <= j < n ==> j + 1 in rods[choice[j]]
  {
    if !randomize {
      rods := InitializeOrdered(n);
    } else {
      rods := InitializeRandom(n, choice);
    }
  }
}
