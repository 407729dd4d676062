# Tower of Hanoi game core, modelled in Dafny

This project models the `HanoiGame` class of a browser Tower of Hanoi
animator (`hanoiGame.js`). The class keeps three rods of disks, each rod
listed top first, so index 0 is the top disk. It offers four things:

- a guarded single-disk `move`;
- an ordered or a random starting arrangement;
- `calculateMoves`, which solves the puzzle from any arrangement. Phase one
  (`_startMoves`) gathers disks 1..i+1 on one rod for i = 1..n-1. Phase two
  transfers the whole stack to rod 2. Both phases use the classic recursive
  `_calculateMoves`;
- `_removeBackAndForthMoves`, which deletes adjacent pairs of moves that undo
  each other until a pass deletes nothing.

The model is functional. The arrangement is a value `Rods` (three
`seq<int>`s). Every operation that mutates the game's rods returns the new
rods instead. A move list is replayed through `move` by `HanoiState.Apply`,
which yields `None` as soon as a move is refused. This replay is the
reference that the solver's results are checked against.

Modules, one per concern of the class:

- `state.dfy` (`HanoiState`): rods, `move`, `isSolved`, `getDisks`,
  `_findRodWithDisk`, the replay, and the game's invariant `Valid(rods, n)`.
  The invariant says every rod is ordered smallest on top, only disks 1..n
  occur, and each of them lies on exactly one rod.
- `compaction.dfy` (`HanoiCompaction`): `_removeBackAndForthMoves`.
- `transfer.dfy` (`HanoiTransfer`): `_calculateMoves` and `_getAuxiliaryRod`.
- `solver.dfy` (`HanoiSolver`): `_startMoves`, `calculateMoves`, and the
  theorems that the returned moves solve the puzzle.
- `setup.dfy` (`HanoiSetup`): `_initializeOrdered`, `_initializeRandom`, and
  the constructor's choice between them.

Two behaviours of the code a reader might not expect:

- With zero disks, `calculateMoves` throws. `_findRodWithDisk(0)` gives -1,
  and `_calculateMoves(0, ...)` is not its base case `n === 1`, so it first
  calls itself with -1 at hanoiGame.js:115, before doing anything else, and
  so on down. The JavaScript engine's call stack overflows and it throws a
  `RangeError`. The model excludes that exception path by requiring n >= 1.
- `calculateMoves` does not always leave the game's rods as it found them.
  The early return at hanoiGame.js:49-50 keeps the phase-one arrangement and
  skips compaction (see Findings).

## Model

| member | source | states |
|---|---|---|
| `HanoiState.MoveDisk` | hanoiGame.js:25-40 | The move is made exactly when the source rod is non-empty and the target is empty or its top disk is not smaller. A refused move changes nothing. A made move between two rods shifts the source's top disk onto the target and leaves the third rod alone. A made move of a rod onto itself changes nothing. |
| `HanoiState.MoveDiskConservesDisks` | hanoiGame.js:36-37 | A move, made or refused, keeps the multiset of all disks. |
| `HanoiState.MoveDiskPreservesValid` | hanoiGame.js:25-40 | From a valid arrangement, a move leaves every rod ordered smallest on top, and every disk on exactly one rod. |
| `HanoiState.ApplyPreservesValid` | hanoiGame.js:25-40 | Any successful replay of moves keeps the arrangement valid. |
| `HanoiState.SolvedIffAllOnTarget` | hanoiGame.js:17-19 | On a valid arrangement, `isSolved` (rod 2 holds `diskCount` disks) holds exactly when rod 2 is 1..n in order and rods 0 and 1 are empty. |
| `HanoiState.GetDisksValid` | hanoiGame.js:21-23 | Under the invariant, the list `getDisks` returns for any rod number, existing or not, is ordered smallest first and holds only disks 1..n. That is what drawing a rod top first relies on. |
| `HanoiState.FindRodWithDisk` | hanoiGame.js:127-134 | The result is -1 exactly when no rod holds the disk. Otherwise it is the first rod holding it. When exactly one rod holds the disk, the result is that rod. |
| `HanoiCompaction.CompactionPass` | hanoiGame.js:66-80 | One scan makes a change exactly when it shortens the list, and the removed count is even. It makes no change exactly when no adjacent pair undoes itself, and then it returns the input. |
| `HanoiCompaction.RemoveBackAndForthMoves` | hanoiGame.js:61-90 | The loop terminates. The result has no adjacent inverse pair, is no longer than the input, and is shorter by an even number. An input without such a pair comes back unchanged. |
| `HanoiCompaction.PassKeepsFrom` | hanoiGame.js:66-80 | One pass only skips moves: the multiset of its output is contained in that of its input. |
| `HanoiCompaction.RemoveKeepsFrom` | hanoiGame.js:61-90 | Compaction only drops moves: the multiset of the result is contained in that of the input, so every returned move was in the input. |
| `HanoiCompaction.CompactionIdempotent` | hanoiGame.js:61-90 | Compacting a compacted list returns it unchanged. |
| `HanoiCompaction.InversePairCancels` | hanoiGame.js:71-75 | Two made moves that undo each other restore the rods, so skipping such a pair is sound. |
| `HanoiCompaction.PassPreservesReplay` | hanoiGame.js:66-80 | If a list replays successfully, one pass's output replays successfully to the same rods. |
| `HanoiCompaction.CompactionPreservesReplay` | hanoiGame.js:61-90 | If a list replays successfully, the compacted list replays successfully to the same rods. |
| `HanoiTransfer.AuxiliaryRod` | hanoiGame.js:123-125 | For two different rods in 0..2, `3 - source - target` is the one remaining rod. |
| `HanoiTransfer.MoveStack` | hanoiGame.js:108-121 | A transfer of n >= 1 disks produces exactly 2^n - 1 moves. |
| `HanoiTransfer.MoveStackSolves` | hanoiGame.js:108-121 | Suppose disks 1..n top the source and every other disk on the three rods is larger than n. Then every move the transfer makes is accepted. The source loses its top n disks, the target gains 1..n on top, and the auxiliary rod ends as it began. |
| `HanoiTransfer.MoveStackNoSelfMoves` | hanoiGame.js:108-121 | A transfer between three different rods never contains a move from a rod onto the same rod. |
| `HanoiTransfer.MoveStackIrredundant` | hanoiGame.js:108-121 | A transfer starts from the source and ends on the target. No move is followed by its inverse. |
| `HanoiSolver.GatherStep` | hanoiGame.js:95-103 | Round i of phase one gathers disks 1..i+1 on one rod, either by skipping when disks i and i+1 share a rod or by transferring 1..i. The round keeps the invariant, and all its moves are accepted. |
| `HanoiSolver.StartMovesFrom` | hanoiGame.js:92-106 | After rounds i..n-1, all n disks are gathered and the arrangement is still valid. Every phase-one move replays successfully from the starting rods. |
| `HanoiSolver.StartMoves` | hanoiGame.js:92-106 | Phase one from any valid arrangement gathers all n disks, and all its moves are accepted. |
| `HanoiSolver.AllGathered` | hanoiGame.js:46-47 | After phase one, the rod holding disk n holds exactly 1..n, and the other rods are empty. |
| `HanoiSolver.FinalTransfer` | hanoiGame.js:47-53 | When the gathered stack is not on rod 2, the final transfer moves all of it there with accepted moves. |
| `HanoiSolver.CalculateMovesSolves` | hanoiGame.js:42-59 | From any valid arrangement of n >= 1 disks, replaying the returned moves never fails and ends with 1..n on rod 2, so `isSolved` holds. When phase one ends on rod 2, the result is phase one's trace unchanged and the game's rods are left solved. Otherwise the rods are restored to the snapshot and the list has no adjacent inverse pair. |
| `HanoiSolver.CalculateMoves` | hanoiGame.js:42-59 | `calculateMoves` as the game runs it. Its contract is stated by `HanoiSolver.CalculateMovesSolves`: the moves solve the puzzle, and the early return keeps phase one's moves and rods while the other path compacts and restores. |
| `HanoiSolver.CalculateMovesRestoring` | hanoiGame.js:42-59 | The corrected `calculateMoves`, which restores and compacts on every path. Its contract is stated by `HanoiSolver.CalculateMovesRestoringSolves`. |
| `HanoiState.IsSolved` | hanoiGame.js:17-19 | The `isSolved` getter. Its meaning under the invariant, every disk in order on rod 2, is stated by `HanoiState.SolvedIffAllOnTarget`. |
| `HanoiState.Apply` | hanoiGame.js:25-40 | The replay of a move list through `move`, stopping at the first refused move. `HanoiState.ApplyPreservesValid` states that it keeps the invariant, and `HanoiCompaction.CompactionPreservesReplay` states that compaction does not change where it ends. |
| `HanoiSolver.StartMovesFromNoSelf` | hanoiGame.js:92-106 | No phase-one round moves a rod onto itself: a round either skips or transfers between three different rods. |
| `HanoiSolver.CalculateMovesNoSelf` | hanoiGame.js:42-59 | From any valid arrangement of n >= 1 disks, neither `calculateMoves` nor its corrected form returns a move from a rod onto the same rod. |
| `HanoiSolver.SolvedStartNoMoves` | hanoiGame.js:42-59 | Starting from the solved arrangement, `calculateMoves` returns an empty list and the rods unchanged, and so does the corrected call. |
| `HanoiSolver.GatheredPhaseOneIdle` | hanoiGame.js:95-100 | Once all n disks lie in order on one rod, every later phase-one round finds disks i and i+1 on the same rod and makes no move. |
| `HanoiSolver.CanonicalSolution` | hanoiGame.js:46-58 | From the ordered arrangement, the result is the plain recursive solution from rod 0 to rod 2 with exactly 2^n - 1 moves. Compaction removes nothing, and the rods are restored. |
| `HanoiSolver.OneDiskExample` | hanoiGame.js:108-114 | One ordered disk gives the single move 0 to 2. |
| `HanoiSolver.TwoDiskExample` | hanoiGame.js:108-121 | Two ordered disks give 0 to 1, 0 to 2, 1 to 2. |
| `HanoiSolver.EarlyReturnKeepsPhaseOne` | hanoiGame.js:49-50 | Start from disks 1, 2, 3 on rods 0, 1, 2. The call returns four moves whose first two cancel, and it leaves the game's rods solved rather than restored. |
| `HanoiSolver.CalculateMovesRestoringSolves` | hanoiGame.js:42-59 | The corrected call solves the puzzle, always leaves the rods as they were, and always returns a list without adjacent inverse pairs. |
| `HanoiSolver.EarlyReturnCorrected` | hanoiGame.js:55-58 | On the same three-disk start, the corrected call returns the two moves 1 to 2, 0 to 2 and the unchanged rods. |
| `HanoiSolver.SolveNewGame` | app.js:28-105 | The game's construction at line 28 followed by the `calculateMoves` call at line 105; the lines between are presentation. With n >= 1 disks, the game's rods are the ordered arrangement, or with randomisation each disk lies on its drawn rod. The moves are the ones `calculateMoves` returns for that game, and replaying them never fails and leaves every disk on rod 2. From the ordered start there are exactly 2^n - 1 moves. |
| `HanoiSetup.InitializeOrdered` | hanoiGame.js:144-148 | Rod 0 holds 1..n in order, rods 1 and 2 are empty, and the arrangement is valid. |
| `HanoiSetup.InitializeRandom` | hanoiGame.js:150-156 | Every disk lies on the rod drawn for it, and the arrangement is valid. |
| `HanoiSetup.Initialize` | hanoiGame.js:136-142 | The constructor's arrangement is valid. Without randomisation it is the ordered one; with it, each disk lies on its drawn rod. |

## Left out

- `Math.random` in `_initializeRandom` is not modelled. The rod drawn for each disk is an input sequence `choice` of rods 0..2.
- The `diskCount` and `rodsCount` getters are left out. They only return the stored count and the constant 3.
- Rod numbers outside 0..2 are excluded by the type `RodIndex`. In the source, `move` with an out-of-range source rod reads `undefined.length` and throws. With an out-of-range target rod it throws unless it has already refused because the source rod is empty (hanoiGame.js:26-27). `getDisks` is the exception: it falls back to an empty list, and the model keeps that.
- `getDisks` returns the game's own array, so a caller could mutate the game through it. This aliasing is not modelled; the model returns a value.
- `HanoiTransfer.MoveStack` and `HanoiSolver.CalculateMoves` model the source's mutation of `this._rods` by threading the rods through as values. `calculateMoves`'s snapshot at hanoiGame.js:44 becomes the input value, returned unchanged.
- `HanoiSolver.CalculateMoves` and `HanoiSolver.StartMoves` require a valid arrangement and n >= 1. The game only reaches `calculateMoves` from its constructor and successful moves, which both keep that invariant. With n = 0 it is `calculateMoves` that fails: `_findRodWithDisk(0)` gives -1, so the final `_calculateMoves(0, ...)` at hanoiGame.js:53 recurses at hanoiGame.js:115 until the call stack overflows and a `RangeError` is thrown.
- `HanoiSolver.StartMoves`: excludes n = 0 only because `calculateMoves` does. In the source, `_startMoves` with zero disks runs no round and returns an empty list (hanoiGame.js:95).
- Disk-count validation (1..8), DOM construction, CSS sizing, event wiring and timer-driven animation in app.js are presentation and are not modelled.
- script.js is an earlier DOM-only version whose `getHanoiMoves` duplicates `_calculateMoves` with rods numbered 1..3. It is not modelled separately.

## Findings

| source | as written | input that shows it | evidently intended | confidence | as-written member | corrected member |
|---|---|---|---|---|---|---|
| hanoiGame.js:49-50 | When phase one already ends with the stack on rod 2, `calculateMoves` returns the raw phase-one moves. It skips both the restore of the stored state (line 56) and the compaction (line 58). | Three disks with disk 1 on rod 0, disk 2 on rod 1, disk 3 on rod 2. The call returns 0→1, 1→0, 1→2, 0→2, and the game's rods stay [[], [], [1, 2, 3]]. | Restore the rods and compact on every path. That returns 1→2, 0→2 and leaves the rods as they were. | medium, not executed | `HanoiSolver.EarlyReturnKeepsPhaseOne` | `HanoiSolver.CalculateMovesRestoringSolves` |

The as-written `HanoiSolver.CalculateMoves` stays the primary model, because
it is what the game runs. `HanoiSolver.CalculateMovesSolves` shows that its
moves still solve the puzzle on both paths. `HanoiSolver.CalculateMovesRestoring`
is the corrected definition.
