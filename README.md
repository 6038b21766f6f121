# Code vs Zombies: the per-turn decision

This project is a Dafny model of the decision routine in
`rust/code-vs-zombies/src/lib.rs`, a bot for the CodinGame puzzle "Code vs
Zombies". On every turn the bot receives its own position (the
*character*), a list of humans and a list of zombies. For each zombie it is
given the current position and the position the zombie will have next turn.
The bot prints one destination.

The routine has four stages, and the model has one module for each:

- **Measuring** (`Numerics`, `Geometry`). There are two distance helpers.
  `pythagorean_theorem` is the rounded-down Euclidean norm.
  `distance` is the rounded-down square root of the *sum* of the coordinate
  differences. Both are modelled with an exact integer square root. The
  negative argument that makes the source's `f32` square root NaN is mapped
  to 0, as the saturating cast does.
- **Evaluating zombies** (`Zombies`). `Zombie::calculate_danger_level`
  gives each zombie two things:
  - its distance to the character;
  - the ascending list of distances from its next position to those humans
    that pass a threshold.

  `Zombie::is_zombie_targetting_character` is the collision-course test.
- **Ranking** (`Ranking`, `Sorting`). Ranking uses the sort key at the head
  of the `sort_by` comparator: the first stored human distance, or
  `i32::MAX` when there is none. The comparator as written is not an order,
  so it is modelled twice: once as written, with a counterexample, and once
  as the lexicographic two-key order it evidently means (key first, then
  character distance). The model sorts by the second.
- **Selecting** (`Selection`). Selection has four steps:
  - the scan for the first zombie heading for the character;
  - the count of zombies heading for each human;
  - the override, in which the last human with a positive count wins;
  - the fallback to `zombies[0]`.

  `Turn` composes all four stages on a `Snapshot`. `Scenarios` works concrete
  snapshots through by hand.

The imperative code becomes methods with loops:

- `CalculateDangerLevel`;
- the zombie-building loop of the input section (`EvaluateZombies`);
- the scan with `break` (`FirstTargetingZombie`);
- the nested counting loop (`CountFacing`);
- the override loop (`ApplyHumanOverride`).

Each method is proved equal to a specification function, or its result is
stated outright. What the source promises is then proved about those
functions as lemmas.

### Behaviour reproduced as written

- Line 41 computes the character's y difference from the x coordinates,
  most likely a defect (the human distance beside it uses both coordinates).
  `Zombies.CharacterDistance` does the same. `CharacterDistanceIgnoresY`
  proves that the character distance depends on x alone.
  `CharacterDistanceOfVerticalOffset` shows a zombie 5000 units straight
  above the character measured at distance 0.
- Line 166 matches on the *input* human's count, which is always `None`,
  most likely a defect (a count that can only be 1 counts nothing). So every
  count ends as `Some(1)` or `None` (`Selection.FacingCount`,
  `Selection.CountFacing`). `Scenarios.CountStopsAtOne` shows two zombies
  heading for one point while the human there comes out with `Some(1)`.
- `distance` sums differences instead of squares. As a result the targeting
  test misses a straight course: a zombie stepping from (0, 0) to (10, 0)
  fails the test for (20, 0), straight ahead, and passes it for (0, 0),
  the point it leaves (`Zombies.TargetingMissesStraightCourse`).

  For the same reason, a zombie stepping from (3000, 0) to (2600, 0) passes
  the test neither for the character at (0, 0), straight ahead of it, nor
  for a human at (5000, 0). So the end-to-end scenario with those three
  falls back to the zombie's own position, (3000, 0)
  (`Scenarios.ApproachingZombieFallsBack`).
- With no zombie and no target the source indexes `zombies[0]` of an empty
  list and panics. The model returns `NoZombies` there.

## Model

| member | source | states |
|---|---|---|
| Numerics.Pow2IsSquare | rust/code-vs-zombies/src/lib.rs:222 | the model of `x.pow(2)` equals `x * x` for every integer `x` |
| Numerics.IsqrtIsFloorSqrt | rust/code-vs-zombies/src/lib.rs:222 | the square root used for `sqrt() as i32` is the floor root: `r*r <= n < (r+1)*(r+1)` |
| Numerics.SqrtAsI32 | rust/code-vs-zombies/src/lib.rs:222 | a non-positive argument (NaN for negatives) gives 0, and any `i32` argument gives at most 46340 |
| Numerics.SqrtAsI32IsFloorSqrt | rust/code-vs-zombies/src/lib.rs:226 | for a non-negative argument the result of the square root and cast is its floor square root |
| Geometry.SquaresFit | rust/code-vs-zombies/src/lib.rs:221-222 | for differences of board coordinates, `a.pow(2) + b.pow(2)` stays within `i32` |
| Geometry.PythagoreanTheorem | rust/code-vs-zombies/src/lib.rs:221-223 | the norm is a natural number no larger than 46340 |
| Geometry.PythagoreanIsFloorNorm | rust/code-vs-zombies/src/lib.rs:221-223 | `r >= 0` and `r*r <= a*a + b*b < (r+1)*(r+1)` |
| Geometry.PythagoreanOfRoot | rust/code-vs-zombies/src/lib.rs:221-223 | for differences of board coordinates, the norm is the one `r` with `r*r <= a*a + b*b < (r+1)*(r+1)` |
| Geometry.PythagoreanAtOrigin | rust/code-vs-zombies/src/lib.rs:221-223 | the norm of (0, 0) is 0 |
| Geometry.PythagoreanSymmetric | rust/code-vs-zombies/src/lib.rs:221-223 | the norm is unchanged by flipping either sign or swapping the arguments |
| Geometry.Distance | rust/code-vs-zombies/src/lib.rs:225-227 | `distance(a, b)` is 0 whenever `(a.0-b.0)+(a.1-b.1) <= 0` |
| Geometry.DistanceIsFloorSqrt | rust/code-vs-zombies/src/lib.rs:225-227 | otherwise it is the floor square root of that sum |
| Geometry.DistanceToSelf | rust/code-vs-zombies/src/lib.rs:225-227 | `distance(a, a) == 0` |
| Geometry.DistanceOneSided | rust/code-vs-zombies/src/lib.rs:225-227 | `distance` is not symmetric: if one direction is positive the other is 0 |
| Sorting.Insert | rust/code-vs-zombies/src/lib.rs:59 | inserting into a sorted list gives a sorted list with `x` added once |
| Sorting.SortAscending | rust/code-vs-zombies/src/lib.rs:59 | `Vec<i32>::sort` yields the input's elements, as often as they occur, in ascending order |
| Sorting.SortedPermutationUnique | rust/code-vs-zombies/src/lib.rs:59 | two sorted lists with the same elements are equal |
| Sorting.LibrarySortAgrees | rust/code-vs-zombies/src/lib.rs:59 | whatever algorithm the library uses, its sorted result is `SortAscending` |
| Sorting.SortedHeadIsMinimum | rust/code-vs-zombies/src/lib.rs:139 | the head of a sorted list, read as `[0]`, is no larger than any of its elements |
| Zombies.CharacterDistance | rust/code-vs-zombies/src/lib.rs:40-42 | the character distance, computed with the x difference twice, is at most 46340 |
| Zombies.CharacterDistanceIgnoresY | rust/code-vs-zombies/src/lib.rs:40-42 | the character distance is the same for any two pairs of points whose x coordinates agree |
| Zombies.CharacterDistanceOfVerticalOffset | rust/code-vs-zombies/src/lib.rs:40-49 | a zombie at (0, 5000) is at character distance 0 but at human distance 5000 from (0, 0) |
| Zombies.CharacterDistanceOfRoot | rust/code-vs-zombies/src/lib.rs:40-42 | the character distance for an x difference `dx` is the floor root of `2*dx*dx` |
| Zombies.HumanDistance | rust/code-vs-zombies/src/lib.rs:45-49 | the distance from a human to the zombie's next position is at most 46340 |
| Zombies.HumanDistanceOfRoot | rust/code-vs-zombies/src/lib.rs:45-49 | the human distance for differences `dx`, `dy` is the floor root of `dx*dx + dy*dy` |
| Zombies.Qualifies | rust/code-vs-zombies/src/lib.rs:51 | a human at distance `dh` qualifies against character distance `dc` exactly when `dh >= 800 * (dc / 3000 + 1)`; with `dc` below 3000, exactly when `dh >= 800` |
| Zombies.Qualifying | rust/code-vs-zombies/src/lib.rs:44-54 | the kept distances are never more than the humans |
| Zombies.QualifyingPrefix | rust/code-vs-zombies/src/lib.rs:44-54 | one more human extends the kept list by its distance exactly when it passes the line-51 test |
| Zombies.QualifyingMembers | rust/code-vs-zombies/src/lib.rs:44-54 | a distance is kept exactly when some human at that distance from the next position passes the test |
| Zombies.QualifyingEmpty | rust/code-vs-zombies/src/lib.rs:44-56 | nothing is kept exactly when no human passes the test |
| Zombies.DangerLevel | rust/code-vs-zombies/src/lib.rs:35-62 | positions are kept, the character distance is always set, and a stored list is never empty |
| Zombies.DangerLevelMeaning | rust/code-vs-zombies/src/lib.rs:43-61 | the character distance is stored. For a fresh zombie the list is `None` exactly when no human passes; otherwise it is non-empty, sorted, and a permutation of the kept distances |
| Zombies.CalculateDangerLevel | rust/code-vs-zombies/src/lib.rs:35-62 | the loop and the in-place updates compute `DangerLevel` |
| Zombies.IsZombieTargettingCharacter | rust/code-vs-zombies/src/lib.rs:64-68 | a zombie whose next position equals its position passes the test for every point |
| Zombies.TargetingReadsOnlyMovement | rust/code-vs-zombies/src/lib.rs:64-68 | the test depends only on the zombie's two positions, not on its danger level |
| Zombies.TargetingMissesStraightCourse | rust/code-vs-zombies/src/lib.rs:64-68 | a zombie moving (0,0)→(10,0) fails the test for (20,0) and passes it for (0,0) |
| Zombies.ZombiesHeadingFor | rust/code-vs-zombies/src/lib.rs:164-165 | the number of zombies passing the test for a point is positive exactly when some zombie does |
| Ranking.CompareOptions | rust/code-vs-zombies/src/lib.rs:146 | `Option<i32>::cmp`: equal exactly when the options are equal, `None` before every `Some`, two `Some`s ordered by their values |
| Ranking.SortKey | rust/code-vs-zombies/src/lib.rs:139-140 | `i32::MAX` for a zombie with no stored list; for a sorted stored list, a member of it no larger than any other |
| Ranking.SortKeyOfDangerLevel | rust/code-vs-zombies/src/lib.rs:139-140 | after `calculate_danger_level` the key exists; it is `i32::MAX` exactly when no human passes, and is otherwise the smallest kept distance |
| Ranking.CompareAsWritten | rust/code-vs-zombies/src/lib.rs:141-147 | the comparator as written returns `Equal` exactly when the keys agree or the character distances agree; with different keys it orders by character distance alone |
| Ranking.OneHumanDangerLevel | rust/code-vs-zombies/src/lib.rs:35-62 | with one qualifying human, the danger level stores the character distance and the one-element list of that human's distance |
| Ranking.AsWrittenIsNotAnOrder | rust/code-vs-zombies/src/lib.rs:138-148 | with the comparator as written there are `a == b`, `b < c` and yet `a > c`, with `a`'s key smaller than `c`'s |
| Ranking.CompareByDanger | rust/code-vs-zombies/src/lib.rs:138-148 | the intended order: a smaller key comes first, a larger one later, equal keys are ordered by character distance |
| Ranking.ByDangerIsTotalPreorder | rust/code-vs-zombies/src/lib.rs:138-148 | the intended order is total and transitive, flips with its arguments, and ties exactly when both keys agree |
| Ranking.EndangeringZombieRanksFirst | rust/code-vs-zombies/src/lib.rs:138-148 | a zombie that endangers a human ranks strictly before one that endangers none, whatever their character distances |
| Ranking.InsertByDanger | rust/code-vs-zombies/src/lib.rs:138-148 | inserting into a ranked list keeps it ranked and adds the zombie once |
| Ranking.SortByDanger | rust/code-vs-zombies/src/lib.rs:138-148 | the sorted zombie list is a permutation of the input, ranked by the intended order |
| Selection.HumansOf | rust/code-vs-zombies/src/lib.rs:90-106 | one record per input human, in input order, with no count |
| Selection.DangerLevels | rust/code-vs-zombies/src/lib.rs:110-137 | one evaluated zombie per sighting |
| Selection.DangerLevelsAt | rust/code-vs-zombies/src/lib.rs:110-137 | evaluated zombie `j` is sighting `j` after `calculate_danger_level` |
| Selection.DangerLevelsKeyed | rust/code-vs-zombies/src/lib.rs:129-140 | every evaluated zombie stays on the board and has a sort key |
| Selection.EvaluatedKeyed | rust/code-vs-zombies/src/lib.rs:110-140 | the evaluated zombies of a snapshot are on the board and each has a sort key |
| Selection.DangerLevelsTargets | rust/code-vs-zombies/src/lib.rs:129-152 | evaluation changes nothing about which points zombies head for |
| Selection.EvaluateZombies | rust/code-vs-zombies/src/lib.rs:110-137 | the input loop builds exactly `DangerLevels` of the sightings |
| Selection.Ranked | rust/code-vs-zombies/src/lib.rs:138-148 | the sorted list is a permutation of the evaluated zombies, on the board, keyed and ranked |
| Selection.PermutedTargets | rust/code-vs-zombies/src/lib.rs:138-152 | reordering the zombies keeps the set of points some zombie heads for |
| Selection.ReorderingInRange | rust/code-vs-zombies/src/lib.rs:138-148 | any reordering of the evaluated zombies, whatever comparator produced it, is as long as the feed, on the board and keyed |
| Selection.EvaluatedTargetsLikeSnapshot | rust/code-vs-zombies/src/lib.rs:110-165 | a point is headed for by an evaluated zombie exactly when some sighting of the snapshot heads for it |
| Selection.ReorderedTargetsLikeSnapshot | rust/code-vs-zombies/src/lib.rs:138-165 | the same holds for every reordering of the evaluated zombies |
| Selection.FirstTargetingNone | rust/code-vs-zombies/src/lib.rs:150-156 | the scan finds nothing exactly when no zombie heads for the character |
| Selection.FirstTargetingAt | rust/code-vs-zombies/src/lib.rs:150-156 | otherwise it finds the current position of the first zombie in list order that does |
| Selection.FirstTargetingZombie | rust/code-vs-zombies/src/lib.rs:150-156 | the loop with `break` computes `FirstTargeting` |
| Selection.FacingCount | rust/code-vs-zombies/src/lib.rs:163-177 | a human's new count is `Some` exactly when some zombie heads for it, and then one more than the count it came in with, however many zombies head for it; for a human with no count it is `None` or `Some(1)` |
| Selection.CountFacing | rust/code-vs-zombies/src/lib.rs:158-181 | positions are kept and every human's count becomes its `FacingCount` |
| Selection.OverrideKeeps | rust/code-vs-zombies/src/lib.rs:184-189 | with no positive count the target is kept |
| Selection.OverrideLast | rust/code-vs-zombies/src/lib.rs:184-189 | otherwise the target is the last human in list order with a positive count |
| Selection.ApplyHumanOverride | rust/code-vs-zombies/src/lib.rs:184-189 | the loop computes `Override` |
| Selection.LastThreatenedNone | rust/code-vs-zombies/src/lib.rs:158-189 | no human is found exactly when no zombie heads for any human |
| Selection.LastThreatenedAt | rust/code-vs-zombies/src/lib.rs:158-189 | otherwise the human found is the last one in list order that some zombie heads for |
| Selection.OverrideOfCounts | rust/code-vs-zombies/src/lib.rs:158-189 | after counting, the override yields the last human headed for, or keeps the target when there is none |
| Selection.DecisionNoZombies | rust/code-vs-zombies/src/lib.rs:191-207 | there is a destination exactly when there is a zombie |
| Selection.DecisionHuman | rust/code-vs-zombies/src/lib.rs:184-198 | the last human headed for is the destination, whatever the scan found |
| Selection.DecisionCharacter | rust/code-vs-zombies/src/lib.rs:150-198 | with no human headed for, the destination is the current position of the first zombie heading for the character |
| Selection.DecisionFallback | rust/code-vs-zombies/src/lib.rs:200-207 | with nobody headed for, the destination is the current position of `zombies[0]` |
| Selection.SelectTarget | rust/code-vs-zombies/src/lib.rs:150-207 | the scan, the counting, the override and the fallback compute `Decision` |
| Selection.Turn | rust/code-vs-zombies/src/lib.rs:90-207 | one turn computes `Decision` on the humans and the ranked, evaluated zombies of the snapshot |
| Selection.ReorderedThreatens | rust/code-vs-zombies/src/lib.rs:158-181 | in every order of the evaluated zombies, each human is headed for exactly when the snapshot threatens it |
| Selection.TurnNoZombies | rust/code-vs-zombies/src/lib.rs:191-207 | in every order of the evaluated zombies, the decision has a destination exactly when the snapshot has a zombie |
| Selection.TurnHuman | rust/code-vs-zombies/src/lib.rs:158-198 | in every order of the evaluated zombies, the last threatened human of the snapshot is the destination |
| Selection.TurnCharacter | rust/code-vs-zombies/src/lib.rs:150-198 | in every order of the evaluated zombies, with no human threatened, the destination is the current position of the first zombie in that order heading for the character |
| Selection.TurnFallback | rust/code-vs-zombies/src/lib.rs:200-207 | in every order of the evaluated zombies, with neither a human nor the character headed for, the destination is the current position of the first zombie in that order |
| Scenarios.ApproachPassesNoTest | rust/code-vs-zombies/src/lib.rs:64-68 | a zombie moving (3000,0)→(2600,0) passes the test neither for (5000,0) nor for (0,0) |
| Scenarios.StepMissesTest | rust/code-vs-zombies/src/lib.rs:64-68 | a zombie with a positive step, from whose two positions both sums towards `p` are not positive, fails the test for `p` |
| Scenarios.LoneZombieFallsBack | rust/code-vs-zombies/src/lib.rs:200-207 | with one zombie and nobody headed for, the destination is that zombie's current position, in any order |
| Scenarios.ApproachSparesHuman | rust/code-vs-zombies/src/lib.rs:158-181 | character (0,0), human (5000,0), zombie (3000,0)→(2600,0): the human is not headed for |
| Scenarios.ApproachSparesCharacter | rust/code-vs-zombies/src/lib.rs:150-156 | in the same snapshot the character is not headed for |
| Scenarios.ApproachingZombieFallsBack | rust/code-vs-zombies/src/lib.rs:83-207 | in the same snapshot the turn prints "3000 0", in any order of the zombies |
| Scenarios.CountStopsAtOne | rust/code-vs-zombies/src/lib.rs:158-181 | two zombies standing at (0,0) and (1,1) both head for (5,5), yet a human there with no count comes out with `Some(1)` |
| Scenarios.NoHumanDangerLevel | rust/code-vs-zombies/src/lib.rs:35-62 | with no humans on the board, the danger level stores the character distance and no list |
| Scenarios.RetreatingPairEvaluated | rust/code-vs-zombies/src/lib.rs:110-137 | character (0,0), no humans, zombies (6000,0)→(5600,0) and (3000,0)→(2600,0): both keys are `i32::MAX`, the character distances 8485 and 4242 |
| Scenarios.RetreatingPairUnthreatened | rust/code-vs-zombies/src/lib.rs:150-181 | in the same snapshot nobody is headed for |
| Scenarios.FeedOrderAndRankingDisagree | rust/code-vs-zombies/src/lib.rs:138-207 | in the same snapshot the comparator as written calls the two zombies equal, so in the feed order the turn goes to (6000,0); in the ranked order it goes to (3000,0) |

## Left out

- Reading and parsing standard input (the `parse_input!` macro, lines 8-10, and lines 78-137 apart from the record building): the snapshot is a Dafny value passed to `Turn`.
- The endless `loop` (line 77): `Turn` is one iteration.
- `println!` and the `eprintln!` diagnostics (lines 183-206): `Turn` returns the destination as a `Command`.
- Entity `id` fields: they are parsed and stored but play no part in the decision.
- Numerics.SqrtAsI32: it does not model the rounding of `n as f32` for `n` above 2^24. It takes the exact floor root, so near a perfect square it can differ by one from the source.
- Geometry.PythagoreanTheorem: it requires the sum of squares to fit in `i32`, instead of modelling the overflow of `pow` and `+`. Every caller satisfies this for coordinates within ±16000 (`SquaresFit`), and the puzzle's board is 16000 by 9000.
- Geometry.Distance: it requires the differences and their sum to fit in `i32`, for the same reason.
- Selection.Turn, Selection.Ranked: the source calls `sort_by` with the comparator as written; the model ranks by the intended order (see Findings), so `Turn`'s destination is a prediction of the source's output only where both orders agree. They disagree often. When all keys are equal, for instance when no human is on the board, the comparator as written returns `Equal` for every pair, and the stable sort keeps the feed order; the model ranks by character distance instead (`Scenarios.FeedOrderAndRankingDisagree`: the source moves to (6000, 0), the model to (3000, 0)). When all keys differ the comparator orders by character distance alone, ignoring the keys. Where the comparator is not an order at all, Rust leaves the result order unspecified and may panic.
- Selection.TurnNoZombies, Selection.TurnHuman, Selection.TurnCharacter, Selection.TurnFallback: these are stated for every reordering of the evaluated zombies, so they hold whatever order the comparator as written leaves. `TurnNoZombies` and `TurnHuman` do not depend on the order at all; `TurnCharacter` and `TurnFallback` name the first zombie of the order actually used.
- Sorting in place (`distances.sort()` at line 59 and `zombies.sort_by` at line 138) is modelled on values: the sorted sequence is a new value.
- Selection.CountFacing: it requires an incoming count to be below `i32::MAX`, so that `amount + 1` cannot overflow. At the call site every count is `None`.
- There is no check on the input's sizes or values: the model admits any lists of positions within ±16000.

## Findings

| source | as written | input that shows it | evidently intended | confidence | as-written member | corrected member |
|---|---|---|---|---|---|---|
| rust/code-vs-zombies/src/lib.rs:141-147 | when keys are equal the comparator returns `a_key.cmp(&b_key)`, always `Equal`; when they differ it compares only the character distances | character (0, 0), human (0, 2000), zombies a (4, 1000)→(4, 1200), b (1, 1000)→(0, 1200), c (3, 0)→(3, 400) (`Ranking.AsWrittenIsNotAnOrder`): keys 800, 800, 1600 and character distances 5, 1, 4, so `a == b`, `b < c`, but `a > c` although `a`'s key is smaller | order by key, then break ties by character distance | not executed | Ranking.AsWrittenIsNotAnOrder | Ranking.ByDangerIsTotalPreorder |
