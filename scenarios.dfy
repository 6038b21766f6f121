/** One complete turn worked through on a concrete snapshot. */
module Scenarios {
  import opened Options
  import opened Numerics
  import opened Geometry
  import opened Zombies
  import opened Ranking
  import opened Selection

  /**
   * A zombie stepping from (3000, 0) to (2600, 0) passes the targeting test
   * neither for (5000, 0), behind it, nor for (0, 0), straight ahead: for
   * (0, 0) both sums are negative, so both distances measured from it are 0
   * while the step measures 20.
   */
  lemma {:induction false} ApproachPassesNoTest()
    ensures var z := Zombie(Position(3000, 0), Position(2600, 0), None, None);
      && !IsZombieTargettingCharacter(z, Position(5000, 0))
      && !IsZombieTargettingCharacter(z, Position(0, 0))
  {
    SqrtAsI32IsFloorSqrt(2400);
    FloorSqrtUnique(2400, SqrtAsI32(2400), 48);
    SqrtAsI32IsFloorSqrt(400);
    FloorSqrtUnique(400, SqrtAsI32(400), 20);
    SqrtAsI32IsFloorSqrt(2000);
    FloorSqrtUnique(2000, SqrtAsI32(2000), 44);
  }

  /**
   * With a lone zombie that nobody is headed by, the turn goes to where it
   * stands, in whatever order the zombies are ranked.
   */
  lemma LoneZombieFallsBack(s: Snapshot, sorted: seq<Zombie>)
    requires SnapshotInRange(s) && |s.zombies| == 1
    requires Reorders(s, sorted) && AllInRange(sorted)
    requires NoHumanThreatened(s) && !Targeted(s, s.character)
    ensures Decision(s.character, HumansOf(s), sorted) == Move(s.zombies[0].position)
  {
    TurnFallback(s, sorted);
    DangerLevelsAt(s.zombies, HumansOf(s), s.character, 0);
    assert sorted[0] in multiset(Evaluated(s));
  }

  /** Character at (0, 0), one human at (5000, 0), one zombie stepping from (3000, 0) to (2600, 0). */
  function Approach(): Snapshot {
    Snapshot(Position(0, 0), [Position(5000, 0)], [Sighting(Position(3000, 0), Position(2600, 0))])
  }

  lemma ApproachInRange()
    ensures SnapshotInRange(Approach())
  {
  }

  /** The one human of `Approach` is not headed for. */
  lemma {:induction false} ApproachSparesHuman()
    ensures SnapshotInRange(Approach()) && NoHumanThreatened(Approach())
  {
    ApproachInRange();
    ApproachPassesNoTest();
    assert !SightingTargets(Approach(), 0, Approach().humans[0]);
  }

  /** The character of `Approach` is not headed for. */
  lemma {:induction false} ApproachSparesCharacter()
    ensures SnapshotInRange(Approach()) && !Targeted(Approach(), Approach().character)
  {
    ApproachInRange();
    StepMissesTest(NewZombie(Approach().zombies[0]), Approach().character);
    assert !SightingTargets(Approach(), 0, Approach().character);
  }

  /**
   * In `Approach` the turn falls back to the zombie's current position,
   * however the zombies are ranked.
   */
  lemma {:induction false} ApproachingZombieFallsBack(sorted: seq<Zombie>)
    requires SnapshotInRange(Approach()) && Reorders(Approach(), sorted) && AllInRange(sorted)
    ensures Decision(Approach().character, HumansOf(Approach()), sorted) == Move(Position(3000, 0))
  {
    ApproachSparesHuman();
    ApproachSparesCharacter();
    LoneZombieFallsBack(Approach(), sorted);
  }

  /**
   * Two zombies standing still both head for every point, so two zombies
   * head for (5, 5); yet a human at (5, 5) that came in with no count comes
   * out of the counting loops with `Some(1)`.
   */
  lemma CountStopsAtOne()
    ensures var zs := [Zombie(Position(0, 0), Position(0, 0), None, None),
                       Zombie(Position(1, 1), Position(1, 1), None, None)];
      && ZombiesHeadingFor(zs, Position(5, 5)) == 2
      && FacingCount(Human(Position(5, 5), None), zs) == Some(1)
  {
    var zs := [Zombie(Position(0, 0), Position(0, 0), None, None),
               Zombie(Position(1, 1), Position(1, 1), None, None)];
    assert zs[1..] == [zs[1]];
    assert zs[1..][1..] == [];
    assert IsZombieTargettingCharacter(zs[0], Position(5, 5));
  }

  /** With no human on the board, the danger level stores the character distance alone. */
  lemma NoHumanDangerLevel(z: Zombie, humans: seq<Human>, character: Position, dxc: int, dc: int)
    requires InRange(character) && ZombieInRange(z) && |humans| == 0
    requires dxc == character.x - z.position.x && IsFloorSqrt(2 * (dxc * dxc), dc)
    ensures DangerLevel(z, humans, character) == z.(distanceToCharacter := Some(dc))
  {
    CharacterDistanceOfRoot(character, z.position, dxc, dc);
  }

  /**
   * A zombie whose step has a positive sum of differences, and from whose
   * two positions the sums towards `p` are not positive, fails the test for
   * `p`: both distances measured from `p` are 0 while its step is not.
   */
  lemma StepMissesTest(z: Zombie, p: Position)
    requires ZombieInRange(z) && InRange(p)
    requires (p.x - z.positionNext.x) + (p.y - z.positionNext.y) <= 0
    requires (p.x - z.position.x) + (p.y - z.position.y) <= 0
    requires (z.position.x - z.positionNext.x) + (z.position.y - z.positionNext.y) > 0
    ensures !IsZombieTargettingCharacter(z, p)
  {
    DistanceIsFloorSqrt(z.position, z.positionNext);
  }

  /** The snapshot on which the feed order and the ranking part ways. */
  function RetreatingPair(): Snapshot {
    Snapshot(Position(0, 0), [],
             [Sighting(Position(6000, 0), Position(5600, 0)), Sighting(Position(3000, 0), Position(2600, 0))])
  }

  /**
   * Evaluated on `RetreatingPair`, neither zombie has a human distance, so
   * both keys are `i32::MAX`, and the character distances are 8485 and 4242.
   */
  lemma {:induction false} RetreatingPairEvaluated()
    ensures SnapshotInRange(RetreatingPair())
    ensures Evaluated(RetreatingPair()) ==
      [Zombie(Position(6000, 0), Position(5600, 0), Some(8485), None),
       Zombie(Position(3000, 0), Position(2600, 0), Some(4242), None)]
  {
    var s := RetreatingPair();
    NoHumanDangerLevel(NewZombie(s.zombies[0]), HumansOf(s), s.character, -6000, 8485);
    NoHumanDangerLevel(NewZombie(s.zombies[1]), HumansOf(s), s.character, -3000, 4242);
    DangerLevelsAt(s.zombies, HumansOf(s), s.character, 0);
    DangerLevelsAt(s.zombies, HumansOf(s), s.character, 1);
  }

  /** Nobody is headed for in `RetreatingPair`. */
  lemma {:induction false} RetreatingPairUnthreatened()
    ensures SnapshotInRange(RetreatingPair())
    ensures NoHumanThreatened(RetreatingPair()) && !Targeted(RetreatingPair(), Position(0, 0))
  {
    var s := RetreatingPair();
    StepMissesTest(NewZombie(s.zombies[0]), s.character);
    StepMissesTest(NewZombie(s.zombies[1]), s.character);
    assert !SightingTargets(s, 0, s.character);
    assert !SightingTargets(s, 1, s.character);
  }

  /**
   * Character at (0, 0), no humans, zombies stepping from (6000, 0) to
   * (5600, 0) and from (3000, 0) to (2600, 0), in that order. The
   * comparator as written calls the two zombies equal, so a stable sort
   * keeps the feed order and the turn goes to (6000, 0); the ranking by
   * danger puts the nearer zombie first and goes to (3000, 0).
   */
  lemma {:induction false} FeedOrderAndRankingDisagree()
    ensures var s := RetreatingPair();
      && SnapshotInRange(s) && AllInRange(Evaluated(s)) && AllKeyed(Evaluated(s)) && |Evaluated(s)| == 2
      && CompareAsWritten(Evaluated(s)[0], Evaluated(s)[1]) == Equal
      && Decision(s.character, HumansOf(s), Evaluated(s)) == Move(Position(6000, 0))
      && Decision(s.character, HumansOf(s), Ranked(s)) == Move(Position(3000, 0))
  {
    var s := RetreatingPair();
    RetreatingPairEvaluated();
    RetreatingPairUnthreatened();
    EvaluatedKeyed(s);
    var a, b := Evaluated(s)[0], Evaluated(s)[1];
    TurnFallback(s, Evaluated(s));
    TurnFallback(s, Ranked(s));
    var r := Ranked(s);
    assert CompareByDanger(a, b) == Greater;
    assert r[0] in multiset(Evaluated(s));
  }
}
