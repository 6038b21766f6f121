/**
 * The threat evaluator: the `Human` and `Zombie` records, the danger level a
 * zombie is given (`Zombie::calculate_danger_level`) and the collision-course
 * test (`Zombie::is_zombie_targetting_character`).
 */
module Zombies {
  import opened Options
  import opened Numerics
  import opened Geometry
  import opened Sorting

  const CHARACTER_MOVE_SPEED: int := 1000
  const CHARACTER_KILL_RANGE: int := 2000
  const ZOMBIE_MOVE_SPEED: int := 400
  const ZOMBIE_KILL_RANGE: int := 400

  /** A human and the count of zombies found heading for it. */
  datatype Human = Human(position: Position, zombiesFacingHuman: Option<int>)

  /**
   * A zombie: where it is, where it will be next turn, and the two danger
   * measures filled in by `CalculateDangerLevel`.
   */
  datatype Zombie = Zombie(
    position: Position,
    positionNext: Position,
    distanceToCharacter: Option<int>,
    distancesToHumans: Option<seq<int>>)

  predicate ZombieInRange(z: Zombie) {
    InRange(z.position) && InRange(z.positionNext)
  }

  predicate HumansInRange(humans: seq<Human>) {
    forall i :: 0 <= i < |humans| ==> InRange(humans[i].position)
  }

  predicate AllInRange(zombies: seq<Zombie>) {
    forall j :: 0 <= j < |zombies| ==> ZombieInRange(zombies[j])
  }

  /** A stored list of human distances is never empty, so its head exists. */
  predicate DistancesNonEmpty(z: Zombie) {
    z.distancesToHumans.Some? ==> |z.distancesToHumans.value| > 0
  }

  /**
   * The zombie's distance to the character as the source computes it: the
   * x difference stands in for the y difference too.
   */
  function CharacterDistance(character: Position, zombie: Position): (r: nat)
    requires InRange(character) && InRange(zombie)
    ensures r <= MAX_SQRT
  {
    var dx := character.x - zombie.x;
    var dy := character.x - zombie.x;
    SquaresFit(dx, dy);
    PythagoreanTheorem(dx, dy)
  }

  /** Euclidean distance from a human to the zombie's next position. */
  function HumanDistance(human: Position, next: Position): (r: nat)
    requires InRange(human) && InRange(next)
    ensures r <= MAX_SQRT
  {
    var dx := human.x - next.x;
    var dy := human.y - next.y;
    SquaresFit(dx, dy);
    PythagoreanTheorem(dx, dy)
  }

  /** The character distance is the floor root of twice the squared x difference `dx`. */
  lemma CharacterDistanceOfRoot(character: Position, zombie: Position, dx: int, r: int)
    requires InRange(character) && InRange(zombie) && dx == character.x - zombie.x
    requires IsFloorSqrt(2 * (dx * dx), r)
    ensures CharacterDistance(character, zombie) == r
  {
    PythagoreanOfRoot(dx, dx, r);
  }

  /** The human distance is the floor root of the squared norm of the differences `dx` and `dy`. */
  lemma HumanDistanceOfRoot(human: Position, next: Position, dx: int, dy: int, r: int)
    requires InRange(human) && InRange(next) && dx == human.x - next.x && dy == human.y - next.y
    requires IsFloorSqrt(dx * dx + dy * dy, r)
    ensures HumanDistance(human, next) == r
  {
    PythagoreanOfRoot(dx, dy, r);
  }

  /**
   * A human at distance `dh` from the zombie counts as more endangered than
   * the character at distance `dc` when the zombie needs more of its turns
   * for the human than the character needs for the zombie (both in
   * truncating integer division of non-negative values). The human's
   * distance must reach 800 for each whole 3000 of the character's distance,
   * plus one more 800; with the character within 3000, a human qualifies
   * exactly from 800 on.
   */
  predicate Qualifies(dh: int, dc: int)
    ensures Qualifies(dh, dc) <==> dh >= 800 * (dc / 3000 + 1)
    ensures 0 <= dc < 3000 ==> (Qualifies(dh, dc) <==> dh >= 800)
  {
    dh / (ZOMBIE_KILL_RANGE + ZOMBIE_MOVE_SPEED) > dc / (CHARACTER_KILL_RANGE + CHARACTER_MOVE_SPEED)
  }

  /** The distances of the humans that qualify, in the order of `humans`. */
  function Qualifying(humans: seq<Human>, next: Position, dc: int): (r: seq<int>)
    requires InRange(next) && HumansInRange(humans)
    ensures |r| <= |humans|
  {
    if |humans| == 0 then []
    else
      var last := |humans| - 1;
      var d := HumanDistance(humans[last].position, next);
      Qualifying(humans[..last], next, dc) + (if Qualifies(d, dc) then [d] else [])
  }

  /** Some human passes the threshold against zombie `z`. */
  predicate EndangersSomeHuman(z: Zombie, humans: seq<Human>, character: Position)
    requires InRange(character) && ZombieInRange(z) && HumansInRange(humans)
  {
    exists i :: 0 <= i < |humans| &&
      Qualifies(HumanDistance(humans[i].position, z.positionNext), CharacterDistance(character, z.position))
  }

  /** Extending the humans seen by one extends the kept distances by at most one. */
  lemma QualifyingPrefix(humans: seq<Human>, i: int, next: Position, dc: int)
    requires InRange(next) && HumansInRange(humans) && 0 <= i < |humans|
    ensures var d := HumanDistance(humans[i].position, next);
      Qualifying(humans[..i + 1], next, dc)
        == Qualifying(humans[..i], next, dc) + if Qualifies(d, dc) then [d] else []
  {
    assert humans[..i + 1][..i] == humans[..i];
  }

  /** Some human at index `i` stands at distance `d` and qualifies. */
  ghost predicate QualifyingHuman(humans: seq<Human>, next: Position, dc: int, d: int, i: int)
    requires InRange(next) && HumansInRange(humans)
  {
    0 <= i < |humans| && d == HumanDistance(humans[i].position, next) && Qualifies(d, dc)
  }

  /** A distance is kept exactly when it is that of a human that qualifies. */
  lemma {:induction false} QualifyingMembers(humans: seq<Human>, next: Position, dc: int, d: int)
    requires InRange(next) && HumansInRange(humans)
    ensures d in Qualifying(humans, next, dc) <==> exists i :: QualifyingHuman(humans, next, dc, d, i)
  {
    if |humans| > 0 {
      var last := |humans| - 1;
      var init := humans[..last];
      var dl := HumanDistance(humans[last].position, next);
      var tail := if Qualifies(dl, dc) then [dl] else [];
      assert Qualifying(humans, next, dc) == Qualifying(init, next, dc) + tail;
      QualifyingMembers(init, next, dc, d);
      if d in Qualifying(humans, next, dc) {
        if d in Qualifying(init, next, dc) {
          var i :| QualifyingHuman(init, next, dc, d, i);
          assert humans[i] == init[i];
          assert QualifyingHuman(humans, next, dc, d, i);
        } else {
          assert QualifyingHuman(humans, next, dc, d, last);
        }
      }
      if exists i :: QualifyingHuman(humans, next, dc, d, i) {
        var i :| QualifyingHuman(humans, next, dc, d, i);
        if i < last {
          assert humans[i] == init[i];
          assert QualifyingHuman(init, next, dc, d, i);
        }
      }
    }
  }

  /** No distance is kept exactly when no human qualifies. */
  lemma QualifyingEmpty(humans: seq<Human>, next: Position, dc: int)
    requires InRange(next) && HumansInRange(humans)
    ensures |Qualifying(humans, next, dc)| == 0 <==>
      forall i :: 0 <= i < |humans| ==> !Qualifies(HumanDistance(humans[i].position, next), dc)
  {
    var q := Qualifying(humans, next, dc);
    if |q| > 0 {
      QualifyingMembers(humans, next, dc, q[0]);
    }
    forall i | 0 <= i < |humans| && Qualifies(HumanDistance(humans[i].position, next), dc)
      ensures |q| > 0
    {
      var d := HumanDistance(humans[i].position, next);
      QualifyingMembers(humans, next, dc, d);
      assert QualifyingHuman(humans, next, dc, d, i);
    }
  }

  /**
   * The danger level of `z`: its distance to the character and, when some
   * human qualifies, the sorted qualifying distances; otherwise the
   * distances field is left as it was.
   */
  function DangerLevel(z: Zombie, humans: seq<Human>, character: Position): (r: Zombie)
    requires InRange(character) && ZombieInRange(z) && HumansInRange(humans)
    ensures r.position == z.position && r.positionNext == z.positionNext
    ensures r.distanceToCharacter.Some?
    ensures DistancesNonEmpty(z) ==> DistancesNonEmpty(r)
  {
    var dc := CharacterDistance(character, z.position);
    var q := Qualifying(humans, z.positionNext, dc);
    assert |SortAscending(q)| == |q| by {
      assert |multiset(SortAscending(q))| == |multiset(q)|;
    }
    z.(distanceToCharacter := Some(dc),
       distancesToHumans := if |q| == 0 then z.distancesToHumans else Some(SortAscending(q)))
  }

  /**
   * What `DangerLevel` stores: the character distance, always; when some
   * human qualifies, exactly the qualifying distances, sorted ascending;
   * when none qualifies, the distances field as it was, so a zombie that
   * came in without a list ends without one exactly when no human qualifies.
   */
  lemma DangerLevelMeaning(z: Zombie, humans: seq<Human>, character: Position)
    requires InRange(character) && ZombieInRange(z) && HumansInRange(humans)
    ensures var r := DangerLevel(z, humans, character);
      var q := Qualifying(humans, z.positionNext, CharacterDistance(character, z.position));
      && r.distanceToCharacter == Some(CharacterDistance(character, z.position))
      && (z.distancesToHumans == None ==>
            (r.distancesToHumans == None <==> !EndangersSomeHuman(z, humans, character)))
      && (|q| == 0 ==> r.distancesToHumans == z.distancesToHumans)
      && (|q| > 0 ==> r.distancesToHumans.Some?
                      && |r.distancesToHumans.value| > 0
                      && Sorted(r.distancesToHumans.value)
                      && multiset(r.distancesToHumans.value) == multiset(q))
  {
    QualifyingEmpty(humans, z.positionNext, CharacterDistance(character, z.position));
  }

  /**
   * `Zombie::calculate_danger_level`: measures the character distance, keeps
   * each human distance that passes the threshold, and stores them sorted,
   * or leaves the field untouched when none passes; that is, `DangerLevel`.
   */
  method CalculateDangerLevel(z: Zombie, humans: seq<Human>, character: Position) returns (r: Zombie)
    requires InRange(character) && ZombieInRange(z) && HumansInRange(humans)
    ensures r == DangerLevel(z, humans, character)
  {
    var distanceXCharacter := character.x - z.position.x;
    var distanceYCharacter := character.x - z.position.x;
    SquaresFit(distanceXCharacter, distanceYCharacter);
    var distanceCharacter := PythagoreanTheorem(distanceXCharacter, distanceYCharacter);
    assert distanceCharacter == CharacterDistance(character, z.position);
    var distances: seq<int> := [];
    for i := 0 to |humans|
      invariant distances == Qualifying(humans[..i], z.positionNext, distanceCharacter)
    {
      var distanceXHuman := humans[i].position.x - z.positionNext.x;
      var distanceYHuman := humans[i].position.y - z.positionNext.y;
      SquaresFit(distanceXHuman, distanceYHuman);
      var distanceHuman := PythagoreanTheorem(distanceXHuman, distanceYHuman);
      assert distanceHuman == HumanDistance(humans[i].position, z.positionNext);
      QualifyingPrefix(humans, i, z.positionNext, distanceCharacter);
      if distanceHuman / (ZOMBIE_KILL_RANGE + ZOMBIE_MOVE_SPEED)
         > distanceCharacter / (CHARACTER_KILL_RANGE + CHARACTER_MOVE_SPEED)
      {
        distances := distances + [distanceHuman];
      }
    }
    assert humans[..|humans|] == humans;
    r := z.(distanceToCharacter := Some(distanceCharacter));
    if |distances| != 0 {
      distances := SortAscending(distances);
      r := r.(distancesToHumans := Some(distances));
    }
  }

  /**
   * `Zombie::is_zombie_targetting_character`: the zombie counts as heading
   * for `p` when the `Distance` from `p` to its next position plus the
   * length of its step equals the `Distance` from `p` to its position. A
   * zombie that stays where it is passes for every point.
   */
  function IsZombieTargettingCharacter(z: Zombie, p: Position): (r: bool)
    requires ZombieInRange(z) && InRange(p)
    ensures z.position == z.positionNext ==> r
  {
    Distance(p, z.positionNext) + Distance(z.position, z.positionNext) == Distance(p, z.position)
  }

  /** The targeting test reads nothing of a zombie but its two positions. */
  lemma TargetingReadsOnlyMovement(a: Zombie, b: Zombie, p: Position)
    requires ZombieInRange(a) && ZombieInRange(b) && InRange(p)
    requires a.position == b.position && a.positionNext == b.positionNext
    ensures IsZombieTargettingCharacter(a, p) == IsZombieTargettingCharacter(b, p)
  {
  }

  /**
   * A zombie stepping from (0, 0) to (10, 0) does not pass the test for
   * (20, 0), the point straight ahead of it, but passes it for (0, 0), the
   * point it is leaving: the sum-of-differences `Distance` cannot detect a
   * straight course.
   */
  lemma {:induction false} TargetingMissesStraightCourse()
    ensures var z := Zombie(Position(0, 0), Position(10, 0), None, None);
      && !IsZombieTargettingCharacter(z, Position(20, 0))
      && IsZombieTargettingCharacter(z, Position(0, 0))
  {
    SqrtAsI32IsFloorSqrt(10);
    FloorSqrtUnique(10, SqrtAsI32(10), 3);
    SqrtAsI32IsFloorSqrt(20);
    FloorSqrtUnique(20, SqrtAsI32(20), 4);
  }

  /** The character distance depends on the x coordinates only. */
  lemma CharacterDistanceIgnoresY(c: Position, c': Position, z: Position, z': Position)
    requires InRange(c) && InRange(c') && InRange(z) && InRange(z')
    requires c.x == c'.x && z.x == z'.x
    ensures CharacterDistance(c, z) == CharacterDistance(c', z')
  {
  }

  /**
   * The character distance is the floor of `sqrt(2) * |dx|`: a zombie 5000
   * units straight above the character is measured at distance 0.
   */
  lemma {:induction false} CharacterDistanceOfVerticalOffset()
    ensures CharacterDistance(Position(0, 0), Position(0, 5000)) == 0
    ensures HumanDistance(Position(0, 0), Position(0, 5000)) == 5000
  {
    Pow2IsSquare(-5000);
    PythagoreanIsFloorNorm(0, -5000);
    FloorSqrtUnique(25000000, PythagoreanTheorem(0, -5000), 5000);
  }

  /** Some zombie of `zombies` passes the targeting test for `p`. */
  predicate AnyTargets(zombies: seq<Zombie>, p: Position)
    requires AllInRange(zombies) && InRange(p)
  {
    exists j :: 0 <= j < |zombies| && IsZombieTargettingCharacter(zombies[j], p)
  }

  /** How many zombies of `zombies` pass the targeting test for `p`. */
  function ZombiesHeadingFor(zombies: seq<Zombie>, p: Position): (n: nat)
    requires AllInRange(zombies) && InRange(p)
    ensures n <= |zombies|
    ensures n > 0 <==> AnyTargets(zombies, p)
  {
    if |zombies| == 0 then 0
    else
      var rest := zombies[1..];
      assert forall j :: 0 <= j < |rest| ==> rest[j] == zombies[j + 1];
      assert AnyTargets(zombies, p) <==>
        IsZombieTargettingCharacter(zombies[0], p) || AnyTargets(rest, p) by {
        if AnyTargets(zombies, p) && !IsZombieTargettingCharacter(zombies[0], p) {
          var j :| 0 <= j < |zombies| && IsZombieTargettingCharacter(zombies[j], p);
          assert IsZombieTargettingCharacter(rest[j - 1], p);
        }
        if AnyTargets(rest, p) {
          var j :| 0 <= j < |rest| && IsZombieTargettingCharacter(rest[j], p);
          assert IsZombieTargettingCharacter(zombies[j + 1], p);
        }
      }
      (if IsZombieTargettingCharacter(zombies[0], p) then 1 else 0) + ZombiesHeadingFor(rest, p)
  }
}
