/**
 * The target selector: the per-turn tail of the game loop, from the parsed
 * snapshot to the one destination printed for the character.
 */
module Selection {
  import opened Options
  import opened Numerics
  import opened Geometry
  import opened Zombies
  import opened Ranking

  /** A zombie as the feed reports it: its position and its next position. */
  datatype Sighting = Sighting(position: Position, positionNext: Position)

  /** One turn's input: the character, the humans, the zombies. */
  datatype Snapshot = Snapshot(character: Position, humans: seq<Position>, zombies: seq<Sighting>)

  /**
   * The turn's output: the destination that is printed, or `NoZombies` where
   * the source indexes `zombies[0]` of an empty list and panics.
   */
  datatype Command = Move(destination: Position) | NoZombies

  predicate SnapshotInRange(s: Snapshot) {
    && InRange(s.character)
    && (forall i :: 0 <= i < |s.humans| ==> InRange(s.humans[i]))
    && (forall j :: 0 <= j < |s.zombies| ==> InRange(s.zombies[j].position) && InRange(s.zombies[j].positionNext))
  }

  /** The record the input loop builds for a human: no count yet. */
  function NewHuman(p: Position): Human {
    Human(p, None)
  }

  /** The record the input loop builds for a zombie: no danger level yet. */
  function NewZombie(z: Sighting): Zombie {
    Zombie(z.position, z.positionNext, None, None)
  }

  function HumansOf(s: Snapshot): (humans: seq<Human>)
    requires SnapshotInRange(s)
    ensures |humans| == |s.humans| && HumansInRange(humans)
    ensures forall i :: 0 <= i < |humans| ==> humans[i] == NewHuman(s.humans[i])
  {
    seq(|s.humans|, i requires 0 <= i < |s.humans| => NewHuman(s.humans[i]))
  }

  /** Zombie `j` of the snapshot passes the targeting test for `p`. */
  predicate SightingTargets(s: Snapshot, j: int, p: Position)
    requires SnapshotInRange(s) && 0 <= j < |s.zombies| && InRange(p)
  {
    IsZombieTargettingCharacter(NewZombie(s.zombies[j]), p)
  }

  /** Some zombie of the snapshot passes the targeting test for `p`. */
  predicate Targeted(s: Snapshot, p: Position)
    requires SnapshotInRange(s) && InRange(p)
  {
    exists j :: 0 <= j < |s.zombies| && SightingTargets(s, j, p)
  }

  predicate HumanThreatened(s: Snapshot, i: int)
    requires SnapshotInRange(s) && 0 <= i < |s.humans|
  {
    Targeted(s, s.humans[i])
  }

  predicate NoHumanThreatened(s: Snapshot)
    requires SnapshotInRange(s)
  {
    forall i :: 0 <= i < |s.humans| ==> !HumanThreatened(s, i)
  }

  /** The danger level of every sighting, in the order of the feed. */
  function DangerLevels(sightings: seq<Sighting>, humans: seq<Human>, character: Position): (zombies: seq<Zombie>)
    requires InRange(character) && HumansInRange(humans)
    requires forall j :: 0 <= j < |sightings| ==> ZombieInRange(NewZombie(sightings[j]))
    ensures |zombies| == |sightings|
  {
    if |sightings| == 0 then []
    else
      var last := |sightings| - 1;
      DangerLevels(sightings[..last], humans, character)
        + [DangerLevel(NewZombie(sightings[last]), humans, character)]
  }

  /** Zombie `j` of `DangerLevels` is sighting `j` after `DangerLevel`. */
  lemma {:induction false} DangerLevelsAt(sightings: seq<Sighting>, humans: seq<Human>, character: Position, j: int)
    requires InRange(character) && HumansInRange(humans)
    requires forall k :: 0 <= k < |sightings| ==> ZombieInRange(NewZombie(sightings[k]))
    requires 0 <= j < |sightings|
    ensures DangerLevels(sightings, humans, character)[j]
      == DangerLevel(NewZombie(sightings[j]), humans, character)
  {
    var last := |sightings| - 1;
    if j < last {
      var init := sightings[..last];
      assert init[j] == sightings[j];
      DangerLevelsAt(init, humans, character, j);
    }
  }

  /** Every zombie after `DangerLevel` is in range and carries a usable sort key. */
  lemma DangerLevelsKeyed(sightings: seq<Sighting>, humans: seq<Human>, character: Position)
    requires InRange(character) && HumansInRange(humans)
    requires forall j :: 0 <= j < |sightings| ==> ZombieInRange(NewZombie(sightings[j]))
    ensures AllInRange(DangerLevels(sightings, humans, character))
    ensures AllKeyed(DangerLevels(sightings, humans, character))
  {
    var zombies := DangerLevels(sightings, humans, character);
    forall j | 0 <= j < |zombies|
      ensures ZombieInRange(zombies[j]) && DistancesNonEmpty(zombies[j])
    {
      DangerLevelsAt(sightings, humans, character, j);
    }
  }

  /** The danger levels change nothing about who heads for a point. */
  lemma DangerLevelsTargets(sightings: seq<Sighting>, humans: seq<Human>, character: Position, p: Position)
    requires InRange(character) && HumansInRange(humans) && InRange(p)
    requires forall j :: 0 <= j < |sightings| ==> ZombieInRange(NewZombie(sightings[j]))
    ensures AllInRange(DangerLevels(sightings, humans, character))
    ensures AnyTargets(DangerLevels(sightings, humans, character), p) <==>
      exists j :: 0 <= j < |sightings| && IsZombieTargettingCharacter(NewZombie(sightings[j]), p)
  {
    var zombies := DangerLevels(sightings, humans, character);
    DangerLevelsKeyed(sightings, humans, character);
    if AnyTargets(zombies, p) {
      var j :| 0 <= j < |zombies| && IsZombieTargettingCharacter(zombies[j], p);
      DangerLevelsAt(sightings, humans, character, j);
      TargetingReadsOnlyMovement(zombies[j], NewZombie(sightings[j]), p);
    }
    if exists j :: 0 <= j < |sightings| && IsZombieTargettingCharacter(NewZombie(sightings[j]), p) {
      var j :| 0 <= j < |sightings| && IsZombieTargettingCharacter(NewZombie(sightings[j]), p);
      DangerLevelsAt(sightings, humans, character, j);
      TargetingReadsOnlyMovement(zombies[j], NewZombie(sightings[j]), p);
    }
  }

  /** Every zombie of the snapshot after `calculate_danger_level`. */
  function Evaluated(s: Snapshot): (zombies: seq<Zombie>)
    requires SnapshotInRange(s)
    ensures |zombies| == |s.zombies|
  {
    DangerLevels(s.zombies, HumansOf(s), s.character)
  }

  /** The evaluated zombies are in range and carry a usable sort key. */
  lemma EvaluatedKeyed(s: Snapshot)
    requires SnapshotInRange(s)
    ensures AllInRange(Evaluated(s)) && AllKeyed(Evaluated(s))
  {
    DangerLevelsKeyed(s.zombies, HumansOf(s), s.character);
  }

  /** The evaluated zombies in the order the model sorts them. */
  function Ranked(s: Snapshot): (ranked: seq<Zombie>)
    requires SnapshotInRange(s)
    ensures |ranked| == |s.zombies|
    ensures multiset(ranked) == multiset(Evaluated(s))
    ensures AllInRange(ranked) && AllKeyed(ranked) && SortedByDanger(ranked)
  {
    var zombies := Evaluated(s);
    EvaluatedKeyed(s);
    var ranked := SortByDanger(zombies);
    ReorderingInRange(s, ranked);
    ranked
  }

  /**
   * `sorted` holds the evaluated zombies of `s` in some order: the one the
   * model ranks by, or whichever order the comparator as written leaves.
   */
  predicate Reorders(s: Snapshot, sorted: seq<Zombie>)
    requires SnapshotInRange(s)
  {
    multiset(sorted) == multiset(Evaluated(s))
  }

  /** Every reordering is as long as the feed, in range and keyed. */
  lemma ReorderingInRange(s: Snapshot, sorted: seq<Zombie>)
    requires SnapshotInRange(s) && Reorders(s, sorted)
    ensures |sorted| == |s.zombies| && AllInRange(sorted) && AllKeyed(sorted)
  {
    EvaluatedKeyed(s);
    assert |multiset(sorted)| == |multiset(Evaluated(s))|;
    forall k | 0 <= k < |sorted|
      ensures ZombieInRange(sorted[k]) && DistancesNonEmpty(sorted[k])
    {
      assert sorted[k] in multiset(Evaluated(s));
    }
  }

  /** Reordering the zombies changes nothing about who heads for a point. */
  lemma PermutedTargets(a: seq<Zombie>, b: seq<Zombie>, p: Position)
    requires AllInRange(a) && AllInRange(b) && InRange(p)
    requires multiset(a) == multiset(b)
    ensures AnyTargets(a, p) ==> AnyTargets(b, p)
  {
    if AnyTargets(a, p) {
      var k :| 0 <= k < |a| && IsZombieTargettingCharacter(a[k], p);
      assert a[k] in multiset(b);
      var j :| 0 <= j < |b| && b[j] == a[k];
    }
  }

  /** The danger levels change nothing about who heads for a point. */
  lemma EvaluatedTargetsLikeSnapshot(s: Snapshot, p: Position)
    requires SnapshotInRange(s) && InRange(p)
    ensures AllInRange(Evaluated(s))
    ensures AnyTargets(Evaluated(s), p) <==> Targeted(s, p)
  {
    DangerLevelsTargets(s.zombies, HumansOf(s), s.character, p);
    if Targeted(s, p) {
      var j :| 0 <= j < |s.zombies| && SightingTargets(s, j, p);
      assert IsZombieTargettingCharacter(NewZombie(s.zombies[j]), p);
    }
    if AnyTargets(Evaluated(s), p) {
      var j :| 0 <= j < |s.zombies| && IsZombieTargettingCharacter(NewZombie(s.zombies[j]), p);
      assert SightingTargets(s, j, p);
    }
  }

  /** Reordering the evaluated zombies changes nothing about who heads for a point. */
  lemma ReorderedTargetsLikeSnapshot(s: Snapshot, sorted: seq<Zombie>, p: Position)
    requires SnapshotInRange(s) && Reorders(s, sorted) && AllInRange(sorted) && InRange(p)
    ensures AnyTargets(sorted, p) <==> Targeted(s, p)
  {
    EvaluatedTargetsLikeSnapshot(s, p);
    PermutedTargets(sorted, Evaluated(s), p);
    PermutedTargets(Evaluated(s), sorted, p);
  }

  /** The input loop's calls of `calculate_danger_level`, zombie by zombie. */
  method EvaluateZombies(character: Position, humans: seq<Human>, sightings: seq<Sighting>)
    returns (zombies: seq<Zombie>)
    requires InRange(character) && HumansInRange(humans)
    requires forall j :: 0 <= j < |sightings| ==> ZombieInRange(NewZombie(sightings[j]))
    ensures zombies == DangerLevels(sightings, humans, character)
  {
    zombies := [];
    for j := 0 to |sightings|
      invariant zombies == DangerLevels(sightings[..j], humans, character)
    {
      var newZombie := CalculateDangerLevel(NewZombie(sightings[j]), humans, character);
      assert sightings[..j + 1][..j] == sightings[..j];
      zombies := zombies + [newZombie];
    }
    assert sightings[..|sightings|] == sightings;
  }

  /** The current position of the first zombie of `zombies` that heads for `p`. */
  function FirstTargeting(zombies: seq<Zombie>, p: Position): Option<Position>
    requires AllInRange(zombies) && InRange(p)
  {
    if |zombies| == 0 then None
    else if IsZombieTargettingCharacter(zombies[0], p) then Some(zombies[0].position)
    else FirstTargeting(zombies[1..], p)
  }

  /** `FirstTargeting` finds nothing exactly when no zombie heads for `p`. */
  lemma {:induction false} FirstTargetingNone(zombies: seq<Zombie>, p: Position)
    requires AllInRange(zombies) && InRange(p)
    ensures FirstTargeting(zombies, p).None? <==> !AnyTargets(zombies, p)
  {
    if |zombies| > 0 && !IsZombieTargettingCharacter(zombies[0], p) {
      var rest := zombies[1..];
      FirstTargetingNone(rest, p);
      if AnyTargets(zombies, p) {
        var j :| 0 <= j < |zombies| && IsZombieTargettingCharacter(zombies[j], p);
        assert IsZombieTargettingCharacter(rest[j - 1], p);
      }
      if AnyTargets(rest, p) {
        var j :| 0 <= j < |rest| && IsZombieTargettingCharacter(rest[j], p);
        assert IsZombieTargettingCharacter(zombies[j + 1], p);
      }
    }
  }

  /** `FirstTargeting` finds the zombie with the lowest index that heads for `p`. */
  lemma {:induction false} FirstTargetingAt(zombies: seq<Zombie>, p: Position, j: int)
    requires AllInRange(zombies) && InRange(p)
    requires 0 <= j < |zombies| && IsZombieTargettingCharacter(zombies[j], p)
    requires forall k :: 0 <= k < j ==> !IsZombieTargettingCharacter(zombies[k], p)
    ensures FirstTargeting(zombies, p) == Some(zombies[j].position)
  {
    if j > 0 {
      var rest := zombies[1..];
      assert forall k :: 0 <= k < j - 1 ==> rest[k] == zombies[k + 1];
      FirstTargetingAt(rest, p, j - 1);
    }
  }

  /** The scan of lines 150-156, stopping at the first zombie that heads for `character`. */
  method FirstTargetingZombie(zombies: seq<Zombie>, character: Position) returns (target: Option<Position>)
    requires AllInRange(zombies) && InRange(character)
    ensures target == FirstTargeting(zombies, character)
  {
    target := None;
    var i := 0;
    while i < |zombies|
      invariant 0 <= i <= |zombies|
      invariant target == None
      invariant FirstTargeting(zombies[i..], character) == FirstTargeting(zombies, character)
    {
      assert zombies[i..][1..] == zombies[i + 1..];
      if IsZombieTargettingCharacter(zombies[i], character) {
        target := Some(zombies[i].position);
        break;
      }
      i := i + 1;
    }
  }

  /**
   * The count a human comes out of lines 158-181 with: `None` when no zombie
   * heads for it, and otherwise one more than the count it came in with
   * (the match reads the input record, not the one being built), so a
   * human that came in with no count ends with at most `Some(1)`, however
   * many zombies head for it.
   */
  function FacingCount(h: Human, zombies: seq<Zombie>): (count: Option<int>)
    requires InRange(h.position) && AllInRange(zombies)
    ensures count.Some? <==> AnyTargets(zombies, h.position)
    ensures count.Some? ==> count.value == h.zombiesFacingHuman.UnwrapOr(0) + 1
    ensures h.zombiesFacingHuman == None ==> count == None || count == Some(1)
  {
    if AnyTargets(zombies, h.position) then Some(h.zombiesFacingHuman.UnwrapOr(0) + 1) else None
  }

  /** The loops of lines 158-181: every human's count becomes its `FacingCount`. */
  method CountFacing(humans: seq<Human>, zombies: seq<Zombie>) returns (newHumans: seq<Human>)
    requires HumansInRange(humans) && AllInRange(zombies)
    requires forall i :: 0 <= i < |humans| ==> humans[i].zombiesFacingHuman.UnwrapOr(0) < I32_MAX
    ensures |newHumans| == |humans|
    ensures forall i :: 0 <= i < |humans| ==> newHumans[i].position == humans[i].position
    ensures forall i :: 0 <= i < |humans| ==>
      newHumans[i].zombiesFacingHuman == FacingCount(humans[i], zombies)
  {
    newHumans := [];
    for i := 0 to |humans|
      invariant |newHumans| == i
      invariant forall k :: 0 <= k < i ==> newHumans[k].position == humans[k].position
      invariant forall k :: 0 <= k < i ==>
        newHumans[k].zombiesFacingHuman == FacingCount(humans[k], zombies)
    {
      var human := humans[i];
      var newHuman := Human(human.position, None);
      for j := 0 to |zombies|
        invariant newHuman.position == human.position
        invariant newHuman.zombiesFacingHuman ==
          if AnyTargets(zombies[..j], human.position)
          then Some(human.zombiesFacingHuman.UnwrapOr(0) + 1)
          else None
      {
        assert forall k :: 0 <= k < j ==> zombies[..j + 1][k] == zombies[..j][k];
        assert zombies[..j + 1][j] == zombies[j];
        if IsZombieTargettingCharacter(zombies[j], human.position) {
          match human.zombiesFacingHuman
          case Some(amount) =>
            newHuman := Human(human.position, Some(amount + 1));
          case None =>
            newHuman := Human(human.position, Some(1));
        }
      }
      assert zombies[..|zombies|] == zombies;
      newHumans := newHumans + [newHuman];
    }
  }

  /** A human whose count, read with `unwrap_or(-1)`, is positive. */
  predicate IsFaced(h: Human) {
    h.zombiesFacingHuman.UnwrapOr(-1) > 0
  }

  /** `target` after the loop of lines 184-189 has seen `humans`. */
  function Override(target: Option<Position>, humans: seq<Human>): Option<Position> {
    if |humans| == 0 then target
    else
      var last := |humans| - 1;
      if IsFaced(humans[last]) then Some(humans[last].position) else Override(target, humans[..last])
  }

  /** With no faced human the override keeps the target. */
  lemma {:induction false} OverrideKeeps(target: Option<Position>, humans: seq<Human>)
    requires forall i :: 0 <= i < |humans| ==> !IsFaced(humans[i])
    ensures Override(target, humans) == target
  {
    if |humans| > 0 {
      var init := humans[..|humans| - 1];
      assert forall k :: 0 <= k < |init| ==> init[k] == humans[k];
      OverrideKeeps(target, init);
    }
  }

  /** The override yields the last human in list order that is faced. */
  lemma {:induction false} OverrideLast(target: Option<Position>, humans: seq<Human>, i: int)
    requires 0 <= i < |humans| && IsFaced(humans[i])
    requires forall k :: i < k < |humans| ==> !IsFaced(humans[k])
    ensures Override(target, humans) == Some(humans[i].position)
  {
    var last := |humans| - 1;
    if i < last {
      var init := humans[..last];
      assert forall k :: i < k < last ==> init[k] == humans[k];
      assert init[i] == humans[i];
      OverrideLast(target, init, i);
    }
  }

  /** The loop of lines 184-189: each faced human replaces the target. */
  method ApplyHumanOverride(target: Option<Position>, humans: seq<Human>) returns (result: Option<Position>)
    ensures result == Override(target, humans)
  {
    result := target;
    for i := 0 to |humans|
      invariant result == Override(target, humans[..i])
    {
      assert humans[..i + 1][..i] == humans[..i];
      if humans[i].zombiesFacingHuman.UnwrapOr(-1) > 0 {
        result := Some(humans[i].position);
      }
    }
    assert humans[..|humans|] == humans;
  }

  /** No human of `humans` has a zombie of `zombies` heading for it. */
  predicate NoHumanTargeted(humans: seq<Human>, zombies: seq<Zombie>)
    requires HumansInRange(humans) && AllInRange(zombies)
  {
    forall i :: 0 <= i < |humans| ==> !AnyTargets(zombies, humans[i].position)
  }

  /** The position of the last human of `humans` that some zombie heads for. */
  function LastThreatened(humans: seq<Human>, zombies: seq<Zombie>): Option<Position>
    requires HumansInRange(humans) && AllInRange(zombies)
  {
    if |humans| == 0 then None
    else
      var last := |humans| - 1;
      if AnyTargets(zombies, humans[last].position) then Some(humans[last].position)
      else LastThreatened(humans[..last], zombies)
  }

  /** `LastThreatened` finds nothing exactly when no human is headed for. */
  lemma {:induction false} LastThreatenedNone(humans: seq<Human>, zombies: seq<Zombie>)
    requires HumansInRange(humans) && AllInRange(zombies)
    ensures LastThreatened(humans, zombies).None? <==> NoHumanTargeted(humans, zombies)
  {
    if |humans| > 0 {
      var init := humans[..|humans| - 1];
      assert forall k :: 0 <= k < |init| ==> init[k] == humans[k];
      LastThreatenedNone(init, zombies);
    }
  }

  /** `LastThreatened` finds the human with the highest index that is headed for. */
  lemma {:induction false} LastThreatenedAt(humans: seq<Human>, zombies: seq<Zombie>, i: int)
    requires HumansInRange(humans) && AllInRange(zombies)
    requires 0 <= i < |humans| && AnyTargets(zombies, humans[i].position)
    requires forall k :: i < k < |humans| ==> !AnyTargets(zombies, humans[k].position)
    ensures LastThreatened(humans, zombies) == Some(humans[i].position)
  {
    var last := |humans| - 1;
    if i < last {
      var init := humans[..last];
      assert forall k :: i <= k < last ==> init[k] == humans[k];
      LastThreatenedAt(init, zombies, i);
    }
  }

  /**
   * Run over the counted humans, the override yields the last human some
   * zombie heads for, and keeps `target` when there is none.
   */
  lemma {:induction false} OverrideOfCounts(target: Option<Position>, humans: seq<Human>, counted: seq<Human>, zombies: seq<Zombie>)
    requires HumansInRange(humans) && AllInRange(zombies) && |counted| == |humans|
    requires forall i :: 0 <= i < |humans| ==> counted[i].position == humans[i].position
    requires forall i :: 0 <= i < |humans| ==> (IsFaced(counted[i]) <==> AnyTargets(zombies, humans[i].position))
    ensures Override(target, counted) ==
      if LastThreatened(humans, zombies).Some? then LastThreatened(humans, zombies) else target
  {
    if |humans| > 0 {
      var last := |humans| - 1;
      var init, countedInit := humans[..last], counted[..last];
      assert forall k :: 0 <= k < last ==> init[k] == humans[k] && countedInit[k] == counted[k];
      OverrideOfCounts(target, init, countedInit, zombies);
    }
  }

  /**
   * The destination lines 150-207 settle on: the last human some zombie
   * heads for; failing that, the current position of the first zombie that
   * heads for the character; failing that, the current position of
   * `zombies[0]`, and with no zombie at all there is none.
   */
  function Decision(character: Position, humans: seq<Human>, zombies: seq<Zombie>): Command
    requires InRange(character) && HumansInRange(humans) && AllInRange(zombies)
  {
    match LastThreatened(humans, zombies)
    case Some(p) => Move(p)
    case None =>
      match FirstTargeting(zombies, character)
      case Some(p) => Move(p)
      case None => if |zombies| == 0 then NoZombies else Move(zombies[0].position)
  }

  /** There is a destination exactly when there is a zombie. */
  lemma DecisionNoZombies(character: Position, humans: seq<Human>, zombies: seq<Zombie>)
    requires InRange(character) && HumansInRange(humans) && AllInRange(zombies)
    ensures Decision(character, humans, zombies) == NoZombies <==> |zombies| == 0
  {
    if |zombies| == 0 {
      LastThreatenedNone(humans, zombies);
    }
  }

  /** The last human some zombie heads for is the destination. */
  lemma DecisionHuman(character: Position, humans: seq<Human>, zombies: seq<Zombie>, i: int)
    requires InRange(character) && HumansInRange(humans) && AllInRange(zombies)
    requires 0 <= i < |humans| && AnyTargets(zombies, humans[i].position)
    requires forall k :: i < k < |humans| ==> !AnyTargets(zombies, humans[k].position)
    ensures Decision(character, humans, zombies) == Move(humans[i].position)
  {
    LastThreatenedAt(humans, zombies, i);
  }

  /** With no human headed for, the first zombie heading for the character is. */
  lemma DecisionCharacter(character: Position, humans: seq<Human>, zombies: seq<Zombie>, j: int)
    requires InRange(character) && HumansInRange(humans) && AllInRange(zombies)
    requires NoHumanTargeted(humans, zombies)
    requires 0 <= j < |zombies| && IsZombieTargettingCharacter(zombies[j], character)
    requires forall k :: 0 <= k < j ==> !IsZombieTargettingCharacter(zombies[k], character)
    ensures Decision(character, humans, zombies) == Move(zombies[j].position)
  {
    LastThreatenedNone(humans, zombies);
    FirstTargetingAt(zombies, character, j);
  }

  /** With nobody headed for, the first zombie of the list is the destination. */
  lemma DecisionFallback(character: Position, humans: seq<Human>, zombies: seq<Zombie>)
    requires InRange(character) && HumansInRange(humans) && AllInRange(zombies)
    requires NoHumanTargeted(humans, zombies) && !AnyTargets(zombies, character) && |zombies| > 0
    ensures Decision(character, humans, zombies) == Move(zombies[0].position)
  {
    LastThreatenedNone(humans, zombies);
    FirstTargetingNone(zombies, character);
  }

  /**
   * Lines 150-207 on the sorted zombie list: the first-zombie scan, the
   * count of zombies facing each human, the override by faced humans and
   * the fallback to `zombies[0]`; that is, `Decision`.
   */
  method SelectTarget(character: Position, humans: seq<Human>, zombies: seq<Zombie>) returns (command: Command)
    requires InRange(character) && HumansInRange(humans) && AllInRange(zombies)
    requires forall i :: 0 <= i < |humans| ==> humans[i].zombiesFacingHuman == None
    ensures command == Decision(character, humans, zombies)
  {
    var target := FirstTargetingZombie(zombies, character);
    var newHumans := CountFacing(humans, zombies);
    assert forall i :: 0 <= i < |humans| ==>
      (IsFaced(newHumans[i]) <==> AnyTargets(zombies, humans[i].position));
    OverrideOfCounts(target, humans, newHumans, zombies);
    target := ApplyHumanOverride(target, newHumans);
    match target
    case Some(position) =>
      command := Move(position);
    case None =>
      if |zombies| == 0 {
        command := NoZombies;
      } else {
        command := Move(zombies[0].position);
      }
  }

  /**
   * One turn: the snapshot's records, their danger levels, the ranking and
   * the selection, that is, `Decision` on the ranked zombies.
   */
  method Turn(s: Snapshot) returns (command: Command)
    requires SnapshotInRange(s)
    ensures command == Decision(s.character, HumansOf(s), Ranked(s))
  {
    var humans := HumansOf(s);
    var zombies := EvaluateZombies(s.character, humans, s.zombies);
    EvaluatedKeyed(s);
    var ranked := SortByDanger(zombies);
    assert ranked == Ranked(s);
    command := SelectTarget(s.character, humans, ranked);
  }

  /**
   * In every order of the evaluated zombies, human `i` is headed for
   * exactly when the snapshot threatens it.
   */
  lemma ReorderedThreatens(s: Snapshot, sorted: seq<Zombie>)
    requires SnapshotInRange(s) && Reorders(s, sorted) && AllInRange(sorted)
    ensures forall i :: 0 <= i < |s.humans| ==>
      (AnyTargets(sorted, HumansOf(s)[i].position) <==> HumanThreatened(s, i))
  {
    forall i | 0 <= i < |s.humans|
      ensures AnyTargets(sorted, HumansOf(s)[i].position) <==> HumanThreatened(s, i)
    {
      ReorderedTargetsLikeSnapshot(s, sorted, s.humans[i]);
    }
  }

  /*
   * The four lemmas below hold for every order of the evaluated zombies
   * (`AllInRange(sorted)` follows from `Reorders`, by `ReorderingInRange`),
   * so they hold for the ranked list and for the order the comparator as
   * written leaves alike.
   */

  /** A turn has a destination exactly when the snapshot has a zombie. */
  lemma TurnNoZombies(s: Snapshot, sorted: seq<Zombie>)
    requires SnapshotInRange(s) && Reorders(s, sorted) && AllInRange(sorted)
    ensures Decision(s.character, HumansOf(s), sorted) == NoZombies <==> |s.zombies| == 0
  {
    ReorderingInRange(s, sorted);
    DecisionNoZombies(s.character, HumansOf(s), sorted);
  }

  /** The last threatened human of the snapshot is the turn's destination. */
  lemma TurnHuman(s: Snapshot, sorted: seq<Zombie>, i: int)
    requires SnapshotInRange(s) && Reorders(s, sorted) && AllInRange(sorted)
    requires 0 <= i < |s.humans| && HumanThreatened(s, i)
    requires forall k :: i < k < |s.humans| ==> !HumanThreatened(s, k)
    ensures Decision(s.character, HumansOf(s), sorted) == Move(s.humans[i])
  {
    ReorderedThreatens(s, sorted);
    DecisionHuman(s.character, HumansOf(s), sorted, i);
  }

  /**
   * With no human threatened, the destination is the current position of
   * the first zombie of the list that heads for the character.
   */
  lemma TurnCharacter(s: Snapshot, sorted: seq<Zombie>, j: int)
    requires SnapshotInRange(s) && Reorders(s, sorted) && AllInRange(sorted) && NoHumanThreatened(s)
    requires 0 <= j < |sorted| && IsZombieTargettingCharacter(sorted[j], s.character)
    requires forall k :: 0 <= k < j ==> !IsZombieTargettingCharacter(sorted[k], s.character)
    ensures Decision(s.character, HumansOf(s), sorted) == Move(sorted[j].position)
  {
    ReorderedThreatens(s, sorted);
    DecisionCharacter(s.character, HumansOf(s), sorted, j);
  }

  /**
   * With neither a human nor the character headed for, the destination is
   * the current position of the first zombie of the list.
   */
  lemma TurnFallback(s: Snapshot, sorted: seq<Zombie>)
    requires SnapshotInRange(s) && Reorders(s, sorted) && AllInRange(sorted)
    requires NoHumanThreatened(s) && !Targeted(s, s.character) && |s.zombies| > 0
    ensures |sorted| > 0
    ensures Decision(s.character, HumansOf(s), sorted) == Move(sorted[0].position)
  {
    ReorderingInRange(s, sorted);
    ReorderedThreatens(s, sorted);
    ReorderedTargetsLikeSnapshot(s, sorted, s.character);
    DecisionFallback(s.character, HumansOf(s), sorted);
  }
}
