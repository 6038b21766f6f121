/**
 * The ordering of zombies by danger: the sort key at the head of the
 * comparator passed to `zombies.sort_by`, the comparator as written, the
 * two-key order it evidently means, and the sort by that order.
 */
module Ranking {
  import opened Options
  import opened Numerics
  import opened Geometry
  import opened Sorting
  import opened Zombies

  datatype Ordering = Less | Equal | Greater

  function CompareInts(a: int, b: int): Ordering {
    if a < b then Less else if a == b then Equal else Greater
  }

  /** Rust's order on `Option<i32>`: `None` before every `Some`. */
  function CompareOptions(a: Option<int>, b: Option<int>): (r: Ordering)
    ensures r == Equal <==> a == b
    ensures a.None? && b.Some? ==> r == Less
    ensures a.Some? && b.Some? ==> (r == Less <==> a.value < b.value)
  {
    match (a, b)
    case (None, None) => Equal
    case (None, Some(_)) => Less
    case (Some(_), None) => Greater
    case (Some(x), Some(y)) => CompareInts(x, y)
  }

  /**
   * The first stored human distance, or `i32::MAX` for a zombie with none.
   * Indexing the head needs the stored list to be non-empty.
   */
  function SortKey(z: Zombie): (key: int)
    requires DistancesNonEmpty(z)
    ensures z.distancesToHumans.None? ==> key == I32_MAX
    ensures z.distancesToHumans.Some? && Sorted(z.distancesToHumans.value) ==>
      key in z.distancesToHumans.value && forall d :: d in z.distancesToHumans.value ==> key <= d
  {
    var ds := z.distancesToHumans.UnwrapOr([I32_MAX]);
    assert z.distancesToHumans.Some? && Sorted(ds) ==> forall d :: d in ds ==> ds[0] <= d by {
      if z.distancesToHumans.Some? && Sorted(ds) {
        forall d | d in ds
          ensures ds[0] <= d
        {
          SortedHeadIsMinimum(ds, d);
        }
      }
    }
    ds[0]
  }

  /**
   * After `DangerLevel`, the key is `i32::MAX` exactly when no human
   * qualifies, and otherwise the smallest of the qualifying distances.
   */
  lemma SortKeyOfDangerLevel(z: Zombie, humans: seq<Human>, character: Position)
    requires InRange(character) && ZombieInRange(z) && HumansInRange(humans)
    requires z.distancesToHumans == None
    ensures DistancesNonEmpty(DangerLevel(z, humans, character))
    ensures var key := SortKey(DangerLevel(z, humans, character));
      var q := Qualifying(humans, z.positionNext, CharacterDistance(character, z.position));
      && (key == I32_MAX <==> |q| == 0)
      && (|q| > 0 ==> key in q && forall d :: d in q ==> key <= d)
  {
    var r := DangerLevel(z, humans, character);
    var q := Qualifying(humans, z.positionNext, CharacterDistance(character, z.position));
    if |q| > 0 {
      var sorted := SortAscending(q);
      assert r.distancesToHumans == Some(sorted);
      var key := sorted[0];
      assert key in multiset(sorted);
      assert key in q;
      QualifyingMembers(humans, z.positionNext, CharacterDistance(character, z.position), key);
      forall d | d in q
        ensures key <= d
      {
        SortedHeadIsMinimum(sorted, d);
      }
    }
  }

  /**
   * The comparator of lines 138-148 as written: zombies with equal keys
   * compare equal, and zombies with different keys are ordered by their
   * character distance alone.
   */
  function CompareAsWritten(a: Zombie, b: Zombie): (r: Ordering)
    requires DistancesNonEmpty(a) && DistancesNonEmpty(b)
    ensures r == Equal <==> SortKey(a) == SortKey(b) || a.distanceToCharacter == b.distanceToCharacter
    ensures SortKey(a) != SortKey(b) ==> r == CompareOptions(a.distanceToCharacter, b.distanceToCharacter)
  {
    var aHumanDist := SortKey(a);
    var bHumanDist := SortKey(b);
    if aHumanDist == bHumanDist then CompareInts(aHumanDist, bHumanDist)
    else CompareOptions(a.distanceToCharacter, b.distanceToCharacter)
  }

  /**
   * With one human on the board, at distance `dh` from the zombie's next
   * position and qualifying against the character distance `dc`, the
   * danger level stores `dc` and `[dh]`.
   */
  lemma OneHumanDangerLevel(z: Zombie, h: Human, character: Position, dh: int, dc: int)
    requires InRange(character) && ZombieInRange(z) && InRange(h.position)
    requires z.distancesToHumans == None
    requires HumanDistance(h.position, z.positionNext) == dh
    requires CharacterDistance(character, z.position) == dc
    requires Qualifies(dh, dc)
    ensures DangerLevel(z, [h], character) == z.(distanceToCharacter := Some(dc), distancesToHumans := Some([dh]))
  {
    assert [h][..0] == [];
    assert Qualifying([h], z.positionNext, dc) == [dh];
    assert SortAscending([dh]) == [dh] by {
      LibrarySortAgrees([dh], [dh]);
    }
  }

  /**
   * `OneHumanDangerLevel` with both distances given as floor roots of the
   * squared coordinate differences: `dxc` from the character, `dxh` and
   * `dyh` from the human.
   */
  lemma OneHumanDangerLevelOfRoots(z: Zombie, h: Human, character: Position,
                                   dxc: int, dxh: int, dyh: int, dh: int, dc: int)
    requires InRange(character) && ZombieInRange(z) && InRange(h.position)
    requires z.distancesToHumans == None
    requires dxc == character.x - z.position.x && IsFloorSqrt(2 * (dxc * dxc), dc)
    requires dxh == h.position.x - z.positionNext.x && dyh == h.position.y - z.positionNext.y
    requires IsFloorSqrt(dxh * dxh + dyh * dyh, dh)
    requires Qualifies(dh, dc)
    ensures DangerLevel(z, [h], character) == z.(distanceToCharacter := Some(dc), distancesToHumans := Some([dh]))
  {
    CharacterDistanceOfRoot(character, z.position, dxc, dc);
    HumanDistanceOfRoot(h.position, z.positionNext, dxh, dyh, dh);
    OneHumanDangerLevel(z, h, character, dh, dc);
  }

  /**
   * The comparator as written is not an order. Character at (0, 0), one
   * human at (0, 2000), and zombies at (4, 1000), (1, 1000) and (3, 0)
   * stepping to (4, 1200), (0, 1200) and (3, 400): their keys are 800, 800
   * and 1600 and their character distances 5, 1 and 4, so `a` equals `b`,
   * `b` comes before `c`, yet `a` comes after `c` although its key is the
   * smaller one.
   */
  lemma AsWrittenIsNotAnOrder()
    ensures var character, humans := Position(0, 0), [Human(Position(0, 2000), None)];
      var a := DangerLevel(Zombie(Position(4, 1000), Position(4, 1200), None, None), humans, character);
      var b := DangerLevel(Zombie(Position(1, 1000), Position(0, 1200), None, None), humans, character);
      var c := DangerLevel(Zombie(Position(3, 0), Position(3, 400), None, None), humans, character);
      && SortKey(a) == 800 && SortKey(b) == 800 && SortKey(c) == 1600
      && CompareAsWritten(a, b) == Equal
      && CompareAsWritten(b, c) == Less
      && CompareAsWritten(a, c) == Greater
  {
    var character, h := Position(0, 0), Human(Position(0, 2000), None);
    var a := Zombie(Position(4, 1000), Position(4, 1200), None, None);
    var b := Zombie(Position(1, 1000), Position(0, 1200), None, None);
    var c := Zombie(Position(3, 0), Position(3, 400), None, None);
    assert Qualifies(800, 5) && Qualifies(800, 1) && Qualifies(1600, 4);
    OneHumanDangerLevelOfRoots(a, h, character, -4, -4, 800, 800, 5);
    OneHumanDangerLevelOfRoots(b, h, character, -1, 0, 800, 800, 1);
    OneHumanDangerLevelOfRoots(c, h, character, -3, -3, 1600, 1600, 4);
  }

  /** The intended order: by key, then by character distance. */
  function CompareByDanger(a: Zombie, b: Zombie): (r: Ordering)
    requires DistancesNonEmpty(a) && DistancesNonEmpty(b)
    ensures SortKey(a) < SortKey(b) ==> r == Less
    ensures SortKey(a) > SortKey(b) ==> r == Greater
    ensures SortKey(a) == SortKey(b) ==> r == CompareOptions(a.distanceToCharacter, b.distanceToCharacter)
  {
    var byKey := CompareInts(SortKey(a), SortKey(b));
    if byKey == Equal then CompareOptions(a.distanceToCharacter, b.distanceToCharacter) else byKey
  }

  predicate DangerLe(a: Zombie, b: Zombie)
    requires DistancesNonEmpty(a) && DistancesNonEmpty(b)
  {
    CompareByDanger(a, b) != Greater
  }

  /**
   * The intended comparator is a total preorder: any two zombies compare,
   * comparison is transitive and flips with its arguments, and zombies
   * compare equal exactly when both keys agree.
   */
  lemma ByDangerIsTotalPreorder(a: Zombie, b: Zombie, c: Zombie)
    requires DistancesNonEmpty(a) && DistancesNonEmpty(b) && DistancesNonEmpty(c)
    ensures DangerLe(a, b) || DangerLe(b, a)
    ensures DangerLe(a, b) && DangerLe(b, c) ==> DangerLe(a, c)
    ensures CompareByDanger(a, b) == Less <==> CompareByDanger(b, a) == Greater
    ensures CompareByDanger(a, b) == Equal <==>
      SortKey(a) == SortKey(b) && a.distanceToCharacter == b.distanceToCharacter
  {
  }

  /**
   * A zombie that endangers some human ranks strictly before one that
   * endangers none, whatever their distances to the character.
   */
  lemma EndangeringZombieRanksFirst(a: Zombie, b: Zombie, humans: seq<Human>, character: Position)
    requires InRange(character) && ZombieInRange(a) && ZombieInRange(b) && HumansInRange(humans)
    requires a.distancesToHumans == None && b.distancesToHumans == None
    requires EndangersSomeHuman(a, humans, character)
    requires !EndangersSomeHuman(b, humans, character)
    ensures DistancesNonEmpty(DangerLevel(a, humans, character))
    ensures DistancesNonEmpty(DangerLevel(b, humans, character))
    ensures CompareByDanger(DangerLevel(a, humans, character), DangerLevel(b, humans, character)) == Less
  {
    var qa := Qualifying(humans, a.positionNext, CharacterDistance(character, a.position));
    QualifyingEmpty(humans, a.positionNext, CharacterDistance(character, a.position));
    QualifyingEmpty(humans, b.positionNext, CharacterDistance(character, b.position));
    SortKeyOfDangerLevel(a, humans, character);
    SortKeyOfDangerLevel(b, humans, character);
    var key := SortKey(DangerLevel(a, humans, character));
    QualifyingMembers(humans, a.positionNext, CharacterDistance(character, a.position), key);
  }

  predicate AllKeyed(zs: seq<Zombie>) {
    forall i :: 0 <= i < |zs| ==> DistancesNonEmpty(zs[i])
  }

  predicate SortedByDanger(zs: seq<Zombie>)
    requires AllKeyed(zs)
  {
    forall i, j :: 0 <= i < j < |zs| ==> DangerLe(zs[i], zs[j])
  }

  function InsertByDanger(z: Zombie, zs: seq<Zombie>): (r: seq<Zombie>)
    requires DistancesNonEmpty(z) && AllKeyed(zs) && SortedByDanger(zs)
    ensures multiset(r) == multiset(zs) + multiset{z}
    ensures AllKeyed(r) && SortedByDanger(r)
  {
    if |zs| == 0 then [z]
    else if DangerLe(z, zs[0]) then
      InsertInFront(z, zs);
      [z] + zs
    else
      var rest := InsertByDanger(z, zs[1..]);
      InsertBehindFirst(z, zs, rest);
      [zs[0]] + rest
  }

  /** A zombie ranking no later than the first of a sorted list goes in front. */
  lemma InsertInFront(z: Zombie, zs: seq<Zombie>)
    requires DistancesNonEmpty(z) && AllKeyed(zs) && SortedByDanger(zs)
    requires |zs| > 0 && DangerLe(z, zs[0])
    ensures AllKeyed([z] + zs) && SortedByDanger([z] + zs)
  {
    forall j | 0 <= j < |zs|
      ensures DangerLe(z, zs[j])
    {
      ByDangerIsTotalPreorder(z, zs[0], zs[j]);
    }
    var r := [z] + zs;
    forall i, j | 0 <= i < j < |r|
      ensures DangerLe(r[i], r[j])
    {
      if i > 0 {
        assert r[i] == zs[i - 1] && r[j] == zs[j - 1];
      }
    }
  }

  /** Putting the first zombie back in front of `z` inserted into the rest keeps the ranking. */
  lemma InsertBehindFirst(z: Zombie, zs: seq<Zombie>, rest: seq<Zombie>)
    requires DistancesNonEmpty(z) && AllKeyed(zs) && SortedByDanger(zs)
    requires |zs| > 0 && !DangerLe(z, zs[0])
    requires AllKeyed(rest) && SortedByDanger(rest)
    requires multiset(rest) == multiset(zs[1..]) + multiset{z}
    ensures AllKeyed([zs[0]] + rest) && SortedByDanger([zs[0]] + rest)
    ensures multiset([zs[0]] + rest) == multiset(zs) + multiset{z}
  {
    assert zs == [zs[0]] + zs[1..];
    forall k | 0 <= k < |rest|
      ensures DangerLe(zs[0], rest[k])
    {
      assert rest[k] in multiset(rest);
      if rest[k] == z {
        ByDangerIsTotalPreorder(z, zs[0], z);
      } else {
        assert rest[k] in zs[1..];
      }
    }
    var r := [zs[0]] + rest;
    forall i, j | 0 <= i < j < |r|
      ensures DangerLe(r[i], r[j])
    {
      if i > 0 {
        assert r[i] == rest[i - 1] && r[j] == rest[j - 1];
      }
    }
  }

  /**
   * The zombies ranked by the intended order: a permutation of `zs` in
   * which every zombie ranks no later than the ones after it.
   */
  function SortByDanger(zs: seq<Zombie>): (r: seq<Zombie>)
    requires AllKeyed(zs)
    ensures multiset(r) == multiset(zs)
    ensures AllKeyed(r) && SortedByDanger(r)
  {
    if |zs| == 0 then []
    else
      assert zs == [zs[0]] + zs[1..];
      InsertByDanger(zs[0], SortByDanger(zs[1..]))
  }
}
