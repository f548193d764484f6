/**
 * The achievement engine: a fixed catalogue of eight achievements, walked in
 * declaration order; each id not yet unlocked whose condition holds is
 * appended to the unlocked list and its XP is awarded through `AddXP`.
 */
module AchievementEngine {
  import opened Wrappers
  import opened Calendar
  import opened StatsEngine

  /** What an achievement asks of the stats and the clock. */
  datatype Condition =
    | MinSessions(sessions: int)     // totalSessions >= sessions
    | MinStreak(days: int)           // currentStreak >= days
    | HourIn(from: int, until: int)  // from <= hour < until
    | MinLevel(level: int)           // stats level >= level

  /** The catalogue's achievement ids. */
  datatype Id = FirstSession | Streak3 | Streak7 | Sessions10 | Sessions50 | NightOwl | EarlyBird | ZenMaster

  /** The id as stored in the unlocked list. */
  function Key(id: Id): string {
    match id
    case FirstSession => "first-session"
    case Streak3 => "streak-3"
    case Streak7 => "streak-7"
    case Sessions10 => "sessions-10"
    case Sessions50 => "sessions-50"
    case NightOwl => "night-owl"
    case EarlyBird => "early-bird"
    case ZenMaster => "zen-master"
  }

  /**
   * Distinct ids are stored as distinct strings, so a membership test on the
   * stored strings is a membership test on the ids.
   */
  lemma KeyInjective(a: Id, b: Id)
    ensures Key(a) == Key(b) <==> a == b
  {
    if a != b {
      var ka, kb := Key(a), Key(b);
      assert |ka| != |kb| || ka[0] != kb[0] || ka[|ka| - 1] != kb[|kb| - 1] || ka[|ka| - 2] != kb[|kb| - 2];
    }
  }

  datatype Achievement = Achievement(id: Id, condition: Condition, xp: int)

  /** The catalogue, in declaration order. The only level-dependent entry is last. */
  const Catalogue: seq<Achievement> := [
    Achievement(FirstSession, MinSessions(1), 10),
    Achievement(Streak3, MinStreak(3), 25),
    Achievement(Streak7, MinStreak(7), 50),
    Achievement(Sessions10, MinSessions(10), 30),
    Achievement(Sessions50, MinSessions(50), 100),
    Achievement(NightOwl, HourIn(0, 5), 15),
    Achievement(EarlyBird, HourIn(5, 7), 15),
    Achievement(ZenMaster, MinLevel(10), 200)]

  /** Stats plus the ids unlocked so far, in unlock order. */
  datatype Progress = Progress(stats: Stats, unlocked: seq<Id>)

  const InitialProgress: Progress := Progress(Initial, [])

  predicate Holds(c: Condition, s: Stats, hour: Hour) {
    match c
    case MinSessions(n) => s.totalSessions >= n
    case MinStreak(n) => s.currentStreak >= n
    case HourIn(lo, hi) => lo <= hour < hi
    case MinLevel(n) => s.level >= n
  }

  /** `t` differs from `s` at most in XP and level, and its level is no lower. */
  predicate OnlyXPAndLevelChanged(s: Stats, t: Stats) {
    t == s.(totalXP := t.totalXP, level := t.level) && t.level >= s.level
  }

  /** A condition that held keeps holding when only XP and level have grown. */
  lemma HoldsPersists(c: Condition, s: Stats, t: Stats, hour: Hour)
    requires OnlyXPAndLevelChanged(s, t) && Holds(c, s, hour)
    ensures Holds(c, t, hour)
  {
  }

  predicate NoDuplicates(u: seq<Id>) {
    forall i, j :: 0 <= i < j < |u| ==> u[i] != u[j]
  }

  predicate UniqueIds(cat: seq<Achievement>) {
    forall i, j :: 0 <= i < j < |cat| ==> cat[i].id != cat[j].id
  }

  /** Only the last entry of the catalogue may depend on the level. */
  predicate LevelEntryLast(cat: seq<Achievement>) {
    forall j :: 0 <= j < |cat| - 1 ==> !cat[j].condition.MinLevel?
  }

  /** Entry `j` needs no further attention: it is unlocked, or its condition fails. */
  predicate Decided(cat: seq<Achievement>, p: Progress, hour: Hour, j: int)
    requires 0 <= j < |cat|
  {
    cat[j].id in p.unlocked || !Holds(cat[j].condition, p.stats, hour)
  }

  /** Unlocks `a`: appends its id and awards its XP. */
  function Unlock(p: Progress, a: Achievement): (r: Progress)
    ensures r.unlocked == p.unlocked + [a.id]
    ensures r.stats.totalXP == p.stats.totalXP + a.xp
    ensures OnlyXPAndLevelChanged(p.stats, r.stats)
    ensures r.stats.level == Max(p.stats.level, CalculateLevel(r.stats.totalXP))
  {
    Progress(AddXP(p.stats, a.xp), p.unlocked + [a.id])
  }

  /** Walks the catalogue from entry `k` to the end. */
  function CheckFrom(cat: seq<Achievement>, k: nat, p: Progress, hour: Hour): (r: Progress)
    requires k <= |cat|
    ensures p.unlocked <= r.unlocked
    ensures OnlyXPAndLevelChanged(p.stats, r.stats)
    ensures forall i :: |p.unlocked| <= i < |r.unlocked| ==> r.unlocked[i] !in p.unlocked
    decreases |cat| - k
  {
    if k == |cat| then p
    else
      var a := cat[k];
      var next := if a.id !in p.unlocked && Holds(a.condition, p.stats, hour) then Unlock(p, a) else p;
      CheckFrom(cat, k + 1, next, hour)
  }

  /** One `checkAchievements` call at hour `hour`. */
  function CheckAchievements(p: Progress, hour: Hour): (r: Progress)
    ensures p.unlocked <= r.unlocked
    ensures OnlyXPAndLevelChanged(p.stats, r.stats)
    ensures p.stats.totalXP <= r.stats.totalXP
  {
    CatalogueWellFormed();
    CheckFromXp(Catalogue, 0, p, hour);
    XpOfAllNonNegative(CheckFrom(Catalogue, 0, p, hour).unlocked[|p.unlocked|..]);
    CheckFrom(Catalogue, 0, p, hour)
  }

  /**
   * `js` lists, in increasing order, catalogue positions from `k` on whose
   * ids are exactly `ids`, one position per id.
   */
  predicate PicksInOrder(cat: seq<Achievement>, k: nat, ids: seq<Id>, js: seq<int>) {
    && |js| == |ids|
    && (forall i :: 0 <= i < |js| ==> k <= js[i] < |cat| && cat[js[i]].id == ids[i])
    && (forall i, j :: 0 <= i < j < |js| ==> js[i] < js[j])
  }

  lemma PicksInOrderLater(cat: seq<Achievement>, k: nat, ids: seq<Id>, js: seq<int>)
    requires PicksInOrder(cat, k + 1, ids, js)
    ensures PicksInOrder(cat, k, ids, js)
  {
  }

  lemma PicksInOrderCons(cat: seq<Achievement>, k: nat, ids: seq<Id>, js: seq<int>)
    requires k < |cat| && PicksInOrder(cat, k + 1, ids, js)
    ensures PicksInOrder(cat, k, [cat[k].id] + ids, [k] + js)
  {
  }

  /** The walk appends ids in catalogue order: each appended id sits further down the catalogue than the one before. */
  lemma {:induction false} CheckFromOrder(cat: seq<Achievement>, k: nat, p: Progress, hour: Hour)
    requires k <= |cat|
    ensures exists js :: PicksInOrder(cat, k, CheckFrom(cat, k, p, hour).unlocked[|p.unlocked|..], js)
    decreases |cat| - k
  {
    var r := CheckFrom(cat, k, p, hour);
    var added := r.unlocked[|p.unlocked|..];
    if k == |cat| {
      var none: seq<int> := [];
      assert added == [];
      assert PicksInOrder(cat, k, added, none);
    } else {
      var a := cat[k];
      var next := if a.id !in p.unlocked && Holds(a.condition, p.stats, hour) then Unlock(p, a) else p;
      assert r == CheckFrom(cat, k + 1, next, hour);
      CheckFromOrder(cat, k + 1, next, hour);
      var tail := r.unlocked[|next.unlocked|..];
      var js :| PicksInOrder(cat, k + 1, tail, js);
      if next == p {
        PicksInOrderLater(cat, k, tail, js);
        assert PicksInOrder(cat, k, added, js);
      } else {
        PicksInOrderCons(cat, k, tail, js);
        assert added == [a.id] + tail;
        assert PicksInOrder(cat, k, added, [k] + js);
      }
    }
  }

  /** The catalogue's ids are distinct, its only level-dependent entry is last, and no entry has negative XP. */
  lemma CatalogueWellFormed()
    ensures UniqueIds(Catalogue)
    ensures LevelEntryLast(Catalogue)
    ensures forall j :: 0 <= j < |Catalogue| ==> Catalogue[j].xp >= 0
  {
  }

  /** What each catalogue entry's condition asks, in the terms of the stats record and the clock hour. */
  lemma CatalogueConditions(s: Stats, hour: Hour)
    ensures Catalogue[0].id == FirstSession && (Holds(Catalogue[0].condition, s, hour) <==> s.totalSessions >= 1)
    ensures Catalogue[1].id == Streak3 && (Holds(Catalogue[1].condition, s, hour) <==> s.currentStreak >= 3)
    ensures Catalogue[2].id == Streak7 && (Holds(Catalogue[2].condition, s, hour) <==> s.currentStreak >= 7)
    ensures Catalogue[3].id == Sessions10 && (Holds(Catalogue[3].condition, s, hour) <==> s.totalSessions >= 10)
    ensures Catalogue[4].id == Sessions50 && (Holds(Catalogue[4].condition, s, hour) <==> s.totalSessions >= 50)
    ensures Catalogue[5].id == NightOwl && (Holds(Catalogue[5].condition, s, hour) <==> hour < 5)
    ensures Catalogue[6].id == EarlyBird && (Holds(Catalogue[6].condition, s, hour) <==> 5 <= hour < 7)
    ensures Catalogue[7].id == ZenMaster && (Holds(Catalogue[7].condition, s, hour) <==> s.level >= 10)
  {
  }

  // ---------------------------------------------------------------- XP accounting

  /** XP of the first catalogue entry with this id; 0 for an unknown id. */
  function XpOf(cat: seq<Achievement>, id: Id): int
    decreases |cat|
  {
    if |cat| == 0 then 0 else if cat[0].id == id then cat[0].xp else XpOf(cat[1..], id)
  }

  /** Total XP of a list of ids. */
  function XpOfAll(cat: seq<Achievement>, ids: seq<Id>): int
    decreases |ids|
  {
    if |ids| == 0 then 0 else XpOf(cat, ids[0]) + XpOfAll(cat, ids[1..])
  }

  /** Catalogue XP is never negative, so neither is the XP of any list of ids. */
  lemma {:induction false} XpOfAllNonNegative(ids: seq<Id>)
    ensures XpOfAll(Catalogue, ids) >= 0
    decreases |ids|
  {
    if |ids| > 0 {
      CatalogueWellFormed();
      XpOfNonNegative(Catalogue, ids[0]);
      XpOfAllNonNegative(ids[1..]);
    }
  }

  lemma {:induction false} XpOfNonNegative(cat: seq<Achievement>, id: Id)
    requires forall j :: 0 <= j < |cat| ==> cat[j].xp >= 0
    ensures XpOf(cat, id) >= 0
    decreases |cat|
  {
    if |cat| > 0 && cat[0].id != id {
      XpOfNonNegative(cat[1..], id);
    }
  }

  lemma {:induction false} XpOfEntry(cat: seq<Achievement>, j: nat)
    requires UniqueIds(cat) && j < |cat|
    ensures XpOf(cat, cat[j].id) == cat[j].xp
    decreases j
  {
    if j > 0 {
      assert cat[0].id != cat[j].id;
      XpOfEntry(cat[1..], j - 1);
    }
  }

  /** The XP a walk awards is exactly the XP of the ids it appends. */
  lemma {:induction false} CheckFromXp(cat: seq<Achievement>, k: nat, p: Progress, hour: Hour)
    requires k <= |cat| && UniqueIds(cat)
    ensures var r := CheckFrom(cat, k, p, hour);
      r.stats.totalXP == p.stats.totalXP + XpOfAll(cat, r.unlocked[|p.unlocked|..])
    decreases |cat| - k
  {
    var r := CheckFrom(cat, k, p, hour);
    if k == |cat| {
      assert r.unlocked[|p.unlocked|..] == [];
    } else {
      var a := cat[k];
      if a.id !in p.unlocked && Holds(a.condition, p.stats, hour) {
        var next := Unlock(p, a);
        CheckFromXp(cat, k + 1, next, hour);
        XpOfEntry(cat, k);
        var added := r.unlocked[|p.unlocked|..];
        assert added[0] == a.id;
        assert added[1..] == r.unlocked[|next.unlocked|..];
      } else {
        CheckFromXp(cat, k + 1, p, hour);
      }
    }
  }

  // ---------------------------------------------------------------- unlocking once

  /** No id is ever appended twice. */
  lemma {:induction false} CheckFromNoDuplicates(cat: seq<Achievement>, k: nat, p: Progress, hour: Hour)
    requires k <= |cat| && NoDuplicates(p.unlocked)
    ensures NoDuplicates(CheckFrom(cat, k, p, hour).unlocked)
    decreases |cat| - k
  {
    if k < |cat| {
      var a := cat[k];
      if a.id !in p.unlocked && Holds(a.condition, p.stats, hour) {
        var next := Unlock(p, a);
        assert NoDuplicates(next.unlocked) by {
          forall i, j | 0 <= i < j < |next.unlocked|
            ensures next.unlocked[i] != next.unlocked[j]
          {
            if j == |p.unlocked| {
              assert next.unlocked[i] == p.unlocked[i];
            }
          }
        }
        CheckFromNoDuplicates(cat, k + 1, next, hour);
      } else {
        CheckFromNoDuplicates(cat, k + 1, p, hour);
      }
    }
  }

  /** Every entry a walk unlocks has its condition holding in the final stats. */
  lemma {:induction false} CheckFromSound(cat: seq<Achievement>, k: nat, p: Progress, hour: Hour, j: nat)
    requires k <= j < |cat| && UniqueIds(cat)
    requires cat[j].id !in p.unlocked && cat[j].id in CheckFrom(cat, k, p, hour).unlocked
    ensures Holds(cat[j].condition, CheckFrom(cat, k, p, hour).stats, hour)
    decreases |cat| - k
  {
    var r := CheckFrom(cat, k, p, hour);
    var a := cat[k];
    if a.id !in p.unlocked && Holds(a.condition, p.stats, hour) {
      var next := Unlock(p, a);
      if j == k {
        HoldsPersists(a.condition, p.stats, r.stats, hour);
      } else {
        assert cat[j].id != a.id;
        CheckFromSound(cat, k + 1, next, hour, j);
      }
    } else {
      if j == k {
        assert r == CheckFrom(cat, k + 1, p, hour);
        CheckFromUntouched(cat, k + 1, p, hour, a.id);
      } else {
        CheckFromSound(cat, k + 1, p, hour, j);
      }
    }
  }

  /** A walk from `k` appends only ids of entries at `k` or later. */
  lemma {:induction false} CheckFromUntouched(cat: seq<Achievement>, k: nat, p: Progress, hour: Hour, id: Id)
    requires k <= |cat| && UniqueIds(cat)
    requires forall j :: k <= j < |cat| ==> cat[j].id != id
    ensures id in CheckFrom(cat, k, p, hour).unlocked <==> id in p.unlocked
    decreases |cat| - k
  {
    if k < |cat| {
      var a := cat[k];
      if a.id !in p.unlocked && Holds(a.condition, p.stats, hour) {
        CheckFromUntouched(cat, k + 1, Unlock(p, a), hour, id);
      } else {
        CheckFromUntouched(cat, k + 1, p, hour, id);
      }
    }
  }

  /**
   * After a walk from `k`, every entry is decided, provided the entries before
   * `k` were already decided and no level-dependent entry precedes the last.
   */
  lemma {:induction false} CheckFromComplete(cat: seq<Achievement>, k: nat, p: Progress, hour: Hour)
    requires k <= |cat| && LevelEntryLast(cat)
    requires forall j :: 0 <= j < k ==> Decided(cat, p, hour, j)
    ensures forall j :: 0 <= j < |cat| ==> Decided(cat, CheckFrom(cat, k, p, hour), hour, j)
    decreases |cat| - k
  {
    if k < |cat| {
      var a := cat[k];
      var next := if a.id !in p.unlocked && Holds(a.condition, p.stats, hour) then Unlock(p, a) else p;
      forall j | 0 <= j < k + 1
        ensures Decided(cat, next, hour, j)
      {
        if j < k {
          assert Decided(cat, p, hour, j);
          var id := cat[j].id;
          if id in p.unlocked {
            var i :| 0 <= i < |p.unlocked| && p.unlocked[i] == id;
            assert next.unlocked[i] == id;
          } else {
            assert !cat[j].condition.MinLevel?;
            assert !Holds(cat[j].condition, p.stats, hour);
          }
        } else if next != p {
          assert next.unlocked[|p.unlocked|] == a.id;
        }
      }
      CheckFromComplete(cat, k + 1, next, hour);
    }
  }

  /** A walk over entries that are all decided changes nothing. */
  lemma {:induction false} CheckFromSettled(cat: seq<Achievement>, k: nat, p: Progress, hour: Hour)
    requires k <= |cat|
    requires forall j :: k <= j < |cat| ==> Decided(cat, p, hour, j)
    ensures CheckFrom(cat, k, p, hour) == p
    decreases |cat| - k
  {
    if k < |cat| {
      assert Decided(cat, p, hour, k);
      CheckFromSettled(cat, k + 1, p, hour);
    }
  }

  /** After a full walk, an entry is unlocked exactly when it was before or its condition now holds. */
  lemma CheckFromExact(cat: seq<Achievement>, p: Progress, hour: Hour)
    requires UniqueIds(cat) && LevelEntryLast(cat)
    ensures var r := CheckFrom(cat, 0, p, hour);
      forall j :: 0 <= j < |cat| ==>
        (cat[j].id in r.unlocked <==> cat[j].id in p.unlocked || Holds(cat[j].condition, r.stats, hour))
    ensures var r := CheckFrom(cat, 0, p, hour);
      forall id :: (forall j :: 0 <= j < |cat| ==> cat[j].id != id) ==> (id in r.unlocked <==> id in p.unlocked)
  {
    var r := CheckFrom(cat, 0, p, hour);
    forall id | forall j :: 0 <= j < |cat| ==> cat[j].id != id
      ensures id in r.unlocked <==> id in p.unlocked
    {
      CheckFromUntouched(cat, 0, p, hour, id);
    }
    CheckFromComplete(cat, 0, p, hour);
    forall j | 0 <= j < |cat|
      ensures cat[j].id in r.unlocked <==> cat[j].id in p.unlocked || Holds(cat[j].condition, r.stats, hour)
    {
      assert Decided(cat, r, hour, j);
      if cat[j].id in p.unlocked {
        var i :| 0 <= i < |p.unlocked| && p.unlocked[i] == cat[j].id;
        assert r.unlocked[i] == cat[j].id;
      } else if cat[j].id in r.unlocked {
        CheckFromSound(cat, 0, p, hour, j);
      }
    }
  }

  /**
   * After `checkAchievements`, an entry is unlocked exactly when it was
   * unlocked before or its condition holds in the resulting stats.
   */
  lemma CheckAchievementsExact(p: Progress, hour: Hour)
    ensures var r := CheckAchievements(p, hour);
      forall j :: 0 <= j < |Catalogue| ==>
        (Catalogue[j].id in r.unlocked <==>
           Catalogue[j].id in p.unlocked || Holds(Catalogue[j].condition, r.stats, hour))
  {
    CatalogueWellFormed();
    CheckFromExact(Catalogue, p, hour);
  }

  /** A second call at the same hour with no stats change in between unlocks nothing and awards no XP. */
  lemma CheckAchievementsIdempotent(p: Progress, hour: Hour)
    ensures CheckAchievements(CheckAchievements(p, hour), hour) == CheckAchievements(p, hour)
  {
    CatalogueWellFormed();
    var r := CheckAchievements(p, hour);
    CheckFromComplete(Catalogue, 0, p, hour);
    CheckFromSettled(Catalogue, 0, r, hour);
  }

  /** The XP one call awards is the catalogue XP of the ids it appends, and the list stays duplicate-free. */
  lemma CheckAchievementsAccounting(p: Progress, hour: Hour)
    ensures var r := CheckAchievements(p, hour);
      r.stats.totalXP == p.stats.totalXP + XpOfAll(Catalogue, r.unlocked[|p.unlocked|..])
    ensures NoDuplicates(p.unlocked) ==> NoDuplicates(CheckAchievements(p, hour).unlocked)
  {
    CatalogueWellFormed();
    CheckFromXp(Catalogue, 0, p, hour);
    if NoDuplicates(p.unlocked) {
      CheckFromNoDuplicates(Catalogue, 0, p, hour);
    }
  }

  /** With non-negative catalogue XP, a call keeps the stats consistent. */
  lemma {:induction false} CheckFromConsistent(cat: seq<Achievement>, k: nat, p: Progress, hour: Hour)
    requires k <= |cat| && Consistent(p.stats)
    requires forall j :: 0 <= j < |cat| ==> cat[j].xp >= 0
    ensures Consistent(CheckFrom(cat, k, p, hour).stats)
    decreases |cat| - k
  {
    if k < |cat| {
      var a := cat[k];
      if a.id !in p.unlocked && Holds(a.condition, p.stats, hour) {
        AddXPConsistent(p.stats, a.xp);
        CheckFromConsistent(cat, k + 1, Unlock(p, a), hour);
      } else {
        CheckFromConsistent(cat, k + 1, p, hour);
      }
    }
  }
}
