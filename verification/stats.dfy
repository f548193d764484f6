/**
 * The stats engine: experience points and levels, session counters, the
 * per-day session map, the streak, the weekly total and the pruning of old
 * days. Every operation is a pure step from one `Stats` record to the next.
 */
module StatsEngine {
  import opened Wrappers
  import opened Calendar

  /** The persisted stats record. `weekSessions` and `todaySessions` are stored copies of derived values. */
  datatype Stats = Stats(
    totalXP: int,
    totalSessions: int,
    totalMinutes: int,
    currentStreak: int,
    bestStreak: int,
    weekSessions: int,
    todaySessions: int,
    level: int,
    lastSessionDay: Option<Day>,
    dailySessions: map<Day, int>)

  /** The record before anything has been saved. */
  const Initial: Stats := Stats(0, 0, 0, 0, 0, 0, 0, 1, None, map[])

  /** XP needed to reach level `i + 1`. */
  const Levels: seq<int> := [0, 100, 250, 500, 800, 1200, 1800, 2500, 3500, 5000, 7000]

  const MaxLevel: int := 11

  const LevelNames: seq<string> := [
    "Novice", "Apprentice", "Practitioner", "Journeyman", "Expert",
    "Master", "Grandmaster", "Sage", "Enlightened", "Zen Master"]

  /** Minutes credited per completed session, whatever the timer was set to. */
  const MinutesPerSession: int := 25

  /** Days older than this many days before today are dropped from `dailySessions`. */
  const KeepDays: int := 14

  // ---------------------------------------------------------------- levels

  /**
   * The threshold scan from index `i` downwards: one more than the first
   * index whose threshold `xp` reaches; 1 if none does.
   */
  function ScanLevels(xp: int, i: nat): (r: int)
    requires i < |Levels|
    ensures 1 <= r <= i + 1
    decreases i
  {
    if xp >= Levels[i] then i + 1
    else if i == 0 then 1
    else ScanLevels(xp, i - 1)
  }

  /** The scan stops at the highest threshold at or below `i` that `xp` reaches. */
  lemma {:induction false} ScanLevelsSpec(xp: int, i: nat)
    requires i < |Levels|
    ensures var r := ScanLevels(xp, i);
      && (r == 1 || Levels[r - 1] <= xp)
      && (forall j :: r <= j <= i ==> xp < Levels[j])
    decreases i
  {
    if xp < Levels[i] && i > 0 {
      ScanLevelsSpec(xp, i - 1);
    }
  }

  /** The level `xp` experience points have earned, scanning the thresholds from the top. */
  function CalculateLevel(xp: int): (r: int)
    ensures 1 <= r <= MaxLevel
  {
    ScanLevels(xp, 10)
  }

  /**
   * The level is one more than the index of the last threshold reached:
   * every threshold from index `level` on is out of reach, and for
   * non-negative XP the threshold at `level - 1` is reached.
   */
  lemma CalculateLevelSpec(xp: int)
    ensures var r := CalculateLevel(xp);
      && (r == 1 || Levels[r - 1] <= xp)
      && (xp >= 0 ==> Levels[r - 1] <= xp)
      && (forall j :: r <= j < |Levels| ==> xp < Levels[j])
  {
    ScanLevelsSpec(xp, 10);
  }

  /** More experience never means a lower level. */
  lemma CalculateLevelMonotone(x: int, y: int)
    requires x <= y
    ensures CalculateLevel(x) <= CalculateLevel(y)
  {
    CalculateLevelSpec(x);
    CalculateLevelSpec(y);
  }

  /** The thresholds are strictly increasing, so the level characterisation has exactly one solution. */
  lemma CalculateLevelUnique(xp: int, level: int)
    requires xp >= 0 && 1 <= level <= MaxLevel
    requires Levels[level - 1] <= xp
    requires level == MaxLevel || xp < Levels[level]
    ensures CalculateLevel(xp) == level
  {
    CalculateLevelSpec(xp);
    assert forall i, j :: 0 <= i < j < |Levels| ==> Levels[i] < Levels[j];
  }

  /**
   * The display name of a level. Levels above ten reuse the last name; a
   * level below 1 indexes before the start of the list and has no name.
   */
  function LevelName(level: int): (r: Option<string>)
    ensures r.None? <==> level < 1
    ensures 1 <= level <= |LevelNames| ==> r == Some(LevelNames[level - 1])
    ensures level >= |LevelNames| ==> r == Some("Zen Master")
  {
    var i := Min(level - 1, |LevelNames| - 1);
    if i < 0 then None else Some(LevelNames[i])
  }

  // ---------------------------------------------------------------- XP

  /** Adds `amount` XP; the stored level is raised to the earned level, never lowered. */
  function AddXP(s: Stats, amount: int): (r: Stats)
    ensures r.totalXP == s.totalXP + amount
    ensures r.level >= s.level && r.level >= CalculateLevel(r.totalXP)
    ensures r.level == s.level || r.level == CalculateLevel(r.totalXP)
    ensures r == s.(totalXP := r.totalXP, level := r.level)
  {
    var total := s.totalXP + amount;
    var newLevel := CalculateLevel(total);
    s.(totalXP := total, level := if newLevel > s.level then newLevel else s.level)
  }

  // ---------------------------------------------------------------- days

  /** Sessions recorded on day `d`; a missing key counts as zero. */
  function CountOn(m: map<Day, int>, d: Day): int {
    if d in m then m[d] else 0
  }

  /** Sessions over the `n` days starting at `start`. */
  function SumDays(m: map<Day, int>, start: Day, n: nat): int
    decreases n
  {
    if n == 0 then 0 else SumDays(m, start, n - 1) + CountOn(m, start + n - 1)
  }

  /** Sessions in the Monday-to-Sunday week containing `today`. */
  function WeekTotal(m: map<Day, int>, today: Day, weekday: Weekday): int {
    SumDays(m, WeekStart(today, weekday), 7)
  }

  /** The week total as the source computes it: seven lookups, Monday first. */
  method CalculateWeekSessions(m: map<Day, int>, today: Day, weekday: Weekday) returns (total: int)
    ensures total == SumDays(m, today + MondayOffset(weekday), 7)
  {
    var monday := today + MondayOffset(weekday);
    total := 0;
    var i := 0;
    while i < 7
      invariant 0 <= i <= 7
      invariant total == SumDays(m, monday, i)
    {
      total := total + CountOn(m, monday + i);
      i := i + 1;
    }
  }

  /** A sum over a window only reads the window: maps agreeing there give the same sum. */
  lemma {:induction false} SumDaysFrame(m1: map<Day, int>, m2: map<Day, int>, start: Day, n: nat)
    requires forall d :: start <= d < start + n ==> CountOn(m1, d) == CountOn(m2, d)
    ensures SumDays(m1, start, n) == SumDays(m2, start, n)
  {
    if n > 0 {
      SumDaysFrame(m1, m2, start, n - 1);
      assert CountOn(m1, start + n - 1) == CountOn(m2, start + n - 1);
    }
  }

  /** One more session on a day inside the window raises the window's sum by exactly one. */
  lemma {:induction false} SumDaysBump(m: map<Day, int>, start: Day, n: nat, d: Day)
    requires start <= d < start + n
    ensures SumDays(m[d := CountOn(m, d) + 1], start, n) == SumDays(m, start, n) + 1
  {
    var m' := m[d := CountOn(m, d) + 1];
    if d == start + n - 1 {
      SumDaysFrame(m', m, start, n - 1);
    } else {
      SumDaysBump(m, start, n - 1, d);
      assert CountOn(m', start + n - 1) == CountOn(m, start + n - 1);
    }
  }

  /** The weekly total depends on no day outside the Monday-anchored week. */
  lemma WeekTotalFrame(m1: map<Day, int>, m2: map<Day, int>, today: Day, weekday: Weekday)
    requires forall d :: WeekStart(today, weekday) <= d < WeekStart(today, weekday) + 7 ==>
               CountOn(m1, d) == CountOn(m2, d)
    ensures WeekTotal(m1, today, weekday) == WeekTotal(m2, today, weekday)
  {
    SumDaysFrame(m1, m2, WeekStart(today, weekday), 7);
  }

  /** Drops every day more than `KeepDays` days before today; the rest is kept as it was. */
  function PruneOld(m: map<Day, int>, today: Day): (r: map<Day, int>)
    ensures forall d :: d in r ==> today - KeepDays <= d
    ensures forall d :: d in m && today - KeepDays <= d ==> d in r && r[d] == m[d]
    ensures r.Keys <= m.Keys
  {
    map d | d in m && today - KeepDays <= d :: m[d]
  }

  /** Pruning twice on the same day removes nothing more. */
  lemma PruneOldIdempotent(m: map<Day, int>, today: Day)
    ensures PruneOld(PruneOld(m, today), today) == PruneOld(m, today)
  {
  }

  /** Pruning never touches the current week, so the weekly total survives it. */
  lemma PruneKeepsWeek(m: map<Day, int>, today: Day, weekday: Weekday)
    ensures WeekTotal(PruneOld(m, today), today, weekday) == WeekTotal(m, today, weekday)
  {
    var p := PruneOld(m, today);
    forall d | WeekStart(today, weekday) <= d < WeekStart(today, weekday) + 7
      ensures CountOn(p, d) == CountOn(m, d)
    {
    }
    WeekTotalFrame(p, m, today, weekday);
  }

  // ---------------------------------------------------------------- sessions

  /** The streak fields of the stats record. */
  datatype Streak = Streak(current: int, best: int, lastDay: Option<Day>)

  function StreakOf(s: Stats): Streak {
    Streak(s.currentStreak, s.bestStreak, s.lastSessionDay)
  }

  /**
   * The streak after a session today. A second session on the same day
   * changes nothing; otherwise the streak grows by one when the last session
   * was yesterday and restarts at 1 when it was any other day (or never), and
   * the best streak catches up with it.
   */
  function RecordStreak(st: Streak, today: Day): (r: Streak)
    ensures st.lastDay == Some(today) ==> r == st
    ensures st.lastDay == Some(today - 1) ==> r.current == st.current + 1
    ensures st.lastDay != Some(today) && st.lastDay != Some(today - 1) ==> r.current == 1
    ensures st.lastDay != Some(today) ==> r.best == Max(st.best, r.current)
    ensures r.lastDay == Some(today)
    ensures r.best >= st.best
    ensures st.best >= st.current ==> r.best >= r.current
  {
    if st.lastDay == Some(today) then st
    else
      var current := if st.lastDay == Some(today - 1) then st.current + 1 else 1;
      Streak(current, if current > st.best then current else st.best, Some(today))
  }

  /** The streak after one session on each of `n` consecutive days starting at `first`. */
  function StreakOverDays(st: Streak, first: Day, n: nat): Streak
    decreases n
  {
    if n == 0 then st else RecordStreak(StreakOverDays(st, first, n - 1), first + n - 1)
  }

  /**
   * Sessions on `n` consecutive days, after a gap or with no earlier session,
   * leave a streak of exactly `n` and a best streak of at least `n`.
   */
  lemma {:induction false} StreakCountsConsecutiveDays(st: Streak, first: Day, n: nat)
    requires n >= 1
    requires st.lastDay != Some(first) && st.lastDay != Some(first - 1)
    ensures StreakOverDays(st, first, n).current == n
    ensures StreakOverDays(st, first, n).best >= n
    ensures StreakOverDays(st, first, n).lastDay == Some(first + n - 1)
    decreases n
  {
    if n > 1 {
      StreakCountsConsecutiveDays(st, first, n - 1);
    }
  }

  /** Every day present in the map has at least one session. */
  predicate PositiveCounts(m: map<Day, int>) {
    forall d :: d in m ==> m[d] >= 1
  }

  /** The day map after a session today: today's count goes up by one, then old days are pruned. */
  function RecordDay(m: map<Day, int>, today: Day): (r: map<Day, int>)
    ensures today in r && r[today] == CountOn(m, today) + 1
    ensures forall d :: d != today && today - KeepDays <= d ==> CountOn(r, d) == CountOn(m, d)
    ensures forall d :: d in r ==> today - KeepDays <= d
    ensures r.Keys <= m.Keys + {today}
    ensures PositiveCounts(m) ==> PositiveCounts(r)
  {
    PruneOld(m[today := CountOn(m, today) + 1], today)
  }

  /** Records one completed session on day `today`. */
  function IncrementSessions(s: Stats, today: Day, weekday: Weekday): (r: Stats)
    ensures r.totalSessions == s.totalSessions + 1
    ensures r.totalMinutes == s.totalMinutes + MinutesPerSession
    ensures r.totalXP == s.totalXP && r.level == s.level
    ensures r.dailySessions == RecordDay(s.dailySessions, today)
    ensures r.todaySessions == CountOn(s.dailySessions, today) + 1
    ensures StreakOf(r) == RecordStreak(StreakOf(s), today)
  {
    var daily := s.dailySessions[today := CountOn(s.dailySessions, today) + 1];
    var week := WeekTotal(daily, today, weekday);
    var streak := RecordStreak(StreakOf(s), today);
    s.(totalSessions := s.totalSessions + 1,
       totalMinutes := s.totalMinutes + MinutesPerSession,
       dailySessions := PruneOld(daily, today),
       todaySessions := daily[today],
       weekSessions := week,
       currentStreak := streak.current,
       bestStreak := streak.best,
       lastSessionDay := streak.lastDay)
  }

  /**
   * The stored week total after a session is one more than the week's total
   * before it, and equals the week total of the pruned day map.
   */
  lemma IncrementSessionsWeek(s: Stats, today: Day, weekday: Weekday)
    ensures IncrementSessions(s, today, weekday).weekSessions == WeekTotal(s.dailySessions, today, weekday) + 1
    ensures IncrementSessions(s, today, weekday).weekSessions
         == WeekTotal(IncrementSessions(s, today, weekday).dailySessions, today, weekday)
  {
    var daily := s.dailySessions[today := CountOn(s.dailySessions, today) + 1];
    var r := IncrementSessions(s, today, weekday);
    assert r.weekSessions == WeekTotal(daily, today, weekday);
    assert r.dailySessions == PruneOld(daily, today);
    PruneKeepsWeek(daily, today, weekday);
    SumDaysBump(s.dailySessions, WeekStart(today, weekday), 7, today);
  }

  // ---------------------------------------------------------------- invariants

  /** What holds of every record built from `Initial` by the operations above. */
  predicate Consistent(s: Stats) {
    && s.totalXP >= 0
    && s.level == CalculateLevel(s.totalXP)
    && 0 <= s.currentStreak <= s.bestStreak
    && s.totalSessions >= 0
    && s.totalMinutes == MinutesPerSession * s.totalSessions
    && PositiveCounts(s.dailySessions)
  }

  lemma InitialConsistent()
    ensures Consistent(Initial)
  {
  }

  /** Awarding non-negative XP keeps the stored level equal to the earned level. */
  lemma AddXPConsistent(s: Stats, amount: int)
    requires Consistent(s) && amount >= 0
    ensures Consistent(AddXP(s, amount))
  {
    CalculateLevelMonotone(s.totalXP, s.totalXP + amount);
  }

  /** Recording a session keeps the minutes accounting, `bestStreak >= currentStreak` and every stored day count positive. */
  lemma IncrementSessionsConsistent(s: Stats, today: Day, weekday: Weekday)
    requires Consistent(s)
    ensures Consistent(IncrementSessions(s, today, weekday))
  {
  }

  /** The stored level reflects the earned level after any run of non-negative awards. */
  lemma {:induction false} AddAllConsistent(s: Stats, amounts: seq<nat>)
    requires Consistent(s)
    ensures Consistent(AddAll(s, amounts))
    decreases |amounts|
  {
    if |amounts| > 0 {
      AddXPConsistent(s, amounts[0]);
      AddAllConsistent(AddXP(s, amounts[0]), amounts[1..]);
    }
  }

  /** A run of `addXP` calls, in order. */
  function AddAll(s: Stats, amounts: seq<nat>): Stats
    decreases |amounts|
  {
    if |amounts| == 0 then s else AddAll(AddXP(s, amounts[0]), amounts[1..])
  }

  /** From nothing, 100 XP reaches level 2 ("Apprentice"); 50 more stays at level 2. */
  lemma ApprenticeScenario()
    ensures AddXP(Initial, 100).level == 2
    ensures LevelName(2) == Some("Apprentice")
    ensures AddXP(AddXP(Initial, 100), 50).level == 2
  {
  }
}
