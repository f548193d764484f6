# ZenFlow focus timer, stats and achievements in Dafny

ZenFlow is a single-page Pomodoro-style focus timer. This project models its
core in Dafny, as pure functions over immutable values, and proves properties
of that model. The core has three parts, all in `scripts/app.js`:

- **the timer**: a countdown of `remainingSeconds` out of `totalSeconds`. It
  has start, pause and reset buttons, preset mode buttons, and a custom-duration
  form. A session completes when an interval callback finds the countdown at
  zero.
- **the stats engine**: XP and levels, a running total of sessions and minutes,
  per-day session counts from which every day more than 14 days before today is
  dropped (today and the 14 days before it are kept), the
  Monday-to-Sunday week count, and the current and best streak of consecutive
  days.
- **the achievement engine**: a fixed catalogue of eight achievements, walked
  in order. Any achievement that is not yet unlocked and whose condition holds
  is appended to the unlocked list, and its XP goes through the same `addXP`
  path as session XP.

Modules:

| file | module | contents |
|---|---|---|
| `wrappers.dfy` | `Wrappers` | `Option`, `Result`, `Max`, `Min` |
| `calendar.dfy` | `Calendar` | the abstract day domain, the clock reading `Now`, the Monday-based week start |
| `stats.dfy` | `StatsEngine` | the `Stats` record, levels, `addXP`, `incrementSessions`, the week count, pruning, streaks |
| `achievements.dfy` | `AchievementEngine` | the catalogue, `checkAchievements`, `unlockAchievement` |
| `timer.dfy` | `FocusTimer` | the timer record, the buttons, the interval tick, session completion, a whole-page event model |

Modelling choices:

- **Days.** A calendar day is an integer `Day`. Consecutive days differ by one.
  The source keys the per-day map by an ISO date string and the streak by a
  locale date string. Both stand for the same day here, and the lexicographic
  order of ISO keys becomes integer order.
- **The clock.** Where the source calls `new Date()`, the model takes the
  reading as a parameter: the stats operations take `today` (and `weekday`,
  0 = Sunday … 6 = Saturday), the achievement check takes `hour` (0..23), and
  the timer's callback takes a `Now` value holding all three. Each is read once
  per call.
- **Achievement ids.** The eight catalogue ids form an enumeration `Id`.
  `AchievementEngine.Key` gives the stored string (`"first-session"`, …).
- **Form fields.** `parseInt(field) || 0` becomes an `Option<int>`: `None` for
  a field that does not parse, read as zero by `FieldOrZero`.
- **Timer callbacks.** One interval callback is one `FocusTimer.Tick`.
  `FocusTimer.Handle` folds the button presses and callbacks into one event
  type, so that invariants can be stated over any sequence of events.

Behaviour the proofs make explicit:

- A session with N seconds left completes on callback N + 1. The callback that
  finds zero is the one that completes it (`FocusTimer.CompletesOnTickAfterZero`).
- Every completed session adds 25 minutes to `totalMinutes`, whatever its
  length. It earns 25 XP only when its label is exactly "Focus Session", and
  5 XP otherwise.
- A mode button leaves the `seconds` field as it was.
- A second `checkAchievements` call at the same hour unlocks nothing more
  (`AchievementEngine.CheckAchievementsIdempotent`). This holds only because
  the one level-dependent entry, zen-master, is last in the catalogue. An
  earlier entry's XP could lift the level, but no entry after the level check
  could be enabled by that.
- The week count is taken before old days are pruned. Pruning cannot change
  it, because the Monday of the current week is never more than 6 days back
  and pruning only drops days more than 14 days back
  (`StatsEngine.PruneKeepsWeek`).

## Model

| member | source | states |
|---|---|---|
| StatsEngine.CalculateLevel | scripts/app.js:718-727 | the level is always between 1 and 11 |
| StatsEngine.ScanLevelsSpec | scripts/app.js:721-726 | scanning the threshold table downward from index i returns the first index whose threshold is at most xp, counted from 1, or 1 when none is; every threshold above the answer exceeds xp |
| StatsEngine.CalculateLevelSpec | scripts/app.js:718-727 | level L is the largest level whose threshold Levels[L-1] is at most xp; xp below the next threshold; negative xp gives level 1 |
| StatsEngine.CalculateLevelMonotone | scripts/app.js:718-727 | more XP never gives a lower level |
| StatsEngine.CalculateLevelUnique | scripts/app.js:719-720 | any level whose threshold band contains xp is the computed level |
| StatsEngine.LevelName | scripts/app.js:729-735 | levels 1..10 are named in table order; every level from 10 up is "Zen Master"; levels below 1 have no name |
| StatsEngine.AddXP | scripts/app.js:704-716 | XP grows by the amount; the stored level only rises, and only to the level the new XP earns; no other field changes |
| StatsEngine.AddXPConsistent | scripts/app.js:704-712 | adding a non-negative amount keeps the stored level equal to the level the XP earns |
| StatsEngine.AddAllConsistent | scripts/app.js:704-712 | after any sequence of non-negative XP awards, the stored level still equals the earned level |
| StatsEngine.ApprenticeScenario | scripts/app.js:704-735 | 100 XP from the initial stats reaches level 2, "Apprentice"; another 50 XP stays at level 2 |
| StatsEngine.InitialConsistent | scripts/app.js:676-688 | the initial record satisfies the stats invariant |
| Calendar.MondayOffset | scripts/app.js:784-785 | the offset is between -6 and 0 and lands on a Monday (Sunday goes back 6 days) |
| Calendar.WeekStart | scripts/app.js:784-790 | the week's Monday is at most 6 days before today, and today lies in the 7 days from it |
| StatsEngine.CalculateWeekSessions | scripts/app.js:782-795 | the loop total is the sum of the per-day counts over the 7 days from Monday, missing days counting 0 |
| StatsEngine.SumDaysFrame | scripts/app.js:787-793 | the window sum depends only on the counts of the days in the window |
| StatsEngine.WeekTotalFrame | scripts/app.js:782-795 | two maps that agree on this week's seven days give the same week count |
| StatsEngine.SumDaysBump | scripts/app.js:746-754 | one more session on a day inside the window raises the window sum by exactly one |
| StatsEngine.PruneOld | scripts/app.js:797-808 | only days at most 14 days old remain; every such day keeps its count; no day is added |
| StatsEngine.PruneOldIdempotent | scripts/app.js:797-808 | pruning twice on the same day is pruning once |
| StatsEngine.PruneKeepsWeek | scripts/app.js:752-775 | pruning after the week count does not change the current week's count |
| StatsEngine.RecordDay | scripts/app.js:745-775 | today's count goes up by one and becomes present; other recent days keep their counts; all remaining days are recent; no unknown day appears; if every stored count was at least 1, every count still is |
| StatsEngine.RecordStreak | scripts/app.js:756-772 | same day: nothing changes; a session the day after the last one extends the streak by one; otherwise it restarts at 1; best becomes the maximum of best and current; the last session day becomes today |
| StatsEngine.StreakCountsConsecutiveDays | scripts/app.js:756-772 | sessions on n consecutive days, starting after a gap, give a current streak of exactly n and a best of at least n |
| StatsEngine.IncrementSessions | scripts/app.js:737-780 | one more session and 25 more minutes; XP and level unchanged; today's count is the old count plus one; the day map and streak move as RecordDay and RecordStreak say |
| StatsEngine.IncrementSessionsWeek | scripts/app.js:752-754 | the new week count is the old week's total plus one, and it equals the week total of the pruned map that is stored |
| StatsEngine.IncrementSessionsConsistent | scripts/app.js:737-775 | recording a session keeps level = earned level, 0 <= current <= best, minutes = 25 per session, and every stored day count at least 1 |
| AchievementEngine.Unlock | scripts/app.js:935-942 | the id is appended; XP grows by the achievement's XP; the level becomes the larger of the old level and the level the new XP earns, as addXP sets it; nothing else changes |
| AchievementEngine.CheckFrom | scripts/app.js:927-933 | the walk only appends to the unlocked list; every id it appends was not unlocked before; only XP and level change |
| AchievementEngine.CheckAchievements | scripts/app.js:927-933 | one check only appends ids; XP never falls and the level never falls; no other stats field changes |
| AchievementEngine.CatalogueConditions | scripts/app.js:903-910 | each entry's condition means what its closure tests: at least 1, 10 or 50 sessions; a streak of at least 3 or 7; an hour below 5 or from 5 to 6; level 10 or more |
| AchievementEngine.KeyInjective | scripts/app.js:903-910 | distinct ids are stored as distinct strings, so the `includes` test on strings is a test on ids |
| AchievementEngine.CheckFromOrder | scripts/app.js:928-931 | the appended ids come from strictly increasing catalogue positions, one position per id: entries are unlocked in catalogue order |
| AchievementEngine.HoldsPersists | scripts/app.js:902-911 | a condition that held still holds once only XP and level have grown |
| AchievementEngine.CatalogueWellFormed | scripts/app.js:902-911 | the catalogue's ids are distinct, only its last entry depends on the level, and no entry has negative XP |
| AchievementEngine.XpOfEntry | scripts/app.js:902-911 | looking an id up in a catalogue with distinct ids finds that entry's XP |
| AchievementEngine.CheckFromXp | scripts/app.js:935-937 | XP grows by exactly the catalogue XP of the ids appended |
| AchievementEngine.CheckFromNoDuplicates | scripts/app.js:927-936 | a duplicate-free unlocked list stays duplicate-free |
| AchievementEngine.CheckFromSound | scripts/app.js:928-931 | every newly unlocked entry's condition holds on the resulting stats |
| AchievementEngine.CheckFromUntouched | scripts/app.js:928-931 | an id not among the walked entries is unlocked after the walk exactly when it was before |
| AchievementEngine.CheckFromComplete | scripts/app.js:927-933 | after the walk every entry is either unlocked or has a false condition on the resulting stats |
| AchievementEngine.CheckFromSettled | scripts/app.js:928-931 | a walk over entries that are all unlocked or failing changes nothing |
| AchievementEngine.CheckFromExact | scripts/app.js:927-933 | for a catalogue with distinct ids and the level entry last: an entry is unlocked afterwards if and only if it was before or its condition holds on the resulting stats; no other id is added |
| AchievementEngine.CheckAchievementsExact | scripts/app.js:927-933 | the same if-and-only-if for the real catalogue |
| AchievementEngine.CheckAchievementsIdempotent | scripts/app.js:927-933 | checking twice at the same hour is checking once |
| AchievementEngine.CheckAchievementsAccounting | scripts/app.js:927-942 | XP rises by exactly the XP of the newly unlocked achievements, and no id is ever listed twice |
| AchievementEngine.CheckFromConsistent | scripts/app.js:927-942 | unlocking keeps the stats invariant |
| FocusTimer.Start | scripts/app.js:396-397 | the timer runs; nothing else changes |
| FocusTimer.Pause | scripts/app.js:412-414 | the timer stops; nothing else changes |
| FocusTimer.Reset | scripts/app.js:422-425 | stopped with the full configured length left; length and label kept |
| FocusTimer.SelectMode | scripts/app.js:434-459 | stopped and full at 60 x minutes seconds with the button's label; the seconds field is kept |
| FocusTimer.SetCustom | scripts/app.js:488-510 | refused exactly when 60 x minutes + seconds < 1 (unparsable fields read 0); otherwise stopped and full at that length, labelled "Custom Timer" |
| FocusTimer.ApplyCustom | scripts/app.js:494-510 | a refused form leaves the timer as it was; an accepted form leaves exactly the timer SetCustom describes; a valid countdown stays valid |
| FocusTimer.TickTimer | scripts/app.js:401-408 | with time left the countdown drops by one second and nothing completes; at zero a session completes and the timer is reset; the countdown stays in range |
| FocusTimer.CountDown | scripts/app.js:401-404 | the first remainingSeconds callbacks only count down, and none completes a session |
| FocusTimer.CompletesOnTickAfterZero | scripts/app.js:401-408 | with N seconds left, N + 1 callbacks complete exactly one session and leave the timer reset |
| FocusTimer.SessionXP | scripts/app.js:536 | a session earns 25 XP exactly when its label is "Focus Session", and 5 XP otherwise |
| FocusTimer.Award | scripts/app.js:531-558 | a completed session adds one session and 25 minutes, moves the streak as RecordStreak says (so the last session day becomes today) and the day map as RecordDay says, and only appends achievements |
| FocusTimer.AwardEffect | scripts/app.js:533-557 | XP rises by the session XP (25 for "Focus Session", 5 otherwise) plus the XP of each newly unlocked achievement; the stats and unlocked invariants hold |
| FocusTimer.Tick | scripts/app.js:401-408 | with time left the countdown drops by one and nothing else in the timer or the stats changes; at zero the timer is exactly what Reset gives and the stats and achievements are exactly what Award gives for the timer's label |
| FocusTimer.AwardUnlocks | scripts/app.js:538-557 | after a completed session, each catalogue entry is unlocked exactly when it already was or its condition holds on the stats the session left |
| FocusTimer.AwardUnlocksFirstSession | scripts/app.js:538-557 | every completed session leaves "first-session" unlocked |
| FocusTimer.Handle | scripts/app.js:396-518 | buttons and the custom form never touch stats or achievements; start leaves the timer running, and pause, reset and a mode button leave it stopped; every event keeps the countdown within the configured length |
| FocusTimer.InitialAppInvariant | scripts/app.js:376-384 | the initial timer, stats and unlocked list satisfy the invariant |
| FocusTimer.TickPreservesInvariant | scripts/app.js:401-408 | every callback keeps the countdown in range, the stats consistent and the unlocked list duplicate-free |
| FocusTimer.HandlePreservesInvariant | scripts/app.js:396-518 | every button and callback keeps the invariant, and neither the unlocked list nor XP shrinks |
| FocusTimer.EventsPreserveInvariant | scripts/app.js:396-558 | the same holds along any sequence of buttons and callbacks |

## Left out

- The display is left out: achievement display names, DOM updates, the progress ring, formatted time, toasts, sounds, browser notifications and the level-up message. They do not affect state.
- Persistence through `localStorage` and JSON is left out. The model keeps state in values, so loading and saving are identity steps.
- `setInterval` scheduling is not modelled. A `Tick` applies whether or not `isRunning` is set. Pressing start twice, which would register a second interval, is not modelled.
- Parsing in the custom form is not modelled. `parseInt` becomes an already-parsed `Option<int>`, and NaN from bad markup on mode buttons is not represented.
- Real dates are left out, including time zones and the gap between the UTC day of the ISO keys and the local day of the streak string. Both are one abstract `Day`.
- `incrementSessions` reads the clock separately at app.js:742 (today), 758 (yesterday), 783 (the week) and 799 (the pruning cutoff); the model takes one `today` for all four. A completion straddling local midnight, where a later read lands on the next day (resetting the streak to 1 instead of extending it, and moving the week window and the cutoff by a day), is not represented.
- Achievement conditions read the hour once per check, not once per entry. The hour can change between two entries' conditions only across midnight or another hour boundary within one call.
- A stored unlocked list holding unknown strings or duplicates is not modelled. Ids are an enumeration, and the invariant keeps the list duplicate-free.
- JavaScript numbers are doubles. The model uses unbounded integers, since counts and XP stay far below 2^53.
- The theme switcher, ambient sounds, to-do list and the rest of the page are outside the core.
- AchievementEngine.CheckAchievementsIdempotent: proved for the real catalogue only, and through a generic lemma that needs the level-dependent entry to be last. A catalogue with a level entry earlier on could unlock more on a second call.
