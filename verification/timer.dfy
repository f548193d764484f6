/**
 * The countdown timer and session completion. Each interval callback is one
 * `Tick`; a tick at zero completes the session, which awards session XP,
 * records the session, restores the countdown and checks achievements.
 */
module FocusTimer {
  import opened Wrappers
  import opened Calendar
  import opened StatsEngine
  import opened AchievementEngine

  datatype TimerState = TimerState(
    minutes: int,
    seconds: int,
    totalSeconds: int,
    remainingSeconds: int,
    isRunning: bool,
    sessionLabel: string)

  const FocusLabel: string := "Focus Session"
  const CustomLabel: string := "Custom Timer"

  /** A focus session is worth 25 XP, every other kind of session 5. */
  const FocusXP: int := 25
  const OtherXP: int := 5

  /** A 25-minute focus session, stopped and full. */
  const InitialTimer: TimerState := TimerState(25, 0, 25 * 60, 25 * 60, false, FocusLabel)

  datatype TimerError = InvalidTime

  /** The whole page state the core owns. */
  datatype App = App(timer: TimerState, progress: Progress)

  const InitialApp: App := App(InitialTimer, InitialProgress)

  /** The countdown lies between zero and the configured length. */
  predicate Valid(t: TimerState) {
    0 <= t.remainingSeconds <= t.totalSeconds
  }

  /** Stopped with the full configured length left. */
  predicate Idle(t: TimerState) {
    !t.isRunning && t.remainingSeconds == t.totalSeconds
  }

  function Start(t: TimerState): (r: TimerState)
    ensures r.isRunning
    ensures r.(isRunning := t.isRunning) == t
  {
    t.(isRunning := true)
  }

  function Pause(t: TimerState): (r: TimerState)
    ensures !r.isRunning
    ensures r.(isRunning := t.isRunning) == t
  {
    t.(isRunning := false)
  }

  /** Stops the timer and restores the full configured length. */
  function Reset(t: TimerState): (r: TimerState)
    ensures Idle(r)
    ensures r.totalSeconds == t.totalSeconds
    ensures r.(isRunning := t.isRunning, remainingSeconds := t.remainingSeconds) == t
  {
    t.(isRunning := false, remainingSeconds := t.totalSeconds)
  }

  /** A preset mode button: `minutes` long, with the button's label, stopped. */
  function SelectMode(t: TimerState, minutes: nat, sessionLabel: string): (r: TimerState)
    ensures Idle(r) && Valid(r)
    ensures r.totalSeconds == 60 * minutes && r.sessionLabel == sessionLabel && r.minutes == minutes
    ensures r.seconds == t.seconds
  {
    t.(minutes := minutes, totalSeconds := minutes * 60, remainingSeconds := minutes * 60,
       sessionLabel := sessionLabel, isRunning := false)
  }

  /** `parseInt(field) || 0`: an unparsable field reads as zero. */
  function FieldOrZero(field: Option<int>): int {
    field.GetOr(0)
  }

  /**
   * The custom-duration form. A total under one second is refused and the
   * timer keeps its state; otherwise the timer is stopped and full at the
   * new length, labelled "Custom Timer".
   */
  function SetCustom(t: TimerState, minutesField: Option<int>, secondsField: Option<int>): (r: Result<TimerState, TimerError>)
    ensures var total := 60 * FieldOrZero(minutesField) + FieldOrZero(secondsField);
      && (r.Failure? <==> total < 1)
      && (r.Success? ==>
            && Idle(r.value) && Valid(r.value)
            && r.value.totalSeconds == total && r.value.totalSeconds >= 1
            && r.value.sessionLabel == CustomLabel
            && r.value.minutes == FieldOrZero(minutesField)
            && r.value.seconds == FieldOrZero(secondsField))
  {
    var mins := FieldOrZero(minutesField);
    var secs := FieldOrZero(secondsField);
    var total := (mins * 60) + secs;
    if total < 1 then Failure(InvalidTime)
    else Success(TimerState(mins, secs, total, total, false, CustomLabel))
  }

  /** The timer after the custom form: unchanged when the form was refused. */
  function ApplyCustom(t: TimerState, minutesField: Option<int>, secondsField: Option<int>): (r: TimerState)
    ensures 60 * FieldOrZero(minutesField) + FieldOrZero(secondsField) < 1 ==> r == t
    ensures SetCustom(t, minutesField, secondsField).Success? ==> r == SetCustom(t, minutesField, secondsField).value
    ensures Valid(t) ==> Valid(r)
  {
    match SetCustom(t, minutesField, secondsField)
    case Success(u) => u
    case Failure(_) => t
  }

  /** The XP a completed session earns: 25 for a focus session, 5 for any other label. */
  function SessionXP(name: string): (r: int)
    ensures r > 0
    ensures r == 25 <==> name == "Focus Session"
    ensures r == 5 <==> name != "Focus Session"
  {
    if name == FocusLabel then FocusXP else OtherXP
  }

  /**
   * What one interval callback does to the timer: count down while time
   * remains; at zero, stop and refill, and report that a session completed.
   */
  function TickTimer(t: TimerState): (r: (TimerState, bool))
    ensures t.remainingSeconds > 0 ==> !r.1 && r.0.remainingSeconds == t.remainingSeconds - 1
    ensures t.remainingSeconds > 0 ==> r.0.(remainingSeconds := t.remainingSeconds) == t
    ensures t.remainingSeconds <= 0 ==> r.1 && r.0 == Reset(t)
    ensures Valid(t) ==> Valid(r.0)
  {
    if t.remainingSeconds > 0 then (t.(remainingSeconds := t.remainingSeconds - 1), false)
    else (t.(isRunning := false, remainingSeconds := t.totalSeconds), true)
  }

  /** The timer after `n` callbacks, and how many sessions completed on the way. */
  function RunTimer(t: TimerState, n: nat): (TimerState, nat)
    decreases n
  {
    if n == 0 then (t, 0)
    else
      var (t', done) := TickTimer(t);
      var (t'', count) := RunTimer(t', n - 1);
      (t'', count + if done then 1 else 0)
  }

  /** The first `remainingSeconds` callbacks only count down; none completes a session. */
  lemma {:induction false} CountDown(t: TimerState, n: nat)
    requires n <= t.remainingSeconds
    ensures RunTimer(t, n) == (t.(remainingSeconds := t.remainingSeconds - n), 0)
    decreases n
  {
    if n > 0 {
      CountDown(TickTimer(t).0, n - 1);
    }
  }

  /**
   * A session with N seconds left completes on callback N + 1, exactly once,
   * leaving the timer as a reset would.
   */
  lemma {:induction false} CompletesOnTickAfterZero(t: TimerState)
    requires Valid(t)
    ensures RunTimer(t, t.remainingSeconds + 1) == (Reset(t), 1)
    decreases t.remainingSeconds
  {
    if t.remainingSeconds > 0 {
      var next := TickTimer(t).0;
      CompletesOnTickAfterZero(next);
      assert Reset(next) == Reset(t);
    }
  }

  /** What a completed session does to the stats and the unlocked list (the timer part is `TickTimer`). */
  function Award(p: Progress, sessionLabel: string, now: Now): (r: Progress)
    ensures r.stats.totalSessions == p.stats.totalSessions + 1
    ensures r.stats.totalMinutes == p.stats.totalMinutes + MinutesPerSession
    ensures StreakOf(r.stats) == RecordStreak(StreakOf(p.stats), now.today)
    ensures r.stats.dailySessions == RecordDay(p.stats.dailySessions, now.today)
    ensures p.unlocked <= r.unlocked
  {
    var earned := AddXP(p.stats, SessionXP(sessionLabel));
    var recorded := IncrementSessions(earned, now.today, now.weekday);
    CheckAchievements(Progress(recorded, p.unlocked), now.hour)
  }

  /** One interval callback on the whole page state, at the clock reading `now`. */
  function Tick(app: App, now: Now): (r: App)
    ensures app.timer.remainingSeconds > 0 ==>
      r.progress == app.progress && r.timer == app.timer.(remainingSeconds := app.timer.remainingSeconds - 1)
    ensures app.timer.remainingSeconds <= 0 ==>
      r.timer == Reset(app.timer) && r.progress == Award(app.progress, app.timer.sessionLabel, now)
  {
    var (t, done) := TickTimer(app.timer);
    App(t, if done then Award(app.progress, app.timer.sessionLabel, now) else app.progress)
  }

  /** What `App` values reachable from `InitialApp` satisfy. */
  predicate AppInvariant(app: App) {
    && Valid(app.timer)
    && Consistent(app.progress.stats)
    && NoDuplicates(app.progress.unlocked)
  }

  lemma InitialAppInvariant()
    ensures AppInvariant(InitialApp)
  {
  }

  /** Completing a session awards the session XP plus the XP of every achievement it unlocks, and keeps the invariants. */
  lemma AwardEffect(p: Progress, sessionLabel: string, now: Now)
    requires Consistent(p.stats) && NoDuplicates(p.unlocked)
    ensures var r := Award(p, sessionLabel, now);
      && Consistent(r.stats) && NoDuplicates(r.unlocked)
      && r.stats.totalXP == p.stats.totalXP + (if sessionLabel == "Focus Session" then 25 else 5)
           + XpOfAll(Catalogue, r.unlocked[|p.unlocked|..])
  {
    var earned := AddXP(p.stats, SessionXP(sessionLabel));
    var recorded := IncrementSessions(earned, now.today, now.weekday);
    AddXPConsistent(p.stats, SessionXP(sessionLabel));
    IncrementSessionsConsistent(earned, now.today, now.weekday);
    var q := Progress(recorded, p.unlocked);
    CheckAchievementsAccounting(q, now.hour);
    CatalogueWellFormed();
    CheckFromConsistent(Catalogue, 0, q, now.hour);
  }

  /**
   * After a completed session, a catalogue entry is unlocked exactly when it
   * was already unlocked or its condition holds on the stats the session left.
   */
  lemma AwardUnlocks(p: Progress, sessionLabel: string, now: Now)
    ensures var r := Award(p, sessionLabel, now);
      forall j :: 0 <= j < |Catalogue| ==>
        (Catalogue[j].id in r.unlocked <==>
           Catalogue[j].id in p.unlocked || Holds(Catalogue[j].condition, r.stats, now.hour))
  {
    var earned := AddXP(p.stats, SessionXP(sessionLabel));
    var recorded := IncrementSessions(earned, now.today, now.weekday);
    CheckAchievementsExact(Progress(recorded, p.unlocked), now.hour);
  }

  /** Any completed session leaves "first-session" unlocked. */
  lemma AwardUnlocksFirstSession(p: Progress, sessionLabel: string, now: Now)
    requires p.stats.totalSessions >= 0
    ensures FirstSession in Award(p, sessionLabel, now).unlocked
  {
    AwardUnlocks(p, sessionLabel, now);
    assert Catalogue[0].id == FirstSession;
  }

  /** Every tick keeps the countdown in range, the stats consistent and the unlocked list duplicate-free. */
  lemma TickPreservesInvariant(app: App, now: Now)
    requires AppInvariant(app)
    ensures AppInvariant(Tick(app, now))
  {
    if app.timer.remainingSeconds <= 0 {
      AwardEffect(app.progress, app.timer.sessionLabel, now);
    }
  }

  /** The user actions and timer callbacks the core responds to. */
  datatype Event =
    | StartPressed
    | PausePressed
    | ResetPressed
    | ModePressed(minutes: nat, modeLabel: string)
    | CustomSet(minutesField: Option<int>, secondsField: Option<int>)
    | Interval(now: Now)

  /** Buttons and the form act on the timer alone; only a callback can touch the stats and achievements. */
  function Handle(app: App, e: Event): (r: App)
    ensures !e.Interval? ==> r.progress == app.progress
    ensures e.StartPressed? ==> r.timer.isRunning
    ensures e.PausePressed? || e.ResetPressed? || e.ModePressed? ==> !r.timer.isRunning
    ensures Valid(app.timer) ==> Valid(r.timer)
  {
    match e
    case StartPressed => app.(timer := Start(app.timer))
    case PausePressed => app.(timer := Pause(app.timer))
    case ResetPressed => app.(timer := Reset(app.timer))
    case ModePressed(m, l) => app.(timer := SelectMode(app.timer, m, l))
    case CustomSet(m, sec) => app.(timer := ApplyCustom(app.timer, m, sec))
    case Interval(now) => Tick(app, now)
  }

  function HandleAll(app: App, events: seq<Event>): App
    decreases |events|
  {
    if |events| == 0 then app else HandleAll(Handle(app, events[0]), events[1..])
  }

  /** One event keeps the invariant; the unlocked list and the XP total never shrink. */
  lemma HandlePreservesInvariant(app: App, e: Event)
    requires AppInvariant(app)
    ensures AppInvariant(Handle(app, e))
    ensures app.progress.unlocked <= Handle(app, e).progress.unlocked
    ensures app.progress.stats.totalXP <= Handle(app, e).progress.stats.totalXP
  {
    if e.Interval? {
      var next := Handle(app, e);
      TickPreservesInvariant(app, e.now);
      if app.timer.remainingSeconds <= 0 {
        AwardEffect(app.progress, app.timer.sessionLabel, e.now);
        XpOfAllNonNegative(next.progress.unlocked[|app.progress.unlocked|..]);
      }
    }
  }

  /**
   * Along any sequence of events the countdown stays within the configured
   * length, the stored level equals the earned level, `bestStreak` is at
   * least `currentStreak`, minutes are 25 per session, no achievement id is
   * listed twice, and neither the unlocked list nor the XP total shrinks.
   */
  lemma {:induction false} EventsPreserveInvariant(app: App, events: seq<Event>)
    requires AppInvariant(app)
    ensures AppInvariant(HandleAll(app, events))
    ensures app.progress.unlocked <= HandleAll(app, events).progress.unlocked
    ensures app.progress.stats.totalXP <= HandleAll(app, events).progress.stats.totalXP
    decreases |events|
  {
    if |events| > 0 {
      HandlePreservesInvariant(app, events[0]);
      EventsPreserveInvariant(Handle(app, events[0]), events[1..]);
    }
  }
}
