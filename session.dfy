/** The countdown/session state machine of the Pomodoro timer, as values:
    the fields the timer object keeps (`timeLeft`, `isRunning`, and the mode
    whose button is highlighted), the four button operations, and one firing
    of the one-second interval. `Run` strings firings together the way the
    browser calls the interval callback, and `Execute` runs any sequence of
    button presses and firings. */
module Session {

  /** The three buttons that choose a session length. */
  datatype Mode = Pomodoro | ShortBreak | LongBreak

  /** The `durations` table, in minutes. */
  function Minutes(m: Mode): nat {
    match m
    case Pomodoro => 25
    case ShortBreak => 5
    case LongBreak => 15
  }

  /** A mode's full length in seconds, `durations[mode] * 60`. */
  function Seconds(m: Mode): int {
    Minutes(m) * 60
  }

  /** What one firing of the interval signals besides redrawing: nothing,
      the once-a-minute sound, or the end-of-session alarm. */
  datatype Event = Silent | Cue | Alarm

  /** The timer's state. `active` is the mode whose button is highlighted. */
  datatype Snapshot = Snapshot(timeLeft: int, isRunning: bool, active: Mode)

  /** The state right after construction: 25 minutes, stopped. */
  function Initial(): Snapshot {
    Snapshot(25 * 60, false, Pomodoro)
  }

  /** `start`: only a stopped timer starts; the count is left alone. */
  function Start(s: Snapshot): Snapshot {
    if s.isRunning then s else s.(isRunning := true)
  }

  /** `pause`: clears the running flag, whatever it was. */
  function Pause(s: Snapshot): Snapshot {
    s.(isRunning := false)
  }

  /** `reset`: pauses and restores the pomodoro length. The highlighted mode
      is not consulted and not changed. */
  function Reset(s: Snapshot): Snapshot {
    Pause(s).(timeLeft := Seconds(Pomodoro))
  }

  /** `setTimer(mode)`: pauses, loads that mode's length and highlights it. */
  function SetTimer(s: Snapshot, m: Mode): Snapshot {
    Pause(s).(timeLeft := Seconds(m), active := m)
  }

  /** A positive whole number of minutes, in seconds: the counts at which
      the cue sounds. */
  predicate WholeMinute(t: int) {
    t > 0 && t % 60 == 0
  }

  /** One firing of the interval callback: count down by one, then sound the
      cue on a positive whole minute, or pause and sound the alarm at zero. */
  function Tick(s: Snapshot): (Snapshot, Event)
    requires s.isRunning
  {
    var counted := s.(timeLeft := s.timeLeft - 1);
    if WholeMinute(counted.timeLeft) then (counted, Cue)
    else if counted.timeLeft == 0 then (Pause(counted), Alarm)
    else (counted, Silent)
  }

  /** n seconds of wall-clock time: the interval fires while it is active,
      and a paused timer has no interval left to fire. */
  function Run(s: Snapshot, n: nat): (r: (Snapshot, seq<Event>))
    ensures |r.1| <= n
    ensures r.0.active == s.active
    decreases n
  {
    if n == 0 || !s.isRunning then (s, [])
    else
      var fired := Tick(s);
      var after := Run(fired.0, n - 1);
      (after.0, [fired.1] + after.1)
  }

  /* ---------------------------------------------------------------------
     One operation at a time
     --------------------------------------------------------------------- */

  /** Every duration is a positive whole number of minutes, and the
      pomodoro is the longest. */
  lemma DurationsTable()
    ensures Seconds(Pomodoro) == 1500 && Seconds(ShortBreak) == 300 && Seconds(LongBreak) == 900
    ensures forall m: Mode :: 0 < Seconds(m) <= Seconds(Pomodoro) && Seconds(m) % 60 == 0
  {
  }

  /** A firing counts down by exactly one; it cues exactly on a positive
      whole minute, alarms exactly at zero, and stops the timer exactly
      when it alarms. */
  lemma TickRules(s: Snapshot)
    requires s.isRunning
    ensures Tick(s).0.timeLeft == s.timeLeft - 1 && Tick(s).0.active == s.active
    ensures Tick(s).1 == Cue <==> WholeMinute(Tick(s).0.timeLeft)
    ensures Tick(s).1 == Alarm <==> Tick(s).0.timeLeft == 0
    ensures Tick(s).0.isRunning <==> Tick(s).1 != Alarm
  {
  }

  /** Starting twice is starting once, starting keeps the count, and
      starting a running timer changes nothing. */
  lemma StartIdempotent(s: Snapshot)
    ensures Start(Start(s)) == Start(s)
    ensures Start(s).isRunning && Start(s).timeLeft == s.timeLeft && Start(s).active == s.active
    ensures s.isRunning ==> Start(s) == s
  {
  }

  /** Pausing twice is pausing once; pausing keeps the count, so a pause and
      a start resume from the same second. */
  lemma PauseIdempotent(s: Snapshot)
    ensures Pause(Pause(s)) == Pause(s)
    ensures !Pause(s).isRunning && Pause(s).timeLeft == s.timeLeft
    ensures Start(Pause(s)) == s.(isRunning := true)
  {
  }

  /** While paused, time passing fires nothing and changes nothing. */
  lemma PausedRunIsIdle(s: Snapshot, n: nat)
    ensures Run(Pause(s), n) == (Pause(s), [])
  {
  }

  /** Reset always loads 25 minutes, even when a break is highlighted; so the
      count can exceed the highlighted mode's own length. */
  lemma ResetIgnoresMode(s: Snapshot, m: Mode)
    ensures Reset(SetTimer(s, m)) == Snapshot(Seconds(Pomodoro), false, m)
    ensures m != Pomodoro ==> Reset(SetTimer(s, m)).timeLeft > Seconds(m)
  {
  }

  /* ---------------------------------------------------------------------
     A whole countdown
     --------------------------------------------------------------------- */

  /** The signal of a firing that brings the count to v. */
  function SignalAt(v: int): Event {
    if WholeMinute(v) then Cue else if v == 0 then Alarm else Silent
  }

  /** The signals of k firings counting down from t: to t - 1, t - 2, ... */
  function Signals(t: int, k: nat): (es: seq<Event>)
    ensures |es| == k
    decreases k
  {
    if k == 0 then [] else [SignalAt(t - 1)] + Signals(t - 1, k - 1)
  }

  /** a firings down from t followed by b firings down from t - a are
      a + b firings down from t. */
  lemma {:induction false} SplitSignals(t: int, a: nat, b: nat)
    ensures Signals(t, a) + Signals(t - a, b) == Signals(t, a + b)
    decreases a
  {
    if a > 0 {
      var head, front, back := [SignalAt(t - 1)], Signals(t - 1, a - 1), Signals(t - a, b);
      assert Signals(t, a) == head + front;
      assert Signals(t, a + b) == head + Signals(t - 1, a - 1 + b);
      SplitSignals(t - 1, a - 1, b);
      assert front + back == Signals(t - 1, a - 1 + b);
      assert (head + front) + back == head + (front + back);
    }
  }

  /** Started with t > 0 seconds left, n firings happen min(n, t) times:
      the count goes down one per firing and never below 0, the timer is
      still running exactly when n < t, and the signals are those of the
      counts passed through, so the alarm comes at the firing that reaches 0
      and a cue at each firing that reaches a positive whole minute. */
  lemma {:induction false} CountdownRun(s: Snapshot, n: nat)
    requires s.isRunning && s.timeLeft > 0
    ensures var k := if n < s.timeLeft then n else s.timeLeft;
            Run(s, n).1 == Signals(s.timeLeft, k)
            && Run(s, n).0 == s.(timeLeft := s.timeLeft - k, isRunning := n < s.timeLeft)
    decreases n
  {
    if n > 0 {
      var t := s.timeLeft;
      var k := if n < t then n else t;
      var next, e := Tick(s).0, Tick(s).1;
      var rest := Run(next, n - 1).1;
      assert Run(s, n).1 == [e] + rest;
      assert e == SignalAt(t - 1);
      if t > 1 {
        CountdownRun(next, n - 1);
      } else {
        assert rest == [];
      }
    }
  }

  /** Along a countdown started with time left, the count never goes below
      zero, whatever the number of seconds that pass. */
  lemma NeverNegative(s: Snapshot, n: nat)
    requires s.isRunning && s.timeLeft > 0
    ensures Run(s, n).0.timeLeft >= 0
  {
    CountdownRun(s, n);
  }

  /** Each firing of a countdown from t alarms exactly when it reaches 0,
      and cues exactly when it reaches a positive whole minute. */
  lemma {:induction false} SignalsMeaning(t: int, k: nat, i: nat)
    requires i < k
    ensures Signals(t, k)[i] == SignalAt(t - 1 - i)
    ensures Signals(t, k)[i] == Alarm <==> i == t - 1
    ensures Signals(t, k)[i] == Cue <==> WholeMinute(t - 1 - i)
    decreases k
  {
    if i > 0 {
      SignalsMeaning(t - 1, k - 1, i - 1);
    }
  }

  /** One more second adds a whole minute exactly when it lands on one. */
  lemma MinuteStep(v: int)
    requires v >= 1
    ensures v / 60 == (v - 1) / 60 + (if WholeMinute(v) then 1 else 0)
  {
  }

  /** How often an event occurs in a sequence with one more event in front. */
  lemma CountInFront(e: Event, rest: seq<Event>, x: Event)
    ensures multiset([e] + rest)[x] == multiset(rest)[x] + (if e == x then 1 else 0)
  {
    assert multiset([e] + rest) == multiset([e]) + multiset(rest);
  }

  /** A countdown from t all the way to 0 cues once per positive whole
      minute below t, that is (t - 1) / 60 times, and alarms once. */
  lemma {:induction false} FullCountdownSignals(t: int)
    requires t > 0
    ensures multiset(Signals(t, t))[Cue] == (t - 1) / 60
    ensures multiset(Signals(t, t))[Alarm] == 1
    decreases t
  {
    var rest := Signals(t - 1, t - 1);
    assert Signals(t, t) == [SignalAt(t - 1)] + rest;
    CountInFront(SignalAt(t - 1), rest, Cue);
    CountInFront(SignalAt(t - 1), rest, Alarm);
    if t > 1 {
      FullCountdownSignals(t - 1);
      MinuteStep(t - 1);
    } else {
      assert rest == [];
    }
  }

  /** How many of the counts t - 1, ..., t - k are positive whole minutes. */
  function WholeMinutesPassed(t: int, k: nat): nat
    decreases k
  {
    if k == 0 then 0 else (if WholeMinute(t - 1) then 1 else 0) + WholeMinutesPassed(t - 1, k - 1)
  }

  /** The cues among k firings down from t are the whole minutes passed. */
  lemma {:induction false} CuesAreWholeMinutes(t: int, k: nat)
    ensures multiset(Signals(t, k))[Cue] == WholeMinutesPassed(t, k)
    decreases k
  {
    if k > 0 {
      var rest := Signals(t - 1, k - 1);
      assert Signals(t, k) == [SignalAt(t - 1)] + rest;
      CountInFront(SignalAt(t - 1), rest, Cue);
      CuesAreWholeMinutes(t - 1, k - 1);
    }
  }

  /** The whole minutes among t - 1, ..., t - k, for k < t, are those up to
      t - 1 less those up to t - k - 1. */
  lemma {:induction false} WholeMinutesBetween(t: int, k: nat)
    requires k < t
    ensures WholeMinutesPassed(t, k) == (t - 1) / 60 - (t - k - 1) / 60
    decreases k
  {
    if k > 0 {
      WholeMinutesBetween(t - 1, k - 1);
      MinuteStep(t - 1);
    }
  }

  /** k < t firings down from t cue once per positive whole minute in
      [t - k, t - 1]. */
  lemma PartialCountdownCues(t: int, k: nat)
    requires k < t
    ensures multiset(Signals(t, k))[Cue] == (t - 1) / 60 - (t - k - 1) / 60
  {
    CuesAreWholeMinutes(t, k);
    WholeMinutesBetween(t, k);
  }

  /** k < t firings down from t never alarm. */
  lemma {:induction false} PartialCountdownSilent(t: int, k: nat)
    requires k < t
    ensures multiset(Signals(t, k))[Alarm] == 0
    decreases k
  {
    if k > 0 {
      var rest := Signals(t - 1, k - 1);
      assert Signals(t, k) == [SignalAt(t - 1)] + rest;
      CountInFront(SignalAt(t - 1), rest, Alarm);
      PartialCountdownSilent(t - 1, k - 1);
    }
  }

  /** Started with t > 0 seconds left, n firings sound one cue per positive
      whole minute the count passes through, and the alarm once when n
      reaches t and never before. A full countdown therefore cues
      (t - 1) / 60 times and alarms once. */
  lemma CountdownSignals(s: Snapshot, n: nat)
    requires s.isRunning && s.timeLeft > 0
    ensures n < s.timeLeft ==> multiset(Run(s, n).1)[Cue] == (s.timeLeft - 1) / 60 - (s.timeLeft - n - 1) / 60
    ensures n >= s.timeLeft ==> multiset(Run(s, n).1)[Cue] == (s.timeLeft - 1) / 60
    ensures multiset(Run(s, n).1)[Alarm] == if n < s.timeLeft then 0 else 1
  {
    CountdownRun(s, n);
    if n < s.timeLeft {
      PartialCountdownCues(s.timeLeft, n);
      PartialCountdownSilent(s.timeLeft, n);
    } else {
      FullCountdownSignals(s.timeLeft);
    }
  }

  /** Started with nothing left (the unguarded restart after an expiry),
      the count runs on below zero: n firings bring it to t - n, the timer
      keeps running, and no cue and no alarm ever sounds. */
  lemma {:induction false} ExpiredRunNeverAlarms(s: Snapshot, n: nat)
    requires s.isRunning && s.timeLeft <= 0
    ensures var (last, es) := Run(s, n);
            last.timeLeft == s.timeLeft - n && last.isRunning && |es| == n
            && Alarm !in es && Cue !in es
    decreases n
  {
    if n > 0 {
      var (next, e) := Tick(s);
      var (last, rest) := Run(next, n - 1);
      assert Run(s, n) == (last, [e] + rest);
      ExpiredRunNeverAlarms(next, n - 1);
    }
  }

  /* ---------------------------------------------------------------------
     Any sequence of presses and firings
     --------------------------------------------------------------------- */

  /** What can happen to the timer: a button press or an interval firing. */
  datatype Command = PressStart | PressPause | PressReset | Select(mode: Mode) | IntervalFires

  /** One command; a firing only happens while an interval is active. */
  function Step(s: Snapshot, c: Command): Snapshot {
    match c
    case PressStart => Start(s)
    case PressPause => Pause(s)
    case PressReset => Reset(s)
    case Select(m) => SetTimer(s, m)
    case IntervalFires => if s.isRunning then Tick(s).0 else s
  }

  function Execute(s: Snapshot, cmds: seq<Command>): Snapshot
    decreases |cmds|
  {
    if cmds == [] then s else Execute(Step(s, cmds[0]), cmds[1..])
  }

  /** Every Start in the sequence is pressed while running or with time left. */
  predicate StartsGuarded(s: Snapshot, cmds: seq<Command>)
    decreases |cmds|
  {
    cmds == []
    || ((cmds[0] == PressStart ==> s.isRunning || s.timeLeft > 0)
        && StartsGuarded(Step(s, cmds[0]), cmds[1..]))
  }

  /** The state a countdown is expected to stay in: the count between zero
      and the longest session, and a running timer always has time left. */
  predicate Healthy(s: Snapshot) {
    0 <= s.timeLeft <= Seconds(Pomodoro) && (s.isRunning ==> s.timeLeft > 0)
  }

  /** The count never exceeds 25 minutes, whatever is pressed. */
  lemma {:induction false} NeverAboveWorkLength(s: Snapshot, cmds: seq<Command>)
    requires s.timeLeft <= Seconds(Pomodoro)
    ensures Execute(s, cmds).timeLeft <= Seconds(Pomodoro)
    decreases |cmds|
  {
    if cmds != [] {
      NeverAboveWorkLength(Step(s, cmds[0]), cmds[1..]);
    }
  }

  /** As long as Start is never pressed on a stopped timer showing zero,
      every state reached is healthy: the count never goes negative. */
  lemma {:induction false} HealthyThroughout(s: Snapshot, cmds: seq<Command>)
    requires Healthy(s) && StartsGuarded(s, cmds)
    ensures Healthy(Execute(s, cmds))
    decreases |cmds|
  {
    if cmds != [] {
      HealthyThroughout(Step(s, cmds[0]), cmds[1..]);
    }
  }

  /** The guard matters: Start on an expired timer, then one firing, shows -1
      and sounds nothing. */
  lemma UnguardedRestart(s: Snapshot)
    requires s.timeLeft == 0 && !s.isRunning
    ensures Execute(s, [PressStart, IntervalFires]) == Snapshot(-1, true, s.active)
    ensures Tick(Start(s)).1 == Silent
    ensures !StartsGuarded(s, [PressStart])
  {
    assert Execute(s, [PressStart, IntervalFires])
        == Execute(Start(s), [IntervalFires])
        == Execute(Tick(Start(s)).0, []);
  }
}
