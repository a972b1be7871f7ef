# Pomodoro timer — a verified model of its countdown

The page runs one `PomodoroTimer` object. It keeps the seconds left
(`timeLeft`), whether the countdown runs (`isRunning`) and the handle of
the browser interval that drives it (`timerId`). It has four button
operations: `start`, `pause`, `reset` and `setTimer(mode)`. While it runs,
an interval callback fires once a second. Each firing takes one second off
and redraws the `MM:SS` text. It plays a short cue on every positive whole
minute. At zero it pauses and raises the alarm.

The model has four modules:

- `Display` (`display.dfy`): the text `updateDisplay` writes, for every
  integer count.
  - JavaScript's `Math.floor` and its truncating `%` are written out.
  - So are `Number.prototype.toString` and `padStart(2, '0')`.
  - It has a reading function `Parse` for the round trip.
- `Session` (`session.dfy`): the timer's state as a value (`Snapshot`).
  - Each button operation and one interval firing (`Tick`) is a function
    on `Snapshot`.
  - `Run(s, n)` is n seconds of time passing.
  - `Execute` is any sequence of presses and firings.
  - All whole-countdown properties are proved here.
- `Timer` (`timer.dfy`): the object itself, as a class whose methods update
  its fields in place.
  - Each method is proved to move the object's `State()` exactly as the
    matching `Session` function moves a `Snapshot`. Every `Session` lemma
    therefore holds of the object.
  - The browser interval is ghost bookkeeping (`timerId`, `liveIntervals`,
    `handlesIssued`). With it, `Valid()` states that a running timer has
    exactly one live interval and a stopped one has none.
- `Scenarios` (`scenarios.dfy`): whole sessions as a user sees them,
  derived from the general lemmas.

A countdown is expected never to go below zero and never above the
chosen mode's length. The code guarantees neither, and the model follows
the code:

- **The count can go negative.** `start` (`script.js:133-156`) does not
  check the count.
  - Pressing Start after a session has ended (at `00:00`, without a reset
    or a mode button) starts a new interval.
  - That interval counts on to -1, -2, …, showing `-1:-1`, and never
    alarms or stops again.
  - `Session.UnguardedRestart` and `Session.ExpiredRunNeverAlarms` state
    this.
  - `Session.HealthyThroughout` proves the count stays between zero and
    25 minutes for every sequence that never starts a stopped timer at
    zero.
- **Reset ignores the mode.** `reset` (`script.js:163-167`) always loads
  the 25-minute pomodoro length, even while a break button is highlighted.
  The count therefore is not always at most the highlighted mode's
  length. `Session.ResetIgnoresMode` shows the count exceeding a break's
  length. `Session.NeverAboveWorkLength` proves the bound that does hold:
  at most 25 minutes.

## Model

| member | source | states |
|---|---|---|
| Display.NatToString | script.js:130 | `toString()` of a non-negative number: at least one character, all decimal digits, one character exactly below 10, two exactly for 10..99 |
| Display.PadStart | script.js:130 | `padStart(width, pad)`: an input at least `width` long is returned unchanged; a shorter one is kept as the suffix behind as many pad characters as make it `width` long |
| Display.FloorMinutes | script.js:127 | `Math.floor(t / 60)` is the m with `m*60 <= t < m*60 + 60`, for every integer t |
| Display.JsRemMinute | script.js:128 | JavaScript `t % 60` lies in [0, 60) for t >= 0 and in (-60, 0] for t < 0, and differs from t by a multiple of 60 |
| Display.DecimalOfNatToString | script.js:130 | the decimal digits of n read back as n |
| Display.DecimalOfPadded | script.js:130 | padding digits with '0' keeps them digits and keeps their value |
| Display.TwoDigits | script.js:130 | a number below 100, padded to two, is exactly its tens digit and its units digit |
| Display.FormatShape | script.js:126-131 | for 0 <= t < 6000 the text is exactly five characters: two minute digits, ':', two second digits |
| Display.FormatLength | script.js:126-131 | a non-negative count shows in five characters if and only if it is below 6000 (100 minutes) |
| Display.FormatRoundTrip | script.js:126-131 | the text of every non-negative count reads back as that count |
| Display.FormatNegative | script.js:126-131 | below zero the floor and the truncating remainder disagree: -1 shows "-1:-1" (which reads back as nothing), -60 shows "-1:00" |
| Session.Run | script.js:141-154 | n seconds fire at most n events and never change the highlighted mode |
| Session.DurationsTable | script.js:8-12 | the lengths are 1500, 300 and 900 seconds; each is a positive whole number of minutes, and none exceeds the pomodoro |
| Session.TickRules | script.js:141-154 | a firing takes exactly one second off; it cues exactly on a positive whole minute and alarms exactly at 0; the timer stops exactly when it alarms |
| Session.StartIdempotent | script.js:133-156 | start is idempotent, always leaves the timer running, keeps the count and mode, and changes nothing on a running timer |
| Session.PauseIdempotent | script.js:158-161 | pause is idempotent and keeps the count; pause then start resumes the same count, running |
| Session.PausedRunIsIdle | script.js:158-161 | once paused, any number of seconds fire nothing and change nothing |
| Session.ResetIgnoresMode | script.js:163-167 | reset after choosing mode m gives 1500 s, stopped, with m still highlighted; for a break that count exceeds the break's length |
| Session.CountdownRun | script.js:141-154 | from t > 0, n seconds fire min(n, t) times, leave t - min(n, t), keep running exactly when n < t, and signal at each count passed through |
| Session.NeverNegative | script.js:141-154 | a countdown started with time left never goes below zero, however long it runs |
| Session.SignalsMeaning | script.js:146-153 | the i-th firing from t alarms if and only if it reaches 0, and cues if and only if it reaches a positive whole minute |
| Session.FullCountdownSignals | script.js:146-153 | a countdown from t to 0 cues (t - 1) / 60 times and alarms exactly once |
| Session.CuesAreWholeMinutes | script.js:146-148 | the cues among k firings are the positive whole minutes the count passes through |
| Session.WholeMinutesBetween | script.js:146-148 | the positive whole minutes among t-1 … t-k (k < t) number (t-1)/60 - (t-k-1)/60 |
| Session.PartialCountdownCues | script.js:146-148 | k < t firings from t cue (t-1)/60 - (t-k-1)/60 times |
| Session.PartialCountdownSilent | script.js:150-153 | k < t firings from t never alarm |
| Session.CountdownSignals | script.js:141-154 | from t > 0, n seconds cue once per positive whole minute passed, and alarm once if n >= t and never if n < t |
| Session.ExpiredRunNeverAlarms | script.js:133-154 | a timer started with nothing left runs on below zero (t - n after n seconds), keeps running and never cues or alarms |
| Session.NeverAboveWorkLength | script.js:133-179 | no sequence of presses and firings takes the count above 25 minutes |
| Session.HealthyThroughout | script.js:133-179 | if Start is never pressed on a stopped timer at zero, every state reached has 0 <= count <= 1500 and a running timer has time left |
| Session.UnguardedRestart | script.js:133-154 | Start on an expired timer, then one firing, gives -1, still running, with no signal |
| Timer.PomodoroTimer.constructor | script.js:2-12 | a new timer has 25 minutes, is stopped, has no interval and has not yet drawn |
| Timer.PomodoroTimer.UpdateDisplay | script.js:126-131 | the display holds the text of the current count |
| Timer.PomodoroTimer.Start | script.js:133-156 | the object moves as `Session.Start`; a running timer keeps its one interval; a stopped one gets a single fresh interval; the count is unchanged |
| Timer.PomodoroTimer.Pause | script.js:158-161 | the object moves as `Session.Pause`: stopped, same count, no live interval; a stopped timer is unchanged |
| Timer.PomodoroTimer.Reset | script.js:163-167 | the object moves as `Session.Reset`: stopped, 1500 s, same highlighted mode, no live interval, display redrawn |
| Timer.PomodoroTimer.SetTimer | script.js:169-179 | the object moves as `Session.SetTimer`: stopped, the mode's length, that mode highlighted, no live interval, display redrawn |
| Timer.PomodoroTimer.Tick | script.js:141-154 | one interval firing moves the object as `Session.Tick`: count down by one, redraw, cue exactly on a positive whole minute, and at 0 stop, cancel the interval and alarm |
| Scenarios.FullSession | script.js:133-179 | choosing a mode and starting: after its length in seconds the count is 0, stopped, with (minutes - 1) cues and one alarm; later seconds add nothing |
| Scenarios.FirstMinute | script.js:141-154 | a minute into any mode the count is a minute less, still running, with one cue and no alarm |
| Session.SplitSignals | script.js:141-154 | a firings from t followed by b firings from t - a signal exactly as a + b firings from t |
| Scenarios.PauseAndResume | script.js:133-161 | pausing a running countdown and starting it again continues exactly as if it had never been paused: the same final state, and the signals before the pause followed by those after it are the signals of the unpaused run |
| Scenarios.LengthsShown | script.js:126-131 | the session lengths show as "25:00", "05:00" and "15:00" |
| Scenarios.ProgressShown | script.js:126-131 | a pomodoro shows "24:00" after a minute, "24:29" after 31 s, and any session ends on "00:00" |

## Left out

- Audio is not modelled: `setupAudio`, `unlockAudioForIOS`, `playSound`, the audio-context resume in `start`, and their error logging. Audio failures never reach the timer state. A played cue is the `Cue` event, and `playAlarm` is the `Alarm` event.
- `playAlarm`'s vibration and its delayed `alert` are not modelled separately; both are part of the `Alarm` event.
- The DOM is not modelled.
  - `initializeElements` and `initializeEventListeners` are left out, including the iOS `touchend`-to-click forwarding. A button press is a call of the matching method, or a `Session.Command`.
  - The `classList` updates in `setTimer` are modelled only as the ghost field `activeMode`.
- The page's markup is not part of this model.
  - Which button is highlighted when the page loads is taken to be the pomodoro one.
  - The timer text before the first redraw is `None`.
- Browser scheduling is not modelled.
  - `setInterval`, `clearInterval` and the one-second period are ghost interval handles.
  - One firing is one step of `Run`, and clock drift is ignored.
- `durations` is keyed by strings in the source. Modes are a datatype here, so a `setTimer` call with an unknown key (unreachable from the buttons) is not modelled.
- JavaScript numbers are doubles: `Math.floor(this.timeLeft / 60)` (`script.js:127`) divides in floating point, and `toString` switches to exponent notation from 1e21. The model uses unbounded integers, which agree with them for every count a timer can reach in practice.
- The `DOMContentLoaded` start-up is not modelled; it only constructs the object.
- Timer.PomodoroTimer.Start: the interval handle is drawn from a ghost counter rather than a browser value. The model states that a fresh handle is live, not which number the browser returns.
