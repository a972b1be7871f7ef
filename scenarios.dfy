/** Whole sessions as a user sees them: a session chosen by its button and
    left to run out, its first minute, a pause in the middle, and the texts
    shown along the way. Each is derived from the general countdown lemmas
    of `Session` and the display lemmas of `Display`. */
module Scenarios {
  import opened Display
  import opened Session

  /** Every session is a positive whole number of minutes, so a full one
      passes Minutes(m) - 1 positive whole minutes below its length. */
  lemma WholeLength(m: Mode)
    ensures Seconds(m) > 0
    ensures (Seconds(m) - 1) / 60 == Minutes(m) - 1
  {
    assert Seconds(m) == Minutes(m) * 60;
  }

  /** Choosing mode m and pressing start, then leaving the page open:
      after Seconds(m) firings the count is 0, the timer has stopped, the
      cue has sounded once per whole minute from Minutes(m) - 1 down to 1
      and the alarm once; later seconds fire nothing more. */
  lemma FullSession(s: Snapshot, m: Mode, extra: nat)
    ensures var (last, es) := Run(Start(SetTimer(s, m)), Seconds(m) + extra);
            last == Snapshot(0, false, m)
            && |es| == Seconds(m)
            && multiset(es)[Cue] == Minutes(m) - 1 && multiset(es)[Alarm] == 1
  {
    var started := Start(SetTimer(s, m));
    WholeLength(m);
    CountdownRun(started, Seconds(m) + extra);
    CountdownSignals(started, Seconds(m) + extra);
  }

  /** Every session is longer than a minute, and its first sixty firings
      pass exactly one positive whole minute: the one a minute below its
      length. */
  lemma OneMinuteIn(m: Mode)
    ensures Seconds(m) > 60
    ensures (Seconds(m) - 1) / 60 - (Seconds(m) - 60 - 1) / 60 == 1
  {
    assert Seconds(m) == Minutes(m) * 60;
    assert (Seconds(m) - 1) / 60 == Minutes(m) - 1;
    assert (Seconds(m) - 60 - 1) / 60 == Minutes(m) - 2;
  }

  /** One minute after starting mode m, the count shows one minute less,
      the timer still runs, and the cue has sounded once. */
  lemma FirstMinute(s: Snapshot, m: Mode)
    ensures var (last, es) := Run(Start(SetTimer(s, m)), 60);
            last == Snapshot(Seconds(m) - 60, true, m)
            && multiset(es)[Cue] == 1 && multiset(es)[Alarm] == 0
  {
    var started := Start(SetTimer(s, m));
    OneMinuteIn(m);
    CountdownRun(started, 60);
    CountdownSignals(started, 60);
  }

  /** A pause after n seconds of a countdown with time left, then a start,
      goes on exactly as if the timer had never been paused: the same
      state, and the same cues and alarm in the same order. */
  lemma PauseAndResume(s: Snapshot, n: nat, k: nat)
    requires s.isRunning && s.timeLeft > n
    ensures Run(Start(Pause(Run(s, n).0)), k).0 == Run(s, n + k).0
    ensures Run(s, n).1 + Run(Start(Pause(Run(s, n).0)), k).1 == Run(s, n + k).1
  {
    CountdownRun(s, n);
    var resumed := Start(Pause(Run(s, n).0));
    assert resumed == s.(timeLeft := s.timeLeft - n);
    CountdownRun(resumed, k);
    CountdownRun(s, n + k);
    var rest := if k < s.timeLeft - n then k else s.timeLeft - n;
    SplitSignals(s.timeLeft, n, rest);
  }

  /** The text of each session length, as its button shows it. */
  lemma LengthsShown()
    ensures Format(Seconds(Pomodoro)) == "25:00"
    ensures Format(Seconds(ShortBreak)) == "05:00"
    ensures Format(Seconds(LongBreak)) == "15:00"
  {
    assert Format(1500) == "25:00" by { FormatShape(1500); }
    assert Format(300) == "05:00" by { FormatShape(300); }
    assert Format(900) == "15:00" by { FormatShape(900); }
  }

  /** The text a minute into a pomodoro, thirty-one seconds into it, and at
      the end of any session. */
  lemma ProgressShown()
    ensures Format(Seconds(Pomodoro) - 60) == "24:00"
    ensures Format(Seconds(Pomodoro) - 31) == "24:29"
    ensures Format(0) == "00:00"
  {
    assert Format(1440) == "24:00" by { FormatShape(1440); }
    assert Format(1469) == "24:29" by { FormatShape(1469); }
    assert Format(0) == "00:00" by { FormatShape(0); }
  }
}
