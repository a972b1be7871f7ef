/** The `PomodoroTimer` object: its fields change in place through the
    button handlers and the interval callback. Each method is proved to move
    the object's state exactly as the matching function of `Session` moves a
    `Session.Snapshot`, so every lemma proved there holds of the object.

    The browser's interval is kept as ghost bookkeeping: `timerId` is the
    handle `setInterval` last returned, `liveIntervals` the handles whose
    callback is still scheduled, and `handlesIssued` the number of handles
    handed out so far (the browser never reuses one). */
module Timer {
  import opened Display
  import Session

  class PomodoroTimer {
    var timeLeft: int
    var isRunning: bool
    /** The text last written into the timer element, or None while the
        page still shows its initial markup. */
    var display: Option<string>
    /** The mode whose button carries the `active` class. */
    ghost var activeMode: Session.Mode
    ghost var timerId: Option<nat>
    ghost var liveIntervals: set<nat>
    ghost var handlesIssued: nat

    /** A running timer has exactly one scheduled callback, the one its
        `timerId` names; a stopped timer has none. */
    ghost predicate Valid()
      reads this
    {
      (isRunning ==> timerId.Some? && liveIntervals == {timerId.value})
      && (!isRunning ==> liveIntervals == {})
      && forall h :: h in liveIntervals ==> h < handlesIssued
    }

    /** The object's state as a value of the session state machine. */
    ghost function State(): Session.Snapshot
      reads this
    {
      Session.Snapshot(timeLeft, isRunning, activeMode)
    }

    /** 25 minutes, stopped, no interval. The constructor does not redraw,
        and the highlighted button is the pomodoro one. */
    constructor ()
      ensures Valid() && State() == Session.Initial()
      ensures display == None && timerId == None && liveIntervals == {} && handlesIssued == 0
    {
      timeLeft := 25 * 60;
      timerId := None;
      isRunning := false;
      display := None;
      activeMode := Session.Pomodoro;
      liveIntervals := {};
      handlesIssued := 0;
    }

    /** `updateDisplay`: writes the `MM:SS` text of the current count. */
    method UpdateDisplay()
      modifies this`display
      ensures display == Some(Format(timeLeft))
    {
      display := Some(Format(timeLeft));
    }

    /** `start`: a running timer is left exactly as it is, with no second
        interval; a stopped one starts a fresh interval and keeps its count. */
    method Start()
      requires Valid()
      modifies this`isRunning, this`timerId, this`liveIntervals, this`handlesIssued
      ensures Valid() && State() == Session.Start(old(State()))
      ensures isRunning && timeLeft == old(timeLeft)
      ensures old(isRunning) ==> timerId == old(timerId) && liveIntervals == old(liveIntervals)
                                 && handlesIssued == old(handlesIssued)
      ensures !old(isRunning) ==> timerId == Some(old(handlesIssued)) && liveIntervals == {old(handlesIssued)}
                                  && handlesIssued == old(handlesIssued) + 1
    {
      if !isRunning {
        isRunning := true;
        timerId := Some(handlesIssued);
        liveIntervals := liveIntervals + {handlesIssued};
        handlesIssued := handlesIssued + 1;
      }
    }

    /** `pause`: clears the running flag and cancels the interval; the count
        is kept. Pausing a stopped timer changes nothing. */
    method Pause()
      requires Valid()
      modifies this`isRunning, this`liveIntervals
      ensures Valid() && State() == Session.Pause(old(State()))
      ensures !isRunning && timeLeft == old(timeLeft) && liveIntervals == {}
      ensures !old(isRunning) ==> State() == old(State())
    {
      isRunning := false;
      if timerId.Some? {
        liveIntervals := liveIntervals - {timerId.value};
      }
    }

    /** `reset`: pauses, loads the pomodoro length whatever mode is
        highlighted, and redraws. */
    method Reset()
      requires Valid()
      modifies this`isRunning, this`liveIntervals, this`timeLeft, this`display
      ensures Valid() && State() == Session.Reset(old(State()))
      ensures !isRunning && timeLeft == 1500 && activeMode == old(activeMode) && liveIntervals == {}
      ensures display == Some(Format(timeLeft))
    {
      Pause();
      timeLeft := Session.Seconds(Session.Pomodoro);
      UpdateDisplay();
    }

    /** `setTimer(mode)`: pauses, loads the mode's length, redraws and
        highlights that mode's button alone. */
    method SetTimer(mode: Session.Mode)
      requires Valid()
      modifies this`isRunning, this`liveIntervals, this`timeLeft, this`display, this`activeMode
      ensures Valid() && State() == Session.SetTimer(old(State()), mode)
      ensures !isRunning && timeLeft == Session.Seconds(mode) && activeMode == mode && liveIntervals == {}
      ensures display == Some(Format(timeLeft))
    {
      Pause();
      timeLeft := Session.Seconds(mode);
      UpdateDisplay();
      activeMode := mode;
    }

    /** The interval callback: counts down by one and redraws; plays the cue
        on a positive whole minute; at zero pauses (cancelling the interval)
        and raises the alarm. The returned event stands for the sound,
        vibration and notice. */
    method Tick() returns (e: Session.Event)
      requires Valid() && isRunning
      modifies this`timeLeft, this`display, this`isRunning, this`liveIntervals
      ensures Valid() && (State(), e) == Session.Tick(old(State()))
      ensures timeLeft == old(timeLeft) - 1 && display == Some(Format(timeLeft))
      ensures e == Session.Cue <==> timeLeft > 0 && timeLeft % 60 == 0
      ensures e == Session.Alarm <==> timeLeft == 0
      ensures isRunning <==> e != Session.Alarm
      ensures liveIntervals == if e == Session.Alarm then {} else old(liveIntervals)
    {
      timeLeft := timeLeft - 1;
      UpdateDisplay();
      e := Session.Silent;
      if timeLeft > 0 && timeLeft % 60 == 0 {
        e := Session.Cue;
      }
      if timeLeft == 0 {
        Pause();
        e := Session.Alarm;
      }
    }
  }
}
