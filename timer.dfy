/** The page's timer as the script keeps it: the fields of the global State
    object and the timerInterval handle, updated in place by the event
    handlers. The browser's side is ghost: which intervals it will still fire
    and how many alarms it has played. Every method is specified by the
    transition function of TimerSpec that it implements. */
module PomodoroTimer {
  import opened Wrappers
  import opened TimerSpec

  class Timer {
    var mode: Mode
    var timeLeft: int
    var isRunning: bool
    var settings: Settings
    var timerInterval: Option<nat>
    ghost var live: set<nat>
    ghost var alarms: nat

    ghost function Snapshot(): TimerState
      reads this
    {
      TimerState(mode, timeLeft, isRunning, settings, timerInterval, live, alarms)
    }

    ghost predicate Valid()
      reads this
    {
      Inv(Snapshot())
    }

    /** The State literal and `timerInterval = null` at load time. */
    constructor ()
      ensures Valid() && Snapshot() == Initial()
    {
      mode := Work;
      timeLeft := 25 * 60;
      isRunning := false;
      settings := Settings(25, 5, 15);
      timerInterval := None;
      live := {};
      alarms := 0;
    }

    /** clearInterval(timerInterval); a stale or missing handle clears nothing. */
    method ClearInterval()
      modifies this`live
      ensures live == old(live) - HandleSet(timerInterval)
    {
      live := live - HandleSet(timerInterval);
    }

    /** toggleTimer; handle is what setInterval returns when the timer starts. */
    method Toggle(handle: nat)
      requires Valid()
      modifies this
      ensures Valid()
      ensures Snapshot() == Toggled(old(Snapshot()), handle)
    {
      if isRunning {
        ClearInterval();
        isRunning := false;
      } else {
        if timeLeft > 0 {
          isRunning := true;
          timerInterval := Some(handle);
          live := live + {handle};
        }
      }
    }

    /** The callback of interval h, fired by the browser while h is live. */
    method Tick(ghost h: nat)
      requires Valid() && h in live
      modifies this
      ensures Valid()
      ensures Snapshot() == Ticked(old(Snapshot()), h)
    {
      if timeLeft > 0 {
        timeLeft := timeLeft - 1;
      } else {
        Complete();
      }
    }

    /** completeTimer; playAlarm is counted, not played. */
    method Complete()
      requires Valid()
      modifies this
      ensures Valid()
      ensures Snapshot() == Completed(old(Snapshot()))
    {
      ClearInterval();
      isRunning := false;
      alarms := alarms + 1;
    }

    /** resetTimer. */
    method Reset()
      requires Valid()
      modifies this
      ensures Valid()
      ensures Snapshot() == AfterReset(old(Snapshot()))
    {
      ClearInterval();
      isRunning := false;
      var mins := 25;
      if mode == Work { mins := settings.work; }
      if mode == ShortBreak { mins := settings.shortBreak; }
      if mode == LongBreak { mins := settings.longBreak; }
      timeLeft := mins * 60;
    }

    /** setMode. */
    method SetMode(m: Mode)
      requires Valid()
      modifies this
      ensures Valid()
      ensures Snapshot() == AfterSetMode(old(Snapshot()), m)
    {
      mode := m;
      Reset();
    }

    /** window.updateCustomTimes, with each input's parseInt already taken
        (None for NaN). */
    method UpdateCustomTimes(work: Option<int>, shortBreak: Option<int>, longBreak: Option<int>)
      requires Valid()
      modifies this
      ensures Valid()
      ensures Snapshot() == AfterUpdateCustomTimes(old(Snapshot()), work, shortBreak, longBreak)
    {
      settings := settings.(work := ParsedOr(work, 25));
      settings := settings.(shortBreak := ParsedOr(shortBreak, 5));
      settings := settings.(longBreak := ParsedOr(longBreak, 15));
      if !isRunning {
        Reset();
      }
    }
  }

  /** A caller's view: a fresh timer switched to a short break and started
      stops after 5 * 60 + 1 ticks of the browser's clock, at 0, having played
      the alarm exactly once. */
  method ShortBreakSession() returns (ticks: nat, shown: int, ghost alarms: nat)
    ensures ticks == 301 && shown == 0 && alarms == 1
  {
    var t := new Timer();
    t.SetMode(ShortBreak);
    t.Toggle(1);
    ticks := 0;
    while t.isRunning
      invariant t.Valid() && ticks <= 301
      invariant t.isRunning ==> t.timeLeft == 300 - ticks && t.alarms == 0
      invariant !t.isRunning ==> ticks == 301 && t.timeLeft == 0 && t.alarms == 1
      decreases 301 - ticks
    {
      t.Tick(t.timerInterval.value);
      ticks := ticks + 1;
    }
    shown, alarms := t.timeLeft, t.alarms;
  }
}
