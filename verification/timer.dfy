/** The kitchen timer of the slide view: a count of seconds that preset
    buttons set, a start/pause button runs, a reset button clears, and a
    once-a-second tick counts down, ringing the alarm when it reaches zero;
    and the "mm:ss" display of that count. The one-second interval itself is
    not modelled: each firing is a `Tick` event. */
module Timer {
  import opened Text

  /** The timer state: seconds left, and whether the interval is running. */
  datatype Timer = Timer(seconds: int, running: bool)

  /** The state the app starts in. */
  const Initial := Timer(0, false)

  /** What can happen to the timer: a preset button with its number of
      seconds, the start/pause button, the reset button, or one firing of
      the running interval. */
  datatype Event = Preset(time: nat) | StartPause | Reset | Tick

  /** The state after an event, and whether the alarm went off. */
  datatype Outcome = Outcome(timer: Timer, alarm: bool)

  /** The states the app can be in: the count is never negative, and a
      running timer always has time left. */
  predicate Valid(t: Timer) {
    t.seconds >= 0 && (t.running ==> t.seconds > 0)
  }

  /** The app starts in such a state. */
  lemma InitialValid()
    ensures Valid(Initial)
  {
  }

  /** One event. A preset stops the timer and sets its count; reset stops it
      and sets zero; start/pause pauses a running timer and starts a stopped
      one unless its count is not positive; a tick, which only a running
      timer receives, takes one second off and, when that leaves no time,
      stops the timer and rings. */
  function Step(t: Timer, e: Event): (o: Outcome)
    ensures o.alarm <==> e == Tick && t.running && t.seconds <= 1
    ensures o.alarm ==> o.timer == Timer(t.seconds - 1, false)
    ensures e != Tick ==> !o.alarm && (o.timer.running ==> o.timer.seconds == t.seconds)
    ensures e == Tick ==> o.timer.seconds == if t.running then t.seconds - 1 else t.seconds
  {
    match e
    case Preset(n) => Outcome(Timer(n, false), false)
    case StartPause =>
      if t.running then Outcome(t.(running := false), false)
      else if t.seconds <= 0 then Outcome(t, false)
      else Outcome(t.(running := true), false)
    case Reset => Outcome(Timer(0, false), false)
    case Tick =>
      if !t.running then Outcome(t, false)
      else if t.seconds - 1 <= 0 then Outcome(Timer(t.seconds - 1, false), true)
      else Outcome(Timer(t.seconds - 1, true), false)
  }

  /** A preset and reset both stop the timer: a preset sets its count and
      reset clears it, whatever state it was in and without ringing. */
  lemma PresetAndResetStop(t: Timer, n: nat)
    ensures Step(t, Preset(n)) == Outcome(Timer(n, false), false)
    ensures Step(t, Reset) == Outcome(Timer(0, false), false)
  {
  }

  /** Every event keeps the timer in a state the app can be in. */
  lemma StepValid(t: Timer, e: Event)
    requires Valid(t)
    ensures Valid(Step(t, e).timer)
  {
  }

  /** A sequence of events, and how many times the alarm rang. */
  datatype History = History(timer: Timer, alarms: nat)

  /** The events in order, from `t`. */
  function Run(t: Timer, events: seq<Event>): (h: History)
    ensures h.alarms <= |events|
    decreases |events|
  {
    if events == [] then History(t, 0)
    else
      var o := Step(t, events[0]);
      var h := Run(o.timer, events[1..]);
      History(h.timer, h.alarms + if o.alarm then 1 else 0)
  }

  /** Any sequence of events from a valid state ends in a valid state: the
      count never goes negative and a running timer always has time left. */
  lemma {:induction false} RunValid(t: Timer, events: seq<Event>)
    requires Valid(t)
    ensures Valid(Run(t, events).timer)
    decreases |events|
  {
    if events != [] {
      StepValid(t, events[0]);
      RunValid(Step(t, events[0]).timer, events[1..]);
    }
  }

  /** `k` firings of the interval. */
  function Ticks(k: nat): (es: seq<Event>)
    ensures |es| == k && forall i :: 0 <= i < k ==> es[i] == Tick
  {
    if k == 0 then [] else [Tick] + Ticks(k - 1)
  }

  /** A running timer counts down one second per tick, silently, and rings
      exactly once, stopped at zero, on the tick that uses up the last
      second. */
  lemma {:induction false} CountDown(t: Timer, k: nat)
    requires Valid(t) && t.running && k <= t.seconds
    ensures Run(t, Ticks(k)).timer == Timer(t.seconds - k, k < t.seconds)
    ensures Run(t, Ticks(k)).alarms == if k == t.seconds then 1 else 0
    decreases k
  {
    if k > 0 {
      var o := Step(t, Tick);
      assert Ticks(k)[1..] == Ticks(k - 1);
      if t.seconds == 1 {
        assert o.timer == Timer(0, false);
        assert Ticks(k - 1) == [];
      } else {
        assert o.timer == Timer(t.seconds - 1, true);
        CountDown(o.timer, k - 1);
      }
    }
  }

  /** Choosing a preset of `n` seconds and starting rings once after `n`
      ticks and leaves the timer stopped at zero. */
  lemma PresetRings(t: Timer, n: nat)
    requires n > 0
    ensures Run(t, [Preset(n), StartPause] + Ticks(n)) == History(Timer(0, false), 1)
  {
    var es := [Preset(n), StartPause] + Ticks(n);
    assert es[1..] == [StartPause] + Ticks(n);
    assert es[1..][1..] == Ticks(n);
    CountDown(Timer(n, true), n);
  }

  /** Pausing and resuming gives back the running timer unchanged. */
  lemma PauseResume(t: Timer)
    requires Valid(t) && t.running
    ensures Step(Step(t, StartPause).timer, StartPause).timer == t
  {
  }

  /** Start does nothing when no time is set. */
  lemma StartWithoutTime(t: Timer)
    requires !t.running && t.seconds <= 0
    ensures Step(t, StartPause) == Outcome(t, false)
  {
  }

  /** The display: minutes and seconds, each in decimal with a leading zero
      up to two digits. */
  datatype Clock = Clock(minutes: string, seconds: string)

  /** The digits shown for a count of seconds. */
  function Display(seconds: nat): (c: Clock)
    ensures AllDigits(c.minutes) && |c.minutes| >= 2
    ensures AllDigits(c.seconds) && |c.seconds| == 2
  {
    var m := NatToString(seconds / 60);
    var s := NatToString(seconds % 60);
    NatToStringBelow100(seconds % 60);
    PadDigits(m, 2);
    PadDigits(s, 2);
    Clock(PadZeros(m, 2), PadZeros(s, 2))
  }

  /** Below 100 a number takes at most two digits. */
  lemma NatToStringBelow100(n: nat)
    requires n < 100
    ensures |NatToString(n)| <= 2
  {
    if n >= 10 {
      assert n / 10 < 10;
    }
  }

  /** Padding a digit string with zeros keeps it a digit string of the same
      value. */
  lemma PadDigits(s: string, width: nat)
    requires AllDigits(s)
    ensures AllDigits(PadZeros(s, width))
    ensures DecimalValue(PadZeros(s, width)) == DecimalValue(s)
  {
    var r := PadZeros(s, width);
    var z := r[..|r| - |s|];
    assert r == z + s;
    LeadingZerosValue(z, s);
  }

  /** The display reads back as the count: sixty times the minutes plus the
      seconds, with the seconds below sixty. */
  lemma DisplayReadsBack(seconds: nat)
    ensures var c := Display(seconds);
            && DecimalValue(c.seconds) < 60
            && 60 * DecimalValue(c.minutes) + DecimalValue(c.seconds) == seconds
  {
    NatToStringValue(seconds / 60);
    NatToStringValue(seconds % 60);
    PadDigits(NatToString(seconds / 60), 2);
    PadDigits(NatToString(seconds % 60), 2);
  }

  /** Different counts show differently. */
  lemma DisplayInjective(a: nat, b: nat)
    requires Display(a) == Display(b)
    ensures a == b
  {
    DisplayReadsBack(a);
    DisplayReadsBack(b);
  }

  /** Under 100 minutes the display is exactly "mm" and "ss". */
  lemma DisplayWidth(seconds: nat)
    requires seconds < 6000
    ensures |Display(seconds).minutes| == 2
  {
    NatToStringBelow100(seconds / 60);
  }
}
