/**
 * The autoclicker: the button lookup, the jittered and clamped delay, the
 * limit and failsafe checks, one cycle of the clicking worker and the
 * worker's loop, with the clock, the random draw and the pointer position
 * handed in as readings.
 */
module Clicker {
  import opened Wrappers
  import opened Text
  import opened ClickConfig

  datatype Button = Left | Right | Middle

  /** `BUTTON_MAP.get(name.lower())`. */
  function ButtonFor(name: string): (r: Option<Button>)
    ensures r.Some? <==> Lower(name) in {"left", "right", "middle"}
    ensures name in {"left", "right", "middle"} ==> r.Some?
  {
    var key := Lower(name);
    if key == "left" then Some(Left)
    else if key == "right" then Some(Right)
    else if key == "middle" then Some(Middle)
    else None
  }

  /** A word lowers letter by letter. */
  lemma LowerWord(s: string, t: string)
    requires |s| == |t| && forall k :: 0 <= k < |s| ==> LowerChar(s[k]) == t[k]
    ensures Lower(s) == t
  {
  }

  /** A button is found exactly for the three names, in any letter case. */
  lemma ButtonForNames(name: string)
    ensures ButtonFor(name).Some? <==> Lower(name) in {"left", "right", "middle"}
    ensures ButtonFor(name) == Some(Left) <==> Lower(name) == "left"
    ensures ButtonFor("LEFT") == Some(Left) && ButtonFor("Right") == Some(Right) && ButtonFor("mIDDLE") == Some(Middle)
  {
    ButtonForLeft();
    ButtonForRight();
    ButtonForMiddle();
  }

  lemma ButtonForLeft()
    ensures ButtonFor("LEFT") == Some(Left)
  {
    LowerWord("LEFT", "left");
  }

  lemma ButtonForRight()
    ensures ButtonFor("Right") == Some(Right)
  {
    LowerWord("Right", "right");
  }

  lemma ButtonForMiddle()
    ensures ButtonFor("mIDDLE") == Some(Middle)
  {
    LowerWord("mIDDLE", "middle");
  }

  /** `clamp_nonnegative`: `x` when positive, else 0. */
  function Clamp(x: real): (r: real)
    ensures r >= 0.0 && r >= x
    ensures x > 0.0 ==> r == x
    ensures x <= 0.0 ==> r == 0.0
  {
    if x > 0.0 then x else 0.0
  }

  /** Clamping keeps order. */
  lemma ClampMonotone(x: real, y: real)
    requires x <= y
    ensures Clamp(x) <= Clamp(y)
  {
  }

  /** The jitter actually applied: the configured one when positive, else none. */
  function Spread(jitter: real): real {
    if jitter > 0.0 then jitter else 0.0
  }

  /** The sleep after a click, `draw` being the uniform draw in `[-jitter, jitter]`. */
  function SleepDelay(base: real, jitter: real, draw: real): (d: real)
    ensures d >= 0.0
    ensures jitter <= 0.0 ==> d == Clamp(base)
  {
    if jitter > 0.0 then Clamp(base + draw) else Clamp(base)
  }

  /** The sleep lies between the clamped extremes of the jitter range. */
  lemma SleepDelayBounds(base: real, jitter: real, draw: real)
    requires -Spread(jitter) <= draw <= Spread(jitter)
    ensures Clamp(base - Spread(jitter)) <= SleepDelay(base, jitter, draw) <= Clamp(base + Spread(jitter))
    ensures SleepDelay(base, jitter, draw) >= 0.0
  {
    if jitter > 0.0 {
      ClampMonotone(base - jitter, base + draw);
      ClampMonotone(base + draw, base + jitter);
    }
  }

  /** Without jitter the draw plays no part. */
  lemma SleepWithoutJitter(base: real, jitter: real, draw: real)
    requires jitter <= 0.0
    ensures SleepDelay(base, jitter, draw) == Clamp(base)
  {
  }

  /** What the clicker sends to the mouse. */
  datatype MouseCommand = MoveTo(x: int, y: int) | Click(button: Button, count: nat)

  /** The commands of one click: to the fixed position first if set, then one click, doubled if set. */
  function ClickCommands(s: Settings, b: Button): (r: seq<MouseCommand>)
    ensures |r| == (if s.fixedPosition then 2 else 1)
    ensures r[|r| - 1] == Click(b, if s.doubleClick then 2 else 1)
    ensures s.fixedPosition ==> r[0] == MoveTo(s.x, s.y)
  {
    (if s.fixedPosition then [MoveTo(s.x, s.y)] else []) + [Click(b, if s.doubleClick then 2 else 1)]
  }

  /** The number of clicks among some commands (a double click is one). */
  function ClicksIn(cmds: seq<MouseCommand>): nat {
    if cmds == [] then 0 else (if cmds[0].Click? then 1 else 0) + ClicksIn(cmds[1..])
  }

  lemma {:induction false} ClicksInAppend(a: seq<MouseCommand>, b: seq<MouseCommand>)
    ensures ClicksIn(a + b) == ClicksIn(a) + ClicksIn(b)
  {
    if a == [] {
      assert a + b == b;
    } else {
      assert (a + b)[1..] == a[1..] + b;
      ClicksInAppend(a[1..], b);
    }
  }

  /** One click command goes out per click, whatever the settings. */
  lemma OneClickPerCycle(s: Settings, b: Button)
    ensures ClicksIn(ClickCommands(s, b)) == 1
  {
    var cmds := ClickCommands(s, b);
    if s.fixedPosition {
      var tail := cmds[1..];
      assert tail[1..] == [] && tail[0].Click? && !cmds[0].Click?;
      assert ClicksIn(tail) == 1 + ClicksIn(tail[1..]);
    } else {
      assert cmds[1..] == [];
    }
  }

  /** The worker's counters: the active flag, when clicking started, and the clicks since. */
  datatype Clicks = Clicks(clicking: bool, startedAt: Option<real>, done: int)

  /**
   * `_should_stop_for_limits`: a nonzero duration once that much time has
   * passed since the start (if there is one), or a nonzero count once that
   * many clicks are done.
   */
  predicate LimitReached(s: Settings, st: Clicks, now: real) {
    || (s.duration != 0.0 && st.startedAt.Some? && now - st.startedAt.value >= s.duration)
    || (s.clickCount != 0.0 && st.done as real >= s.clickCount)
  }

  /**
   * `_failsafe_triggered`: enabled, the pointer position could be read
   * (`None` when reading it raised), and it lies at or beyond the top-left corner.
   */
  predicate Failsafe(s: Settings, pointer: Option<(int, int)>) {
    s.failsafe && pointer.Some? && pointer.value.0 <= 0 && pointer.value.1 <= 0
  }

  /**
   * What the environment shows the worker in one cycle: whether quitting
   * has been asked for, the clock, the pointer position (if it can be read)
   * and the random draw for the jitter.
   */
  datatype Reading = Reading(quit: bool, now: real, pointer: Option<(int, int)>, draw: real)

  /** The worker's sleep while paused, in seconds. */
  const IdleSleep: real := 0.05

  /** What one cycle of the worker does. */
  datatype Effect = Idle | FailsafePause | LimitPause | Clicked(commands: seq<MouseCommand>, delay: real)

  /** One cycle: nothing while paused; then the failsafe, then the limits, and only then a click. */
  function CycleEffect(s: Settings, b: Button, st: Clicks, r: Reading): (e: Effect)
    ensures !st.clicking ==> e == Idle
    ensures e == FailsafePause ==> Failsafe(s, r.pointer)
    ensures e == LimitPause ==> LimitReached(s, st, r.now) && !Failsafe(s, r.pointer)
    ensures e.Clicked? ==> e.commands == ClickCommands(s, b) && e.delay == SleepDelay(s.interval, s.jitter, r.draw)
  {
    if !st.clicking then Idle
    else if Failsafe(s, r.pointer) then FailsafePause
    else if LimitReached(s, st, r.now) then LimitPause
    else Clicked(ClickCommands(s, b), SleepDelay(s.interval, s.jitter, r.draw))
  }

  /** The counters after a cycle: a pause clears the flag, a click counts one. */
  function After(st: Clicks, e: Effect): Clicks {
    match e
    case Idle => st
    case FailsafePause => st.(clicking := false)
    case LimitPause => st.(clicking := false)
    case Clicked(_, _) => st.(done := st.done + 1)
  }

  function CommandsOf(e: Effect): seq<MouseCommand> {
    if e.Clicked? then e.commands else []
  }

  function SleepOf(e: Effect): Option<real> {
    match e
    case Idle => Some(IdleSleep)
    case Clicked(_, d) => Some(d)
    case _ => None
  }

  /** The order of the checks in a cycle, and that a click counts exactly one. */
  lemma CycleOrder(s: Settings, b: Button, st: Clicks, r: Reading)
    ensures var e := CycleEffect(s, b, st, r);
      && (e.Clicked? <==> st.clicking && !Failsafe(s, r.pointer) && !LimitReached(s, st, r.now))
      && (st.clicking && Failsafe(s, r.pointer) ==> e == FailsafePause)
      && (e.Clicked? ==> After(st, e).done == st.done + 1 && ClicksIn(CommandsOf(e)) == 1)
      && (!e.Clicked? ==> After(st, e).done == st.done && CommandsOf(e) == [])
  {
    if CycleEffect(s, b, st, r).Clicked? {
      OneClickPerCycle(s, b);
    }
  }

  /** What the worker did over a run of cycles. */
  datatype Trace = Trace(final: Clicks, commands: seq<MouseCommand>, sleeps: seq<real>, quit: bool)

  function Prepend(e: Effect, t: Trace): Trace {
    Trace(t.final, CommandsOf(e) + t.commands, (if SleepOf(e).Some? then [SleepOf(e).value] else []) + t.sleeps, t.quit)
  }

  /**
   * The worker's loop over successive readings: it ends when quitting is
   * asked for (which also clears the active flag) and otherwise runs one
   * cycle per reading.
   */
  function Drive(s: Settings, b: Button, st: Clicks, readings: seq<Reading>): (t: Trace)
    ensures t.quit ==> !t.final.clicking
    ensures |t.sleeps| <= |readings|
    decreases |readings|
  {
    if readings == [] then Trace(st, [], [], false)
    else if readings[0].quit then Trace(st.(clicking := false), [], [], true)
    else
      var e := CycleEffect(s, b, st, readings[0]);
      Prepend(e, Drive(s, b, After(st, e), readings[1..]))
  }

  /** A reading that does not ask to quit runs one cycle ahead of the rest. */
  lemma DriveStep(s: Settings, b: Button, st: Clicks, readings: seq<Reading>)
    requires readings != [] && !readings[0].quit
    ensures var e := CycleEffect(s, b, st, readings[0]);
      Drive(s, b, st, readings) == Prepend(e, Drive(s, b, After(st, e), readings[1..]))
  {
  }

  /** What was done so far followed by a cycle and the rest is what was done with the cycle, followed by the rest. */
  lemma PrependShift(t: Trace, cmds: seq<MouseCommand>, sleeps: seq<real>, e: Effect, u: Trace)
    requires t.final == Prepend(e, u).final && t.quit == Prepend(e, u).quit
    requires t.commands == cmds + Prepend(e, u).commands && t.sleeps == sleeps + Prepend(e, u).sleeps
    ensures t.final == u.final && t.quit == u.quit
    ensures t.commands == (cmds + CommandsOf(e)) + u.commands
    ensures t.sleeps == (sleeps + (if SleepOf(e).Some? then [SleepOf(e).value] else [])) + u.sleeps
  {
  }

  /** Whether `t` is what was done so far (`cmds`, `sleeps`) followed by driving on from `st` over `rest`. */
  predicate Remains(t: Trace, s: Settings, b: Button, st: Clicks, rest: seq<Reading>, cmds: seq<MouseCommand>, sleeps: seq<real>) {
    var u := Drive(s, b, st, rest);
    t.final == u.final && t.quit == u.quit && t.commands == cmds + u.commands && t.sleeps == sleeps + u.sleeps
  }

  /** Running one cycle moves a reading from what remains to what was done. */
  lemma RemainsStep(t: Trace, s: Settings, b: Button, st: Clicks, rest: seq<Reading>, cmds: seq<MouseCommand>, sleeps: seq<real>)
    requires rest != [] && !rest[0].quit && Remains(t, s, b, st, rest, cmds, sleeps)
    ensures var e := CycleEffect(s, b, st, rest[0]);
      Remains(t, s, b, After(st, e), rest[1..], cmds + CommandsOf(e),
        sleeps + (if SleepOf(e).Some? then [SleepOf(e).value] else []))
  {
    var e := CycleEffect(s, b, st, rest[0]);
    DriveStep(s, b, st, rest);
    PrependShift(t, cmds, sleeps, e, Drive(s, b, After(st, e), rest[1..]));
  }

  /** A reading that asks to quit ends the worker at once, with the active flag cleared. */
  lemma DriveQuitNow(s: Settings, b: Button, st: Clicks, readings: seq<Reading>)
    requires readings != [] && readings[0].quit
    ensures Drive(s, b, st, readings) == Trace(st.(clicking := false), [], [], true)
  {
  }

  /** The worker quits exactly when some reading asks it to. */
  lemma {:induction false} DriveQuits(s: Settings, b: Button, st: Clicks, readings: seq<Reading>)
    ensures Drive(s, b, st, readings).quit <==> exists i :: 0 <= i < |readings| && readings[i].quit
    decreases |readings|
  {
    if readings != [] && !readings[0].quit {
      var e := CycleEffect(s, b, st, readings[0]);
      DriveQuits(s, b, After(st, e), readings[1..]);
      if exists i :: 0 <= i < |readings| && readings[i].quit {
        var i :| 0 <= i < |readings| && readings[i].quit;
        assert readings[1..][i - 1].quit;
      }
    }
  }

  /** Readings under which the failsafe never fires and quitting is never asked for. */
  predicate Calm(s: Settings, readings: seq<Reading>) {
    forall i :: 0 <= i < |readings| ==> !readings[i].quit && !Failsafe(s, readings[i].pointer)
  }

  /** A paused worker stays paused and sends nothing. */
  lemma {:induction false} PausedStaysPaused(s: Settings, b: Button, st: Clicks, readings: seq<Reading>)
    requires !st.clicking && Calm(s, readings)
    ensures Drive(s, b, st, readings).final == st
    ensures Drive(s, b, st, readings).commands == []
    decreases |readings|
  {
    if readings != [] {
      PausedStaysPaused(s, b, st, readings[1..]);
    }
  }

  /**
   * With a click count of `n` and no duration limit, a worker that has done
   * `k <= n` clicks does `n - k` more and then pauses, given enough cycles.
   */
  lemma {:induction false} CountLimitFrom(s: Settings, b: Button, st: Clicks, readings: seq<Reading>, n: nat)
    requires n > 0 && s.clickCount == n as real && s.duration == 0.0
    requires st.clicking && 0 <= st.done <= n
    requires Calm(s, readings) && |readings| > n - st.done
    ensures ClicksIn(Drive(s, b, st, readings).commands) == n - st.done
    ensures Drive(s, b, st, readings).final == Clicks(false, st.startedAt, n)
    decreases |readings|
  {
    var e := CycleEffect(s, b, st, readings[0]);
    var rest := readings[1..];
    assert Calm(s, rest) by {
      forall i | 0 <= i < |rest| ensures !rest[i].quit && !Failsafe(s, rest[i].pointer) {
        assert rest[i] == readings[i + 1];
      }
    }
    CycleOrder(s, b, st, readings[0]);
    if st.done == n {
      assert e == LimitPause;
      PausedStaysPaused(s, b, After(st, e), rest);
    } else {
      assert e.Clicked?;
      CountLimitFrom(s, b, After(st, e), rest, n);
      ClicksInAppend(CommandsOf(e), Drive(s, b, After(st, e), rest).commands);
    }
  }

  /**
   * Exactly `n` clicks before the automatic pause: started by the toggle
   * with a click count of `n`, no duration limit, no failsafe and no quit,
   * the worker clicks `n` times, a double click counting once, and pauses.
   */
  lemma ExactlyNClicks(s: Settings, b: Button, startedAt: real, readings: seq<Reading>, n: nat)
    requires n > 0 && s.clickCount == n as real && s.duration == 0.0
    requires Calm(s, readings) && |readings| > n
    ensures ClicksIn(Drive(s, b, Clicks(true, Some(startedAt), 0), readings).commands) == n
    ensures !Drive(s, b, Clicks(true, Some(startedAt), 0), readings).final.clicking
  {
    CountLimitFrom(s, b, Clicks(true, Some(startedAt), 0), readings, n);
  }

  /** No click is sent once the duration limit has passed. */
  lemma NoClickAfterDuration(s: Settings, b: Button, st: Clicks, r: Reading)
    requires s.duration > 0.0 && st.startedAt.Some? && r.now >= st.startedAt.value + s.duration
    ensures CommandsOf(CycleEffect(s, b, st, r)) == []
    ensures st.clicking ==> !After(st, CycleEffect(s, b, st, r)).clicking
  {
  }

  /** The counters after the toggle hotkey: pause, or restart the count from `now`. */
  function Toggled(st: Clicks, now: real): (r: Clicks)
    ensures r.clicking == !st.clicking
    ensures st.clicking ==> r.startedAt == st.startedAt && r.done == st.done
    ensures !st.clicking ==> r.startedAt == Some(now) && r.done == 0
  {
    if st.clicking then st.(clicking := false) else Clicks(true, Some(now), 0)
  }

  /** Pausing and resuming starts a fresh count and a fresh clock. */
  lemma ToggleTwiceRestarts(st: Clicks, t1: real, t2: real)
    requires st.clicking
    ensures Toggled(Toggled(st, t1), t2) == Clicks(true, Some(t2), 0)
  {
  }

  class AutoClicker {
    const settings: Settings
    const button: Button
    var clicking: bool
    var stopAll: bool
    var startedAt: Option<real>
    var clicksDone: int
    /** The commands sent to the mouse so far. */
    var sent: seq<MouseCommand>
    /** The sleeps taken so far, in seconds. */
    var slept: seq<real>

    function State(): Clicks
      reads this
    {
      Clicks(clicking, startedAt, clicksDone)
    }

    constructor (s: Settings, b: Button)
      ensures settings == s && button == b
      ensures !clicking && !stopAll && startedAt.None? && clicksDone == 0 && sent == [] && slept == []
    {
      settings := s;
      button := b;
      clicking := false;
      stopAll := false;
      startedAt := None;
      clicksDone := 0;
      sent := [];
      slept := [];
    }

    /** Construction: the button name must be left, right or middle in any letter case. */
    static method Build(s: Settings) returns (r: Result<AutoClicker, string>)
      ensures r.Ok? <==> ButtonFor(s.button).Some?
      ensures r.Ok? ==> fresh(r.value) && r.value.settings == s && Some(r.value.button) == ButtonFor(s.button)
      ensures r.Ok? ==> r.value.State() == Clicks(false, None, 0) && !r.value.stopAll && r.value.sent == []
    {
      var b := ButtonFor(s.button);
      if b.None? {
        return Err("Unsupported button '" + s.button + "'. Use left/right/middle.");
      }
      var c := new AutoClicker(s, b.value);
      r := Ok(c);
    }

    /** The toggle hotkey. */
    method Toggle(now: real)
      modifies this`clicking, this`startedAt, this`clicksDone
      ensures State() == Toggled(old(State()), now)
    {
      if clicking {
        clicking := false;
      } else {
        startedAt := Some(now);
        clicksDone := 0;
        clicking := true;
      }
    }

    /** The quit hotkey: the worker ends and clicking stops. */
    method Stop()
      modifies this`stopAll, this`clicking
      ensures stopAll && !clicking
    {
      stopAll := true;
      clicking := false;
    }

    method ShouldStopForLimits(now: real) returns (stop: bool)
      ensures stop <==> LimitReached(settings, State(), now)
    {
      if settings.duration != 0.0 && startedAt.Some? {
        if now - startedAt.value >= settings.duration {
          return true;
        }
      }
      if settings.clickCount != 0.0 && clicksDone as real >= settings.clickCount {
        return true;
      }
      return false;
    }

    method FailsafeTriggered(pointer: Option<(int, int)>) returns (triggered: bool)
      ensures triggered <==> Failsafe(settings, pointer)
    {
      if !settings.failsafe {
        return false;
      }
      if pointer.None? {
        return false;
      }
      var (x, y) := pointer.value;
      return x <= 0 && y <= 0;
    }

    /** One click, counted once even when doubled. */
    method DoClick()
      modifies this`sent, this`clicksDone
      ensures sent == old(sent) + ClickCommands(settings, button)
      ensures clicksDone == old(clicksDone) + 1
    {
      if settings.fixedPosition {
        sent := sent + [MoveTo(settings.x, settings.y)];
      }
      sent := sent + [Click(button, if settings.doubleClick then 2 else 1)];
      clicksDone := clicksDone + 1;
    }

    /** The sleep after a click, for the random draw `draw`. */
    method SleepInterval(draw: real)
      modifies this`slept
      ensures slept == old(slept) + [SleepDelay(settings.interval, settings.jitter, draw)]
    {
      var delay: real;
      if settings.jitter > 0.0 {
        delay := settings.interval + draw;
      } else {
        delay := settings.interval;
      }
      slept := slept + [Clamp(delay)];
    }

    /** One pass of the worker's loop body. */
    method RunCycle(r: Reading)
      modifies this`clicking, this`clicksDone, this`sent, this`slept
      ensures var e := CycleEffect(settings, button, old(State()), r);
        && State() == After(old(State()), e)
        && sent == old(sent) + CommandsOf(e)
        && slept == old(slept) + (if SleepOf(e).Some? then [SleepOf(e).value] else [])
    {
      if !clicking {
        slept := slept + [IdleSleep];
        return;
      }
      var triggered := FailsafeTriggered(r.pointer);
      if triggered {
        clicking := false;
        return;
      }
      var limit := ShouldStopForLimits(r.now);
      if limit {
        clicking := false;
        return;
      }
      DoClick();
      SleepInterval(r.draw);
    }

    /**
     * The worker: cycles until the stop-all flag is set, one reading per
     * cycle; a reading that asks to quit runs the quit hotkey first.
     */
    method Run(readings: seq<Reading>)
      requires !stopAll
      modifies this`clicking, this`clicksDone, this`sent, this`slept, this`stopAll
      ensures var t := Drive(settings, button, old(State()), readings);
        && State() == t.final && stopAll == t.quit
        && sent == old(sent) + t.commands && slept == old(slept) + t.sleeps
    {
      var i := 0;
      ghost var t := Drive(settings, button, State(), readings);
      ghost var cmds: seq<MouseCommand> := [];
      ghost var sleeps: seq<real> := [];
      while i < |readings|
        invariant 0 <= i <= |readings| && !stopAll
        invariant sent == old(sent) + cmds && slept == old(slept) + sleeps
        invariant Remains(t, settings, button, State(), readings[i..], cmds, sleeps)
      {
        if readings[i].quit {
          DriveQuitNow(settings, button, State(), readings[i..]);
          Stop();
          return;
        }
        ghost var before := State();
        ghost var e := CycleEffect(settings, button, before, readings[i]);
        RunCycle(readings[i]);
        assert readings[i..][1..] == readings[i + 1..];
        RemainsStep(t, settings, button, before, readings[i..], cmds, sleeps);
        cmds := cmds + CommandsOf(e);
        sleeps := sleeps + (if SleepOf(e).Some? then [SleepOf(e).value] else []);
        i := i + 1;
      }
      assert readings[i..] == [];
    }
  }
}
