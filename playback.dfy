/**
 * The playback schedule: what the player does with a snapshot of the
 * actions when it waits `max(0, t - prev_t)` before each one, looks at the
 * stop flag before and after each wait, and stops at the first error.
 */
module Playback {
  import opened Wrappers
  import opened Json
  import opened Actions

  /** How a playback ends; each is reported to the interface as one event. */
  datatype End = Done | Stopped | Failed(message: string)

  /**
   * What a playback did: the commands it sent, the wait before each action it
   * executed, how many actions it executed, and how it ended.
   */
  datatype Run = Run(commands: seq<Command>, delays: seq<real>, executed: nat, end: End)

  /**
   * The stop flag as the worker sees it: it looks at moment `2 * i` before
   * action `i`, and at moment `2 * i + 1` when the wait before action `i` is
   * over (a wait cut short by the flag and a flag seen right after the wait
   * end the same way).
   */
  type StopFlag = nat -> bool

  /** `float(action.get("t", 0.0))`: a missing time counts as 0. */
  function TimeOf(a: Action, host: Host): (r: Result<real, string>)
    ensures "t" !in a ==> r == Ok(0.0)
  {
    ToFloat(Get(a, "t", Num(0.0)), host.text)
  }

  /** `max(0.0, t - prev_t)`. */
  function Delay(t: real, prevT: real): (d: real)
    ensures d >= 0.0 && d >= t - prevT
    ensures d == t - prevT || d == 0.0
  {
    if t - prevT > 0.0 then t - prevT else 0.0
  }

  /** Earlier steps of a run followed by the rest of it. */
  function Then(commands: seq<Command>, delays: seq<real>, executed: nat, rest: Run): Run {
    Run(commands + rest.commands, delays + rest.delays, executed + rest.executed, rest.end)
  }

  /** The playback of `snapshot[i..]`, the previous action's time being `prevT`. */
  function PlayFrom(snapshot: seq<Action>, i: nat, prevT: real, stop: StopFlag, host: Host): Run
    requires i <= |snapshot|
    decreases |snapshot| - i
  {
    if i == |snapshot| then Run([], [], 0, Done)
    else if stop(2 * i) then Run([], [], 0, Stopped)
    else match TimeOf(snapshot[i], host)
      case Err(e) => Run([], [], 0, Failed(e))
      case Ok(t) =>
        if stop(2 * i + 1) then Run([], [], 0, Stopped)
        else match Execute(snapshot[i], host)
          case Err(e) => Run([], [], 0, Failed(e))
          case Ok(cmds) => Then(cmds, [Delay(t, prevT)], 1, PlayFrom(snapshot, i + 1, t, stop, host))
  }

  /** The playback of a snapshot of the actions, from time 0. */
  function Play(snapshot: seq<Action>, stop: StopFlag, host: Host): (r: Run)
    ensures snapshot == [] ==> r == Run([], [], 0, Done)
    ensures snapshot != [] && stop(0) ==> r == Run([], [], 0, Stopped)
  {
    PlayFrom(snapshot, 0, 0.0, stop, host)
  }

  /** Running earlier steps, then more steps, then the rest. */
  lemma ThenThen(c1: seq<Command>, d1: seq<real>, n1: nat, c2: seq<Command>, d2: seq<real>, n2: nat, rest: Run)
    ensures Then(c1, d1, n1, Then(c2, d2, n2, rest)) == Then(c1 + c2, d1 + d2, n1 + n2, rest)
  {
    assert c1 + (c2 + rest.commands) == (c1 + c2) + rest.commands;
    assert d1 + (d2 + rest.delays) == (d1 + d2) + rest.delays;
  }

  /** An action that passes both looks at the flag and executes contributes one step. */
  lemma PlayFromStep(snapshot: seq<Action>, i: nat, prevT: real, stop: StopFlag, host: Host)
    requires i < |snapshot| && !stop(2 * i) && !stop(2 * i + 1)
    requires TimeOf(snapshot[i], host).Ok? && Execute(snapshot[i], host).Ok?
    ensures var t := TimeOf(snapshot[i], host).value;
      PlayFrom(snapshot, i, prevT, stop, host)
      == Then(Execute(snapshot[i], host).value, [Delay(t, prevT)], 1, PlayFrom(snapshot, i + 1, t, stop, host))
  {
  }

  /** An action that is executed adds one to the count and keeps the rest's end. */
  lemma PlayFromStepCount(snapshot: seq<Action>, i: nat, prevT: real, stop: StopFlag, host: Host)
    requires Steps(snapshot, i, stop, host)
    ensures var t := TimeOf(snapshot[i], host).value;
      var r := PlayFrom(snapshot, i, prevT, stop, host);
      var rest := PlayFrom(snapshot, i + 1, t, stop, host);
      r.executed == 1 + rest.executed && r.end == rest.end
  {
    PlayFromStep(snapshot, i, prevT, stop, host);
  }

  /** An action that is executed adds one to the count and its own wait before the rest's. */
  lemma PlayFromStepDelays(snapshot: seq<Action>, i: nat, prevT: real, stop: StopFlag, host: Host)
    requires Steps(snapshot, i, stop, host)
    ensures var t := TimeOf(snapshot[i], host).value;
      var r := PlayFrom(snapshot, i, prevT, stop, host);
      var rest := PlayFrom(snapshot, i + 1, t, stop, host);
      r.executed == 1 + rest.executed && r.delays == [Delay(t, prevT)] + rest.delays
  {
    PlayFromStep(snapshot, i, prevT, stop, host);
  }

  /** An action that is executed adds one to the count and its own commands before the rest's. */
  lemma PlayFromStepCommands(snapshot: seq<Action>, i: nat, prevT: real, stop: StopFlag, host: Host)
    requires Steps(snapshot, i, stop, host)
    ensures var t := TimeOf(snapshot[i], host).value;
      var r := PlayFrom(snapshot, i, prevT, stop, host);
      var rest := PlayFrom(snapshot, i + 1, t, stop, host);
      r.executed == 1 + rest.executed && r.commands == Execute(snapshot[i], host).value + rest.commands
  {
    PlayFromStep(snapshot, i, prevT, stop, host);
  }

  /** Whether action `i` is reached, passes both looks at the flag and executes. */
  predicate Steps(snapshot: seq<Action>, i: nat, stop: StopFlag, host: Host) {
    && i < |snapshot| && !stop(2 * i) && !stop(2 * i + 1)
    && TimeOf(snapshot[i], host).Ok? && Execute(snapshot[i], host).Ok?
  }

  /** Whether the flag was seen at one of the two looks made for action `k`. */
  predicate Raised(stop: StopFlag, k: nat) {
    stop(2 * k) || stop(2 * k + 1)
  }

  /** Whether action `i` cannot be played: its time or its replay is an error. */
  predicate Faulty(snapshot: seq<Action>, i: nat, host: Host) {
    i < |snapshot| && (TimeOf(snapshot[i], host).Err? || Execute(snapshot[i], host).Err?)
  }

  /** A playback that does not step at action `i` ends there, having done nothing. */
  lemma PlayFromHalts(snapshot: seq<Action>, i: nat, prevT: real, stop: StopFlag, host: Host)
    requires i <= |snapshot| && !Steps(snapshot, i, stop, host)
    ensures var r := PlayFrom(snapshot, i, prevT, stop, host);
      && r.executed == 0 && r.delays == [] && r.commands == []
      && (r.end == Done <==> i == |snapshot|)
      && (r.end.Failed? ==> Faulty(snapshot, i, host))
  {
  }

  /** The commands a sequence of actions replays as, one action after the other. */
  function CommandsOf(actions: seq<Action>, host: Host): seq<Command> {
    if actions == [] then []
    else
      var first := Execute(actions[0], host);
      (if first.Ok? then first.value else []) + CommandsOf(actions[1..], host)
  }

  /** The commands of a non-empty sequence: its first action's, then the rest's. */
  lemma CommandsOfFirst(actions: seq<Action>, host: Host)
    requires actions != []
    ensures var first := Execute(actions[0], host);
      CommandsOf(actions, host) == (if first.Ok? then first.value else []) + CommandsOf(actions[1..], host)
  {
  }

  /** `CommandsOf` of a concatenation. */
  lemma {:induction false} CommandsOfAppend(a: seq<Action>, b: seq<Action>, host: Host)
    ensures CommandsOf(a + b, host) == CommandsOf(a, host) + CommandsOf(b, host)
  {
    if a != [] {
      var first := Execute(a[0], host);
      var head := if first.Ok? then first.value else [];
      assert (a + b)[0] == a[0];
      assert (a + b)[1..] == a[1..] + b;
      CommandsOfFirst(a + b, host);
      CommandsOfFirst(a, host);
      CommandsOfAppend(a[1..], b, host);
      assert head + (CommandsOf(a[1..], host) + CommandsOf(b, host)) == (head + CommandsOf(a[1..], host)) + CommandsOf(b, host);
    } else {
      assert a + b == b;
    }
  }

  /** A playback runs within the snapshot, waits once per executed action, and is done only at the end. */
  lemma {:induction false} PlayFromShape(snapshot: seq<Action>, i: nat, prevT: real, stop: StopFlag, host: Host)
    requires i <= |snapshot|
    ensures var r := PlayFrom(snapshot, i, prevT, stop, host);
      && i + r.executed <= |snapshot|
      && |r.delays| == r.executed
      && (r.end == Done <==> i + r.executed == |snapshot|)
    decreases |snapshot| - i, 1
  {
    if Steps(snapshot, i, stop, host) {
      ShapeStep(snapshot, i, prevT, stop, host);
    } else {
      PlayFromHalts(snapshot, i, prevT, stop, host);
    }
  }

  /** The steps when action `i` is executed: one, then the rest's. */
  lemma {:induction false} ShapeStep(snapshot: seq<Action>, i: nat, prevT: real, stop: StopFlag, host: Host)
    requires i <= |snapshot| && Steps(snapshot, i, stop, host)
    ensures var r := PlayFrom(snapshot, i, prevT, stop, host);
      && i + r.executed <= |snapshot|
      && |r.delays| == r.executed
      && (r.end == Done <==> i + r.executed == |snapshot|)
    decreases |snapshot| - i, 0
  {
    var t := TimeOf(snapshot[i], host).value;
    PlayFromShape(snapshot, i + 1, t, stop, host);
    PlayFromStep(snapshot, i, prevT, stop, host);
  }

  /** The commands of an action followed by more actions. */
  lemma CommandsOfCons(a: Action, rest: seq<Action>, host: Host)
    requires Execute(a, host).Ok?
    ensures CommandsOf([a] + rest, host) == Execute(a, host).value + CommandsOf(rest, host)
  {
    assert ([a] + rest)[0] == a && ([a] + rest)[1..] == rest;
  }

  /** Every executed action replays without error. */
  lemma {:induction false} PlayFromExecutes(snapshot: seq<Action>, i: nat, prevT: real, stop: StopFlag, host: Host)
    requires i <= |snapshot|
    ensures var r := PlayFrom(snapshot, i, prevT, stop, host);
      && i + r.executed <= |snapshot|
      && forall j :: i <= j < i + r.executed ==> Execute(snapshot[j], host).Ok?
    decreases |snapshot| - i
  {
    PlayFromShape(snapshot, i, prevT, stop, host);
    if Steps(snapshot, i, stop, host) {
      var t := TimeOf(snapshot[i], host).value;
      PlayFromExecutes(snapshot, i + 1, t, stop, host);
      PlayFromStep(snapshot, i, prevT, stop, host);
      var n := PlayFrom(snapshot, i + 1, t, stop, host).executed;
      assert PlayFrom(snapshot, i, prevT, stop, host).executed == 1 + n;
      forall j | i <= j < i + 1 + n
        ensures Execute(snapshot[j], host).Ok?
      {
        if j > i {
          assert i + 1 <= j < i + 1 + n;
        }
      }
    } else {
      PlayFromHalts(snapshot, i, prevT, stop, host);
    }
  }

  /** The commands sent are those of the executed actions, in order. */
  lemma {:induction false} PlayFromCommands(snapshot: seq<Action>, i: nat, prevT: real, stop: StopFlag, host: Host)
    requires i <= |snapshot|
    ensures var r := PlayFrom(snapshot, i, prevT, stop, host);
      && i + r.executed <= |snapshot|
      && r.commands == CommandsOf(snapshot[i..i + r.executed], host)
    decreases |snapshot| - i, 1
  {
    if Steps(snapshot, i, stop, host) {
      CommandsStep(snapshot, i, prevT, stop, host);
    } else {
      PlayFromHalts(snapshot, i, prevT, stop, host);
      assert snapshot[i..i] == [];
    }
  }

  /** The commands sent when action `i` is executed: its own, then the rest's. */
  lemma {:induction false} CommandsStep(snapshot: seq<Action>, i: nat, prevT: real, stop: StopFlag, host: Host)
    requires i <= |snapshot| && Steps(snapshot, i, stop, host)
    ensures var r := PlayFrom(snapshot, i, prevT, stop, host);
      && i + r.executed <= |snapshot|
      && r.commands == CommandsOf(snapshot[i..i + r.executed], host)
    decreases |snapshot| - i, 0
  {
    var t := TimeOf(snapshot[i], host).value;
    PlayFromCommands(snapshot, i + 1, t, stop, host);
    PlayFromStepCommands(snapshot, i, prevT, stop, host);
    CommandsCombine(PlayFrom(snapshot, i, prevT, stop, host), PlayFrom(snapshot, i + 1, t, stop, host), snapshot, i, host);
  }

  /** The commands of action `i` followed by those of the next `rest.executed` actions. */
  lemma CommandsCombine(r: Run, rest: Run, snapshot: seq<Action>, i: nat, host: Host)
    requires i + 1 + rest.executed <= |snapshot| && Execute(snapshot[i], host).Ok?
    requires r.executed == 1 + rest.executed
    requires r.commands == Execute(snapshot[i], host).value + rest.commands
    requires rest.commands == CommandsOf(snapshot[i + 1..i + 1 + rest.executed], host)
    ensures i + r.executed <= |snapshot|
    ensures r.commands == CommandsOf(snapshot[i..i + r.executed], host)
  {
    var n := rest.executed;
    assert snapshot[i..i + 1 + n] == [snapshot[i]] + snapshot[i + 1..i + 1 + n];
    CommandsOfCons(snapshot[i], snapshot[i + 1..i + 1 + n], host);
  }

  /**
   * A playback executes a prefix of the snapshot, each of those actions
   * without error and in order; it reports "done" exactly when it executed
   * them all.
   */
  lemma PlayFromPrefix(snapshot: seq<Action>, i: nat, prevT: real, stop: StopFlag, host: Host)
    requires i <= |snapshot|
    ensures var r := PlayFrom(snapshot, i, prevT, stop, host);
      && i + r.executed <= |snapshot|
      && |r.delays| == r.executed
      && (r.end == Done <==> i + r.executed == |snapshot|)
      && (forall j :: i <= j < i + r.executed ==> Execute(snapshot[j], host).Ok?)
      && r.commands == CommandsOf(snapshot[i..i + r.executed], host)
  {
    PlayFromShape(snapshot, i, prevT, stop, host);
    PlayFromExecutes(snapshot, i, prevT, stop, host);
    PlayFromCommands(snapshot, i, prevT, stop, host);
  }

  /** A playback fails only at an action whose time or replay is an error. */
  lemma {:induction false} PlayFromFailsAt(snapshot: seq<Action>, i: nat, prevT: real, stop: StopFlag, host: Host)
    requires i <= |snapshot|
    ensures var r := PlayFrom(snapshot, i, prevT, stop, host);
      r.end.Failed? ==> Faulty(snapshot, i + r.executed, host)
    decreases |snapshot| - i
  {
    if Steps(snapshot, i, stop, host) {
      var t := TimeOf(snapshot[i], host).value;
      PlayFromFailsAt(snapshot, i + 1, t, stop, host);
      PlayFromStep(snapshot, i, prevT, stop, host);
      var rest := PlayFrom(snapshot, i + 1, t, stop, host);
      assert PlayFrom(snapshot, i, prevT, stop, host).end == rest.end;
      assert i + PlayFrom(snapshot, i, prevT, stop, host).executed == i + 1 + rest.executed;
    } else {
      PlayFromHalts(snapshot, i, prevT, stop, host);
    }
  }

  /**
   * No action runs once the stop flag has been seen: every executed action
   * was preceded by two looks that found the flag clear, and a stopped
   * playback saw the flag at the next action.
   */
  lemma {:induction false} PlayFromHonoursStop(snapshot: seq<Action>, i: nat, prevT: real, stop: StopFlag, host: Host)
    requires i <= |snapshot|
    ensures var r := PlayFrom(snapshot, i, prevT, stop, host);
      && (forall j :: i <= j < i + r.executed ==> !Raised(stop, j))
      && (r.end == Stopped ==> Raised(stop, i + r.executed))
    decreases |snapshot| - i, 1
  {
    if Steps(snapshot, i, stop, host) {
      HonoursStopStep(snapshot, i, prevT, stop, host);
    }
  }

  /** The looks at the flag when action `i` is executed: both clear, then the rest's. */
  lemma {:induction false} HonoursStopStep(snapshot: seq<Action>, i: nat, prevT: real, stop: StopFlag, host: Host)
    requires i <= |snapshot| && Steps(snapshot, i, stop, host)
    ensures var r := PlayFrom(snapshot, i, prevT, stop, host);
      && (forall j :: i <= j < i + r.executed ==> !Raised(stop, j))
      && (r.end == Stopped ==> Raised(stop, i + r.executed))
    decreases |snapshot| - i, 0
  {
    var t := TimeOf(snapshot[i], host).value;
    PlayFromHonoursStop(snapshot, i + 1, t, stop, host);
    PlayFromStepCount(snapshot, i, prevT, stop, host);
    HonoursCombine(PlayFrom(snapshot, i, prevT, stop, host), PlayFrom(snapshot, i + 1, t, stop, host), i, stop);
  }

  /** Flag looks clear at step `i` and clear over the rest are clear over both. */
  lemma HonoursCombine(r: Run, rest: Run, i: nat, stop: StopFlag)
    requires r.executed == 1 + rest.executed && r.end == rest.end
    requires !stop(2 * i) && !stop(2 * i + 1)
    requires forall j :: i + 1 <= j < i + 1 + rest.executed ==> !Raised(stop, j)
    requires rest.end == Stopped ==> Raised(stop, i + 1 + rest.executed)
    ensures forall j :: i <= j < i + r.executed ==> !Raised(stop, j)
    ensures r.end == Stopped ==> Raised(stop, i + r.executed)
  {
    assert i + r.executed == i + 1 + rest.executed;
    forall j | i <= j < i + r.executed
      ensures !Raised(stop, j)
    {
      if j > i {
        assert i + 1 <= j < i + 1 + rest.executed;
      }
    }
  }

  /** A flag seen before action `k` (or during its wait) means no action from `k` on runs. */
  lemma StopBounds(snapshot: seq<Action>, stop: StopFlag, host: Host, k: nat)
    requires Raised(stop, k)
    ensures Play(snapshot, stop, host).executed <= k
  {
    PlayFromHonoursStop(snapshot, 0, 0.0, stop, host);
  }

  /** Total of a sequence of waits. */
  function Sum(delays: seq<real>): real {
    if delays == [] then 0.0 else delays[0] + Sum(delays[1..])
  }

  /** Every action has a numeric time, none negative and none earlier than one before it. */
  predicate WellStamped(snapshot: seq<Action>, host: Host) {
    && (forall j :: 0 <= j < |snapshot| ==> TimeOf(snapshot[j], host).Ok? && TimeOf(snapshot[j], host).value >= 0.0)
    && (forall j, k :: 0 <= j < k < |snapshot| ==> TimeOf(snapshot[j], host).value <= TimeOf(snapshot[k], host).value)
  }

  /** `ts` lists the times of the actions, and they never go back. */
  predicate AscendingTimes(snapshot: seq<Action>, host: Host, ts: seq<real>) {
    && |ts| == |snapshot|
    && (forall j {:trigger ts[j]} :: 0 <= j < |snapshot| ==> TimeOf(snapshot[j], host) == Ok(ts[j]))
    && (forall j, k :: 0 <= j < k < |ts| ==> ts[j] <= ts[k])
  }

  /** The waits from action `i` on add up to the time from `prevT` to the last action executed. */
  lemma {:induction false} PlayFromTelescopes(snapshot: seq<Action>, i: nat, prevT: real, stop: StopFlag, host: Host, ts: seq<real>)
    requires i <= |snapshot| && AscendingTimes(snapshot, host, ts)
    requires i < |snapshot| ==> prevT <= ts[i]
    ensures var r := PlayFrom(snapshot, i, prevT, stop, host);
      && i + r.executed <= |snapshot|
      && Sum(r.delays) == if r.executed == 0 then 0.0 else ts[i + r.executed - 1] - prevT
    decreases |snapshot| - i, 1
  {
    if Steps(snapshot, i, stop, host) {
      TelescopesStep(snapshot, i, prevT, stop, host, ts);
    } else {
      PlayFromHalts(snapshot, i, prevT, stop, host);
    }
  }

  /** The telescoping sum when action `i` is executed. */
  lemma {:induction false} TelescopesStep(snapshot: seq<Action>, i: nat, prevT: real, stop: StopFlag, host: Host, ts: seq<real>)
    requires i <= |snapshot| && AscendingTimes(snapshot, host, ts)
    requires i < |snapshot| ==> prevT <= ts[i]
    requires Steps(snapshot, i, stop, host)
    ensures var r := PlayFrom(snapshot, i, prevT, stop, host);
      && i + r.executed <= |snapshot|
      && Sum(r.delays) == if r.executed == 0 then 0.0 else ts[i + r.executed - 1] - prevT
    decreases |snapshot| - i, 0
  {
    var t := TimeOf(snapshot[i], host).value;
    assert t == ts[i];
    PlayFromTelescopes(snapshot, i + 1, t, stop, host, ts);
    PlayFromStepDelays(snapshot, i, prevT, stop, host);
    TelescopeStep(PlayFrom(snapshot, i, prevT, stop, host), PlayFrom(snapshot, i + 1, t, stop, host), t, prevT, i, ts);
  }

  /** An executed action's wait joins the telescoping sum of the rest. */
  lemma TelescopeStep(r: Run, rest: Run, t: real, prevT: real, i: nat, ts: seq<real>)
    requires r.executed == 1 + rest.executed && r.delays == [Delay(t, prevT)] + rest.delays
    requires prevT <= t && i + 1 + rest.executed <= |ts| && ts[i] == t
    requires Sum(rest.delays) == if rest.executed == 0 then 0.0 else ts[i + 1 + rest.executed - 1] - t
    ensures Sum(r.delays) == ts[i + r.executed - 1] - prevT
  {
    assert r.delays[1..] == rest.delays;
  }

  /** The time the interface shows as the macro's duration: the last action's "t". */
  function Duration(actions: seq<Action>): Option<real> {
    if actions == [] then Some(0.0)
    else
      var last := actions[|actions| - 1];
      if "t" in last && last["t"].Num? then Some(last["t"].r)
      else if "t" in last && last["t"].Int? then Some(last["t"].i as real)
      else None
  }

  /**
   * With non-negative, non-decreasing times, a playback that runs to the end
   * waits in all exactly the macro's duration.
   */
  lemma PlayWaitsDuration(snapshot: seq<Action>, stop: StopFlag, host: Host)
    requires WellStamped(snapshot, host)
    requires forall j :: 0 <= j < |snapshot| ==> "t" in snapshot[j] && (snapshot[j]["t"].Num? || snapshot[j]["t"].Int?)
    requires Play(snapshot, stop, host).end == Done
    ensures Duration(snapshot).Some? && Sum(Play(snapshot, stop, host).delays) == Duration(snapshot).value
  {
    var ts := seq(|snapshot|, j requires 0 <= j < |snapshot| => TimeOf(snapshot[j], host).value);
    PlayFromPrefix(snapshot, 0, 0.0, stop, host);
    PlayFromTelescopes(snapshot, 0, 0.0, stop, host, ts);
  }
}
