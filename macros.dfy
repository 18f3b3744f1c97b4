/**
 * The macro recorder and player: its recording and playing flags, the action
 * list that recording appends to and loading replaces, the pointer-move
 * filter, the hotkey parts kept out of recordings, the playback worker and
 * the events it reports to the interface.
 */
module Macros {
  import opened Wrappers
  import opened Json
  import opened Keys
  import opened Hotkeys
  import opened Actions
  import opened Playback

  /** A notification queued for the interface thread. */
  datatype UIEvent = ActionAdded(action: Action) | PlaybackDone | PlaybackStopped | PlaybackError(message: string)

  /** How a user command was answered: carried out, silently ignored, or refused with a message. */
  datatype Reply = Accepted | Ignored | Refused(reason: string)

  /** The event that reports how a playback ended. */
  function EndEvent(e: End): UIEvent {
    match e
    case Done => PlaybackDone
    case Stopped => PlaybackStopped
    case Failed(m) => PlaybackError(m)
  }

  /** Seconds since recording started, never negative: the same clamped difference as a playback wait. */
  function EventTime(now: real, startedAt: real): (t: real)
    ensures t >= 0.0
    ensures now >= startedAt ==> t == now - startedAt
    ensures now <= startedAt ==> t == 0.0
  {
    Delay(now, startedAt)
  }

  /** The timestamp of an action recorded at clock reading `now`. */
  function StampAt(now: real, startedAt: real): real {
    Round6(EventTime(now, startedAt))
  }

  /** Timestamps are never negative, and a later clock reading never gets an earlier one. */
  lemma StampsOrdered(now1: real, now2: real, startedAt: real)
    requires now1 <= now2
    ensures 0.0 <= StampAt(now1, startedAt) <= StampAt(now2, startedAt)
  {
    Round6Monotone(EventTime(now1, startedAt), EventTime(now2, startedAt));
  }

  /** Minimum time between two recorded pointer moves, in seconds. */
  const MoveInterval: real := 0.02

  /** Minimum Manhattan distance between two recorded pointer moves. */
  const MoveDistance: int := 2

  function Abs(n: int): nat {
    if n < 0 then -n else n
  }

  /**
   * Whether a pointer move at time `nowT` to `(x, y)` is recorded, given the
   * time and place of the last recorded move.
   */
  predicate MovePasses(nowT: real, lastT: real, lastPos: Option<(int, int)>, x: int, y: int) {
    && nowT - lastT >= MoveInterval
    && (lastPos.None? || Abs(lastPos.value.0 - x) + Abs(lastPos.value.1 - y) >= MoveDistance)
  }

  /**
   * The playback worker's loop over a snapshot of the actions: before each
   * action look at the stop flag, read its time, wait `max(0, t - prev_t)`,
   * look at the flag again, then execute it; the first error ends the run.
   */
  method RunSchedule(snapshot: seq<Action>, stop: StopFlag, host: Host) returns (run: Run)
    ensures run == Play(snapshot, stop, host)
  {
    var prevT := 0.0;
    var commands: seq<Command> := [];
    var delays: seq<real> := [];
    var i := 0;
    while i < |snapshot|
      invariant 0 <= i <= |snapshot|
      invariant Play(snapshot, stop, host) == Then(commands, delays, i, PlayFrom(snapshot, i, prevT, stop, host))
    {
      if stop(2 * i) {
        return Then(commands, delays, i, Run([], [], 0, Stopped));
      }
      var t := TimeOf(snapshot[i], host);
      if t.Err? {
        return Then(commands, delays, i, Run([], [], 0, Failed(t.error)));
      }
      var delay := Delay(t.value, prevT);
      if stop(2 * i + 1) {
        return Then(commands, delays, i, Run([], [], 0, Stopped));
      }
      var sent := Execute(snapshot[i], host);
      if sent.Err? {
        return Then(commands, delays, i, Run([], [], 0, Failed(sent.error)));
      }
      PlayFromStep(snapshot, i, prevT, stop, host);
      ThenThen(commands, delays, i, sent.value, [delay], 1, PlayFrom(snapshot, i + 1, t.value, stop, host));
      prevT := t.value;
      commands := commands + sent.value;
      delays := delays + [delay];
      i := i + 1;
    }
    run := Run(commands, delays, i, Done);
  }

  class MacroApp {
    var actions: seq<Action>
    var recording: bool
    var playing: bool
    var captureMoves: bool
    var recordStartedAt: real
    var lastMoveLogT: real
    var lastMovePos: Option<(int, int)>
    var hotkeyParts: seq<Part>
    /** The bindings of the running global-hotkey listener, if one runs. */
    var hotkeyListener: Option<map<string, Slot>>
    var playbackStop: bool
    /** Events waiting for the interface thread, oldest first. */
    var pending: seq<UIEvent>

    /** Recording and playing exclude each other. */
    ghost predicate Valid()
      reads this
    {
      !(recording && playing)
    }

    /** A recorder with no actions, no hotkeys yet, neither recording nor playing. */
    constructor ()
      ensures Valid()
      ensures actions == [] && !recording && !playing && !captureMoves && !playbackStop
      ensures hotkeyParts == [] && hotkeyListener.None? && pending == []
      ensures lastMoveLogT == 0.0 && lastMovePos.None?
    {
      actions := [];
      recording := false;
      playing := false;
      captureMoves := false;
      recordStartedAt := 0.0;
      lastMoveLogT := 0.0;
      lastMovePos := None;
      hotkeyParts := [];
      hotkeyListener := None;
      playbackStop := false;
      pending := [];
    }

    /** Start-up: a recorder with the default hotkeys applied, or `None` when they cannot be. */
    static method Launch(parse: Parser, listenerStarts: bool) returns (app: Option<MacroApp>)
      ensures app.Some? <==> Validate(DefaultTexts, parse).Ok? && listenerStarts
      ensures app.Some? ==> fresh(app.value) && app.value.Valid() && app.value.actions == []
      ensures app.Some? ==> app.value.hotkeyParts == Validate(DefaultTexts, parse).value.suppress
    {
      var a := new MacroApp();
      var ok := a.ApplyHotkeys(DefaultTexts, parse, listenerStarts);
      app := if ok then Some(a) else None;
    }

    /**
     * Apply four hotkey texts. When they are refused nothing changes; when
     * the listener cannot be started the old one is gone and the suppressed
     * parts are kept; otherwise the new bindings run and their single-key
     * parts are suppressed.
     */
    method ApplyHotkeys(raw: seq<string>, parse: Parser, listenerStarts: bool) returns (ok: bool)
      requires |raw| == 4 && Valid()
      modifies this`hotkeyParts, this`hotkeyListener
      ensures Valid()
      ensures ok <==> Validate(raw, parse).Ok? && listenerStarts
      ensures ok ==> hotkeyParts == Validate(raw, parse).value.suppress
      ensures ok ==> hotkeyListener == Some(Validate(raw, parse).value.commands)
      ensures !ok ==> hotkeyParts == old(hotkeyParts)
      ensures Validate(raw, parse).Err? ==> hotkeyListener == old(hotkeyListener)
      ensures Validate(raw, parse).Ok? && !listenerStarts ==> hotkeyListener.None?
    {
      var built := BuildHotkeyBindings(raw, parse);
      if built.Err? {
        return false;
      }
      hotkeyListener := None;
      if !listenerStarts {
        return false;
      }
      hotkeyListener := Some(built.value.commands);
      hotkeyParts := built.value.suppress;
      ok := true;
    }

    /** Whether a key belongs to a single-key hotkey and so is not recorded. */
    method ShouldSuppressKey(key: Key) returns (suppress: bool)
      ensures suppress <==> Suppressed(hotkeyParts, key)
    {
      var i := 0;
      while i < |hotkeyParts|
        invariant 0 <= i <= |hotkeyParts|
        invariant forall j :: 0 <= j < i ==> !PartMatchesKey(hotkeyParts[j], key)
      {
        if PartMatchesKey(hotkeyParts[i], key) {
          return true;
        }
        i := i + 1;
      }
      return false;
    }

    /** The "record mouse movement" option. */
    method SetCaptureMoves(on: bool)
      modifies this`captureMoves
      ensures captureMoves == on
    {
      captureMoves := on;
    }

    /**
     * Append an action stamped with the time since recording started, and
     * tell the interface; nothing happens when not recording.
     */
    method RecordEvent(a: Action, now: real)
      requires Valid()
      modifies this`actions, this`pending
      ensures Valid()
      ensures old(recording) ==> actions == old(actions) + [Stamp(a, StampAt(now, recordStartedAt))]
      ensures old(recording) ==> pending == old(pending) + [ActionAdded(Stamp(a, StampAt(now, recordStartedAt)))]
      ensures !old(recording) ==> actions == old(actions) && pending == old(pending)
    {
      if !recording {
        return;
      }
      var stamped := Stamp(a, StampAt(now, recordStartedAt));
      actions := actions + [stamped];
      pending := pending + [ActionAdded(stamped)];
    }

    /**
     * A pointer move: recorded only when moves are captured, at least 0.02 s
     * after the last recorded move and at least 2 away from it (Manhattan);
     * only a move that passes updates the filter's time and place. The filter
     * and the record each read the clock.
     */
    method OnMouseMove(x: int, y: int, nowFilter: real, nowRecord: real)
      requires Valid()
      modifies this`actions, this`pending, this`lastMoveLogT, this`lastMovePos
      ensures Valid()
      ensures var nowT := EventTime(nowFilter, recordStartedAt);
        if old(captureMoves) && MovePasses(nowT, old(lastMoveLogT), old(lastMovePos), x, y) then
          && lastMoveLogT == nowT && lastMovePos == Some((x, y))
          && var a := Stamp(MoveRecord(x, y), StampAt(nowRecord, recordStartedAt));
             && actions == (if recording then old(actions) + [a] else old(actions))
             && pending == (if recording then old(pending) + [ActionAdded(a)] else old(pending))
        else
          lastMoveLogT == old(lastMoveLogT) && lastMovePos == old(lastMovePos) && actions == old(actions) && pending == old(pending)
    {
      if !captureMoves {
        return;
      }
      var nowT := EventTime(nowFilter, recordStartedAt);
      if nowT - lastMoveLogT < MoveInterval {
        return;
      }
      if lastMovePos.Some? {
        var dx := Abs(lastMovePos.value.0 - x);
        var dy := Abs(lastMovePos.value.1 - y);
        if dx + dy < MoveDistance {
          return;
        }
      }
      lastMoveLogT := nowT;
      lastMovePos := Some((x, y));
      RecordEvent(MoveRecord(x, y), nowRecord);
    }

    /** A mouse button going down or up is recorded with its position and button name. */
    method OnMouseClick(x: int, y: int, button: string, pressed: bool, now: real)
      requires Valid()
      modifies this`actions, this`pending
      ensures Valid()
      ensures actions == if recording then old(actions) + [Stamp(ClickRecord(x, y, button, pressed), StampAt(now, recordStartedAt))] else old(actions)
      ensures pending == if recording then old(pending) + [ActionAdded(Stamp(ClickRecord(x, y, button, pressed), StampAt(now, recordStartedAt)))] else old(pending)
    {
      RecordEvent(ClickRecord(x, y, button, pressed), now);
    }

    /** A scroll is recorded with its position and amounts. */
    method OnMouseScroll(x: int, y: int, dx: int, dy: int, now: real)
      requires Valid()
      modifies this`actions, this`pending
      ensures Valid()
      ensures actions == if recording then old(actions) + [Stamp(ScrollRecord(x, y, dx, dy), StampAt(now, recordStartedAt))] else old(actions)
      ensures pending == if recording then old(pending) + [ActionAdded(Stamp(ScrollRecord(x, y, dx, dy), StampAt(now, recordStartedAt)))] else old(pending)
    {
      RecordEvent(ScrollRecord(x, y, dx, dy), now);
    }

    /** A key press is recorded unless the key belongs to a single-key hotkey. */
    method OnKeyPress(key: Key, now: real)
      requires Valid()
      modifies this`actions, this`pending
      ensures Valid()
      ensures actions == if recording && !Suppressed(hotkeyParts, key)
                         then old(actions) + [Stamp(KeyRecord(key, "press"), StampAt(now, recordStartedAt))]
                         else old(actions)
      ensures pending == if recording && !Suppressed(hotkeyParts, key)
                         then old(pending) + [ActionAdded(Stamp(KeyRecord(key, "press"), StampAt(now, recordStartedAt)))]
                         else old(pending)
    {
      var suppress := ShouldSuppressKey(key);
      if suppress {
        return;
      }
      RecordEvent(KeyRecord(key, "press"), now);
    }

    /** A key release is recorded unless the key belongs to a single-key hotkey. */
    method OnKeyRelease(key: Key, now: real)
      requires Valid()
      modifies this`actions, this`pending
      ensures Valid()
      ensures actions == if recording && !Suppressed(hotkeyParts, key)
                         then old(actions) + [Stamp(KeyRecord(key, "release"), StampAt(now, recordStartedAt))]
                         else old(actions)
      ensures pending == if recording && !Suppressed(hotkeyParts, key)
                         then old(pending) + [ActionAdded(Stamp(KeyRecord(key, "release"), StampAt(now, recordStartedAt)))]
                         else old(pending)
    {
      var suppress := ShouldSuppressKey(key);
      if suppress {
        return;
      }
      RecordEvent(KeyRecord(key, "release"), now);
    }

    /**
     * Start recording: refused during playback, ignored while already
     * recording; otherwise the action list and the move filter are reset,
     * the clock's origin is `now` and the move option is read.
     */
    method StartRecording(now: real, captureOption: bool) returns (reply: Reply)
      requires Valid()
      modifies this
      ensures Valid()
      ensures old(playing) ==> reply.Refused? && unchanged(this)
      ensures !old(playing) && old(recording) ==> reply == Ignored && unchanged(this)
      ensures !old(playing) && !old(recording) ==>
        && reply == Accepted && recording && actions == []
        && recordStartedAt == now && lastMoveLogT == 0.0 && lastMovePos.None? && captureMoves == captureOption
        && playing == old(playing) && hotkeyParts == old(hotkeyParts) && hotkeyListener == old(hotkeyListener)
        && playbackStop == old(playbackStop) && pending == old(pending)
    {
      if playing {
        return Refused("Wait for playback to finish before recording.");
      }
      if recording {
        return Ignored;
      }
      actions := [];
      recordStartedAt := now;
      lastMoveLogT := 0.0;
      lastMovePos := None;
      recording := true;
      captureMoves := captureOption;
      reply := Accepted;
    }

    /** Stop recording; the recorded actions stay. */
    method StopRecording()
      requires Valid()
      modifies this`recording
      ensures Valid() && !recording
    {
      recording := false;
    }

    /** Clear the action list, stopping a recording first. */
    method ClearActions()
      requires Valid()
      modifies this`recording, this`actions
      ensures Valid() && !recording && actions == []
    {
      if recording {
        StopRecording();
      }
      actions := [];
    }

    /**
     * The document written when saving: nothing for an empty macro or when
     * no file is chosen, otherwise the versioned envelope of the actions.
     */
    method SaveMacro(fileChosen: bool) returns (written: Option<Value>)
      ensures written.Some? <==> actions != [] && fileChosen
      ensures written.Some? ==> written == Save(actions)
      ensures written.Some? ==> Load(written.value) == Ok(actions)
    {
      if actions == [] {
        return None;
      }
      if !fileChosen {
        return None;
      }
      written := Save(actions);
      LoadSaved(actions);
    }

    /**
     * Load a macro (`None`: no file chosen; `Err`: the file could not be
     * read or decoded). Recording stops first; on any failure the action list
     * is unchanged, otherwise it is replaced by the loaded actions.
     */
    method LoadMacro(file: Option<Result<Value, string>>) returns (reply: Reply)
      requires Valid()
      modifies this`recording, this`actions
      ensures Valid() && !recording
      ensures file.Some? && file.value.Ok? && Load(file.value.value).Ok? ==>
        reply == Accepted && actions == Load(file.value.value).value
      ensures !(file.Some? && file.value.Ok? && Load(file.value.value).Ok?) ==>
        reply != Accepted && actions == old(actions)
    {
      if recording {
        StopRecording();
      }
      if file.None? {
        return Ignored;
      }
      if file.value.Err? {
        return Refused(file.value.error);
      }
      var loaded := Load(file.value.value);
      if loaded.Err? {
        return Refused(loaded.error);
      }
      actions := loaded.value;
      reply := Accepted;
    }

    /**
     * Start playback: refused while recording, ignored while playing, refused
     * for an empty macro; otherwise the stop flag is cleared and playing starts.
     */
    method PlayMacro() returns (reply: Reply)
      requires Valid()
      modifies this`playing, this`playbackStop
      ensures Valid()
      ensures old(recording) ==> reply.Refused? && playing == old(playing) && playbackStop == old(playbackStop)
      ensures !old(recording) && old(playing) ==> reply == Ignored && playing && playbackStop == old(playbackStop)
      ensures !old(recording) && !old(playing) && actions == [] ==> reply.Refused? && !playing && playbackStop == old(playbackStop)
      ensures !old(recording) && !old(playing) && actions != [] ==> reply == Accepted && playing && !playbackStop
    {
      if recording {
        return Refused("Stop recording before playback.");
      }
      if playing {
        return Ignored;
      }
      if actions == [] {
        return Refused("Record or load a macro first.");
      }
      playbackStop := false;
      playing := true;
      reply := Accepted;
    }

    /** Ask a running playback to stop. */
    method StopPlayback()
      modifies this`playbackStop
      ensures playbackStop == (old(playbackStop) || playing)
    {
      if !playing {
        return;
      }
      playbackStop := true;
    }

    /** The playback worker: play a snapshot of the actions and report how it ended. */
    method PlayWorker(stop: StopFlag, host: Host) returns (run: Run)
      modifies this`pending
      ensures run == Play(actions, stop, host)
      ensures pending == old(pending) + [EndEvent(run.end)]
    {
      run := RunSchedule(actions, stop, host);
      pending := pending + [EndEvent(run.end)];
    }

    /** Closing the window: recording ends, a running playback is told to stop and the hotkeys go. */
    method Close()
      requires Valid()
      modifies this`recording, this`playbackStop, this`hotkeyListener
      ensures Valid() && !recording && playbackStop && hotkeyListener.None?
    {
      recording := false;
      playbackStop := true;
      hotkeyListener := None;
    }

    /**
     * The interface thread takes every queued event, oldest first; a
     * playback's done, stopped or error event ends playing.
     */
    method DrainQueue()
      requires Valid()
      modifies this`pending, this`playing
      ensures Valid()
      ensures pending == []
      ensures playing == (old(playing) && forall k :: 0 <= k < |old(pending)| ==> old(pending)[k].ActionAdded?)
    {
      var k := 0;
      ghost var queued := pending;
      while pending != []
        invariant Valid()
        invariant 0 <= k <= |queued| && pending == queued[k..]
        invariant playing == (old(playing) && forall j :: 0 <= j < k ==> queued[j].ActionAdded?)
        decreases |pending|
      {
        var event := pending[0];
        pending := pending[1..];
        if !event.ActionAdded? {
          playing := false;
        }
        k := k + 1;
      }
    }
  }
}
