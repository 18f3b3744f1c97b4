/**
 * Recorded actions: the records the listeners build, the controller
 * commands a record replays as, the rounding of timestamps, and the macro
 * file's envelope.
 */
module Actions {
  import opened Wrappers
  import opened Json
  import opened Keys

  /** One recorded action: a JSON object with a "kind", a time "t" and kind-specific fields. */
  type Action = Json.Object

  /** A command sent to the mouse or keyboard controller during playback. */
  datatype Command =
    | MoveTo(x: int, y: int)
    | Press(button: string)
    | Release(button: string)
    | Scroll(dx: int, dy: int)
    | KeyDown(key: Key)
    | KeyUp(key: Key)

  /**
   * What the platform provides: the special keys of the keyboard library,
   * the names of the mouse buttons, and the interpreter's reading of numbers
   * written as text.
   */
  datatype Host = Host(specials: SpecialKeys, buttons: set<string>, text: TextNumbers)

  /** The record of a pointer move. */
  function MoveRecord(x: int, y: int): Action {
    map["kind" := Str("mouse_move"), "x" := Int(x), "y" := Int(y)]
  }

  /** The record of a mouse button going down or up. */
  function ClickRecord(x: int, y: int, button: string, pressed: bool): Action {
    map["kind" := Str("mouse_click"), "x" := Int(x), "y" := Int(y), "button" := Str(button), "pressed" := Bool(pressed)]
  }

  /** The record of a scroll. */
  function ScrollRecord(x: int, y: int, dx: int, dy: int): Action {
    map["kind" := Str("mouse_scroll"), "x" := Int(x), "y" := Int(y), "dx" := Int(dx), "dy" := Int(dy)]
  }

  /** The record of a key press ("press") or release ("release"). */
  function KeyRecord(key: Key, phase: string): (a: Action)
    ensures a.Keys == {"key_type", "value", "kind", "phase"}
  {
    SerializeKey(key)["kind" := Str("key")]["phase" := Str(phase)]
  }

  /** An action with its time stamped in. */
  function Stamp(a: Action, t: real): Action {
    a["t" := Num(t)]
  }

  /** A mouse button by name; an unknown name means the left button. */
  function ButtonFromName(name: string, host: Host): (b: string)
    ensures name in host.buttons ==> b == name
    ensures name !in host.buttons ==> b == "left"
  {
    if name in host.buttons then name else "left"
  }

  /**
   * The controller commands one action replays as, or the error its fields
   * raise: a move, a button press or release, a scroll, a key press or
   * release; a key the action does not name, and an unknown kind, replay as
   * nothing.
   */
  function Execute(a: Action, host: Host): (r: Result<seq<Command>, string>)
    ensures r.Ok? ==> |r.value| <= 1
    ensures Get(a, "kind", Null) !in {Str("mouse_move"), Str("mouse_click"), Str("mouse_scroll"), Str("key")} ==> r == Ok([])
    ensures r.Err? ==> Get(a, "kind", Null) in {Str("mouse_move"), Str("mouse_scroll")}
    ensures Get(a, "kind", Null) == Str("key") ==>
      match DeserializeKey(a, host.specials)
      case None => r == Ok([])
      case Some(k) => r == Ok([if Get(a, "phase", Null) == Str("press") then KeyDown(k) else KeyUp(k)])
  {
    var kind := Get(a, "kind", Null);
    if kind == Str("mouse_move") then
      var x :- ToInt(Get(a, "x", Int(0)), host.text);
      var y :- ToInt(Get(a, "y", Int(0)), host.text);
      Ok([MoveTo(x, y)])
    else if kind == Str("mouse_click") then
      var name := Get(a, "button", Str("left"));
      var btn := ButtonFromName(if name.Str? then name.s else "", host);
      if Truthy(Get(a, "pressed", Null)) then Ok([Press(btn)]) else Ok([Release(btn)])
    else if kind == Str("mouse_scroll") then
      var dx :- ToInt(Get(a, "dx", Int(0)), host.text);
      var dy :- ToInt(Get(a, "dy", Int(0)), host.text);
      Ok([Scroll(dx, dy)])
    else if kind == Str("key") then
      match DeserializeKey(a, host.specials)
      case None => Ok([])
      case Some(k) => if Get(a, "phase", Null) == Str("press") then Ok([KeyDown(k)]) else Ok([KeyUp(k)])
    else
      Ok([])
  }

  /** A recorded move replays as a move to the same place. */
  lemma ReplayMove(x: int, y: int, t: real, host: Host)
    ensures Execute(Stamp(MoveRecord(x, y), t), host) == Ok([MoveTo(x, y)])
  {
  }

  /** A recorded button event replays as the same press or release of the same (known) button. */
  lemma ReplayClick(x: int, y: int, button: string, pressed: bool, t: real, host: Host)
    requires button in host.buttons
    ensures Execute(Stamp(ClickRecord(x, y, button, pressed), t), host)
         == Ok([if pressed then Press(button) else Release(button)])
  {
  }

  /** A recorded scroll replays as the same scroll. */
  lemma ReplayScroll(x: int, y: int, dx: int, dy: int, t: real, host: Host)
    ensures Execute(Stamp(ScrollRecord(x, y, dx, dy), t), host) == Ok([Scroll(dx, dy)])
  {
  }

  /**
   * A recorded key event replays as the same phase of a key with the same
   * character, virtual-key number or special name; a key that cannot be
   * read back is skipped.
   */
  lemma ReplayKey(key: Key, pressed: bool, t: real, host: Host)
    ensures var a := Stamp(KeyRecord(key, if pressed then "press" else "release"), t);
      && (Restorable(key, host.specials) ==>
            Execute(a, host) == Ok([if pressed then KeyDown(DeserializeKey(SerializeKey(key), host.specials).value)
                                    else KeyUp(DeserializeKey(SerializeKey(key), host.specials).value)]))
      && (!Restorable(key, host.specials) ==> Execute(a, host) == Ok([]))
  {
    var a := Stamp(KeyRecord(key, if pressed then "press" else "release"), t);
    DeserializeSerialized(key, host.specials);
    assert Get(a, "key_type", Null) == Get(SerializeKey(key), "key_type", Null);
    assert Get(a, "value", Null) == Get(SerializeKey(key), "value", Null);
    assert DeserializeKey(a, host.specials) == DeserializeKey(SerializeKey(key), host.specials);
  }

  /** Round half to even, as Python's `round` does for an exact tie. */
  function RoundHalfEven(x: real): (n: int)
    ensures x - 0.5 <= n as real <= x + 0.5
  {
    var f := x.Floor;
    var frac := x - f as real;
    if frac < 0.5 then f
    else if frac > 0.5 then f + 1
    else if f % 2 == 0 then f
    else f + 1
  }

  /** `round(x, 6)`: the nearest multiple of one microsecond. */
  function Round6(x: real): (r: real)
    ensures x >= 0.0 ==> r >= 0.0
    ensures x - 0.0000005 <= r <= x + 0.0000005
  {
    RoundHalfEven(x * 1000000.0) as real / 1000000.0
  }

  /** Rounding to even never reverses the order of two numbers. */
  lemma RoundHalfEvenMonotone(x: real, y: real)
    requires x <= y
    ensures RoundHalfEven(x) <= RoundHalfEven(y)
  {
    var fx, fy := x.Floor, y.Floor;
    if fx < fy {
      assert RoundHalfEven(x) <= fx + 1 <= fy <= RoundHalfEven(y);
    } else {
      assert fx == fy;
    }
  }

  /** Later clock readings never get earlier rounded timestamps. */
  lemma Round6Monotone(x: real, y: real)
    requires x <= y
    ensures Round6(x) <= Round6(y)
  {
    RoundHalfEvenMonotone(x * 1000000.0, y * 1000000.0);
  }

  /** The JSON list of a sequence of actions. */
  function AsJson(actions: seq<Action>): (items: seq<Value>)
    ensures |items| == |actions| && forall i :: 0 <= i < |actions| ==> items[i] == Obj(actions[i])
  {
    if actions == [] then [] else [Obj(actions[0])] + AsJson(actions[1..])
  }

  /** The saved file's document, `{"version": 1, "actions": [...]}`; an empty macro is not saved. */
  function Save(actions: seq<Action>): (doc: Option<Value>)
    ensures doc.None? <==> actions == []
    ensures doc.Some? ==> doc.value == Obj(map["version" := Int(1), "actions" := Arr(AsJson(actions))])
  {
    if actions == [] then None
    else Some(Obj(map["version" := Int(1), "actions" := Arr(AsJson(actions))]))
  }

  /** The dictionaries of a JSON list, in order; other elements are dropped. */
  function DictsOf(items: seq<Value>): (r: seq<Action>)
    ensures |r| <= |items|
    ensures forall a :: a in r <==> Obj(a) in items
  {
    if items == [] then []
    else if items[0].Obj? then [items[0].fields] + DictsOf(items[1..])
    else DictsOf(items[1..])
  }

  /**
   * The actions of a loaded document: the "actions" list of an object (which
   * must have one) or the document itself; anything but a list is refused.
   */
  function Load(data: Value): (r: Result<seq<Action>, string>)
    ensures data.Arr? ==> r == Ok(DictsOf(data.items))
    ensures data.Obj? && "actions" in data.fields && data.fields["actions"].Arr? ==>
      r == Ok(DictsOf(data.fields["actions"].items))
    ensures data.Obj? && "actions" !in data.fields ==> r.Err?
    ensures !data.Arr? && !data.Obj? ==> r.Err?
    ensures r.Ok? ==> data.Arr? || (data.Obj? && "actions" in data.fields && data.fields["actions"].Arr?)
  {
    var list :-
      if data.Obj? then
        if "actions" in data.fields then Ok(data.fields["actions"]) else Err("KeyError: 'actions'")
      else Ok(data);
    if list.Arr? then Ok(DictsOf(list.items))
    else Err("Invalid macro format: actions must be a list.")
  }

  /**
   * Keeping the dictionaries is an order-preserving filter: it works piece
   * by piece, keeps an object's dictionary and drops anything else.
   */
  lemma DictsOfAppend(a: seq<Value>, b: seq<Value>)
    ensures DictsOf(a + b) == DictsOf(a) + DictsOf(b)
    ensures forall v: Value :: v.Obj? ==> DictsOf([v]) == [v.fields]
    ensures forall v: Value :: !v.Obj? ==> DictsOf([v]) == []
  {
    DictsOfConcat(a, b);
    forall v: Value
      ensures DictsOf([v]) == if v.Obj? then [v.fields] else []
    {
      assert [v][1..] == [];
    }
  }

  /** The dictionaries of a concatenation, by induction on the first part. */
  lemma {:induction false} DictsOfConcat(a: seq<Value>, b: seq<Value>)
    ensures DictsOf(a + b) == DictsOf(a) + DictsOf(b)
  {
    if a == [] {
      assert a + b == b;
    } else {
      assert (a + b)[0] == a[0];
      assert (a + b)[1..] == a[1..] + b;
      DictsOfConcat(a[1..], b);
    }
  }

  /** A list made only of objects loses nothing when its dictionaries are kept. */
  lemma {:induction false} DictsOfAsJson(actions: seq<Action>)
    ensures DictsOf(AsJson(actions)) == actions
  {
    if actions != [] {
      DictsOfAsJson(actions[1..]);
      assert AsJson(actions)[1..] == AsJson(actions[1..]);
    }
  }

  /** Loading a saved macro gives back the same actions, in the same order. */
  lemma LoadSaved(actions: seq<Action>)
    requires actions != []
    ensures Load(Save(actions).value) == Ok(actions)
  {
    DictsOfAsJson(actions);
  }

  /** A bare list of actions loads as well as the envelope does. */
  lemma LoadBareList(actions: seq<Action>)
    ensures Load(Arr(AsJson(actions))) == Ok(actions)
  {
    DictsOfAsJson(actions);
  }
}
