/**
 * The autoclicker's configuration: the twelve fields with their defaults,
 * the merge that applies only recognised keys, the typed view the clicker
 * works from, the overrides the command line contributes, and the hotkey
 * table built from the two configured keys.
 */
module ClickConfig {
  import opened Wrappers
  import opened Json

  /** A configuration as its field map (the dataclass as a dictionary). */
  type Config = map<string, Value>

  const Fields: set<string> := {
    "interval_sec", "jitter_sec", "button", "double_click", "click_count", "duration_sec",
    "fixed_position", "x", "y", "failsafe_corner_stop", "toggle_key", "quit_key"
  }

  /** The built-in configuration: 10 clicks per second, left button, F8 toggles, Esc quits. */
  const Defaults: Config := map[
    "interval_sec" := Num(0.10), "jitter_sec" := Num(0.0), "button" := Str("left"),
    "double_click" := Bool(false), "click_count" := Int(0), "duration_sec" := Num(0.0),
    "fixed_position" := Bool(false), "x" := Int(0), "y" := Int(0),
    "failsafe_corner_stop" := Bool(true), "toggle_key" := Str("<f8>"), "quit_key" := Str("<esc>")
  ]

  /**
   * `merge_config`: every override whose key is a field replaces that
   * field; other keys are ignored and unnamed fields keep their value.
   */
  function Merge(base: Config, overrides: map<string, Value>): (r: Config)
    ensures r.Keys == base.Keys
    ensures forall k :: k in base ==> r[k] == (if k in overrides then overrides[k] else base[k])
  {
    map k | k in base :: if k in overrides then overrides[k] else base[k]
  }

  /** Empty overrides give back the base configuration. */
  lemma MergeNothing(base: Config)
    ensures Merge(base, map[]) == base
  {
    assert Merge(base, map[]).Keys == base.Keys;
  }

  /** Keys that are not fields of the base play no part. */
  lemma MergeIgnoresUnknown(base: Config, overrides: map<string, Value>)
    ensures Merge(base, overrides) == Merge(base, map k | k in overrides && k in base :: overrides[k])
  {
    var known := map k | k in overrides && k in base :: overrides[k];
    forall k | k in base
      ensures Merge(base, overrides)[k] == Merge(base, known)[k]
    {
    }
  }

  /** Merging twice is merging once with the union, the later overrides winning. */
  lemma MergeTwice(base: Config, first: map<string, Value>, second: map<string, Value>)
    ensures Merge(Merge(base, first), second) == Merge(base, first + second)
  {
    var lhs := Merge(Merge(base, first), second);
    var rhs := Merge(base, first + second);
    forall k | k in base
      ensures lhs[k] == rhs[k]
    {
    }
  }

  /** Python's numeric view of a value: a bool is 1 or 0, an int or float itself. */
  function Number(v: Value): (r: Option<real>)
    ensures r.Some? <==> v.Int? || v.Num? || v.Bool?
  {
    match v
    case Int(i) => Some(i as real)
    case Num(x) => Some(x)
    case Bool(b) => Some(if b then 1.0 else 0.0)
    case _ => None
  }

  /** A whole number: an int, or a bool as 1 or 0. */
  function Whole(v: Value): (r: Option<int>)
    ensures r.Some? <==> v.Int? || v.Bool?
  {
    match v
    case Int(i) => Some(i)
    case Bool(b) => Some(if b then 1 else 0)
    case _ => None
  }

  /**
   * A limit or jitter: it is only compared when truthy, so a falsy value
   * (null, false, 0, "", an empty list or object) means none, and a truthy
   * value must be a number.
   */
  function Amount(v: Value): (r: Option<real>)
    ensures !Truthy(v) ==> r == Some(0.0)
    ensures Truthy(v) ==> r == Number(v)
    ensures r.Some? ==> (r.value != 0.0 <==> Truthy(v))
  {
    if Truthy(v) then Number(v) else Some(0.0)
  }

  /** A fixed coordinate: read only in fixed-position mode, where it must be whole. */
  function Coordinate(v: Value, fixed: bool): (r: Option<int>)
    ensures !fixed ==> r == Some(0)
    ensures fixed ==> r == Whole(v)
  {
    if fixed then Whole(v) else Some(0)
  }

  /** The configuration as the clicker uses it; flags are the fields' truthiness. */
  datatype Settings = Settings(
    interval: real, jitter: real, button: string, doubleClick: bool, clickCount: real,
    duration: real, fixedPosition: bool, x: int, y: int, failsafe: bool,
    toggleKey: string, quitKey: string)

  /** Whether a configuration holds values the clicker can work with. */
  predicate Decodable(c: Config) {
    && Fields <= c.Keys
    && Number(c["interval_sec"]).Some?
    && Amount(c["jitter_sec"]).Some?
    && c["button"].Str?
    && Amount(c["click_count"]).Some?
    && Amount(c["duration_sec"]).Some?
    && Coordinate(c["x"], Truthy(c["fixed_position"])).Some?
    && Coordinate(c["y"], Truthy(c["fixed_position"])).Some?
    && c["toggle_key"].Str?
    && c["quit_key"].Str?
  }

  /**
   * The typed view of a configuration: the interval as a number, jitter and
   * limits as `Amount`s, text where the clicker reads text, truthiness for
   * the flags, and the coordinates only in fixed-position mode; any other
   * configuration is an error naming the first field at fault.
   */
  function Decode(c: Config): (r: Result<Settings, string>)
    ensures r.Ok? <==> Decodable(c)
    ensures r.Ok? ==> r.value.interval == Number(c["interval_sec"]).value
    ensures r.Ok? ==> r.value.jitter == Amount(c["jitter_sec"]).value
    ensures r.Ok? ==> r.value.clickCount == Amount(c["click_count"]).value
    ensures r.Ok? ==> r.value.duration == Amount(c["duration_sec"]).value
    ensures r.Ok? ==> Str(r.value.button) == c["button"]
    ensures r.Ok? ==> r.value.doubleClick == Truthy(c["double_click"])
    ensures r.Ok? ==> r.value.fixedPosition == Truthy(c["fixed_position"])
    ensures r.Ok? && r.value.fixedPosition ==> Some(r.value.x) == Whole(c["x"]) && Some(r.value.y) == Whole(c["y"])
    ensures r.Ok? ==> r.value.failsafe == Truthy(c["failsafe_corner_stop"])
    ensures r.Ok? ==> Str(r.value.toggleKey) == c["toggle_key"] && Str(r.value.quitKey) == c["quit_key"]
  {
    if !(Fields <= c.Keys) then Err("missing field")
    else
      var fixed := Truthy(c["fixed_position"]);
      if Number(c["interval_sec"]).None? then Err("interval_sec must be a number")
      else if Amount(c["jitter_sec"]).None? then Err("jitter_sec must be a number")
      else if !c["button"].Str? then Err("button must be a string")
      else if Amount(c["click_count"]).None? then Err("click_count must be a number")
      else if Amount(c["duration_sec"]).None? then Err("duration_sec must be a number")
      else if Coordinate(c["x"], fixed).None? then Err("x must be an integer")
      else if Coordinate(c["y"], fixed).None? then Err("y must be an integer")
      else if !c["toggle_key"].Str? then Err("toggle_key must be a string")
      else if !c["quit_key"].Str? then Err("quit_key must be a string")
      else Ok(Settings(
        Number(c["interval_sec"]).value, Amount(c["jitter_sec"]).value, c["button"].s,
        Truthy(c["double_click"]), Amount(c["click_count"]).value, Amount(c["duration_sec"]).value,
        fixed, Coordinate(c["x"], fixed).value, Coordinate(c["y"], fixed).value,
        Truthy(c["failsafe_corner_stop"]), c["toggle_key"].s, c["quit_key"].s))
  }

  /** Null limits, jitter and an unused coordinate are accepted, as the clicker never compares them. */
  lemma DecodeNullLimits()
    ensures Decode(Merge(Defaults, map["click_count" := Null, "duration_sec" := Null, "jitter_sec" := Null, "x" := Null])).Ok?
  {
    var c := Merge(Defaults, map["click_count" := Null, "duration_sec" := Null, "jitter_sec" := Null, "x" := Null]);
    assert Defaults.Keys == Fields;
    assert c["click_count"] == Null && c["duration_sec"] == Null && c["jitter_sec"] == Null && c["x"] == Null;
    assert c["fixed_position"] == Bool(false) && c["interval_sec"] == Num(0.10) && c["y"] == Int(0);
    assert c["button"] == Str("left") && c["toggle_key"] == Str("<f8>") && c["quit_key"] == Str("<esc>");
    assert Decodable(c);
  }

  /** In fixed-position mode a null coordinate is refused. */
  lemma DecodeNullFixedCoordinate()
    ensures Decode(Merge(Defaults, map["fixed_position" := Bool(true), "x" := Null])).Err?
  {
    var c := Merge(Defaults, map["fixed_position" := Bool(true), "x" := Null]);
    assert c["fixed_position"] == Bool(true) && c["x"] == Null;
    assert Coordinate(c["x"], Truthy(c["fixed_position"])).None?;
  }

  /** The defaults decode to the documented settings. */
  lemma DecodeDefaults()
    ensures Decode(Defaults) == Ok(Settings(0.10, 0.0, "left", false, 0.0, 0.0, false, 0, 0, true, "<f8>", "<esc>"))
  {
    assert Defaults.Keys == Fields;
  }

  /**
   * The command line after parsing: each valued option is present or not,
   * and `--double`, `--fixed` and `--no-failsafe` are switches.
   */
  datatype CliArgs = CliArgs(
    config: Option<string>, interval: Option<real>, jitter: Option<real>, button: Option<string>,
    double: bool, count: Option<int>, duration: Option<real>, fixed: bool,
    x: Option<int>, y: Option<int>, noFailsafe: bool,
    toggleKey: Option<string>, quitKey: Option<string>)

  function SetIf(m: map<string, Value>, given: bool, k: string, v: Value): (r: map<string, Value>)
    ensures forall j :: j in r <==> j in m || (given && j == k)
    ensures forall j :: j in r ==> r[j] == if given && j == k then v else m[j]
  {
    if given then m[k := v] else m
  }

  /** The options with a value, in the order `main` looks at them. */
  function ValuedOverrides(a: CliArgs): map<string, Value> {
    var m := map[];
    var m := SetIf(m, a.interval.Some?, "interval_sec", Num(if a.interval.Some? then a.interval.value else 0.0));
    var m := SetIf(m, a.jitter.Some?, "jitter_sec", Num(if a.jitter.Some? then a.jitter.value else 0.0));
    var m := SetIf(m, a.button.Some?, "button", Str(if a.button.Some? then a.button.value else ""));
    var m := SetIf(m, a.double, "double_click", Bool(true));
    var m := SetIf(m, a.count.Some?, "click_count", Int(if a.count.Some? then a.count.value else 0));
    SetIf(m, a.duration.Some?, "duration_sec", Num(if a.duration.Some? then a.duration.value else 0.0))
  }

  /** The overrides dictionary `main` builds from the command line, option by option. */
  function CliOverrides(a: CliArgs): (r: map<string, Value>)
    ensures r.Keys <= Fields
  {
    var m := ValuedOverrides(a);
    var m := SetIf(m, a.fixed, "fixed_position", Bool(true));
    var m := SetIf(m, a.x.Some?, "x", Int(if a.x.Some? then a.x.value else 0));
    var m := SetIf(m, a.y.Some?, "y", Int(if a.y.Some? then a.y.value else 0));
    var m := SetIf(m, a.noFailsafe, "failsafe_corner_stop", Bool(false));
    var m := SetIf(m, a.toggleKey.Some?, "toggle_key", Str(if a.toggleKey.Some? then a.toggleKey.value else ""));
    SetIf(m, a.quitKey.Some?, "quit_key", Str(if a.quitKey.Some? then a.quitKey.value else ""))
  }

  /** Whether the command line names field `k`. */
  predicate Given(a: CliArgs, k: string) {
    || (k == "interval_sec" && a.interval.Some?)
    || (k == "jitter_sec" && a.jitter.Some?)
    || (k == "button" && a.button.Some?)
    || (k == "double_click" && a.double)
    || (k == "click_count" && a.count.Some?)
    || (k == "duration_sec" && a.duration.Some?)
    || (k == "fixed_position" && a.fixed)
    || (k == "x" && a.x.Some?)
    || (k == "y" && a.y.Some?)
    || (k == "failsafe_corner_stop" && a.noFailsafe)
    || (k == "toggle_key" && a.toggleKey.Some?)
    || (k == "quit_key" && a.quitKey.Some?)
  }

  /** The overrides hold exactly the options that were given, all of them fields. */
  lemma CliOverridesGiven(a: CliArgs)
    ensures forall k :: k in CliOverrides(a) <==> Given(a, k)
    ensures CliOverrides(a).Keys <= Fields
  {
  }

  /** The three switches can only turn their flag one way. */
  lemma CliSwitchesOneWay(a: CliArgs)
    ensures "double_click" in CliOverrides(a) <==> a.double
    ensures "fixed_position" in CliOverrides(a) <==> a.fixed
    ensures "failsafe_corner_stop" in CliOverrides(a) <==> a.noFailsafe
    ensures a.double ==> CliOverrides(a)["double_click"] == Bool(true)
    ensures a.fixed ==> CliOverrides(a)["fixed_position"] == Bool(true)
    ensures a.noFailsafe ==> CliOverrides(a)["failsafe_corner_stop"] == Bool(false)
  {
  }

  /** Whether a config path is given (an empty path counts as none). */
  predicate ConfigGiven(a: CliArgs) {
    a.config.Some? && a.config.value != []
  }

  /** What the config file contributes: its object's fields, or nothing without a path. */
  function FileLayer(a: CliArgs, file: Result<Value, string>): map<string, Value> {
    if ConfigGiven(a) && file.Ok? && file.value.Obj? then file.value.fields else map[]
  }

  /**
   * The configuration `main` ends with: the defaults, merged with the file's
   * object when a config path is given, then with the command-line
   * overrides. A file that cannot be read, or whose content is not an
   * object, is an error.
   */
  function Resolve(a: CliArgs, file: Result<Value, string>): (r: Result<Config, string>)
    ensures r.Err? <==> ConfigGiven(a) && (file.Err? || !file.value.Obj?)
    ensures r.Ok? ==> r.value.Keys == Fields
  {
    if ConfigGiven(a) then
      match file
      case Err(e) => Err(e)
      case Ok(Obj(fields)) => Ok(Merge(Merge(Defaults, fields), CliOverrides(a)))
      case Ok(_) => Err("config file must hold an object")
    else Ok(Merge(Defaults, CliOverrides(a)))
  }

  /**
   * An option left off the command line never overrides the file: each
   * field is the command line's value when given, else the file's, else
   * the default; without a config path the file contributes nothing.
   */
  lemma ResolveLayers(a: CliArgs, file: Result<Value, string>, k: string)
    requires k in Fields && (ConfigGiven(a) ==> file.Ok? && file.value.Obj?)
    ensures Given(a, k) ==> Resolve(a, file).value[k] == CliOverrides(a)[k]
    ensures !Given(a, k) && k in FileLayer(a, file) ==> Resolve(a, file).value[k] == FileLayer(a, file)[k]
    ensures !Given(a, k) && k !in FileLayer(a, file) ==> Resolve(a, file).value[k] == Defaults[k]
  {
    var layer := FileLayer(a, file);
    var over := CliOverrides(a);
    assert Resolve(a, file).value == Merge(Merge(Defaults, layer), over) by {
      if !ConfigGiven(a) {
        MergeNothing(Defaults);
        assert Merge(Defaults, layer) == Defaults;
      }
    }
    assert Defaults.Keys == Fields;
    assert Merge(Defaults, layer)[k] == if k in layer then layer[k] else Defaults[k];
    CliOverridesGiven(a);
    assert k in over <==> Given(a, k);
  }

  /** What a hotkey does. */
  datatype HotkeyAction = ToggleClicking | Quit

  /** The hotkey table: a dictionary literal, so a quit key equal to the toggle key replaces it. */
  function HotkeyTable(toggleKey: string, quitKey: string): (r: map<string, HotkeyAction>)
    ensures r.Keys == {toggleKey, quitKey}
    ensures r[quitKey] == Quit
    ensures toggleKey != quitKey ==> r[toggleKey] == ToggleClicking
  {
    map[toggleKey := ToggleClicking][quitKey := Quit]
  }

  /** Identical toggle and quit keys are accepted, and the toggle is lost. */
  lemma SameKeysLoseToggle(key: string)
    ensures HotkeyTable(key, key) == map[key := Quit]
    ensures ToggleClicking !in HotkeyTable(key, key).Values
  {
  }
}
