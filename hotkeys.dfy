/**
 * Validation of the recorder's four global hotkeys and the set of hotkey
 * parts whose keys are kept out of recordings.
 */
module Hotkeys {
  import opened Wrappers
  import opened Text
  import opened Keys

  /** The four hotkeys, in the order they are read and checked. */
  datatype Slot = RecordStart | RecordStop | PlayStart | PlayStop

  const Slots: seq<Slot> := [RecordStart, RecordStop, PlayStart, PlayStop]

  /** The hotkeys the recorder starts with. */
  const DefaultTexts: seq<string> := ["<f9>", "<f10>", "<f11>", "<f12>"]

  /** Why a set of hotkeys is refused. */
  datatype HotkeyError = Missing(slot: Slot) | NotUnique | Invalid(slot: Slot, reason: string)

  /** The input library's hotkey parser: the parts of a hotkey, or its `ValueError`. */
  type Parser = string -> Result<seq<Part>, string>

  /** Accepted hotkeys: each hotkey text bound to its command, and the parts to suppress. */
  datatype Bindings = Bindings(commands: map<string, Slot>, suppress: seq<Part>)

  /** Hotkey text compared for uniqueness: stripped, lower-cased, spaces removed. */
  function Normalize(value: string): (r: string)
    ensures ' ' !in r
    ensures forall c :: c in r ==> !('A' <= c <= 'Z')
  {
    RemoveSpaces(Lower(Strip(value)))
  }

  /** Normalising does not look at surrounding whitespace. */
  lemma NormalizeStripped(value: string)
    ensures Normalize(Strip(value)) == Normalize(value)
  {
    StripIdempotent(value);
  }

  /** No element occurs twice. */
  predicate Distinct<T(==)>(s: seq<T>) {
    forall i, j :: 0 <= i < j < |s| ==> s[i] != s[j]
  }

  /** The set of the elements of a sequence (Python's `set(s)`). */
  function Elements<T>(s: seq<T>): set<T> {
    set x | x in s
  }

  /** `len(set(s)) == len(s)` exactly when no element occurs twice. */
  lemma {:induction false} DistinctIffFullSet<T>(s: seq<T>)
    ensures |Elements(s)| <= |s|
    ensures |Elements(s)| == |s| <==> Distinct(s)
  {
    if s != [] {
      var init, last := s[..|s| - 1], s[|s| - 1];
      DistinctIffFullSet(init);
      assert s == init + [last];
      assert Elements(s) == Elements(init) + {last};
      if last in Elements(init) {
        assert Elements(s) == Elements(init);
        var k :| 0 <= k < |init| && init[k] == last;
        assert s[k] == s[|s| - 1];
      } else {
        assert |Elements(s)| == |Elements(init)| + 1;
        if Distinct(init) {
          forall i, j | 0 <= i < j < |s|
            ensures s[i] != s[j]
          {
            if j == |s| - 1 {
              assert init[i] in Elements(init);
            } else {
              assert s[i] == init[i] && s[j] == init[j];
            }
          }
        } else {
          var i, j :| 0 <= i < j < |init| && init[i] == init[j];
          assert s[i] == s[j];
        }
      }
    }
  }

  /** The first blank hotkey, if any. */
  function FirstBlank(values: seq<string>): (r: Option<nat>)
    ensures r.Some? ==> r.value < |values| && values[r.value] == []
    ensures r.Some? ==> forall j :: 0 <= j < r.value ==> values[j] != []
    ensures r.None? <==> forall j :: 0 <= j < |values| ==> values[j] != []
  {
    if values == [] then None
    else if values[0] == [] then Some(0)
    else match FirstBlank(values[1..])
      case Some(i) => Some(i + 1)
      case None => None
  }

  /** The parts of a hotkey that consists of exactly one key; nothing for a combination. */
  function SingleKey(parsed: seq<Part>): seq<Part> {
    if |parsed| == 1 then parsed else []
  }

  /**
   * Parse every hotkey in order: the first failure with its position, or the
   * parts of the single-key hotkeys, in order.
   */
  function ParseAll(values: seq<string>, parse: Parser): (r: Result<seq<Part>, (nat, string)>)
    ensures r.Err? ==> r.error.0 < |values| && parse(values[r.error.0]) == Err(r.error.1)
    ensures r.Err? ==> forall j :: 0 <= j < r.error.0 ==> parse(values[j]).Ok?
    ensures r.Ok? <==> forall j :: 0 <= j < |values| ==> parse(values[j]).Ok?
    ensures r.Ok? ==> |r.value| <= |values|
    decreases |values|
  {
    if values == [] then Ok([])
    else
      var init := values[..|values| - 1];
      var last := values[|values| - 1];
      assert forall j :: 0 <= j < |init| ==> init[j] == values[j];
      match ParseAll(init, parse)
      case Err(e) => Err(e)
      case Ok(parts) =>
        match parse(last)
        case Err(msg) => Err((|values| - 1, msg))
        case Ok(p) => Ok(parts + SingleKey(p))
  }

  /** The four hotkey texts, stripped. */
  function StripAll(raw: seq<string>): (values: seq<string>)
    ensures |values| == |raw| && forall i :: 0 <= i < |raw| ==> values[i] == Strip(raw[i])
  {
    seq(|raw|, i requires 0 <= i < |raw| => Strip(raw[i]))
  }

  /** The normalised form of each hotkey text. */
  function NormalizeAll(values: seq<string>): (n: seq<string>)
    ensures |n| == |values| && forall i :: 0 <= i < |values| ==> n[i] == Normalize(values[i])
  {
    seq(|values|, i requires 0 <= i < |values| => Normalize(values[i]))
  }

  /** Each of four hotkey texts bound to its command (a later equal text overrides an earlier one). */
  function BindCommands(values: seq<string>): (m: map<string, Slot>)
    requires |values| == 4
    ensures m.Keys == {values[0], values[1], values[2], values[3]}
  {
    map[values[0] := RecordStart, values[1] := RecordStop, values[2] := PlayStart, values[3] := PlayStop]
  }

  /** Four distinct texts give four bindings, each text to its own command. */
  lemma BindCommandsDistinct(values: seq<string>)
    requires |values| == 4 && Distinct(values)
    ensures |BindCommands(values)| == 4
    ensures forall i :: 0 <= i < 4 ==> BindCommands(values)[values[i]] == Slots[i]
  {
    var m := BindCommands(values);
    assert values[0] != values[1] && values[0] != values[2] && values[0] != values[3];
    assert values[1] != values[2] && values[1] != values[3] && values[2] != values[3];
    assert m[values[0]] == RecordStart && m[values[1]] == RecordStop;
    assert m[values[2]] == PlayStart && m[values[3]] == PlayStop;
  }

  /** Stripped texts with distinct normal forms are themselves distinct. */
  lemma {:induction false} NormalizedDistinct(values: seq<string>)
    requires Distinct(NormalizeAll(values))
    ensures Distinct(values)
  {
    var n := NormalizeAll(values);
    forall i, j | 0 <= i < j < |values|
      ensures values[i] != values[j]
    {
      assert n[i] != n[j];
    }
  }

  /**
   * The outcome of checking four stripped hotkey texts: refused when one is
   * blank, when two coincide after normalising, or when one does not parse
   * (the first such problem is reported); otherwise the bindings.
   */
  function Check(values: seq<string>, parse: Parser): Result<Bindings, HotkeyError>
    requires |values| == 4
  {
    if FirstBlank(values).Some? then Err(Missing(Slots[FirstBlank(values).value]))
    else if !Distinct(NormalizeAll(values)) then Err(NotUnique)
    else match ParseAll(values, parse)
      case Err((i, msg)) => Err(Invalid(Slots[i], msg))
      case Ok(parts) => Ok(Bindings(BindCommands(values), parts))
  }

  /** The outcome of applying four hotkey texts as typed: they are stripped, then checked. */
  function Validate(raw: seq<string>, parse: Parser): Result<Bindings, HotkeyError>
    requires |raw| == 4
  {
    Check(StripAll(raw), parse)
  }

  /**
   * Hotkeys are accepted iff none is blank, no two coincide after
   * normalising, and all parse; then each of the four distinct texts is bound
   * to its own command.
   */
  lemma {:induction false} ValidateAccepts(raw: seq<string>, parse: Parser)
    requires |raw| == 4
    ensures var values := StripAll(raw);
      Validate(raw, parse).Ok? <==>
        && (forall i :: 0 <= i < 4 ==> values[i] != [])
        && Distinct(NormalizeAll(values))
        && (forall i :: 0 <= i < 4 ==> parse(values[i]).Ok?)
    ensures var values := StripAll(raw);
      Validate(raw, parse).Ok? ==>
        && |Validate(raw, parse).value.commands| == 4
        && (forall i :: 0 <= i < 4 ==>
              values[i] in Validate(raw, parse).value.commands && Validate(raw, parse).value.commands[values[i]] == Slots[i])
  {
    var values := StripAll(raw);
    if Validate(raw, parse).Ok? {
      NormalizedDistinct(values);
      BindCommandsDistinct(values);
    }
  }

  /** The suppressed parts of accepted hotkeys are exactly the parts of the single-key hotkeys. */
  lemma {:induction false} ParseAllSingleKeys(values: seq<string>, parse: Parser)
    requires ParseAll(values, parse).Ok?
    ensures forall p :: p in ParseAll(values, parse).value <==>
      exists j :: 0 <= j < |values| && parse(values[j]).value == [p]
    decreases |values|
  {
    if values != [] {
      var init := values[..|values| - 1];
      var last := values[|values| - 1];
      assert forall j :: 0 <= j < |init| ==> init[j] == values[j];
      ParseAllSingleKeys(init, parse);
      var p := parse(last).value;
      assert ParseAll(values, parse).value == ParseAll(init, parse).value + SingleKey(p);
      forall q | q in ParseAll(values, parse).value
        ensures exists j :: 0 <= j < |values| && parse(values[j]).value == [q]
      {
        if q !in ParseAll(init, parse).value {
          assert |p| == 1 && p == [q];
          assert parse(values[|values| - 1]).value == [q];
        } else {
          var j :| 0 <= j < |init| && parse(init[j]).value == [q];
          assert parse(values[j]).value == [q];
        }
      }
      forall q, j | 0 <= j < |values| && parse(values[j]).value == [q]
        ensures q in ParseAll(values, parse).value
      {
        if j < |init| {
          assert parse(init[j]).value == [q];
        } else {
          assert SingleKey(p) == [q];
        }
      }
    }
  }

  /** The first blank text is found where it is. */
  lemma {:induction false} FirstBlankAt(values: seq<string>, i: nat)
    requires i < |values| && values[i] == []
    requires forall j :: 0 <= j < i ==> values[j] != []
    ensures FirstBlank(values) == Some(i)
  {
    var f := FirstBlank(values);
    assert f.Some?;
  }

  /** Once a prefix fails to parse, the whole sequence fails with the same error. */
  lemma {:induction false} ParseAllPrefixErr(values: seq<string>, k: nat, parse: Parser)
    requires k <= |values| && ParseAll(values[..k], parse).Err?
    ensures ParseAll(values, parse) == ParseAll(values[..k], parse)
    decreases |values| - k
  {
    if k < |values| {
      var v := values[..k + 1];
      assert v[..|v| - 1] == values[..k];
      assert ParseAll(v, parse) == ParseAll(values[..k], parse);
      ParseAllPrefixErr(values, k + 1, parse);
    } else {
      assert values[..k] == values;
    }
  }

  /** Parsing one more text extends the parse of the prefix. */
  lemma ParseAllStep(values: seq<string>, i: nat, parse: Parser, parts: seq<Part>)
    requires i < |values| && ParseAll(values[..i], parse) == Ok(parts)
    ensures parse(values[i]).Err? ==> ParseAll(values[..i + 1], parse) == Err((i, parse(values[i]).error))
    ensures parse(values[i]).Ok? ==> ParseAll(values[..i + 1], parse) == Ok(parts + SingleKey(parse(values[i]).value))
  {
    var v := values[..i + 1];
    assert v[..|v| - 1] == values[..i];
  }

  /** A blank hotkey is reported by the first slot that is blank. */
  lemma {:induction false} ValidateMissing(raw: seq<string>, parse: Parser, i: nat)
    requires |raw| == 4 && i < 4
    requires Strip(raw[i]) == []
    requires forall j :: 0 <= j < i ==> Strip(raw[j]) != []
    ensures Validate(raw, parse) == Err(Missing(Slots[i]))
  {
    FirstBlankAt(StripAll(raw), i);
  }

  /** Two texts that differ only in case or spaces are refused as duplicates. */
  lemma {:induction false} ValidateDuplicate(raw: seq<string>, parse: Parser, i: nat, j: nat)
    requires |raw| == 4 && i < j < 4
    requires forall k :: 0 <= k < 4 ==> Strip(raw[k]) != []
    requires Normalize(Strip(raw[i])) == Normalize(Strip(raw[j]))
    ensures Validate(raw, parse) == Err(NotUnique)
  {
    var values := StripAll(raw);
    var n := NormalizeAll(values);
    assert FirstBlank(values).None?;
    assert n[i] == n[j];
  }

  /**
   * `_build_hotkey_bindings`: refuse a blank hotkey, then duplicates (by the
   * size of the set of normalised texts), then parse each hotkey in order,
   * collecting the parts of single-key hotkeys.
   */
  method BuildHotkeyBindings(raw: seq<string>, parse: Parser) returns (r: Result<Bindings, HotkeyError>)
    requires |raw| == 4
    ensures r == Validate(raw, parse)
  {
    var values := StripAll(raw);
    var i := 0;
    while i < 4
      invariant 0 <= i <= 4
      invariant forall j :: 0 <= j < i ==> values[j] != []
    {
      if values[i] == [] {
        FirstBlankAt(values, i);
        return Err(Missing(Slots[i]));
      }
      i := i + 1;
    }
    assert FirstBlank(values).None?;
    var normalized := NormalizeAll(values);
    var unique := set v | v in normalized;
    DistinctIffFullSet(normalized);
    if |unique| != 4 {
      return Err(NotUnique);
    }
    var suppress: seq<Part> := [];
    i := 0;
    assert values[..0] == [];
    while i < 4
      invariant 0 <= i <= 4
      invariant ParseAll(values[..i], parse) == Ok(suppress)
    {
      var parsed := parse(values[i]);
      ParseAllStep(values, i, parse, suppress);
      if parsed.Err? {
        ParseAllPrefixErr(values, i + 1, parse);
        return Err(Invalid(Slots[i], parsed.error));
      }
      if |parsed.value| == 1 {
        suppress := suppress + parsed.value;
      } else {
        assert suppress + SingleKey(parsed.value) == suppress;
      }
      i := i + 1;
    }
    assert values[..4] == values;
    r := Ok(Bindings(BindCommands(values), suppress));
  }
}
