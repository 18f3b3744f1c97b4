/**
 * Keyboard keys as the input library reports them, how a configured hotkey
 * part is matched against a pressed key, and how a key is written into and
 * read back from a recorded action.
 */
module Keys {
  import opened Wrappers
  import opened Text
  import opened Json

  /** A key code: a virtual-key number, a character, both or neither. */
  datatype KeyCode = KeyCode(vk: Option<int>, ch: Option<string>)

  /**
   * A key event's key: a named special key (a member of the library's key
   * enumeration, whose value is the platform's key code for it) or a plain
   * key code.
   */
  datatype Key = Special(name: string, value: Option<KeyCode>) | Code(code: KeyCode)

  /** One element of a parsed hotkey: a key (special or key code) or bare text. */
  datatype Part = KeyPart(key: Key) | TextPart(text: string)

  /** The names of the library's special keys and the platform value of each. */
  type SpecialKeys = map<string, Option<KeyCode>>

  /** `KeyCode.from_char(c)`. */
  function FromChar(c: string): KeyCode {
    KeyCode(None, Some(c))
  }

  /** `KeyCode.from_vk(vk)`. */
  function FromVk(vk: int): KeyCode {
    KeyCode(Some(vk), None)
  }

  /**
   * Two key codes match when both have a virtual-key number and the numbers
   * agree; failing that, when both have a character and the characters agree
   * ignoring case; otherwise they do not match.
   */
  predicate KeyCodeMatches(a: KeyCode, b: KeyCode)
    ensures a == b && (a.vk.Some? || a.ch.Some?) ==> KeyCodeMatches(a, b)
    ensures a.vk.Some? && b.vk.Some? && a.vk != b.vk ==> !KeyCodeMatches(a, b)
  {
    if a.vk.Some? && b.vk.Some? then a.vk.value == b.vk.value
    else if a.ch.Some? && b.ch.Some? then Lower(a.ch.value) == Lower(b.ch.value)
    else false
  }

  /** The key code a pressed key is compared through: its own, or a special key's value. */
  function CodeOf(key: Key): Option<KeyCode> {
    match key
    case Code(c) => Some(c)
    case Special(_, v) => v
  }

  /**
   * Whether a hotkey part matches a pressed key: a special-key part by
   * equality, a key-code part through `KeyCodeMatches`, a text part by the
   * key's character ignoring case.
   */
  predicate PartMatchesKey(part: Part, key: Key)
    ensures key.Special? && part == KeyPart(key) ==> PartMatchesKey(part, key)
    ensures key.Code? && (key.code.vk.Some? || key.code.ch.Some?) && part == KeyPart(key) ==> PartMatchesKey(part, key)
    ensures CodeOf(key).None? ==> (PartMatchesKey(part, key) <==> part == KeyPart(key))
  {
    match part
    case KeyPart(Special(_, _)) => key == part.key
    case KeyPart(Code(c)) => CodeOf(key).Some? && KeyCodeMatches(c, CodeOf(key).value)
    case TextPart(s) =>
      CodeOf(key).Some? && CodeOf(key).value.ch.Some? && Lower(CodeOf(key).value.ch.value) == Lower(s)
  }

  /** A key is suppressed from recording iff some hotkey part matches it. */
  predicate Suppressed(parts: seq<Part>, key: Key) {
    exists i :: 0 <= i < |parts| && PartMatchesKey(parts[i], key)
  }

  /** A special key whose value is a key code is matched by key-code and text parts as that code is. */
  lemma MatchThroughSpecialValue(part: Part, name: string, v: KeyCode)
    requires !(part.KeyPart? && part.key.Special?)
    ensures PartMatchesKey(part, Special(name, Some(v))) == PartMatchesKey(part, Code(v))
  {
  }

  /** Key-code matching ignores the case of characters and is symmetric. */
  lemma KeyCodeMatchesIgnoresCase(a: KeyCode, b: KeyCode)
    ensures KeyCodeMatches(a, b) == KeyCodeMatches(b, a)
    ensures a.vk.None? && a.ch.Some? && b.ch.Some? ==>
      KeyCodeMatches(a, b) == (Lower(a.ch.value) == Lower(b.ch.value))
    ensures KeyCodeMatches(KeyCode(None, Some("Q")), KeyCode(None, Some("q")))
    ensures KeyCodeMatches(KeyCode(None, Some("\U{00C9}")), KeyCode(None, Some("\U{00E9}")))
    ensures KeyCodeMatches(KeyCode(None, Some("\U{0416}")), KeyCode(Some(7), Some("\U{0436}")))
  {
    assert Lower("Q") == "q";
    assert Lower("\U{00C9}") == "\U{00E9}";
    assert Lower("\U{0416}") == "\U{0436}";
  }

  /**
   * The key fields of a recorded key action: a character is preferred, then
   * a virtual-key number; a key code with neither is tagged "text"; a special
   * key is written by name.
   */
  function SerializeKey(key: Key): (p: Json.Object)
    ensures p.Keys == {"key_type", "value"}
    ensures key.Code? && key.code.ch.Some? ==> p["key_type"] == Str("char") && p["value"] == Str(key.code.ch.value)
    ensures key.Code? && key.code.ch.None? && key.code.vk.Some? ==> p["key_type"] == Str("vk") && p["value"] == Int(key.code.vk.value)
    ensures key.Code? && key.code.ch.None? && key.code.vk.None? ==> p["key_type"] == Str("text")
    ensures key.Special? ==> p["key_type"] == Str("special") && p["value"] == Str(key.name)
  {
    match key
    case Code(KeyCode(_, Some(c))) => map["key_type" := Str("char"), "value" := Str(c)]
    case Code(KeyCode(Some(vk), None)) => map["key_type" := Str("vk"), "value" := Int(vk)]
    case Code(KeyCode(None, None)) => map["key_type" := Str("text"), "value" := Null]
    case Special(name, _) => map["key_type" := Str("special"), "value" := Str(name)]
  }

  /**
   * The key a recorded key action names, or `None`: a non-empty "char"
   * string, a "vk" integer (a `bool` counts as one) or the name of a known
   * special key; anything else names no key.
   */
  function DeserializeKey(p: Json.Object, specials: SpecialKeys): (k: Option<Key>)
    ensures k.Some? ==> Get(p, "key_type", Null) in {Str("char"), Str("vk"), Str("special")}
    ensures Get(p, "key_type", Null) == Str("text") ==> k.None?
    ensures k.Some? && k.value.Special? ==> k.value.name in specials && k.value.value == specials[k.value.name]
    ensures var value := Get(p, "value", Null);
      Get(p, "key_type", Null) == Str("char") ==>
        && (k.Some? <==> value.Str? && value.s != [])
        && (k.Some? ==> k.value == Code(FromChar(value.s)))
    ensures var value := Get(p, "value", Null);
      Get(p, "key_type", Null) == Str("vk") ==>
        && (k.Some? <==> value.Int? || value.Bool?)
        && (value.Int? ==> k == Some(Code(FromVk(value.i))))
        && (value.Bool? ==> k == Some(Code(FromVk(if value.b then 1 else 0))))
    ensures var value := Get(p, "value", Null);
      Get(p, "key_type", Null) == Str("special") ==>
        && (k.Some? <==> value.Str? && value.s in specials)
        && (k.Some? ==> k.value == Special(value.s, specials[value.s]))
  {
    var keyType := Get(p, "key_type", Null);
    var value := Get(p, "value", Null);
    if keyType == Str("char") && value.Str? && value.s != [] then
      Some(Code(FromChar(value.s)))
    else if keyType == Str("vk") && value.Int? then
      Some(Code(FromVk(value.i)))
    else if keyType == Str("vk") && value.Bool? then
      Some(Code(FromVk(if value.b then 1 else 0)))
    else if keyType == Str("special") && value.Str? && value.s in specials then
      Some(Special(value.s, specials[value.s]))
    else
      None
  }

  /** The keys whose serialised form reads back as a key. */
  predicate Restorable(key: Key, specials: SpecialKeys) {
    match key
    case Code(KeyCode(_, Some(c))) => c != []
    case Code(KeyCode(vk, None)) => vk.Some?
    case Special(name, _) => name in specials
  }

  /**
   * Reading back a serialised key gives a key with the same character, the
   * same virtual-key number or the same special-key name; empty characters,
   * "text" keys and unknown special names read back as no key.
   */
  lemma DeserializeSerialized(key: Key, specials: SpecialKeys)
    ensures var k := DeserializeKey(SerializeKey(key), specials);
      && (k.Some? <==> Restorable(key, specials))
      && (k.Some? && key.Code? && key.code.ch.Some? ==> k.value == Code(FromChar(key.code.ch.value)))
      && (k.Some? && key.Code? && key.code.ch.None? ==> k.value == key)
      && (k.Some? && key.Special? ==> k.value == Special(key.name, specials[key.name]))
  {
  }
}
