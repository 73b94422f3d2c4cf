/**
 * Keyboard events as the directive reads them, and the resolution of the
 * pressed character (`charPressed`) from an event.
 */
module Keys {
  import opened JsText

  const KeyBackspace := 8
  const KeyTab := 9
  const KeyEnter := 13
  const KeyShift := 16
  const KeyEscape := 27
  const KeySpace := 32
  const KeyLeft := 37
  const KeyUp := 38
  const KeyRight := 39
  const KeyDown := 40
  const Key2 := 50
  /** The key code browsers report while an input method is composing. */
  const KeyComposing := 229

  /** The fields of a keydown event the directive reads; `which` is 0 when absent,
      `key` is None when absent, and absent modifier flags are false. */
  datatype KeyEvent = KeyEvent(keyCode: nat, key: Option<string>, which: nat,
                               shiftKey: bool, metaKey: bool, altKey: bool, ctrlKey: bool,
                               wasClick: bool)

  /** The event replayed when a list item is clicked: `{keyCode: 13, wasClick: true}`. */
  function ClickEvent(): KeyEvent
  {
    KeyEvent(KeyEnter, None, 0, false, false, false, false, true)
  }

  /** `keyCodeSpecified`: the configured trigger is a number, i.e. a key code. */
  predicate KeyCodeSpecified(triggerChar: JsValue)
  {
    triggerChar.Num?
  }

  /** `keyCodeSpecified ? event.keyCode : event.key` */
  function RawPressed(keyCodeSpecified: bool, ev: KeyEvent): JsValue
  {
    if keyCodeSpecified then Num(ev.keyCode)
    else if ev.key.Some? then Str(ev.key.value)
    else Undefined
  }

  /** `event.which || event.keyCode` */
  function CharCode(ev: KeyEvent): nat
  {
    if ev.which != 0 then ev.which else ev.keyCode
  }

  /** `charPressed` after the fallbacks: the key code when the trigger is a key code,
      otherwise `event.key`; when that is missing, an unshifted letter code gives its
      lower-case letter, shift with the `2` key gives the trigger, anything else its
      `fromCharCode`; an uncommitted input-method key gives the character of `val` (the
      trimmed value) at the offset before the caret `pos`. */
  function ResolveChar(keyCodeSpecified: bool, triggerChar: JsValue, ev: KeyEvent, val: string, pos: int): (c: JsValue)
    ensures keyCodeSpecified && ev.keyCode != 0 ==> c == Num(ev.keyCode)
    ensures (!keyCodeSpecified && ev.key.Some? && ev.key.value != ""
             && !(ev.key.value == "Unidentified" && ev.keyCode == KeyComposing)) ==> c == Str(ev.key.value)
    ensures !keyCodeSpecified && ev.key == Some("Unidentified") && ev.keyCode == KeyComposing ==>
            c == Str(CharAt(val, pos - 1))
    ensures !Truthy(RawPressed(keyCodeSpecified, ev)) && !ev.shiftKey && 65 <= CharCode(ev) <= 90 ==>
            c == Str([LowerChar(CharCode(ev) as char)]) && 'a' <= LowerChar(CharCode(ev) as char) <= 'z'
    ensures !Truthy(RawPressed(keyCodeSpecified, ev)) && ev.shiftKey && CharCode(ev) == Key2 ==> c == triggerChar
    ensures !Truthy(RawPressed(keyCodeSpecified, ev)) ==> c == triggerChar || (c.Str? && |c.s| == 1)
    ensures (!Truthy(RawPressed(keyCodeSpecified, ev)) && !(!ev.shiftKey && 65 <= CharCode(ev) <= 90)
             && !(ev.shiftKey && CharCode(ev) == Key2)) ==> c == Str(FromCharCode(CharCode(ev)))
  {
    var raw := RawPressed(keyCodeSpecified, ev);
    if !Truthy(raw) then
      var code := CharCode(ev);
      if !ev.shiftKey && 65 <= code <= 90 then Str(FromCharCode(code + 32))
      else if ev.shiftKey && code == Key2 then triggerChar
      else Str(FromCharCode(code))
    else if raw == Str("Unidentified") && ev.keyCode == KeyComposing then Str(CharAt(val, pos - 1))
    else raw
  }
}
