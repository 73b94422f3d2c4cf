/**
 * The Trigger Session as a pure transition system: what one keydown (`keyHandler`)
 * or one blur (`blurHandler`) does to the directive's session fields, which side
 * effects it requests from the page, and how it ends.  The class in `Directive`
 * performs the same steps by updating its fields and is proved equal to these
 * functions.
 */
module Mention {
  import opened JsText
  import opened Candidates
  import opened Platform
  import opened Keys

  /** The fields of the suggestion list component that the directive writes. */
  datatype ListView = ListView(items: seq<Item>, hidden: bool, searchString: Option<string>)

  /** The directive's session fields. `startPos < 0` means "no trigger being tracked";
      `searchList` is None until the first trigger creates the list. */
  datatype Session = Session(startPos: int, stopSearch: bool, searchString: Option<string>,
                             searchList: Option<ListView>)

  /** The effective configuration. */
  datatype Config = Config(triggerChar: JsValue, keyCodeSpecified: bool, labelKey: string,
                           disableSearch: bool, maxItems: int, filterKeys: seq<string>,
                           insertHtml: bool, mentionSelect: Option<Item -> string>)

  /** What one keystroke reads from the page: the editable's value, the caret offset
      (`getCaretPosition` with the iframe), `navigator.userAgent` and `navigator.platform`,
      the length of the node the trigger was typed in, the word before the caret
      (`getWordFromCaretPosition`), the caret offset read without the iframe, and the
      list's active item. */
  datatype Env = Env(value: string, caret: nat, userAgent: string, platform: string,
                     startNodeLength: nat, word: string, wordCaret: nat, activeItem: Item)

  /** Requests to the page and the list, in the order they are made. */
  datatype Effect =
    | PreventDefault
    | RestoreCaret(offset: int)
    | ShowList
    | EmitSearchTerm(term: string)
    | InsertValue(start: int, end: int, asHtml: bool, text: string)
    | DispatchInput
    | ActivateNext
    | ActivatePrevious

  /** How a handler ends: normally, by returning false (which also cancels the event),
      or with a TypeError. */
  datatype Outcome = Completed | ReturnedFalse | Threw(error: TypeError)

  datatype StepResult = StepResult(session: Session, effects: seq<Effect>, outcome: Outcome)

  /** A session that never tracks without a list: the trigger always creates it. */
  predicate Consistent(s: Session)
  {
    s.startPos >= 0 ==> s.searchList.Some?
  }

  /** The session fields of a freshly constructed directive. */
  function InitialSession(): Session
  {
    Session(-1, false, None, None)
  }

  /** The list fields `showSearchList` leaves on a component it creates. */
  function NewList(): ListView
  {
    ListView([], false, None)
  }

  /** The default `mentionSelect`: the trigger concatenated with the item's label
      (`+` renders a missing label as "undefined", or gives NaN next to a number). */
  function DefaultMentionSelect(triggerChar: JsValue, labelKey: string, item: Item): (text: string)
    ensures Field(item, labelKey).Some? ==> text == ToStr(triggerChar) + Field(item, labelKey).value
    ensures Field(item, labelKey).Some? && triggerChar.Str? ==> StartsWith(text, triggerChar.s)
  {
    match Field(item, labelKey)
    case Some(name) => ToStr(triggerChar) + name
    case None => if triggerChar.Str? then triggerChar.s + "undefined" else "NaN"
  }

  /** The text inserted for a selected item. */
  function MentionSelect(cfg: Config, item: Item): string
  {
    if cfg.mentionSelect.Some? then cfg.mentionSelect.value(item)
    else DefaultMentionSelect(cfg.triggerChar, cfg.labelKey, item)
  }

  /** `stopEvent`: cancels the event unless it is the replayed click. */
  function StopEvent(ev: KeyEvent): seq<Effect>
  {
    if ev.wasClick then [] else [PreventDefault]
  }

  /** `updateSearchList`: the visible candidates, written into the list when there is one. */
  function UpdateSearchList(cfg: Config, items: Option<seq<Item>>, s: Session): Result<Session>
  {
    match VisibleCandidates(items, cfg.disableSearch, s.searchString, cfg.filterKeys, cfg.maxItems)
    case Fail(err) => Fail(err)
    case Ok(matches) =>
      if s.searchList.None? then Ok(s)
      else
        var listSearch := if s.searchString.Some? then Some(ToLower(s.searchString.value))
                          else s.searchList.value.searchString;
        Ok(s.(searchList := Some(ListView(matches, |matches| == 0, listSearch))))
  }

  /** The end of a step that calls `updateSearchList` last: the updated session, or the
      session before the update together with the TypeError the filter threw. */
  function Finish(r: Result<Session>, s: Session, effects: seq<Effect>): StepResult
  {
    match r
    case Ok(updated) => StepResult(updated, effects, Completed)
    case Fail(err) => StepResult(s, effects, Threw(err))
  }

  /** The value after `trim` (an empty value stays empty). */
  function Value(env: Env): string
  {
    Trim(env.value)
  }

  function OsOf(env: Env): Option<Os>
  {
    GetPlatform(env.userAgent, env.platform)
  }

  /** On Android a non-empty value without '@' makes the handler return at once. */
  predicate AndroidHalt(env: Env)
  {
    OsOf(env) == Some(Android) && |Value(env)| > 0 && IndexOf(Value(env), '@') == -1
  }

  function Pressed(cfg: Config, ev: KeyEvent, env: Env): JsValue
  {
    ResolveChar(cfg.keyCodeSpecified, cfg.triggerChar, ev, Value(env), env.caret)
  }

  /** What `keyHandler` computes once before it branches: the pressed character, the
      trimmed value, and whether the browser is Android. */
  datatype KeyRead = KeyRead(charPressed: JsValue, value: string, android: bool)

  function Read(cfg: Config, ev: KeyEvent, env: Env): KeyRead
  {
    KeyRead(Pressed(cfg, ev, env), Value(env), OsOf(env) == Some(Android))
  }

  /** Enter replayed from a list click with the caret before the trigger. */
  predicate RestoresCaret(s: Session, ev: KeyEvent, env: Env)
  {
    ev.keyCode == KeyEnter && ev.wasClick && env.caret < s.startPos
  }

  function Caret(s: Session, ev: KeyEvent, env: Env): int
  {
    if RestoresCaret(s, ev, env) then env.startNodeLength else env.caret
  }

  function Prelude(s: Session, ev: KeyEvent, env: Env): seq<Effect>
  {
    if RestoresCaret(s, ev, env) then [RestoreCaret(env.startNodeLength)] else []
  }

  /** A trigger is being tracked and the search has not been stopped. */
  predicate Tracking(s: Session)
  {
    s.startPos >= 0 && !s.stopSearch
  }

  /** Neither a lone Shift nor a key combined with Meta, Alt or Ctrl. */
  predicate Unmodified(ev: KeyEvent)
  {
    ev.keyCode != KeyShift && !ev.metaKey && !ev.altKey && !ev.ctrlKey
  }

  /** The list is there and shown. */
  predicate Visible(s: Session)
  {
    s.searchList.Some? && !s.searchList.value.hidden
  }

  /** `keyHandler` */
  function Step(cfg: Config, items: Option<seq<Item>>, s: Session, ev: KeyEvent, env: Env): StepResult
  {
    if AndroidHalt(env) then StepResult(s, [], Completed)
    else
      var k := Read(cfg, ev, env);
      if k.charPressed == cfg.triggerChar then
        OpenSession(cfg, items, s, Caret(s, ev, env), Prelude(s, ev, env))
      else if Tracking(s) then
        TrackedStep(cfg, items, s, ev, env, k, Caret(s, ev, env), Prelude(s, ev, env))
      else WordStep(cfg, items, s, ev, env, k, Prelude(s, ev, env))
  }

  /** The trigger: start tracking at the caret, clear the search, show the list and
      fill it with all candidates. */
  function OpenSession(cfg: Config, items: Option<seq<Item>>, s: Session, pos: int, fx: seq<Effect>): StepResult
  {
    var list := if s.searchList.Some? then s.searchList.value.(searchString := None) else NewList();
    var started := Session(pos, false, None, Some(list));
    Finish(UpdateSearchList(cfg, items, started), started, fx + [ShowList])
  }

  /** Set the search string, announce it, and refresh the list. */
  function Search(cfg: Config, items: Option<seq<Item>>, s: Session, mention: string, fx: seq<Effect>): StepResult
  {
    var searching := s.(searchString := Some(mention));
    Finish(UpdateSearchList(cfg, items, searching), searching, fx + [EmitSearchTerm(mention)])
  }

  /** Tab or Enter on a shown list: the span `[start, end)` is replaced by the active
      item's text, an input event is fired, the list is hidden and the search cleared. */
  function Commit(cfg: Config, s: Session, list: ListView, ev: KeyEvent, env: Env,
                  start: int, end: int, fx: seq<Effect>): StepResult
  {
    StepResult(s.(searchString := None, searchList := Some(list.(hidden := true, searchString := None))),
               fx + StopEvent(ev)
                  + [InsertValue(start, end, cfg.insertHtml, MentionSelect(cfg, env.activeItem)), DispatchInput],
               ReturnedFalse)
  }

  /** Escape on a shown list: hide it and stop the search. */
  function Abort(s: Session, list: ListView, ev: KeyEvent, fx: seq<Effect>): StepResult
  {
    StepResult(s.(stopSearch := true, searchList := Some(list.(hidden := true))), fx + StopEvent(ev), ReturnedFalse)
  }

  /** Down or Up on a shown list: move the active item. */
  function Navigate(s: Session, ev: KeyEvent, fx: seq<Effect>, move: Effect): StepResult
  {
    StepResult(s, fx + StopEvent(ev) + [move], ReturnedFalse)
  }

  /** The text between the trigger and the caret (on Android the key's character is
      already in the value, so the span is shifted back by one). */
  function TrackedSpan(val: string, startPos: int, pos: int, android: bool): string
  {
    if android then Substring(val, startPos, pos - 1) else Substring(val, startPos + 1, pos)
  }

  /** A key while a trigger is tracked. */
  function TrackedStep(cfg: Config, items: Option<seq<Item>>, s: Session, ev: KeyEvent, env: Env, k: KeyRead,
                       pos: int, fx: seq<Effect>): StepResult
  {
    if pos <= s.startPos then
      if s.searchList.None? then StepResult(s, fx, Threw(UndefinedProperty("hidden")))
      else StepResult(s.(searchList := Some(s.searchList.value.(hidden := true))), fx, Completed)
    else if !Unmodified(ev) then StepResult(s, fx, Completed)
    else TrackedEdit(cfg, items, s, ev, env, k, pos, fx)
  }

  /** An unmodified key after the trigger: Space, Backspace, the list keys, or text. */
  function TrackedEdit(cfg: Config, items: Option<seq<Item>>, s: Session, ev: KeyEvent, env: Env, k: KeyRead,
                       pos: int, fx: seq<Effect>): StepResult
  {
    if ev.keyCode == KeySpace then
      Extend(cfg, items, s.(startPos := -1), ev, k, pos, fx)
    else if ev.keyCode == KeyBackspace && pos > 0 then
      var stop := if pos - 1 == 0 then true else s.stopSearch;
      if s.searchList.None? then StepResult(s.(stopSearch := stop), fx, Threw(UndefinedProperty("hidden")))
      else Extend(cfg, items, s.(stopSearch := stop, searchList := Some(s.searchList.value.(hidden := stop))),
                  ev, k, pos - 1, fx)
    else if s.searchList.None? then StepResult(s, fx, Threw(UndefinedProperty("hidden")))
    else if !s.searchList.value.hidden && (ev.keyCode == KeyTab || ev.keyCode == KeyEnter) then
      Commit(cfg, s.(startPos := -1), s.searchList.value, ev, env, s.startPos, pos, fx)
    else if !s.searchList.value.hidden && ev.keyCode == KeyEscape then Abort(s, s.searchList.value, ev, fx)
    else if !s.searchList.value.hidden && ev.keyCode == KeyDown then Navigate(s, ev, fx, ActivateNext)
    else if !s.searchList.value.hidden && ev.keyCode == KeyUp then Navigate(s, ev, fx, ActivatePrevious)
    else Extend(cfg, items, s, ev, k, pos, fx)
  }

  /** The rest of a tracked key: Left and Right are swallowed; any other key recomputes
      the search string from the value (plus the key's character unless it is Backspace). */
  function Extend(cfg: Config, items: Option<seq<Item>>, s: Session, ev: KeyEvent, k: KeyRead,
                  pos: int, fx: seq<Effect>): StepResult
  {
    if ev.keyCode == KeyLeft || ev.keyCode == KeyRight then StepResult(s, fx + StopEvent(ev), ReturnedFalse)
    else
      var span := TrackedSpan(k.value, s.startPos, pos, k.android);
      var mention := if ev.keyCode != KeyBackspace then span + ToStr(k.charPressed) else span;
      Search(cfg, items, s, mention, fx)
  }

  /** A key while no trigger is tracked: only a word at the caret that starts with the
      trigger is acted on. */
  function WordStep(cfg: Config, items: Option<seq<Item>>, s: Session, ev: KeyEvent, env: Env, k: KeyRead,
                    fx: seq<Effect>): StepResult
  {
    if !StartsWith(env.word, ToStr(cfg.triggerChar)) then StepResult(s, fx, Completed)
    else
      var w := Substring(env.word, 1, |env.word|);
      var pos := env.wordCaret;
      var editStart := pos - |w|;
      if !Unmodified(ev) || pos < editStart then StepResult(s, fx, Completed)
      else if ev.keyCode == KeySpace then StepResult(s, fx, Completed)
      else if ev.keyCode == KeyBackspace && pos > 0 then
        var stop := pos - 1 == 0 || pos - 1 < editStart;
        if s.searchList.None? then StepResult(s.(stopSearch := stop), fx, Threw(UndefinedProperty("hidden")))
        else
          var stopped := s.(stopSearch := stop, searchList := Some(s.searchList.value.(hidden := stop)));
          if stop then StepResult(stopped, fx, Completed)
          else Search(cfg, items, stopped, Substring(w, 0, |w| - 1), fx)
      else if s.searchList.None? then StepResult(s, fx, Threw(UndefinedProperty("hidden")))
      else if !s.searchList.value.hidden && (ev.keyCode == KeyTab || ev.keyCode == KeyEnter) then
        Commit(cfg, s, s.searchList.value, ev, env, editStart - 1, pos, fx)
      else if !s.searchList.value.hidden && ev.keyCode == KeyEscape then Abort(s, s.searchList.value, ev, fx)
      else if !s.searchList.value.hidden && ev.keyCode == KeyDown then Navigate(s, ev, fx, ActivateNext)
      else if !s.searchList.value.hidden && ev.keyCode == KeyUp then Navigate(s, ev, fx, ActivatePrevious)
      else Search(cfg, items, s, if ev.keyCode != KeyBackspace then w + ToStr(k.charPressed) else w, fx)
  }

  /** `blurHandler`: except on iOS, cancel the event, stop the search and hide the list. */
  function Blur(s: Session, userAgent: string, platform: string): (Session, seq<Effect>)
  {
    if GetPlatform(userAgent, platform) == Some(IOS) then (s, [])
    else
      var list := if s.searchList.Some? then Some(s.searchList.value.(hidden := true)) else None;
      (s.(stopSearch := true, searchList := list), [PreventDefault])
  }

  /** `ngOnInit` after the items were normalised: an open, shown list is refreshed when
      the items given were non-empty. */
  function Refresh(cfg: Config, given: Option<seq<Item>>, items: Option<seq<Item>>, s: Session): (Session, Option<TypeError>)
  {
    if given.Some? && given.value != [] && Visible(s) then
      match UpdateSearchList(cfg, items, s)
      case Ok(updated) => (updated, None)
      case Fail(err) => (s, Some(err))
    else (s, None)
  }
}
