/**
 * What the keystroke and blur transitions promise: how a trigger opens a session,
 * how the search string follows the text typed after it, where a selection is
 * inserted, which keys leave the session alone, when a handler throws, and that
 * tracking never happens without a list.
 */
module MentionLaws {
  import opened JsText
  import opened Candidates
  import opened Platform
  import opened Keys
  import opened Mention

  // ---------------------------------------------------------------------------
  // The editable's text after the key takes effect

  /** The value after the browser inserts `c` at the caret. */
  function InsertAt(val: string, pos: int, c: string): (r: string)
    requires 0 <= pos <= |val|
    ensures |r| == |val| + |c| && r[pos..pos + |c|] == c
  {
    val[..pos] + c + val[pos..]
  }

  /** The value after Backspace deletes the character before the caret. */
  function DeleteBefore(val: string, pos: int): (r: string)
    requires 0 < pos <= |val|
    ensures |r| == |val| - 1 && r[..pos - 1] == val[..pos - 1]
  {
    val[..pos - 1] + val[pos..]
  }

  /** The span a keystroke computes from the value before the character is inserted,
      extended by that character, is the span after the insertion. */
  lemma SpanAfterInsert(val: string, startPos: int, pos: int, c: string)
    requires 0 <= startPos < pos <= |val|
    ensures Substring(InsertAt(val, pos, c), startPos + 1, pos + |c|) == Substring(val, startPos + 1, pos) + c
  {
    var v := InsertAt(val, pos, c);
    assert v[startPos + 1..pos + |c|] == v[startPos + 1..pos] + v[pos..pos + |c|];
    assert v[startPos + 1..pos] == val[startPos + 1..pos];
  }

  /** The span Backspace computes (ending one before the caret) is the span after the deletion. */
  lemma SpanAfterDelete(val: string, startPos: int, pos: int)
    requires 0 <= startPos && startPos + 1 < pos <= |val|
    ensures Substring(DeleteBefore(val, pos), startPos + 1, pos - 1) == Substring(val, startPos + 1, pos - 1)
  {
    var v := DeleteBefore(val, pos);
    assert v[startPos + 1..pos - 1] == v[..pos - 1][startPos + 1..];
  }

  /** The search string once `c` is typed at `pos`, read from the value `val` the handler
      sees (the page's value after `trim`): the text of `val` between the trigger at
      `startPos` and the caret after the insertion; on Android, where the value is read
      with `c` already in it, the span from the trigger up to one before the caret,
      followed by `c`. Either way it is what the handler computes from the value it reads.
      The offsets are the page's own, so they agree with `val` only when the page's value
      does not start with white space (`TermOfPageValue`, `LeadingSpaceShiftsTerm`). */
  function TypedTerm(val: string, startPos: int, pos: int, c: string, android: bool): (r: string)
    requires 0 <= startPos < pos <= |val|
    ensures r == TrackedSpan(val, startPos, pos, android) + c
  {
    if android then Substring(val, startPos, pos - 1) + c
    else SpanAfterInsert(val, startPos, pos, c); Substring(InsertAt(val, pos, c), startPos + 1, pos + |c|)
  }

  /** On Android the page has already inserted the typed character `c` at `at` when the
      key is handled, and the caret is after it. The term is then the text from the
      trigger itself up to the insertion point, followed by `c`: unlike on other
      platforms, the trigger character is part of the search string. */
  lemma AndroidTypedTerm(before: string, startPos: int, at: int, c: char)
    requires 0 <= startPos < at <= |before|
    ensures TypedTerm(InsertAt(before, at, [c]), startPos, at + 1, [c], true) == before[startPos..at] + [c]
  {
  }

  /** The handler reads its span from the trimmed value at offsets taken in the untrimmed
      one. When the page's value does not start with white space the two agree: off
      Android the term is then the text between the trigger and the caret in the page's
      own value once the character is inserted. */
  lemma TermOfPageValue(env: Env, startPos: int, c: string)
    requires env.value == [] || !IsJsSpace(env.value[0])
    requires 0 <= startPos < env.caret <= |Value(env)|
    ensures TypedTerm(Value(env), startPos, env.caret, c, false)
            == Substring(InsertAt(env.value, env.caret, c), startPos + 1, env.caret + |c|)
  {
    TrimKeepsOffsets(env.value);
    assert Value(env)[startPos + 1..env.caret] == env.value[startPos + 1..env.caret];
    SpanAfterInsert(env.value, startPos, env.caret, c);
  }

  /** With leading white space they do not agree: in the value " @bo" with the trigger at 1 and the
      caret at 3, typing "x" searches for "ox" (the term `TypedTerm` gives for the trimmed
      value), while the page shows "bx" after the trigger. */
  lemma LeadingSpaceShiftsTerm(v: string)
    requires v == " @bo"
    ensures TrackedSpan(Trim(v), 1, 3, false) + "x" == "ox"
    ensures Substring(InsertAt(v, 3, "x"), 2, 4) == "bx"
  {
    assert IsJsSpace(v[0]) && v[1..] == "@bo";
    var u := v[1..];
    assert !IsJsSpace(u[0]) && !IsJsSpace(u[|u| - 1]);
    assert TrimStart(v) == u;
    assert Trim(v) == u;
    assert Substring(u, 2, 3) == "o";
    assert InsertAt(v, 3, "x")[2..4] == "bx";
  }

  /** The search string once Backspace deletes the character before `pos`, read from the
      trimmed value `val`: the text of `val` between the trigger and the caret after the
      deletion; on Android, where the value is read after the deletion, the span from the
      trigger up to two before the caret. Either way it is what the handler computes from
      the value it reads. */
  function BackspacedTerm(val: string, startPos: int, pos: int, android: bool): (r: string)
    requires 0 <= startPos && startPos + 1 < pos <= |val|
    ensures r == TrackedSpan(val, startPos, pos - 1, android)
  {
    if android then Substring(val, startPos, pos - 2)
    else SpanAfterDelete(val, startPos, pos); Substring(DeleteBefore(val, pos), startPos + 1, pos - 1)
  }

  /** Everything before the caret (on Android, where the value is read with the key's
      character in it, everything before one before the caret): the span the handler
      computes once Space has reset the trigger offset to -1. */
  function TextBeforeCaret(val: string, pos: int, android: bool): (r: string)
    ensures r == TrackedSpan(val, -1, pos, android)
    ensures r == val[..Clamp(if android then pos - 1 else pos, |val|)]
  {
    Substring(val, 0, if android then pos - 1 else pos)
  }

  /** With the trigger at 0 and the caret moved back to 0, `substring(1, 0)` swaps its
      bounds and yields the trigger character (on Android `substring(0, -1)`, the empty string). */
  lemma SpanAtStart(val: string, android: bool)
    ensures TrackedSpan(val, 0, 0, android) == if android || val == [] then "" else val[..1]
  {
  }

  // ---------------------------------------------------------------------------
  // Which branch a keystroke takes

  /** The trigger key opens a session. */
  lemma StepOnTrigger(cfg: Config, items: Option<seq<Item>>, s: Session, ev: KeyEvent, env: Env)
    requires !AndroidHalt(env) && Pressed(cfg, ev, env) == cfg.triggerChar
    ensures Step(cfg, items, s, ev, env) == OpenSession(cfg, items, s, Caret(s, ev, env), Prelude(s, ev, env))
  {
  }

  /** Any other key, while tracking, takes the tracked branch. */
  lemma StepWhileTracking(cfg: Config, items: Option<seq<Item>>, s: Session, ev: KeyEvent, env: Env)
    requires !AndroidHalt(env) && Pressed(cfg, ev, env) != cfg.triggerChar && Tracking(s)
    ensures Step(cfg, items, s, ev, env)
            == TrackedStep(cfg, items, s, ev, env, Read(cfg, ev, env), Caret(s, ev, env), Prelude(s, ev, env))
  {
  }

  /** Any other key, while not tracking, takes the word branch. */
  lemma StepOnWord(cfg: Config, items: Option<seq<Item>>, s: Session, ev: KeyEvent, env: Env)
    requires !AndroidHalt(env) && Pressed(cfg, ev, env) != cfg.triggerChar && !Tracking(s)
    ensures Step(cfg, items, s, ev, env) == WordStep(cfg, items, s, ev, env, Read(cfg, ev, env), Prelude(s, ev, env))
  {
  }

  // ---------------------------------------------------------------------------
  // Opening a session

  /** The trigger (even in the middle of another search) starts tracking at the caret,
      clears the search string, shows the list with all candidates up to `maxItems`, and
      never throws. */
  lemma TriggerOpensSession(cfg: Config, items: Option<seq<Item>>, s: Session, ev: KeyEvent, env: Env)
    requires !AndroidHalt(env) && Pressed(cfg, ev, env) == cfg.triggerChar
    ensures var r := Step(cfg, items, s, ev, env);
            var all := if items.Some? then Cap(items.value, cfg.maxItems) else [];
            && r.outcome == Completed
            && r.effects == Prelude(s, ev, env) + [ShowList]
            && r.session.startPos == Caret(s, ev, env)
            && Tracking(r.session) == (Caret(s, ev, env) >= 0)
            && r.session.searchString.None?
            && r.session.searchList == Some(ListView(all, all == [], None))
  {
    StepOnTrigger(cfg, items, s, ev, env);
  }

  // ---------------------------------------------------------------------------
  // The tracked keys, for any pressed character, value and platform

  /** `r` is what searching for `term` from session `s` gives after the effects `fx`: the
      term is announced and stored, the trigger offset and the stop flag are kept, and the
      list shows the visible candidates for the term (shown even when it was hidden, and
      empty-flagged when none match), or the filter's error is thrown and the list is left
      as it was. */
  predicate Searched(cfg: Config, items: Option<seq<Item>>, s: Session, fx: seq<Effect>, term: string, r: StepResult)
  {
    var m := VisibleCandidates(items, cfg.disableSearch, Some(term), cfg.filterKeys, cfg.maxItems);
    && r.effects == fx + [EmitSearchTerm(term)]
    && r.session.searchString == Some(term)
    && r.session.startPos == s.startPos && r.session.stopSearch == s.stopSearch
    && (m.Ok? ==> r.outcome == Completed
                  && r.session.searchList == Some(ListView(m.value, m.value == [], Some(ToLower(term)))))
    && (m.Fail? ==> r.outcome == Threw(m.error) && r.session.searchList == s.searchList)
  }

  /** A search step does what `Searched` describes. */
  lemma SearchStoresTerm(cfg: Config, items: Option<seq<Item>>, s: Session, term: string, fx: seq<Effect>)
    requires s.searchList.Some?
    ensures Searched(cfg, items, s, fx, term, Search(cfg, items, s, term, fx))
  {
  }

  /** A key that is neither Space, Backspace, an arrow, nor a list key on a shown list
      extends the span by its character. */
  lemma EditTyped(cfg: Config, items: Option<seq<Item>>, s: Session, ev: KeyEvent, env: Env, k: KeyRead,
                  pos: int, fx: seq<Effect>)
    requires s.searchList.Some?
    requires ev.keyCode != KeySpace && ev.keyCode != KeyBackspace && ev.keyCode != KeyLeft && ev.keyCode != KeyRight
    requires !Visible(s) || (ev.keyCode != KeyTab && ev.keyCode != KeyEnter && ev.keyCode != KeyEscape
                             && ev.keyCode != KeyUp && ev.keyCode != KeyDown)
    ensures TrackedEdit(cfg, items, s, ev, env, k, pos, fx)
            == Search(cfg, items, s, TrackedSpan(k.value, s.startPos, pos, k.android) + ToStr(k.charPressed), fx)
  {
  }

  /** Backspace searches the span ending one before the caret; the search stops when the
      caret reaches the start, and the list's hidden flag follows the stop flag. */
  lemma EditBackspace(cfg: Config, items: Option<seq<Item>>, s: Session, ev: KeyEvent, env: Env, k: KeyRead,
                      pos: int, fx: seq<Effect>)
    requires s.searchList.Some? && ev.keyCode == KeyBackspace && pos > 0
    ensures var stop := if pos - 1 == 0 then true else s.stopSearch;
            var t := s.(stopSearch := stop, searchList := Some(s.searchList.value.(hidden := stop)));
            TrackedEdit(cfg, items, s, ev, env, k, pos, fx)
            == Search(cfg, items, t, TrackedSpan(k.value, s.startPos, pos - 1, k.android), fx)
  {
  }

  /** Space ends the tracking and searches from the start of the value. */
  lemma EditSpace(cfg: Config, items: Option<seq<Item>>, s: Session, ev: KeyEvent, env: Env, k: KeyRead,
                  pos: int, fx: seq<Effect>)
    requires ev.keyCode == KeySpace
    ensures TrackedEdit(cfg, items, s, ev, env, k, pos, fx)
            == Search(cfg, items, s.(startPos := -1), TrackedSpan(k.value, -1, pos, k.android) + ToStr(k.charPressed), fx)
  {
  }

  lemma EditSwallowsArrows(cfg: Config, items: Option<seq<Item>>, s: Session, ev: KeyEvent, env: Env, k: KeyRead,
                           pos: int, fx: seq<Effect>)
    requires s.searchList.Some? && (ev.keyCode == KeyLeft || ev.keyCode == KeyRight)
    ensures TrackedEdit(cfg, items, s, ev, env, k, pos, fx) == StepResult(s, fx + StopEvent(ev), ReturnedFalse)
  {
  }

  lemma EditNavigates(cfg: Config, items: Option<seq<Item>>, s: Session, ev: KeyEvent, env: Env, k: KeyRead,
                      pos: int, fx: seq<Effect>)
    requires Visible(s) && (ev.keyCode == KeyDown || ev.keyCode == KeyUp)
    ensures TrackedEdit(cfg, items, s, ev, env, k, pos, fx)
            == StepResult(s, fx + StopEvent(ev) + [if ev.keyCode == KeyDown then ActivateNext else ActivatePrevious],
                          ReturnedFalse)
  {
  }

  lemma EditEscape(cfg: Config, items: Option<seq<Item>>, s: Session, ev: KeyEvent, env: Env, k: KeyRead,
                   pos: int, fx: seq<Effect>)
    requires Visible(s) && ev.keyCode == KeyEscape
    ensures TrackedEdit(cfg, items, s, ev, env, k, pos, fx)
            == StepResult(s.(stopSearch := true, searchList := Some(s.searchList.value.(hidden := true))),
                          fx + StopEvent(ev), ReturnedFalse)
  {
  }

  lemma EditCommits(cfg: Config, items: Option<seq<Item>>, s: Session, ev: KeyEvent, env: Env, k: KeyRead,
                    pos: int, fx: seq<Effect>)
    requires Visible(s) && (ev.keyCode == KeyTab || ev.keyCode == KeyEnter)
    ensures TrackedEdit(cfg, items, s, ev, env, k, pos, fx)
            == StepResult(Session(-1, s.stopSearch, None, Some(s.searchList.value.(hidden := true, searchString := None))),
                          fx + StopEvent(ev)
                             + [InsertValue(s.startPos, pos, cfg.insertHtml, MentionSelect(cfg, env.activeItem)),
                                DispatchInput],
                          ReturnedFalse)
  {
  }

  // ---------------------------------------------------------------------------
  // Extending and shrinking the search

  /** What a tracked keystroke needs to fall through to the search: not halted,
      not the trigger, no caret restore, caret after the trigger, no modifiers. */
  predicate TrackedText(cfg: Config, s: Session, ev: KeyEvent, env: Env)
  {
    && !AndroidHalt(env)
    && Pressed(cfg, ev, env) != cfg.triggerChar && !RestoresCaret(s, ev, env)
    && Tracking(s) && s.searchList.Some? && s.startPos < env.caret && Unmodified(ev)
  }

  /** Such a keystroke takes the tracked branch with the caret as read and nothing requested yet. */
  lemma TrackedTextReachesEdit(cfg: Config, items: Option<seq<Item>>, s: Session, ev: KeyEvent, env: Env)
    requires TrackedText(cfg, s, ev, env)
    ensures Read(cfg, ev, env) == KeyRead(Pressed(cfg, ev, env), Value(env), OsOf(env) == Some(Android))
    ensures Step(cfg, items, s, ev, env) == TrackedEdit(cfg, items, s, ev, env, Read(cfg, ev, env), env.caret, [])
  {
    StepWhileTracking(cfg, items, s, ev, env);
  }

  /** A character key after the trigger searches for the text of the trimmed value between
      the trigger and the caret as it is once the character is inserted (on Android, where
      the value already holds the character, the span from the trigger up to one before
      the caret, followed by the character). */
  lemma TypedKeyExtendsSearch(cfg: Config, items: Option<seq<Item>>, s: Session, ev: KeyEvent, env: Env, c: string)
    requires TrackedText(cfg, s, ev, env) && env.caret <= |Value(env)|
    requires Pressed(cfg, ev, env) == Str(c)
    requires (ev.keyCode != KeySpace && ev.keyCode != KeyBackspace && ev.keyCode != KeyLeft && ev.keyCode != KeyRight)
    requires !Visible(s) || (ev.keyCode != KeyTab && ev.keyCode != KeyEnter && ev.keyCode != KeyEscape && ev.keyCode != KeyUp && ev.keyCode != KeyDown)
    ensures var term := TypedTerm(Value(env), s.startPos, env.caret, c, OsOf(env) == Some(Android));
            Searched(cfg, items, s, [], term, Step(cfg, items, s, ev, env))
  {
    var k := Read(cfg, ev, env);
    TrackedTextReachesEdit(cfg, items, s, ev, env);
    EditTyped(cfg, items, s, ev, env, k, env.caret, []);
    SearchStoresTerm(cfg, items, s, TypedTerm(k.value, s.startPos, env.caret, c, k.android), []);
  }

  /** Backspace after the trigger searches for the text of the trimmed value between the
      trigger and the caret as it is once the character is deleted (on Android the span
      from the trigger up to two before the caret); it clears the list's hidden flag,
      which the search then sets exactly when nothing matches. */
  lemma BackspaceShrinksSearch(cfg: Config, items: Option<seq<Item>>, s: Session, ev: KeyEvent, env: Env)
    requires TrackedText(cfg, s, ev, env) && ev.keyCode == KeyBackspace
    requires s.startPos + 1 < env.caret <= |Value(env)|
    ensures var term := BackspacedTerm(Value(env), s.startPos, env.caret, OsOf(env) == Some(Android));
            var shown := s.(searchList := Some(s.searchList.value.(hidden := false)));
            Searched(cfg, items, shown, [], term, Step(cfg, items, s, ev, env))
  {
    var k := Read(cfg, ev, env);
    TrackedTextReachesEdit(cfg, items, s, ev, env);
    EditBackspace(cfg, items, s, ev, env, k, env.caret, []);
    var t := s.(searchList := Some(s.searchList.value.(hidden := s.stopSearch)));
    SearchStoresTerm(cfg, items, t, BackspacedTerm(k.value, s.startPos, env.caret, k.android), []);
  }

  /** Backspace from caret 1 over a trigger at offset 0 stops the search and hides the list.
      The span it then searches for is `substring(1, 0)`, which swaps its bounds and so is
      the trigger character itself (on Android the empty span); that search shows the list
      again when candidates match it. */
  lemma BackspaceAtStartStops(cfg: Config, items: Option<seq<Item>>, s: Session, ev: KeyEvent, env: Env)
    requires TrackedText(cfg, s, ev, env) && ev.keyCode == KeyBackspace && env.caret == 1
    ensures var term := if OsOf(env) == Some(Android) || Value(env) == [] then "" else Value(env)[..1];
            var stopped := s.(stopSearch := true, searchList := Some(s.searchList.value.(hidden := true)));
            && s.startPos == 0
            && Searched(cfg, items, stopped, [], term, Step(cfg, items, s, ev, env))
            && !Tracking(Step(cfg, items, s, ev, env).session)
  {
    var k := Read(cfg, ev, env);
    TrackedTextReachesEdit(cfg, items, s, ev, env);
    EditBackspace(cfg, items, s, ev, env, k, 1, []);
    var t := s.(stopSearch := true, searchList := Some(s.searchList.value.(hidden := true)));
    assert s.startPos == 0;
    SpanAtStart(k.value, k.android);
    SearchStoresTerm(cfg, items, t, if k.android || k.value == [] then "" else k.value[..1], []);
  }

  /** Space after the trigger ends the tracking, yet the step still searches for all the
      text before the caret (on Android, before one before the caret) followed by the
      space's character. */
  lemma SpaceEndsTracking(cfg: Config, items: Option<seq<Item>>, s: Session, ev: KeyEvent, env: Env)
    requires TrackedText(cfg, s, ev, env) && ev.keyCode == KeySpace
    ensures var before := TextBeforeCaret(Value(env), env.caret, OsOf(env) == Some(Android));
            && Searched(cfg, items, s.(startPos := -1), [], before + ToStr(Pressed(cfg, ev, env)), Step(cfg, items, s, ev, env))
            && !Tracking(Step(cfg, items, s, ev, env).session)
  {
    var k := Read(cfg, ev, env);
    TrackedTextReachesEdit(cfg, items, s, ev, env);
    EditSpace(cfg, items, s, ev, env, k, env.caret, []);
    SearchStoresTerm(cfg, items, s.(startPos := -1), TextBeforeCaret(k.value, env.caret, k.android) + ToStr(k.charPressed), []);
  }

  /** With the list hidden, the list keys are ordinary text: Escape, for instance, is
      appended to the search string by its key name. */
  lemma HiddenListKeysAreText(cfg: Config, items: Option<seq<Item>>, s: Session, ev: KeyEvent, env: Env)
    requires TrackedText(cfg, s, ev, env) && !Visible(s)
    requires (ev.keyCode == KeyTab || ev.keyCode == KeyEnter || ev.keyCode == KeyEscape || ev.keyCode == KeyUp || ev.keyCode == KeyDown)
    ensures var span := if OsOf(env) == Some(Android) then Substring(Value(env), s.startPos, env.caret - 1)
                        else Substring(Value(env), s.startPos + 1, env.caret);
            Searched(cfg, items, s, [], span + ToStr(Pressed(cfg, ev, env)), Step(cfg, items, s, ev, env))
  {
    var k := Read(cfg, ev, env);
    TrackedTextReachesEdit(cfg, items, s, ev, env);
    EditTyped(cfg, items, s, ev, env, k, env.caret, []);
    var span := if k.android then Substring(k.value, s.startPos, env.caret - 1) else Substring(k.value, s.startPos + 1, env.caret);
    assert TrackedSpan(k.value, s.startPos, env.caret, k.android) == span;
    SearchStoresTerm(cfg, items, s, span + ToStr(k.charPressed), []);
  }

  // ---------------------------------------------------------------------------
  // Keys that leave the session alone

  /** A lone Shift, or any key with Meta, Alt or Ctrl, changes nothing while tracking. */
  lemma ModifiedKeysIgnored(cfg: Config, items: Option<seq<Item>>, s: Session, ev: KeyEvent, env: Env)
    requires !AndroidHalt(env) && Pressed(cfg, ev, env) != cfg.triggerChar && !RestoresCaret(s, ev, env)
    requires Tracking(s) && s.startPos < env.caret && !Unmodified(ev)
    ensures Step(cfg, items, s, ev, env) == StepResult(s, [], Completed)
  {
    StepWhileTracking(cfg, items, s, ev, env);
  }

  /** Left and Right are swallowed while tracking: the event is cancelled, nothing else happens. */
  lemma ArrowsSwallowed(cfg: Config, items: Option<seq<Item>>, s: Session, ev: KeyEvent, env: Env)
    requires TrackedText(cfg, s, ev, env) && (ev.keyCode == KeyLeft || ev.keyCode == KeyRight)
    ensures Step(cfg, items, s, ev, env) == StepResult(s, StopEvent(ev), ReturnedFalse)
  {
    TrackedTextReachesEdit(cfg, items, s, ev, env);
    EditSwallowsArrows(cfg, items, s, ev, env, Read(cfg, ev, env), env.caret, []);
  }

  /** Down and Up on a shown list move the active item and change nothing else. */
  lemma NavigationMovesActiveItem(cfg: Config, items: Option<seq<Item>>, s: Session, ev: KeyEvent, env: Env)
    requires TrackedText(cfg, s, ev, env) && Visible(s) && (ev.keyCode == KeyDown || ev.keyCode == KeyUp)
    ensures var r := Step(cfg, items, s, ev, env);
            && r.session == s && r.outcome == ReturnedFalse
            && r.effects == StopEvent(ev) + [if ev.keyCode == KeyDown then ActivateNext else ActivatePrevious]
  {
    TrackedTextReachesEdit(cfg, items, s, ev, env);
    EditNavigates(cfg, items, s, ev, env, Read(cfg, ev, env), env.caret, []);
    assert [] + StopEvent(ev) == StopEvent(ev);
  }

  /** Escape on a shown list hides it and stops the search, keeping the trigger offset. */
  lemma EscapeStopsSearch(cfg: Config, items: Option<seq<Item>>, s: Session, ev: KeyEvent, env: Env)
    requires TrackedText(cfg, s, ev, env) && Visible(s) && ev.keyCode == KeyEscape
    ensures var r := Step(cfg, items, s, ev, env);
            && r.session == s.(stopSearch := true, searchList := Some(s.searchList.value.(hidden := true)))
            && !Tracking(r.session) && r.outcome == ReturnedFalse && r.effects == StopEvent(ev)
  {
    TrackedTextReachesEdit(cfg, items, s, ev, env);
    EditEscape(cfg, items, s, ev, env, Read(cfg, ev, env), env.caret, []);
    assert [] + StopEvent(ev) == StopEvent(ev);
  }

  /** The caret at or before the trigger hides the list and changes nothing else. */
  lemma CaretBeforeTriggerHides(cfg: Config, items: Option<seq<Item>>, s: Session, ev: KeyEvent, env: Env)
    requires !AndroidHalt(env) && Pressed(cfg, ev, env) != cfg.triggerChar && !RestoresCaret(s, ev, env)
    requires Tracking(s) && s.searchList.Some? && env.caret <= s.startPos
    ensures Step(cfg, items, s, ev, env)
            == StepResult(s.(searchList := Some(s.searchList.value.(hidden := true))), [], Completed)
  {
    StepWhileTracking(cfg, items, s, ev, env);
  }

  /** On Android a non-empty value without '@' leaves everything as it was. */
  lemma AndroidHaltIsNoOp(cfg: Config, items: Option<seq<Item>>, s: Session, ev: KeyEvent, env: Env)
    requires OsOf(env) == Some(Android) && Value(env) != [] && '@' !in Value(env)
    ensures Step(cfg, items, s, ev, env) == StepResult(s, [], Completed)
  {
    IndexOfFirst(Value(env), '@');
  }

  // ---------------------------------------------------------------------------
  // Committing a selection

  /** Tab or Enter on a shown list replaces the span from the trigger to the caret with
      the active item's text, fires an input event, hides the list, clears the search and
      ends the tracking. */
  lemma CommitReplacesTrackedSpan(cfg: Config, items: Option<seq<Item>>, s: Session, ev: KeyEvent, env: Env)
    requires TrackedText(cfg, s, ev, env) && Visible(s) && (ev.keyCode == KeyTab || ev.keyCode == KeyEnter)
    ensures var r := Step(cfg, items, s, ev, env);
            && r.outcome == ReturnedFalse
            && r.effects == StopEvent(ev)
                            + [InsertValue(s.startPos, env.caret, cfg.insertHtml, MentionSelect(cfg, env.activeItem)),
                               DispatchInput]
            && r.session == Session(-1, s.stopSearch, None,
                                    Some(s.searchList.value.(hidden := true, searchString := None)))
  {
    TrackedTextReachesEdit(cfg, items, s, ev, env);
    EditCommits(cfg, items, s, ev, env, Read(cfg, ev, env), env.caret, []);
    assert [] + StopEvent(ev) == StopEvent(ev);
  }

  /** A click on a list item (replayed as Enter) with the caret left before the trigger
      first puts the caret at the end of the trigger's node and inserts up to there;
      the event is not cancelled. */
  lemma ClickCommitsAtNodeEnd(cfg: Config, items: Option<seq<Item>>, s: Session, env: Env)
    requires !AndroidHalt(env) && Pressed(cfg, ClickEvent(), env) != cfg.triggerChar
    requires Tracking(s) && Visible(s) && env.caret < s.startPos < env.startNodeLength
    ensures var r := Step(cfg, items, s, ClickEvent(), env);
            && r.outcome == ReturnedFalse
            && r.effects == [RestoreCaret(env.startNodeLength),
                             InsertValue(s.startPos, env.startNodeLength, cfg.insertHtml,
                                         MentionSelect(cfg, env.activeItem)),
                             DispatchInput]
            && r.session.startPos == -1 && r.session.searchList.value.hidden
  {
    var ev := ClickEvent();
    StepWhileTracking(cfg, items, s, ev, env);
    var fx := [RestoreCaret(env.startNodeLength)];
    EditCommits(cfg, items, s, ev, env, Read(cfg, ev, env), env.startNodeLength, fx);
    assert fx + StopEvent(ev) == fx;
  }

  /** On the word path, Tab or Enter on a shown list commits over the whole word. */
  lemma WordCommits(cfg: Config, items: Option<seq<Item>>, s: Session, ev: KeyEvent, env: Env, k: KeyRead,
                    fx: seq<Effect>)
    requires Visible(s) && Unmodified(ev) && (ev.keyCode == KeyTab || ev.keyCode == KeyEnter)
    requires StartsWith(env.word, ToStr(cfg.triggerChar)) && env.word != []
    ensures WordStep(cfg, items, s, ev, env, k, fx)
            == Commit(cfg, s, s.searchList.value, ev, env, env.wordCaret - |env.word|, env.wordCaret, fx)
  {
    assert |Substring(env.word, 1, |env.word|)| == |env.word| - 1;
  }

  /** Without a tracked trigger, Tab or Enter on a shown list replaces the whole word at
      the caret (trigger included) with the active item's text. */
  lemma WordCommitReplacesWord(cfg: Config, items: Option<seq<Item>>, s: Session, ev: KeyEvent, env: Env)
    requires !AndroidHalt(env) && Pressed(cfg, ev, env) != cfg.triggerChar && !RestoresCaret(s, ev, env)
    requires !Tracking(s) && Visible(s) && Unmodified(ev) && (ev.keyCode == KeyTab || ev.keyCode == KeyEnter)
    requires Truthy(cfg.triggerChar) && StartsWith(env.word, ToStr(cfg.triggerChar))
    ensures var r := Step(cfg, items, s, ev, env);
            && r.outcome == ReturnedFalse
            && r.effects == StopEvent(ev)
                            + [InsertValue(env.wordCaret - |env.word|, env.wordCaret, cfg.insertHtml,
                                           MentionSelect(cfg, env.activeItem)),
                               DispatchInput]
            && r.session == s.(searchString := None,
                               searchList := Some(s.searchList.value.(hidden := true, searchString := None)))
  {
    StepOnWord(cfg, items, s, ev, env);
    TruthyRendersNonEmpty(cfg.triggerChar);
    WordCommits(cfg, items, s, ev, env, Read(cfg, ev, env), []);
    assert [] + StopEvent(ev) == StopEvent(ev);
  }

  // ---------------------------------------------------------------------------
  // The word path: no tracked trigger, but the word at the caret starts with one

  /** What a keystroke needs to reach the word path's edits: not halted, not the trigger,
      nothing tracked, a word at the caret that starts with the trigger, no modifiers. */
  predicate OnWord(cfg: Config, s: Session, ev: KeyEvent, env: Env)
  {
    && !AndroidHalt(env) && Pressed(cfg, ev, env) != cfg.triggerChar && !Tracking(s)
    && StartsWith(env.word, ToStr(cfg.triggerChar)) && Unmodified(ev)
  }

  /** Without a tracked trigger, a word that does not start with the trigger, a modified
      key, or Space leaves the session as it was. */
  lemma WordKeysIgnored(cfg: Config, items: Option<seq<Item>>, s: Session, ev: KeyEvent, env: Env)
    requires !AndroidHalt(env) && Pressed(cfg, ev, env) != cfg.triggerChar && !Tracking(s)
    requires !StartsWith(env.word, ToStr(cfg.triggerChar)) || !Unmodified(ev) || ev.keyCode == KeySpace
    ensures Step(cfg, items, s, ev, env) == StepResult(s, Prelude(s, ev, env), Completed)
  {
    StepOnWord(cfg, items, s, ev, env);
    assert |Substring(env.word, 1, |env.word|)| >= 0;
  }

  /** On the word path, Escape on a shown list hides it and stops the search. */
  lemma WordEscapeStopsSearch(cfg: Config, items: Option<seq<Item>>, s: Session, ev: KeyEvent, env: Env)
    requires OnWord(cfg, s, ev, env) && Visible(s) && ev.keyCode == KeyEscape
    ensures var r := Step(cfg, items, s, ev, env);
            && r.session == s.(stopSearch := true, searchList := Some(s.searchList.value.(hidden := true)))
            && r.outcome == ReturnedFalse && r.effects == Prelude(s, ev, env) + StopEvent(ev)
  {
    StepOnWord(cfg, items, s, ev, env);
    assert |Substring(env.word, 1, |env.word|)| >= 0;
  }

  /** On the word path, Down and Up on a shown list move the active item and change nothing else. */
  lemma WordNavigationMovesActiveItem(cfg: Config, items: Option<seq<Item>>, s: Session, ev: KeyEvent, env: Env)
    requires OnWord(cfg, s, ev, env) && Visible(s) && (ev.keyCode == KeyDown || ev.keyCode == KeyUp)
    ensures var r := Step(cfg, items, s, ev, env);
            && r.session == s && r.outcome == ReturnedFalse
            && r.effects == Prelude(s, ev, env) + StopEvent(ev)
                            + [if ev.keyCode == KeyDown then ActivateNext else ActivatePrevious]
  {
    StepOnWord(cfg, items, s, ev, env);
    assert |Substring(env.word, 1, |env.word|)| >= 0;
  }

  /** On the word path, Backspace with the caret past the start of its node stops the
      search and hides the list when the caret was at 1 or the word is the bare trigger;
      otherwise it searches for the word without its trigger and its last character, with
      the list shown. With no list it throws on the write of `hidden`. */
  lemma WordBackspaceShrinksWord(cfg: Config, items: Option<seq<Item>>, s: Session, ev: KeyEvent, env: Env)
    requires OnWord(cfg, s, ev, env) && ev.keyCode == KeyBackspace && env.wordCaret > 0
    ensures var r := Step(cfg, items, s, ev, env);
            var stop := env.wordCaret == 1 || |env.word| <= 1;
            && (s.searchList.None? ==> r == StepResult(s.(stopSearch := stop), Prelude(s, ev, env),
                                                       Threw(UndefinedProperty("hidden"))))
            && (s.searchList.Some? && stop ==>
                  r == StepResult(s.(stopSearch := true, searchList := Some(s.searchList.value.(hidden := true))),
                                  Prelude(s, ev, env), Completed))
            && (s.searchList.Some? && !stop ==>
                  Searched(cfg, items, s.(stopSearch := false, searchList := Some(s.searchList.value.(hidden := false))),
                           Prelude(s, ev, env), env.word[1..|env.word| - 1], r))
  {
    StepOnWord(cfg, items, s, ev, env);
    WordBackspace(cfg, items, s, ev, env, Read(cfg, ev, env), Prelude(s, ev, env));
    if s.searchList.Some? && !(env.wordCaret == 1 || |env.word| <= 1) {
      SearchStoresTerm(cfg, items, s.(stopSearch := false, searchList := Some(s.searchList.value.(hidden := false))),
                       env.word[1..|env.word| - 1], Prelude(s, ev, env));
    }
  }

  /** The word path's Backspace, for any key read and prelude. */
  lemma WordBackspace(cfg: Config, items: Option<seq<Item>>, s: Session, ev: KeyEvent, env: Env, k: KeyRead,
                      fx: seq<Effect>)
    requires StartsWith(env.word, ToStr(cfg.triggerChar)) && Unmodified(ev)
    requires ev.keyCode == KeyBackspace && env.wordCaret > 0
    ensures var r := WordStep(cfg, items, s, ev, env, k, fx);
            var stop := env.wordCaret == 1 || |env.word| <= 1;
            && (s.searchList.None? ==> r == StepResult(s.(stopSearch := stop), fx, Threw(UndefinedProperty("hidden"))))
            && (s.searchList.Some? && stop ==>
                  r == StepResult(s.(stopSearch := true, searchList := Some(s.searchList.value.(hidden := true))),
                                  fx, Completed))
            && (s.searchList.Some? && !stop ==>
                  r == Search(cfg, items, s.(stopSearch := false, searchList := Some(s.searchList.value.(hidden := false))),
                              env.word[1..|env.word| - 1], fx))
  {
    var w := Substring(env.word, 1, |env.word|);
    assert |w| == if |env.word| <= 1 then 0 else |env.word| - 1;
    var stop := env.wordCaret == 1 || |env.word| <= 1;
    assert stop == (env.wordCaret - 1 == 0 || env.wordCaret - 1 < env.wordCaret - |w|);
    if s.searchList.Some? && !stop {
      assert Substring(w, 0, |w| - 1) == env.word[1..|env.word| - 1];
    }
  }

  /** The word path's search for a key that is not a list key on a shown list. */
  lemma WordTyped(cfg: Config, items: Option<seq<Item>>, s: Session, ev: KeyEvent, env: Env, k: KeyRead,
                  fx: seq<Effect>)
    requires StartsWith(env.word, ToStr(cfg.triggerChar)) && Unmodified(ev) && s.searchList.Some?
    requires ev.keyCode != KeySpace && (ev.keyCode != KeyBackspace || env.wordCaret <= 0)
    requires !Visible(s) || (ev.keyCode != KeyTab && ev.keyCode != KeyEnter && ev.keyCode != KeyEscape && ev.keyCode != KeyUp && ev.keyCode != KeyDown)
    ensures var w := if env.word == [] then "" else env.word[1..];
            WordStep(cfg, items, s, ev, env, k, fx)
            == Search(cfg, items, s, if ev.keyCode == KeyBackspace then w else w + ToStr(k.charPressed), fx)
  {
    var w := Substring(env.word, 1, |env.word|);
    assert w == if env.word == [] then "" else env.word[1..];
  }

  /** On the word path, any other key searches for the word without its trigger followed
      by the key's character (Backspace at the start of its node adds nothing), and so do
      the list keys while the list is hidden. */
  lemma WordTypedKeySearches(cfg: Config, items: Option<seq<Item>>, s: Session, ev: KeyEvent, env: Env)
    requires OnWord(cfg, s, ev, env) && s.searchList.Some? && ev.keyCode != KeySpace
    requires ev.keyCode != KeyBackspace || env.wordCaret <= 0
    requires !Visible(s) || (ev.keyCode != KeyTab && ev.keyCode != KeyEnter && ev.keyCode != KeyEscape && ev.keyCode != KeyUp && ev.keyCode != KeyDown)
    ensures var w := if env.word == [] then "" else env.word[1..];
            var term := if ev.keyCode == KeyBackspace then w else w + ToStr(Pressed(cfg, ev, env));
            Searched(cfg, items, s, Prelude(s, ev, env), term, Step(cfg, items, s, ev, env))
  {
    StepOnWord(cfg, items, s, ev, env);
    var k := Read(cfg, ev, env);
    WordTyped(cfg, items, s, ev, env, k, Prelude(s, ev, env));
    var w := if env.word == [] then "" else env.word[1..];
    SearchStoresTerm(cfg, items, s, if ev.keyCode == KeyBackspace then w else w + ToStr(k.charPressed), Prelude(s, ev, env));
  }

  // ---------------------------------------------------------------------------
  // Where text is inserted

  /** Some requested effect inserts text. */
  predicate Inserts(fx: seq<Effect>)
  {
    exists e :: e in fx && e.InsertValue?
  }

  /** The shape of a committing step: Tab or Enter on a shown list, returning false with
      the list hidden and the search cleared. */
  predicate CommitShape(s: Session, ev: KeyEvent, r: StepResult)
  {
    && (ev.keyCode == KeyTab || ev.keyCode == KeyEnter) && Visible(s)
    && r.outcome == ReturnedFalse && r.session.searchString.None?
    && r.session.searchList.Some? && r.session.searchList.value.hidden
  }

  lemma SearchNeverInserts(cfg: Config, items: Option<seq<Item>>, s: Session, mention: string, fx: seq<Effect>)
    requires !Inserts(fx)
    ensures !Inserts(Search(cfg, items, s, mention, fx).effects)
  {
    var r := Search(cfg, items, s, mention, fx);
    assert r.effects == fx + [EmitSearchTerm(mention)];
  }

  /** Cancelling the event, with or without a move of the active item, inserts nothing. */
  lemma StopEventNeverInserts(ev: KeyEvent, fx: seq<Effect>, more: seq<Effect>)
    requires !Inserts(fx) && !Inserts(more)
    ensures !Inserts(fx + StopEvent(ev) + more)
  {
  }

  lemma ExtendNeverInserts(cfg: Config, items: Option<seq<Item>>, s: Session, ev: KeyEvent, k: KeyRead,
                           pos: int, fx: seq<Effect>)
    requires !Inserts(fx)
    ensures !Inserts(Extend(cfg, items, s, ev, k, pos, fx).effects)
  {
    if ev.keyCode == KeyLeft || ev.keyCode == KeyRight {
      StopEventNeverInserts(ev, fx, []);
      assert fx + StopEvent(ev) + [] == fx + StopEvent(ev);
    } else {
      var span := TrackedSpan(k.value, s.startPos, pos, k.android);
      var mention := if ev.keyCode != KeyBackspace then span + ToStr(k.charPressed) else span;
      SearchNeverInserts(cfg, items, s, mention, fx);
    }
  }

  lemma TrackedInsertsOnlyOnCommit(cfg: Config, items: Option<seq<Item>>, s: Session, ev: KeyEvent, env: Env,
                                   k: KeyRead, pos: int, fx: seq<Effect>)
    requires !Inserts(fx)
    ensures var r := TrackedStep(cfg, items, s, ev, env, k, pos, fx);
            Inserts(r.effects) ==> CommitShape(s, ev, r)
  {
    var r := TrackedStep(cfg, items, s, ev, env, k, pos, fx);
    if pos <= s.startPos || !Unmodified(ev) {
      assert r.effects == fx;
    } else if ev.keyCode == KeySpace {
      assert r == Extend(cfg, items, s.(startPos := -1), ev, k, pos, fx);
      ExtendNeverInserts(cfg, items, s.(startPos := -1), ev, k, pos, fx);
    } else if ev.keyCode == KeyBackspace && pos > 0 {
      var stop := if pos - 1 == 0 then true else s.stopSearch;
      if s.searchList.None? {
        assert r.effects == fx;
      } else {
        var t := s.(stopSearch := stop, searchList := Some(s.searchList.value.(hidden := stop)));
        assert r == Extend(cfg, items, t, ev, k, pos - 1, fx);
        ExtendNeverInserts(cfg, items, t, ev, k, pos - 1, fx);
      }
    } else if s.searchList.None? {
      assert r.effects == fx;
    } else if Visible(s) && (ev.keyCode == KeyTab || ev.keyCode == KeyEnter) {
      assert r == Commit(cfg, s.(startPos := -1), s.searchList.value, ev, env, s.startPos, pos, fx);
    } else if Visible(s) && ev.keyCode == KeyEscape {
      assert r == Abort(s, s.searchList.value, ev, fx);
      StopEventNeverInserts(ev, fx, []);
      assert fx + StopEvent(ev) + [] == fx + StopEvent(ev);
    } else if Visible(s) && (ev.keyCode == KeyDown || ev.keyCode == KeyUp) {
      var move := if ev.keyCode == KeyDown then ActivateNext else ActivatePrevious;
      assert r == Navigate(s, ev, fx, move);
      StopEventNeverInserts(ev, fx, [move]);
    } else {
      assert r == Extend(cfg, items, s, ev, k, pos, fx);
      ExtendNeverInserts(cfg, items, s, ev, k, pos, fx);
    }
  }

  lemma WordInsertsOnlyOnCommit(cfg: Config, items: Option<seq<Item>>, s: Session, ev: KeyEvent, env: Env,
                                k: KeyRead, fx: seq<Effect>)
    requires !Inserts(fx)
    ensures var r := WordStep(cfg, items, s, ev, env, k, fx);
            Inserts(r.effects) ==> CommitShape(s, ev, r)
  {
    var r := WordStep(cfg, items, s, ev, env, k, fx);
    var w := Substring(env.word, 1, |env.word|);
    var pos := env.wordCaret;
    if !StartsWith(env.word, ToStr(cfg.triggerChar)) || !Unmodified(ev) || pos < pos - |w| || ev.keyCode == KeySpace {
      assert r.effects == fx;
    } else if ev.keyCode == KeyBackspace && pos > 0 {
      var stop := pos - 1 == 0 || pos - 1 < pos - |w|;
      if s.searchList.None? || stop {
        assert r.effects == fx;
      } else {
        var t := s.(stopSearch := stop, searchList := Some(s.searchList.value.(hidden := stop)));
        assert r == Search(cfg, items, t, Substring(w, 0, |w| - 1), fx);
        SearchNeverInserts(cfg, items, t, Substring(w, 0, |w| - 1), fx);
      }
    } else if s.searchList.None? {
      assert r.effects == fx;
    } else if Visible(s) && (ev.keyCode == KeyTab || ev.keyCode == KeyEnter) {
      assert r == Commit(cfg, s, s.searchList.value, ev, env, pos - |w| - 1, pos, fx);
    } else if Visible(s) && ev.keyCode == KeyEscape {
      assert r == Abort(s, s.searchList.value, ev, fx);
      StopEventNeverInserts(ev, fx, []);
      assert fx + StopEvent(ev) + [] == fx + StopEvent(ev);
    } else if Visible(s) && (ev.keyCode == KeyDown || ev.keyCode == KeyUp) {
      var move := if ev.keyCode == KeyDown then ActivateNext else ActivatePrevious;
      assert r == Navigate(s, ev, fx, move);
      StopEventNeverInserts(ev, fx, [move]);
    } else {
      var mention := if ev.keyCode != KeyBackspace then w + ToStr(k.charPressed) else w;
      assert r == Search(cfg, items, s, mention, fx);
      SearchNeverInserts(cfg, items, s, mention, fx);
    }
  }

  /** Text is inserted only by Tab or Enter on a shown list, and such a step always
      returns false with the list hidden and the search cleared. */
  lemma InsertOnlyOnCommit(cfg: Config, items: Option<seq<Item>>, s: Session, ev: KeyEvent, env: Env)
    ensures var r := Step(cfg, items, s, ev, env);
            Inserts(r.effects) ==> CommitShape(s, ev, r)
  {
    var fx := Prelude(s, ev, env);
    assert !Inserts(fx);
    if !AndroidHalt(env) {
      if Pressed(cfg, ev, env) == cfg.triggerChar {
        StepOnTrigger(cfg, items, s, ev, env);
        var r := OpenSession(cfg, items, s, Caret(s, ev, env), fx);
        assert r.effects == fx + [ShowList];
      } else if Tracking(s) {
        StepWhileTracking(cfg, items, s, ev, env);
        TrackedInsertsOnlyOnCommit(cfg, items, s, ev, env, Read(cfg, ev, env), Caret(s, ev, env), fx);
      } else {
        StepOnWord(cfg, items, s, ev, env);
        WordInsertsOnlyOnCommit(cfg, items, s, ev, env, Read(cfg, ev, env), fx);
      }
    }
  }

  // ---------------------------------------------------------------------------
  // Errors and the list invariant

  /** The failure of a search step is the filter's failure on the new search string. */
  lemma SearchThrowsFromFilter(cfg: Config, items: Option<seq<Item>>, s: Session, mention: string, fx: seq<Effect>)
    ensures var r := Search(cfg, items, s, mention, fx);
            r.outcome.Threw? ==>
              && r.session.searchString == Some(mention)
              && VisibleCandidates(items, cfg.disableSearch, r.session.searchString, cfg.filterKeys, cfg.maxItems)
                 == Fail(r.outcome.error)
  {
  }

  lemma ExtendThrowsFromFilter(cfg: Config, items: Option<seq<Item>>, s: Session, ev: KeyEvent, k: KeyRead,
                               pos: int, fx: seq<Effect>)
    ensures var r := Extend(cfg, items, s, ev, k, pos, fx);
            r.outcome.Threw? ==>
              VisibleCandidates(items, cfg.disableSearch, r.session.searchString, cfg.filterKeys, cfg.maxItems)
              == Fail(r.outcome.error)
  {
    if ev.keyCode != KeyLeft && ev.keyCode != KeyRight {
      var span := TrackedSpan(k.value, s.startPos, pos, k.android);
      var mention := if ev.keyCode != KeyBackspace then span + ToStr(k.charPressed) else span;
      SearchThrowsFromFilter(cfg, items, s, mention, fx);
    }
  }

  /** With a list, a tracked step throws only from the filter. */
  lemma TrackedThrowsFromFilter(cfg: Config, items: Option<seq<Item>>, s: Session, ev: KeyEvent, env: Env,
                                k: KeyRead, pos: int, fx: seq<Effect>)
    requires s.searchList.Some?
    ensures var r := TrackedStep(cfg, items, s, ev, env, k, pos, fx);
            r.outcome.Threw? ==>
              VisibleCandidates(items, cfg.disableSearch, r.session.searchString, cfg.filterKeys, cfg.maxItems)
              == Fail(r.outcome.error)
  {
    var r := TrackedStep(cfg, items, s, ev, env, k, pos, fx);
    if pos <= s.startPos || !Unmodified(ev) {
      assert !r.outcome.Threw?;
    } else if ev.keyCode == KeySpace {
      assert r == Extend(cfg, items, s.(startPos := -1), ev, k, pos, fx);
      ExtendThrowsFromFilter(cfg, items, s.(startPos := -1), ev, k, pos, fx);
    } else if ev.keyCode == KeyBackspace && pos > 0 {
      var stop := if pos - 1 == 0 then true else s.stopSearch;
      var t := s.(stopSearch := stop, searchList := Some(s.searchList.value.(hidden := stop)));
      assert r == Extend(cfg, items, t, ev, k, pos - 1, fx);
      ExtendThrowsFromFilter(cfg, items, t, ev, k, pos - 1, fx);
    } else if Visible(s) && (ev.keyCode == KeyTab || ev.keyCode == KeyEnter || ev.keyCode == KeyEscape
                             || ev.keyCode == KeyDown || ev.keyCode == KeyUp) {
      assert r.outcome == ReturnedFalse;
    } else {
      assert r == Extend(cfg, items, s, ev, k, pos, fx);
      ExtendThrowsFromFilter(cfg, items, s, ev, k, pos, fx);
    }
  }

  /** A word-path step throws from the missing list or from the filter. */
  lemma WordThrowsFromListOrFilter(cfg: Config, items: Option<seq<Item>>, s: Session, ev: KeyEvent, env: Env,
                                   k: KeyRead, fx: seq<Effect>)
    ensures var r := WordStep(cfg, items, s, ev, env, k, fx);
            r.outcome.Threw? ==>
              || (r.outcome.error == UndefinedProperty("hidden") && s.searchList.None?)
              || VisibleCandidates(items, cfg.disableSearch, r.session.searchString, cfg.filterKeys, cfg.maxItems)
                 == Fail(r.outcome.error)
  {
    var r := WordStep(cfg, items, s, ev, env, k, fx);
    var w := Substring(env.word, 1, |env.word|);
    var pos := env.wordCaret;
    if !StartsWith(env.word, ToStr(cfg.triggerChar)) || !Unmodified(ev) || pos < pos - |w| || ev.keyCode == KeySpace {
      assert r.outcome == Completed;
    } else if s.searchList.None? {
      assert r.outcome == Completed || r.outcome == Threw(UndefinedProperty("hidden"));
    } else if ev.keyCode == KeyBackspace && pos > 0 {
      var stop := pos - 1 == 0 || pos - 1 < pos - |w|;
      var t := s.(stopSearch := stop, searchList := Some(s.searchList.value.(hidden := stop)));
      if !stop {
        assert r == Search(cfg, items, t, Substring(w, 0, |w| - 1), fx);
        SearchThrowsFromFilter(cfg, items, t, Substring(w, 0, |w| - 1), fx);
      }
    } else if Visible(s) && (ev.keyCode == KeyTab || ev.keyCode == KeyEnter || ev.keyCode == KeyEscape
                             || ev.keyCode == KeyDown || ev.keyCode == KeyUp) {
      assert r.outcome == ReturnedFalse;
    } else {
      var mention := if ev.keyCode != KeyBackspace then w + ToStr(k.charPressed) else w;
      assert r == Search(cfg, items, s, mention, fx);
      SearchThrowsFromFilter(cfg, items, s, mention, fx);
    }
  }

  /** A step that throws either wrote to the missing list (possible only on the word
      path of a directive that never saw a trigger) or ran the filter over a candidate
      missing a filter field; in the latter case the session keeps the new search string. */
  lemma ThrowsOnlyWhen(cfg: Config, items: Option<seq<Item>>, s: Session, ev: KeyEvent, env: Env)
    requires Consistent(s)
    ensures var r := Step(cfg, items, s, ev, env);
            r.outcome.Threw? ==>
              || (r.outcome.error == UndefinedProperty("hidden") && s.searchList.None? && !Tracking(s))
              || (r.outcome.error == UndefinedProperty("toLowerCase")
                  && VisibleCandidates(items, cfg.disableSearch, r.session.searchString, cfg.filterKeys, cfg.maxItems)
                     == Fail(r.outcome.error))
  {
    var r := Step(cfg, items, s, ev, env);
    var fx := Prelude(s, ev, env);
    if !AndroidHalt(env) {
      if Pressed(cfg, ev, env) == cfg.triggerChar {
        StepOnTrigger(cfg, items, s, ev, env);
      } else if Tracking(s) {
        StepWhileTracking(cfg, items, s, ev, env);
        TrackedThrowsFromFilter(cfg, items, s, ev, env, Read(cfg, ev, env), Caret(s, ev, env), fx);
      } else {
        StepOnWord(cfg, items, s, ev, env);
        WordThrowsFromListOrFilter(cfg, items, s, ev, env, Read(cfg, ev, env), fx);
      }
    }
    VisibleFailsWithToLowerCase(items, cfg.disableSearch, r.session.searchString, cfg.filterKeys, cfg.maxItems);
  }

  /** The visible candidates fail only with the filter's TypeError. */
  lemma VisibleFailsWithToLowerCase(items: Option<seq<Item>>, disableSearch: bool, searchString: Option<string>,
                                    keys: seq<string>, maxItems: int)
    ensures var m := VisibleCandidates(items, disableSearch, searchString, keys, maxItems);
            m.Fail? ==> m.error == UndefinedProperty("toLowerCase")
  {
    if items.Some? && Searching(disableSearch, searchString) {
      FilterFailsWithToLowerCase(items.value, keys, ToLower(searchString.value));
    }
  }

  /** A candidate missing a filter field before any match makes a search fail. */
  lemma MissingFieldThrows(cfg: Config, items: seq<Item>, term: string)
    requires Searching(cfg.disableSearch, Some(term))
    requires exists x :: x in items && KeysMatch(x, cfg.filterKeys, ToLower(term)).Fail?
    ensures VisibleCandidates(Some(items), cfg.disableSearch, Some(term), cfg.filterKeys, cfg.maxItems)
            == Fail(UndefinedProperty("toLowerCase"))
  {
    FilterSpecMeaning(items, cfg.filterKeys, ToLower(term));
    FilterFailsWithToLowerCase(items, cfg.filterKeys, ToLower(term));
  }

  /** The only error the filter raises is reading `toLowerCase` of a missing field. */
  lemma {:induction false} FilterFailsWithToLowerCase(xs: seq<Item>, keys: seq<string>, needle: string)
    ensures FilterSpec(xs, keys, needle).Fail? ==> FilterSpec(xs, keys, needle).error == UndefinedProperty("toLowerCase")
  {
    if xs != [] {
      FilterFailsWithToLowerCase(xs[..|xs| - 1], keys, needle);
      KeysMatchFailsWithToLowerCase(xs[|xs| - 1], keys, needle);
    }
  }

  lemma {:induction false} KeysMatchFailsWithToLowerCase(e: Item, keys: seq<string>, needle: string)
    ensures KeysMatch(e, keys, needle).Fail? ==> KeysMatch(e, keys, needle).error == UndefinedProperty("toLowerCase")
  {
    if keys != [] {
      KeysMatchFailsWithToLowerCase(e, keys[1..], needle);
    }
  }

  /** Without a list (no trigger was ever typed), every unmodified key other than Space on
      a word that starts with the trigger throws: the word path writes or reads the hidden
      flag of a list that was never created. Nothing but the stop flag changes. */
  lemma WordPathThrowsWithoutList(cfg: Config, items: Option<seq<Item>>, s: Session, ev: KeyEvent, env: Env)
    requires OnWord(cfg, s, ev, env) && s.searchList.None? && ev.keyCode != KeySpace
    ensures var r := Step(cfg, items, s, ev, env);
            && r.outcome == Threw(UndefinedProperty("hidden"))
            && r.effects == Prelude(s, ev, env)
            && r.session == s.(stopSearch := r.session.stopSearch)
  {
    StepOnWord(cfg, items, s, ev, env);
    assert |Substring(env.word, 1, |env.word|)| >= 0;
  }

  /** A search step changes neither the trigger offset nor whether there is a list. */
  lemma SearchKeepsShape(cfg: Config, items: Option<seq<Item>>, s: Session, mention: string, fx: seq<Effect>)
    ensures var r := Search(cfg, items, s, mention, fx);
            r.session.startPos == s.startPos && r.session.searchList.Some? == s.searchList.Some?
  {
  }

  lemma ExtendKeepsShape(cfg: Config, items: Option<seq<Item>>, s: Session, ev: KeyEvent, k: KeyRead,
                         pos: int, fx: seq<Effect>)
    ensures var r := Extend(cfg, items, s, ev, k, pos, fx);
            r.session.startPos == s.startPos && r.session.searchList.Some? == s.searchList.Some?
  {
    if ev.keyCode != KeyLeft && ev.keyCode != KeyRight {
      var span := TrackedSpan(k.value, s.startPos, pos, k.android);
      var mention := if ev.keyCode != KeyBackspace then span + ToStr(k.charPressed) else span;
      SearchKeepsShape(cfg, items, s, mention, fx);
    }
  }

  lemma TrackedKeepsConsistent(cfg: Config, items: Option<seq<Item>>, s: Session, ev: KeyEvent, env: Env,
                               k: KeyRead, pos: int, fx: seq<Effect>)
    requires Consistent(s)
    ensures Consistent(TrackedStep(cfg, items, s, ev, env, k, pos, fx).session)
  {
    var r := TrackedStep(cfg, items, s, ev, env, k, pos, fx);
    if pos > s.startPos && Unmodified(ev) {
      if ev.keyCode == KeySpace {
        assert r == Extend(cfg, items, s.(startPos := -1), ev, k, pos, fx);
        ExtendKeepsShape(cfg, items, s.(startPos := -1), ev, k, pos, fx);
      } else if ev.keyCode == KeyBackspace && pos > 0 {
        if s.searchList.Some? {
          var stop := if pos - 1 == 0 then true else s.stopSearch;
          var t := s.(stopSearch := stop, searchList := Some(s.searchList.value.(hidden := stop)));
          assert r == Extend(cfg, items, t, ev, k, pos - 1, fx);
          ExtendKeepsShape(cfg, items, t, ev, k, pos - 1, fx);
        }
      } else if s.searchList.Some? && !(Visible(s) && (ev.keyCode == KeyTab || ev.keyCode == KeyEnter
                || ev.keyCode == KeyEscape || ev.keyCode == KeyDown || ev.keyCode == KeyUp)) {
        assert r == Extend(cfg, items, s, ev, k, pos, fx);
        ExtendKeepsShape(cfg, items, s, ev, k, pos, fx);
      }
    }
  }

  lemma WordKeepsConsistent(cfg: Config, items: Option<seq<Item>>, s: Session, ev: KeyEvent, env: Env,
                            k: KeyRead, fx: seq<Effect>)
    requires Consistent(s)
    ensures Consistent(WordStep(cfg, items, s, ev, env, k, fx).session)
  {
    var r := WordStep(cfg, items, s, ev, env, k, fx);
    var w := Substring(env.word, 1, |env.word|);
    var pos := env.wordCaret;
    if !StartsWith(env.word, ToStr(cfg.triggerChar)) || !Unmodified(ev) || pos < pos - |w| || ev.keyCode == KeySpace
       || s.searchList.None? {
      assert r.session.startPos == s.startPos;
    } else if ev.keyCode == KeyBackspace && pos > 0 {
      var stop := pos - 1 == 0 || pos - 1 < pos - |w|;
      var t := s.(stopSearch := stop, searchList := Some(s.searchList.value.(hidden := stop)));
      if !stop {
        assert r == Search(cfg, items, t, Substring(w, 0, |w| - 1), fx);
        SearchKeepsShape(cfg, items, t, Substring(w, 0, |w| - 1), fx);
      }
    } else if !(Visible(s) && (ev.keyCode == KeyTab || ev.keyCode == KeyEnter || ev.keyCode == KeyEscape
                               || ev.keyCode == KeyDown || ev.keyCode == KeyUp)) {
      var mention := if ev.keyCode != KeyBackspace then w + ToStr(k.charPressed) else w;
      assert r == Search(cfg, items, s, mention, fx);
      SearchKeepsShape(cfg, items, s, mention, fx);
    }
  }

  /** No step starts tracking without a list. */
  lemma StepKeepsConsistent(cfg: Config, items: Option<seq<Item>>, s: Session, ev: KeyEvent, env: Env)
    requires Consistent(s)
    ensures Consistent(Step(cfg, items, s, ev, env).session)
  {
    var fx := Prelude(s, ev, env);
    if !AndroidHalt(env) {
      if Pressed(cfg, ev, env) == cfg.triggerChar {
        StepOnTrigger(cfg, items, s, ev, env);
      } else if Tracking(s) {
        StepWhileTracking(cfg, items, s, ev, env);
        TrackedKeepsConsistent(cfg, items, s, ev, env, Read(cfg, ev, env), Caret(s, ev, env), fx);
      } else {
        StepOnWord(cfg, items, s, ev, env);
        WordKeepsConsistent(cfg, items, s, ev, env, Read(cfg, ev, env), fx);
      }
    }
  }

  /** Blur, except on iOS, cancels the event, stops the search and hides the list;
      the session is then not tracking. On iOS nothing happens. */
  lemma BlurStopsSearch(s: Session, userAgent: string, platform: string)
    ensures var (t, fx) := Blur(s, userAgent, platform);
            if platform in IosPlatforms then t == s && fx == []
            else && t.stopSearch && !Tracking(t) && fx == [PreventDefault]
                 && t.startPos == s.startPos && t.searchString == s.searchString
                 && (t.searchList.Some? <==> s.searchList.Some?)
                 && (t.searchList.Some? ==> t.searchList.value == s.searchList.value.(hidden := true))
  {
  }
}
