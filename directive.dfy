/**
 * `MentionDirective` as an object: its configuration, its candidate items and its
 * session fields, updated in place by the `mention` and `mentionConfig` inputs,
 * `ngOnInit`, `updateSearchList`, `keyHandler` and `blurHandler`.  Each method is
 * proved to leave the fields as the matching function of `Mention` says.
 */
module Directive {
  import opened JsText
  import opened Candidates
  import opened Platform
  import opened Keys
  import opened Mention
  import MentionLaws

  /** The `mentionConfig` input; a missing option is None, Undefined or false. */
  datatype ConfigUpdate = ConfigUpdate(triggerChar: JsValue, labelKey: Option<string>, disableSearch: bool,
                                       maxItems: Option<int>, filterKeys: Option<seq<string>>,
                                       insertHtml: bool, mentionSelect: Option<Item -> string>)

  /** `x || current` for the trigger: a falsy value (undefined, 0, "") keeps the current one. */
  function OrValue(x: JsValue, current: JsValue): JsValue
  {
    if Truthy(x) then x else current
  }

  /** `x || current` for a string option. */
  function OrString(x: Option<string>, current: string): string
  {
    if x.Some? && x.value != "" then x.value else current
  }

  /** `x || current` for a numeric option. */
  function OrNumber(x: Option<int>, current: int): int
  {
    if x.Some? && x.value != 0 then x.value else current
  }

  /** `x || current` for an array option: any array, even an empty one, is truthy. */
  function OrArray<T>(x: Option<T>, current: T): T
  {
    if x.Some? then x.value else current
  }

  /** `x || current` for a function option. */
  function OrFunction<T>(x: Option<T>, current: Option<T>): Option<T>
  {
    if x.Some? then x else current
  }

  /** The settings after `mentionConfig`: every option is `config.x || this.x`;
      `keyCodeSpecified` is recomputed from the resulting trigger. */
  function ApplyConfig(c: Config, u: ConfigUpdate): Config
  {
    var trigger := OrValue(u.triggerChar, c.triggerChar);
    Config(trigger, KeyCodeSpecified(trigger), OrString(u.labelKey, c.labelKey),
           u.disableSearch || c.disableSearch, OrNumber(u.maxItems, c.maxItems),
           OrArray(u.filterKeys, c.filterKeys), u.insertHtml || c.insertHtml,
           OrFunction(u.mentionSelect, c.mentionSelect))
  }

  /** A configuration update never makes the trigger falsy and keeps `keyCodeSpecified`
      in step with it. */
  lemma ApplyConfigWellFormed(c: Config, u: ConfigUpdate)
    requires WellFormed(c)
    ensures WellFormed(ApplyConfig(c, u))
  {
  }

  /** The settings of a freshly constructed directive. */
  function DefaultConfig(): Config
  {
    Config(Str("@"), false, "label", false, -1, ["label"], false, None)
  }

  /** The settings every directive keeps: the trigger is truthy and `keyCodeSpecified`
      says whether it is a number. */
  predicate WellFormed(c: Config)
  {
    Truthy(c.triggerChar) && c.keyCodeSpecified == KeyCodeSpecified(c.triggerChar)
  }

  class MentionDirective {
    var triggerChar: JsValue
    var keyCodeSpecified: bool
    var labelKey: string
    var disableSearch: bool
    var maxItems: int
    var filterKeys: seq<string>
    var insertHtml: bool
    var mentionSelect: Option<Item -> string>

    var items: Option<seq<Item>>

    var searchString: Option<string>
    var startPos: int
    var stopSearch: bool
    var searchList: Option<ListView>

    function Settings(): Config
      reads this
    {
      Config(triggerChar, keyCodeSpecified, labelKey, disableSearch, maxItems, filterKeys, insertHtml, mentionSelect)
    }

    function State(): Session
      reads this
    {
      Session(startPos, stopSearch, searchString, searchList)
    }

    predicate Valid()
      reads this
    {
      WellFormed(Settings()) && Consistent(State())
    }

    constructor ()
      ensures Valid()
      ensures Settings() == DefaultConfig()
      ensures items == None && State() == InitialSession()
    {
      triggerChar := Str("@");
      keyCodeSpecified := false;
      labelKey := "label";
      disableSearch := false;
      maxItems := -1;
      filterKeys := ["label"];
      insertHtml := false;
      mentionSelect := None;
      items := None;
      searchString := None;
      startPos := -1;
      stopSearch := false;
      searchList := None;
    }

    /** The `mention` input. */
    method SetMention(xs: Option<seq<Item>>)
      modifies this`items
      ensures items == xs
    {
      items := xs;
    }

    /** The `mentionConfig` input. */
    method SetMentionConfig(u: ConfigUpdate)
      requires Valid()
      modifies this`triggerChar, this`keyCodeSpecified, this`labelKey, this`disableSearch,
               this`maxItems, this`filterKeys, this`insertHtml, this`mentionSelect
      ensures Valid()
      ensures Settings() == ApplyConfig(old(Settings()), u)
    {
      ghost var before := Settings();
      var trigger := OrValue(u.triggerChar, triggerChar);
      triggerChar, keyCodeSpecified, labelKey, disableSearch, maxItems, filterKeys, insertHtml, mentionSelect :=
        trigger, trigger.Num?, OrString(u.labelKey, labelKey), u.disableSearch || disableSearch,
        OrNumber(u.maxItems, maxItems), OrArray(u.filterKeys, filterKeys), u.insertHtml || insertHtml,
        OrFunction(u.mentionSelect, mentionSelect);
      ApplyConfigWellFormed(before, u);
    }

    /** `updateSearchList`: nothing changes when the filter throws. */
    method UpdateSearchList() returns (thrown: Option<TypeError>)
      modifies this`searchList
      ensures var r := Mention.UpdateSearchList(Settings(), items, old(State()));
              if r.Ok? then thrown.None? && State() == r.value
              else thrown == Some(r.error) && State() == old(State())
    {
      var matches: seq<Item> := [];
      if items.Some? {
        var objects := items.value;
        if !disableSearch && searchString.Some? && searchString.value != "" {
          var kept := FilterItems(items.value, filterKeys, ToLower(searchString.value));
          if kept.Fail? {
            return Some(kept.error);
          }
          objects := kept.value;
        }
        matches := objects;
        if maxItems > 0 && maxItems < |matches| {
          matches := matches[..maxItems];
        }
      }
      if searchList.Some? {
        var listSearch := searchList.value.searchString;
        if searchString.Some? {
          listSearch := Some(ToLower(searchString.value));
        }
        searchList := Some(ListView(matches, |matches| == 0, listSearch));
      }
      thrown := None;
    }

    /** `ngOnInit`: normalise the items, then refresh a shown list. */
    method NgOnInit() returns (thrown: Option<TypeError>)
      modifies this`items, this`searchList
      ensures items == Normalize(old(items), labelKey)
      ensures (State(), thrown) == Refresh(Settings(), old(items), items, old(State()))
    {
      thrown := None;
      if items.Some? && |items.value| > 0 {
        var xs := items.value;
        if xs[0].Text? {
          xs := Promoted(xs, labelKey);
        }
        var key := labelKey;
        xs := Select(xs, e => HasLabel(e, key));
        xs := SortByLabel(xs, labelKey);
        items := Some(xs);
        if searchList.Some? && !searchList.value.hidden {
          thrown := UpdateSearchList();
        }
      }
    }

    /** `ngOnChanges`: a change of the `mention` input re-runs `ngOnInit`. */
    method NgOnChanges(mentionChanged: bool) returns (thrown: Option<TypeError>)
      modifies this`items, this`searchList
      ensures mentionChanged ==> items == Normalize(old(items), labelKey)
      ensures mentionChanged ==> (State(), thrown) == Refresh(Settings(), old(items), items, old(State()))
      ensures !mentionChanged ==> items == old(items) && State() == old(State()) && thrown.None?
    {
      thrown := None;
      if mentionChanged {
        thrown := NgOnInit();
      }
    }

    /** The part of `showSearchList` that touches the list's fields: create it when missing. */
    method ShowSearchList()
      modifies this`searchList
      ensures searchList == if old(searchList).Some? then old(searchList) else Some(NewList())
    {
      if searchList.None? {
        searchList := Some(NewList());
      }
    }

    /** `blurHandler` */
    method BlurHandler(userAgent: string, platform: string) returns (effects: seq<Effect>)
      requires Valid()
      modifies this`stopSearch, this`searchList
      ensures Valid()
      ensures (State(), effects) == Blur(old(State()), userAgent, platform)
    {
      effects := [];
      if GetPlatform(userAgent, platform) != Some(IOS) {
        effects := [PreventDefault];
        stopSearch := true;
        if searchList.Some? {
          searchList := Some(searchList.value.(hidden := true));
        }
      }
    }

    /** `keyHandler` */
    method KeyHandler(ev: KeyEvent, env: Env) returns (effects: seq<Effect>, outcome: Outcome)
      requires Valid()
      modifies this`startPos, this`stopSearch, this`searchString, this`searchList
      ensures Valid()
      ensures StepResult(State(), effects, outcome) == Step(Settings(), items, old(State()), ev, env)
    {
      ghost var cfg, s0 := Settings(), State();
      MentionLaws.StepKeepsConsistent(cfg, items, s0, ev, env);
      effects, outcome := [], Completed;
      if AndroidHalt(env) {
        return;
      }
      var pos: int := env.caret;
      var val := Trim(env.value);
      var charPressed := ResolveChar(keyCodeSpecified, triggerChar, ev, val, pos);
      var k := KeyRead(charPressed, val, GetPlatform(env.userAgent, env.platform) == Some(Android));
      if ev.keyCode == KeyEnter && ev.wasClick && pos < startPos {
        pos := env.startNodeLength;
        effects := effects + [RestoreCaret(pos)];
      }
      assert pos == Caret(s0, ev, env) && effects == Prelude(s0, ev, env) && k == Read(cfg, ev, env);
      if charPressed == triggerChar {
        MentionLaws.StepOnTrigger(cfg, items, s0, ev, env);
        effects, outcome := TriggerKey(pos, effects);
      } else if startPos >= 0 && !stopSearch {
        MentionLaws.StepWhileTracking(cfg, items, s0, ev, env);
        effects, outcome := TrackedKey(ev, env, k, pos, effects);
      } else {
        MentionLaws.StepOnWord(cfg, items, s0, ev, env);
        effects, outcome := WordKey(ev, env, k, effects);
      }
    }

    /** The trigger key, typed with the caret at `pos`. */
    method TriggerKey(pos: int, fx: seq<Effect>) returns (effects: seq<Effect>, outcome: Outcome)
      modifies this`startPos, this`stopSearch, this`searchString, this`searchList
      ensures StepResult(State(), effects, outcome) == OpenSession(Settings(), items, old(State()), pos, fx)
    {
      startPos := pos;
      stopSearch := false;
      searchString := None;
      if searchList.Some? {
        searchList := Some(searchList.value.(searchString := None));
      }
      ShowSearchList();
      effects, outcome := fx + [ShowList], Completed;
      var thrown := UpdateSearchList();
      if thrown.Some? {
        outcome := Threw(thrown.value);
      }
    }

    /** Tab or Enter on a shown list: insert the active item over `[start, end)`. */
    method CommitKey(ev: KeyEvent, env: Env, start: int, end: int, fx: seq<Effect>)
      returns (effects: seq<Effect>, outcome: Outcome)
      requires searchList.Some?
      modifies this`searchString, this`searchList
      ensures StepResult(State(), effects, outcome)
              == Commit(Settings(), old(State()), old(searchList.value), ev, env, start, end, fx)
    {
      effects := fx + StopEvent(ev);
      searchList := Some(searchList.value.(hidden := true));
      effects := effects + [InsertValue(start, end, insertHtml, MentionSelect(Settings(), env.activeItem))];
      searchString := None;
      searchList := Some(searchList.value.(searchString := None));
      effects := effects + [DispatchInput];
      outcome := ReturnedFalse;
    }

    /** Set the search string, announce it and refresh the list. */
    method SearchKey(mention: string, fx: seq<Effect>) returns (effects: seq<Effect>, outcome: Outcome)
      modifies this`searchString, this`searchList
      ensures StepResult(State(), effects, outcome) == Search(Settings(), items, old(State()), mention, fx)
    {
      searchString := Some(mention);
      effects := fx + [EmitSearchTerm(mention)];
      outcome := Completed;
      var thrown := UpdateSearchList();
      if thrown.Some? {
        outcome := Threw(thrown.value);
      }
    }

    /** A key while a trigger is tracked, with the caret at `pos`. */
    method TrackedKey(ev: KeyEvent, env: Env, k: KeyRead, pos: int, fx: seq<Effect>)
      returns (effects: seq<Effect>, outcome: Outcome)
      modifies this`startPos, this`stopSearch, this`searchString, this`searchList
      ensures StepResult(State(), effects, outcome) == TrackedStep(Settings(), items, old(State()), ev, env, k, pos, fx)
    {
      effects, outcome := fx, Completed;
      if pos <= startPos {
        if searchList.None? {
          outcome := Threw(UndefinedProperty("hidden"));
          return;
        }
        searchList := Some(searchList.value.(hidden := true));
      } else if Unmodified(ev) {
        effects, outcome := TrackedEditKey(ev, env, k, pos, fx);
      }
    }

    /** An unmodified key after the trigger, with the caret at `pos`. */
    method TrackedEditKey(ev: KeyEvent, env: Env, k: KeyRead, pos: int, fx: seq<Effect>)
      returns (effects: seq<Effect>, outcome: Outcome)
      modifies this`startPos, this`stopSearch, this`searchString, this`searchList
      ensures StepResult(State(), effects, outcome) == TrackedEdit(Settings(), items, old(State()), ev, env, k, pos, fx)
    {
      ghost var s0 := State();
      effects, outcome := fx, Completed;
      if ev.keyCode == KeySpace {
        startPos := -1;
        assert TrackedEdit(Settings(), items, s0, ev, env, k, pos, fx)
            == Extend(Settings(), items, State(), ev, k, pos, fx);
        effects, outcome := ExtendKey(ev, k, pos, effects);
      } else if ev.keyCode == KeyBackspace && pos > 0 {
        if pos - 1 == 0 {
          stopSearch := true;
        }
        if searchList.None? {
          outcome := Threw(UndefinedProperty("hidden"));
          return;
        }
        searchList := Some(searchList.value.(hidden := stopSearch));
        assert TrackedEdit(Settings(), items, s0, ev, env, k, pos, fx)
            == Extend(Settings(), items, State(), ev, k, pos - 1, fx);
        effects, outcome := ExtendKey(ev, k, pos - 1, effects);
      } else if searchList.None? {
        outcome := Threw(UndefinedProperty("hidden"));
      } else if !searchList.value.hidden && (ev.keyCode == KeyTab || ev.keyCode == KeyEnter) {
        var start := startPos;
        startPos := -1;
        assert TrackedEdit(Settings(), items, s0, ev, env, k, pos, fx)
            == Commit(Settings(), State(), searchList.value, ev, env, start, pos, fx);
        effects, outcome := CommitKey(ev, env, start, pos, effects);
      } else if !searchList.value.hidden && ev.keyCode == KeyEscape {
        effects, outcome := EscapeKey(ev, effects);
      } else if !searchList.value.hidden && ev.keyCode == KeyDown {
        effects, outcome := effects + StopEvent(ev) + [ActivateNext], ReturnedFalse;
      } else if !searchList.value.hidden && ev.keyCode == KeyUp {
        effects, outcome := effects + StopEvent(ev) + [ActivatePrevious], ReturnedFalse;
      } else {
        assert TrackedEdit(Settings(), items, s0, ev, env, k, pos, fx)
            == Extend(Settings(), items, s0, ev, k, pos, fx);
        effects, outcome := ExtendKey(ev, k, pos, effects);
      }
    }

    /** The end of a tracked key: swallow Left and Right, otherwise search for the text
        between the trigger and the caret `pos`, plus the key's character. */
    method ExtendKey(ev: KeyEvent, k: KeyRead, pos: int, fx: seq<Effect>) returns (effects: seq<Effect>, outcome: Outcome)
      modifies this`searchString, this`searchList
      ensures StepResult(State(), effects, outcome) == Extend(Settings(), items, old(State()), ev, k, pos, fx)
    {
      if ev.keyCode == KeyLeft || ev.keyCode == KeyRight {
        effects, outcome := fx + StopEvent(ev), ReturnedFalse;
        return;
      }
      var mention := TrackedSpan(k.value, startPos, pos, k.android);
      if ev.keyCode != KeyBackspace {
        mention := mention + ToStr(k.charPressed);
      }
      effects, outcome := SearchKey(mention, fx);
    }

    /** Escape on a shown list: hide it and stop the search. */
    method EscapeKey(ev: KeyEvent, fx: seq<Effect>) returns (effects: seq<Effect>, outcome: Outcome)
      requires searchList.Some?
      modifies this`stopSearch, this`searchList
      ensures StepResult(State(), effects, outcome) == Abort(old(State()), old(searchList.value), ev, fx)
    {
      effects := fx + StopEvent(ev);
      searchList := Some(searchList.value.(hidden := true));
      stopSearch := true;
      outcome := ReturnedFalse;
    }

    /** A key while no trigger is tracked: act on a trigger-prefixed word at the caret. */
    method WordKey(ev: KeyEvent, env: Env, k: KeyRead, fx: seq<Effect>) returns (effects: seq<Effect>, outcome: Outcome)
      modifies this`stopSearch, this`searchString, this`searchList
      ensures StepResult(State(), effects, outcome) == WordStep(Settings(), items, old(State()), ev, env, k, fx)
    {
      effects, outcome := fx, Completed;
      var word := env.word;
      if !StartsWith(word, ToStr(triggerChar)) {
        return;
      }
      word := Substring(word, 1, |word|);
      var pos: int := env.wordCaret;
      var editStartPos := pos - |word|;
      if !Unmodified(ev) || pos < editStartPos || ev.keyCode == KeySpace {
        return;
      }
      if ev.keyCode == KeyBackspace && pos > 0 {
        pos := pos - 1;
        stopSearch := pos == 0 || pos < editStartPos;
        if searchList.None? {
          outcome := Threw(UndefinedProperty("hidden"));
          return;
        }
        searchList := Some(searchList.value.(hidden := stopSearch));
        if !stopSearch {
          effects, outcome := SearchKey(Substring(word, 0, |word| - 1), effects);
        }
        return;
      }
      if searchList.None? {
        outcome := Threw(UndefinedProperty("hidden"));
        return;
      }
      if !searchList.value.hidden {
        if ev.keyCode == KeyTab || ev.keyCode == KeyEnter {
          effects, outcome := CommitKey(ev, env, editStartPos - 1, pos, effects);
          return;
        } else if ev.keyCode == KeyEscape {
          effects, outcome := EscapeKey(ev, effects);
          return;
        } else if ev.keyCode == KeyDown {
          effects := effects + StopEvent(ev) + [ActivateNext];
          outcome := ReturnedFalse;
          return;
        } else if ev.keyCode == KeyUp {
          effects := effects + StopEvent(ev) + [ActivatePrevious];
          outcome := ReturnedFalse;
          return;
        }
      }
      var mention := word;
      if ev.keyCode != KeyBackspace {
        mention := mention + ToStr(k.charPressed);
      }
      effects, outcome := SearchKey(mention, effects);
    }
  }
}
