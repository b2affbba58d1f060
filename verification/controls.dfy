/**
 * The filter bar: `set_date_range` (with its inner `set_single_date`), `ensure_toggle_state`,
 * `set_all_toggles` and `verify_toggles_still_on`. Every unit of work that the source wraps in
 * `retry_on_stale` is a function from a world to an outcome and a world, retried by
 * `Retry.Retried` with the configured budget and the configured pause.
 */
module Controls {
  import opened Outcomes
  import opened Settings
  import opened Browser
  import opened Locators
  import opened Retry

  // ---------------------------------------------------------------------------------------
  // Date range
  // ---------------------------------------------------------------------------------------

  /**
   * One attempt of `set_single_date`: find the input, scroll it into view, pause, replace its
   * value (click, select all, delete, type, tab out), pause, and report True.
   */
  function DateStep(env: Env, field: DateField, value: string, w: World): (r: (Outcome<bool>, World))
    ensures FindDateInput(w.page, field).Raised? ==> r == (Raised(FindDateInput(w.page, field).exn), w)
    ensures r.0.Ok? ==> r.0.value
    ensures r.0.Ok? ==>
      var e := FindDateInput(w.page, field).value;
      r.1.log == w.log + [Action(e, Scroll), Slept(ActionDelay), Action(e, ReplaceValue(value)), Slept(ActionDelay)]
    ensures FindDateInput(w.page, field).Ok? ==>
      var e := FindDateInput(w.page, field).value;
      var scroll := Perform(env, w, e, Scroll);
      var typed := Perform(env, Sleep(env, scroll.1, ActionDelay), e, ReplaceValue(value));
      && w.log + [Action(e, Scroll)] <= r.1.log
      && (r.0.Ok? <==> scroll.0.Ok? && typed.0.Ok?)
      && (scroll.0.Raised? ==> r == (Raised(scroll.0.exn), scroll.1))
      && (scroll.0.Ok? && typed.0.Raised? ==> r == (Raised(typed.0.exn), typed.1))
  {
    match FindDateInput(w.page, field)
    case Raised(x) => (Raised(x), w)
    case Ok(e) =>
      var (scrolled, w1) := Perform(env, w, e, Scroll);
      if scrolled.Raised? then (Raised(scrolled.exn), w1)
      else
        var (typed, w2) := Perform(env, Sleep(env, w1, ActionDelay), e, ReplaceValue(value));
        if typed.Raised? then (Raised(typed.exn), w2)
        else (Ok(true), Sleep(env, w2, ActionDelay))
  }

  function DateAction(env: Env, field: DateField, value: string): World -> (Outcome<bool>, World) {
    w => DateStep(env, field, value, w)
  }

  /** `set_single_date`: the date step under the retry rule with the configured budget. */
  function SetSingleDate(env: Env, cfg: Config, field: DateField, value: string, w: World): RetryRun<World, bool> {
    Retried(DateAction(env, field, value), RetryPause(env), w, RetryBudget(None, cfg.maxRetries), 0)
  }

  /**
   * `set_date_range`: the start date, then the end date, then the grid-refresh pause. An
   * exception from either date propagates (the end date is then not attempted when the start
   * date failed); otherwise the answer is True.
   */
  function SetDateRange(env: Env, cfg: Config, start: string, end: string, w: World): (r: (Outcome<bool>, World))
    ensures r.0.Ok? ==> r.0.value
    ensures r.0.Ok? <==> (SetSingleDate(env, cfg, Start, start, w).outcome.Ok?
      && SetSingleDate(env, cfg, End, end, SetSingleDate(env, cfg, Start, start, w).state).outcome.Ok?)
    ensures SetSingleDate(env, cfg, Start, start, w).outcome.Raised? ==>
      r == (SetSingleDate(env, cfg, Start, start, w).outcome, SetSingleDate(env, cfg, Start, start, w).state)
    ensures r.0.Ok? ==> |r.1.log| > 0 && r.1.log[|r.1.log| - 1] == Slept(GridRefreshWait)
    ensures var first := SetSingleDate(env, cfg, Start, start, w);
      var second := SetSingleDate(env, cfg, End, end, first.state);
      && (first.outcome.Ok? && second.outcome.Raised? ==> r == (second.outcome, second.state))
      && (r.0.Ok? ==> r.1 == Sleep(env, second.state, GridRefreshWait))
  {
    var first := SetSingleDate(env, cfg, Start, start, w);
    if first.outcome.Raised? then (first.outcome, first.state)
    else
      var second := SetSingleDate(env, cfg, End, end, first.state);
      if second.outcome.Raised? then (second.outcome, second.state)
      else (Ok(true), Sleep(env, second.state, GridRefreshWait))
  }

  /**
   * Setting a date is never answered with False: whatever the browser does, the date step
   * either raises or reports True, and the same holds after retries.
   */
  lemma SetSingleDateTrue(env: Env, cfg: Config, field: DateField, value: string, w: World)
    ensures SetSingleDate(env, cfg, field, value, w).outcome.Ok? ==> SetSingleDate(env, cfg, field, value, w).outcome.value
  {
    var post := (o: Outcome<bool>, _: World) => o.Ok? ==> o.value;
    RetriedEnds(DateAction(env, field, value), RetryPause(env), w, RetryBudget(None, cfg.maxRetries), 0, post);
  }

  /** The log ends with the value typed into an input, followed by one more event (the pause after typing). */
  predicate TypedLast(log: seq<Event>, value: string) {
    |log| >= 2 && log[|log| - 2].Action? && log[|log| - 2].op == ReplaceValue(value)
  }

  /** When `set_single_date` answers True, its last attempt typed the value into the input it found, then paused. */
  lemma SetSingleDateTyped(env: Env, cfg: Config, field: DateField, value: string, w: World)
    ensures var r := SetSingleDate(env, cfg, field, value, w); r.outcome.Ok? ==> TypedLast(r.state.log, value)
  {
    var post := (o: Outcome<bool>, s: World) => o.Ok? ==> TypedLast(s.log, value);
    forall x: World
      ensures post(DateAction(env, field, value)(x).0, DateAction(env, field, value)(x).1)
    {
      var r := DateStep(env, field, value, x);
      if r.0.Ok? {
        var e := FindDateInput(x.page, field).value;
        assert r.1.log == x.log + [Action(e, Scroll), Slept(ActionDelay), Action(e, ReplaceValue(value)), Slept(ActionDelay)];
      }
    }
    RetriedEnds(DateAction(env, field, value), RetryPause(env), w, RetryBudget(None, cfg.maxRetries), 0, post);
  }

  /**
   * When `set_date_range` answers True, the start date was typed at the end of its setting, the
   * end date at the end of its own, and the grid-refresh pause came last.
   */
  lemma SetDateRangeTyped(env: Env, cfg: Config, start: string, end: string, w: World)
    ensures var r := SetDateRange(env, cfg, start, end, w);
      var first := SetSingleDate(env, cfg, Start, start, w);
      var second := SetSingleDate(env, cfg, End, end, first.state);
      r.0.Ok? ==> TypedLast(first.state.log, start) && TypedLast(second.state.log, end) && r.1 == Sleep(env, second.state, GridRefreshWait)
  {
    var first := SetSingleDate(env, cfg, Start, start, w);
    SetSingleDateTyped(env, cfg, Start, start, w);
    SetSingleDateTyped(env, cfg, End, end, first.state);
  }

  // ---------------------------------------------------------------------------------------
  // One toggle
  // ---------------------------------------------------------------------------------------

  /** The toggle is found and reads as `desired`. */
  predicate InState(page: Page, name: string, desired: bool) {
    FindToggle(page, name).Ok? && FindToggle(page, name).value.1 == desired
  }

  /** The click of `ensure_toggle_state`: a plain click, followed by a script click only when the plain one is intercepted. */
  function ClickToggle(env: Env, w: World, e: Element): (r: (Outcome<()>, World))
    ensures r.1.log == w.log + [Action(e, Click)] || r.1.log == w.log + [Action(e, Click), Action(e, ScriptClick)]
    ensures r.1.log == w.log + [Action(e, Click), Action(e, ScriptClick)] <==> Perform(env, w, e, Click).0 == Raised(ClickIntercepted)
  {
    var (clicked, w1) := Perform(env, w, e, Click);
    if clicked == Raised(ClickIntercepted) then Perform(env, w1, e, ScriptClick) else (clicked, w1)
  }

  /** The part of `ensure_toggle_state` that changes the toggle: scroll, pause, click, pause, and read the toggle again. */
  function ClickAndReread(env: Env, name: string, desired: bool, e: Element, w: World): (r: (Outcome<bool>, World))
    ensures r.0.Ok? ==> (r.0.value <==> InState(r.1.page, name, desired))
    ensures w.log + [Action(e, Scroll)] <= r.1.log
    ensures var scroll := Perform(env, w, e, Scroll);
      var click := ClickToggle(env, Sleep(env, scroll.1, ActionDelay), e);
      && (r.0.Ok? <==> scroll.0.Ok? && click.0.Ok? && FindToggle(Sleep(env, click.1, ActionDelay).page, name).Ok?)
      && (scroll.0.Raised? ==> r == (Raised(scroll.0.exn), scroll.1))
      && (scroll.0.Ok? && click.0.Raised? ==> r == (Raised(click.0.exn), click.1))
      && (scroll.0.Ok? && click.0.Ok? ==> r.1 == Sleep(env, click.1, ActionDelay))
  {
    var (scrolled, w1) := Perform(env, w, e, Scroll);
    if scrolled.Raised? then (Raised(scrolled.exn), w1)
    else
      var (clicked, w2) := ClickToggle(env, Sleep(env, w1, ActionDelay), e);
      if clicked.Raised? then (Raised(clicked.exn), w2)
      else
        Reread(name, desired, Sleep(env, w2, ActionDelay))
  }

  /** Reading the toggle again after the click: the answer is whether it now reads as desired. */
  function Reread(name: string, desired: bool, w: World): (r: (Outcome<bool>, World))
    ensures r.1 == w
    ensures r.0.Ok? <==> FindToggle(w.page, name).Ok?
    ensures FindToggle(w.page, name).Raised? ==> r.0 == Raised(FindToggle(w.page, name).exn)
    ensures r.0.Ok? ==> (r.0.value <==> InState(w.page, name, desired))
  {
    match FindToggle(w.page, name)
    case Raised(x) => (Raised(x), w)
    case Ok((_, now)) => (Ok(now == desired), w)
  }

  /**
   * One attempt of `ensure_toggle_state`. When the toggle already reads as desired, nothing is
   * done and the answer is True. Otherwise the toggle is clicked and read again, and the answer
   * is whether it now reads as desired.
   */
  function ToggleStep(env: Env, name: string, desired: bool, w: World): (r: (Outcome<bool>, World))
    ensures FindToggle(w.page, name).Raised? ==> r == (Raised(FindToggle(w.page, name).exn), w)
    ensures InState(w.page, name, desired) ==> r == (Ok(true), w)
    ensures FindToggle(w.page, name).Ok? && !InState(w.page, name, desired) ==>
      r == ClickAndReread(env, name, desired, FindToggle(w.page, name).value.0, w)
    ensures r.0.Ok? ==> (r.0.value <==> InState(r.1.page, name, desired))
  {
    match FindToggle(w.page, name)
    case Raised(x) => (Raised(x), w)
    case Ok((e, checked)) =>
      if checked == desired then (Ok(true), w)
      else ClickAndReread(env, name, desired, e, w)
  }

  /** The log of a click: the plain click, and the script click after it when there was one. */
  lemma ClickToggleActions(env: Env, w: World, e: Element)
    ensures var r := ClickToggle(env, w, e);
      w.log <= r.1.log && Actions(r.1.log[|w.log|..]) <= [Click, ScriptClick]
    ensures var r := ClickToggle(env, w, e);
      Actions(r.1.log[|w.log|..]) == [Click] + if Perform(env, w, e, Click).0 == Raised(ClickIntercepted) then [ScriptClick] else []
  {
    var (clicked, w1) := Perform(env, w, e, Click);
    ActionsSingle(Action(e, Click));
    if clicked == Raised(ClickIntercepted) {
      var log := w.log + [Action(e, Click), Action(e, ScriptClick)];
      assert ClickToggle(env, w, e).1.log == log;
      assert log[|w.log|..] == [Action(e, Click)] + [Action(e, ScriptClick)];
      ActionsSingle(Action(e, ScriptClick));
      ActionsAppend([Action(e, Click)], [Action(e, ScriptClick)]);
    } else {
      var log := w.log + [Action(e, Click)];
      assert ClickToggle(env, w, e).1.log == log;
      assert log[|w.log|..] == [Action(e, Click)];
    }
  }

  lemma ClickAndRereadActions(env: Env, name: string, desired: bool, e: Element, w: World)
    ensures var r := ClickAndReread(env, name, desired, e, w);
      w.log <= r.1.log && Actions(r.1.log[|w.log|..]) <= [Scroll, Click, ScriptClick]
    ensures var r := ClickAndReread(env, name, desired, e, w);
      var scroll := Perform(env, w, e, Scroll);
      var intercepted := Perform(env, Sleep(env, scroll.1, ActionDelay), e, Click).0 == Raised(ClickIntercepted);
      && (scroll.0.Raised? ==> Actions(r.1.log[|w.log|..]) == [Scroll])
      && (scroll.0.Ok? ==> Actions(r.1.log[|w.log|..]) == [Scroll, Click] + if intercepted then [ScriptClick] else [])
  {
    var r := ClickAndReread(env, name, desired, e, w);
    var (scrolled, w1) := Perform(env, w, e, Scroll);
    if scrolled.Raised? {
      assert r.1 == w1;
      assert r.1.log[|w.log|..] == [Action(e, Scroll)];
      ActionsSingle(Action(e, Scroll));
    } else {
      ScrolledActions(env, name, desired, e, w);
    }
  }

  /** Once the scroll is accepted: the scroll, then exactly one click, with a script click after an intercepted one. */
  lemma ScrolledActions(env: Env, name: string, desired: bool, e: Element, w: World)
    requires Perform(env, w, e, Scroll).0.Ok?
    ensures var r := ClickAndReread(env, name, desired, e, w);
      var w2 := Sleep(env, Perform(env, w, e, Scroll).1, ActionDelay);
      var intercepted := Perform(env, w2, e, Click).0 == Raised(ClickIntercepted);
      && w.log <= r.1.log
      && Actions(r.1.log[|w.log|..]) == [Scroll, Click] + if intercepted then [ScriptClick] else []
  {
    var r := ClickAndReread(env, name, desired, e, w);
    var w1 := Perform(env, w, e, Scroll).1;
    var w2 := Sleep(env, w1, ActionDelay);
    var (clicked, w3) := ClickToggle(env, w2, e);
    ClickToggleActions(env, w2, e);
    var clicks := w3.log[|w2.log|..];
    var tail := if clicked.Raised? then [] else [Slept(ActionDelay)];
    assert r.1.log == w3.log + tail;
    assert w2.log == w.log + [Action(e, Scroll)] + [Slept(ActionDelay)];
    assert w3.log == w2.log + clicks;
    assert r.1.log[|w.log|..] == [Action(e, Scroll)] + [Slept(ActionDelay)] + clicks + tail;
    AttemptActions(e, clicks, tail);
    assert Actions(clicks) == [Click] + if Perform(env, w2, e, Click).0 == Raised(ClickIntercepted) then [ScriptClick] else [];
  }

  lemma AttemptActions(e: Element, clicks: seq<Event>, tail: seq<Event>)
    requires Actions(clicks) <= [Click, ScriptClick]
    requires tail == [] || tail == [Slept(ActionDelay)]
    ensures Actions([Action(e, Scroll)] + [Slept(ActionDelay)] + clicks + tail) <= [Scroll, Click, ScriptClick]
    ensures Actions([Action(e, Scroll)] + [Slept(ActionDelay)] + clicks + tail) == [Scroll] + Actions(clicks)
  {
    var scroll, pause := [Action(e, Scroll)], [Slept(ActionDelay)];
    ActionsSingle(Action(e, Scroll));
    ActionsSingle(Slept(ActionDelay));
    ActionsAppend(scroll, pause);
    assert Actions(scroll + pause) == [Scroll];
    ActionsAppend(scroll + pause, clicks);
    var a := Actions(clicks);
    assert Actions(scroll + pause + clicks) == [Scroll] + a;
    assert Actions(tail) == [];
    ActionsAppend(scroll + pause + clicks, tail);
    assert Actions(scroll + pause + clicks + tail) == [Scroll] + a;
    assert [Scroll] + a == [Scroll, Click, ScriptClick][..1 + |a|];
  }

  /**
   * What one attempt does to the page, in order: at most one scroll, one click, and one script
   * click (the script click only after an intercepted click); nothing at all when the toggle
   * already reads as desired. The log only grows. A found toggle in the other state is
   * scrolled to first, and once the scroll is accepted it is clicked exactly once: by a plain
   * click, or by a plain click and then a script click.
   */
  lemma ToggleStepActions(env: Env, name: string, desired: bool, w: World)
    ensures var r := ToggleStep(env, name, desired, w);
      w.log <= r.1.log && Actions(r.1.log[|w.log|..]) <= [Scroll, Click, ScriptClick]
    ensures var r := ToggleStep(env, name, desired, w);
      FindToggle(w.page, name).Ok? && !InState(w.page, name, desired) ==>
        var e := FindToggle(w.page, name).value.0;
        && |r.1.log| > |w.log| && r.1.log[|w.log|] == Action(e, Scroll)
        && (Perform(env, w, e, Scroll).0.Ok? ==>
              Actions(r.1.log[|w.log|..]) == [Scroll, Click] || Actions(r.1.log[|w.log|..]) == [Scroll, Click, ScriptClick])
  {
    var r := ToggleStep(env, name, desired, w);
    match FindToggle(w.page, name)
    case Raised(_) =>
      assert r.1.log[|w.log|..] == [];
    case Ok((e, checked)) =>
      if checked == desired {
        assert r.1.log[|w.log|..] == [];
      } else {
        ClickAndRereadActions(env, name, desired, e, w);
      }
  }

  function ToggleAction(env: Env, name: string, desired: bool): World -> (Outcome<bool>, World) {
    w => ToggleStep(env, name, desired, w)
  }

  /** `ensure_toggle_state`: the toggle step under the retry rule with the configured budget. */
  function EnsureToggle(env: Env, cfg: Config, name: string, desired: bool, w: World): RetryRun<World, bool> {
    Retried(ToggleAction(env, name, desired), RetryPause(env), w, RetryBudget(None, cfg.maxRetries), 0)
  }

  /** A toggle that already reads as desired is left alone: one attempt, True, and the world unchanged (no click). */
  lemma EnsureToggleNoop(env: Env, cfg: Config, name: string, desired: bool, w: World)
    requires InState(w.page, name, desired)
    ensures EnsureToggle(env, cfg, name, desired, w) == RetryRun(Ok(true), w, 1)
  {
    RetriedFirstFinal(ToggleAction(env, name, desired), RetryPause(env), w, RetryBudget(None, cfg.maxRetries));
  }

  /** True means the toggle, read again at the end, is in the desired state. */
  lemma EnsureToggleTrue(env: Env, cfg: Config, name: string, desired: bool, w: World)
    ensures var r := EnsureToggle(env, cfg, name, desired, w);
      r.outcome == Ok(true) ==> InState(r.state.page, name, desired)
  {
    var post := (o: Outcome<bool>, s: World) => o == Ok(true) ==> InState(s.page, name, desired);
    RetriedEnds(ToggleAction(env, name, desired), RetryPause(env), w, RetryBudget(None, cfg.maxRetries), 0, post);
  }

  /** Idempotence: once a call has answered True, a second call in the world it left does nothing and answers True. */
  lemma EnsureToggleIdempotent(env: Env, cfg: Config, name: string, desired: bool, w: World)
    ensures var r := EnsureToggle(env, cfg, name, desired, w);
      r.outcome == Ok(true) ==> EnsureToggle(env, cfg, name, desired, r.state) == RetryRun(Ok(true), r.state, 1)
  {
    var r := EnsureToggle(env, cfg, name, desired, w);
    EnsureToggleTrue(env, cfg, name, desired, w);
    if r.outcome == Ok(true) {
      EnsureToggleNoop(env, cfg, name, desired, r.state);
    }
  }

  // ---------------------------------------------------------------------------------------
  // Both toggles
  // ---------------------------------------------------------------------------------------

  /** The toggles the scraper switches on, in order. */
  const ToggleNames: seq<string> := ["Show Closed Jobs", "Show Jobs with Scheduling Conflicts"]

  /** What `set_all_toggles` makes of one toggle's answer: a missing toggle counts as False. */
  function Tolerated(o: Outcome<bool>): (t: Outcome<bool>)
    ensures t.Raised? <==> o.Raised? && !o.exn.NoSuchElement?
    ensures t.Ok? ==> (t.value <==> o == Ok(true))
  {
    if o.Raised? && o.exn.NoSuchElement? then Ok(false) else o
  }

  /** A later result under an accumulated flag: an exception passes through, a value is and-ed with the flag. */
  function Combine(b: bool, later: (Outcome<bool>, World)): (Outcome<bool>, World) {
    if later.0.Raised? then later else (Ok(b && later.0.value), later.1)
  }

  /** The answer for one name, as the loop of `set_all_toggles` sees it, and the world after it. */
  type Visitor = (string, World) -> (Outcome<bool>, World)

  /** One toggle of `set_all_toggles`: `ensure_toggle_state` with desired state on, a missing toggle counting as False. */
  function Visit(env: Env, cfg: Config): Visitor {
    (name, w) => (Tolerated(EnsureToggle(env, cfg, name, true, w).outcome), EnsureToggle(env, cfg, name, true, w).state)
  }

  /**
   * The loop of `set_all_toggles` over a list of names: visit each in turn; a False answer
   * makes the result False but does not stop the loop; an exception leaves it.
   */
  function VisitAll(visit: Visitor, names: seq<string>, w: World): (r: (Outcome<bool>, World))
    decreases |names|
  {
    if names == [] then (Ok(true), w)
    else
      var (here, w1) := visit(names[0], w);
      if here.Raised? then (here, w1)
      else Combine(here.value, VisitAll(visit, names[1..], w1))
  }

  /** `set_all_toggles` on a list of names. */
  function SetToggles(env: Env, cfg: Config, names: seq<string>, w: World): (Outcome<bool>, World) {
    VisitAll(Visit(env, cfg), names, w)
  }

  /** The world in which name `i` is visited. */
  function VisitWorld(visit: Visitor, names: seq<string>, w: World, i: nat): World
    requires i <= |names|
  {
    if i == 0 then w else visit(names[i - 1], VisitWorld(visit, names, w, i - 1)).1
  }

  /** The answer of the visit of name `i`. */
  function VisitResult(visit: Visitor, names: seq<string>, w: World, i: nat): Outcome<bool>
    requires i < |names|
  {
    visit(names[i], VisitWorld(visit, names, w, i)).0
  }

  lemma {:induction false} VisitWorldShift(visit: Visitor, names: seq<string>, w: World, i: nat)
    requires 0 < |names| && i < |names|
    ensures VisitWorld(visit, names, w, i + 1) == VisitWorld(visit, names[1..], visit(names[0], w).1, i)
  {
    if i > 0 {
      VisitWorldShift(visit, names, w, i - 1);
    }
  }

  lemma VisitResultShift(visit: Visitor, names: seq<string>, w: World, i: nat)
    requires i + 1 < |names|
    ensures VisitResult(visit, names, w, i + 1) == VisitResult(visit, names[1..], visit(names[0], w).1, i)
  {
    VisitWorldShift(visit, names, w, i);
  }

  /**
   * The loop stated name by name: it answers (without raising) exactly when no visit raised,
   * and it has then visited every name, in order, each in the world the previous one left.
   */
  lemma {:induction false} VisitAllVisits(visit: Visitor, names: seq<string>, w: World)
    decreases |names|
    ensures var r := VisitAll(visit, names, w);
      && (r.0.Ok? <==> forall i :: 0 <= i < |names| ==> VisitResult(visit, names, w, i).Ok?)
      && (r.0.Ok? ==> r.1 == VisitWorld(visit, names, w, |names|))
  {
    if names != [] {
      var w1 := visit(names[0], w).1;
      var rest := names[1..];
      VisitAllVisits(visit, rest, w1);
      VisitWorldShift(visit, names, w, |rest|);
      assert VisitResult(visit, names, w, 0) == visit(names[0], w).0;
      if visit(names[0], w).0.Ok? {
        forall i | 0 <= i < |rest|
          ensures VisitResult(visit, names, w, i + 1) == VisitResult(visit, rest, w1, i)
        {
          VisitResultShift(visit, names, w, i);
        }
        forall i | 0 <= i < |names| && forall j :: 0 <= j < |rest| ==> VisitResult(visit, rest, w1, j).Ok?
          ensures VisitResult(visit, names, w, i).Ok?
        {
          if i > 0 {
            assert VisitResult(visit, names, w, i) == VisitResult(visit, rest, w1, i - 1);
          }
        }
      }
    }
  }

  /** The answer of the loop is the and of all answers: True exactly when every visit answered True. */
  lemma {:induction false} VisitAllAnd(visit: Visitor, names: seq<string>, w: World)
    decreases |names|
    ensures VisitAll(visit, names, w).0 == Ok(true)
      <==> forall i :: 0 <= i < |names| ==> VisitResult(visit, names, w, i) == Ok(true)
  {
    if names != [] {
      var w1 := visit(names[0], w).1;
      var rest := names[1..];
      VisitAllAnd(visit, rest, w1);
      assert VisitResult(visit, names, w, 0) == visit(names[0], w).0;
      if visit(names[0], w).0.Ok? {
        forall i | 0 <= i < |rest|
          ensures VisitResult(visit, names, w, i + 1) == VisitResult(visit, rest, w1, i)
        {
          VisitResultShift(visit, names, w, i);
        }
        forall i | 0 <= i < |names| && visit(names[0], w).0 == Ok(true) && forall j :: 0 <= j < |rest| ==> VisitResult(visit, rest, w1, j) == Ok(true)
          ensures VisitResult(visit, names, w, i) == Ok(true)
        {
          if i > 0 {
            assert VisitResult(visit, names, w, i) == VisitResult(visit, rest, w1, i - 1);
          }
        }
      }
    }
  }

  /**
   * When the loop raises, the exception is that of the first visit that raised, every
   * earlier visit answered, and no later name was visited.
   */
  lemma {:induction false} VisitAllRaises(visit: Visitor, names: seq<string>, w: World)
    decreases |names|
    ensures var r := VisitAll(visit, names, w);
      r.0.Raised? ==> exists i :: (0 <= i < |names|
        && (forall j :: 0 <= j < i ==> VisitResult(visit, names, w, j).Ok?)
        && r.0 == VisitResult(visit, names, w, i)
        && r.1 == VisitWorld(visit, names, w, i + 1))
  {
    var r := VisitAll(visit, names, w);
    if names != [] && r.0.Raised? {
      var w1 := visit(names[0], w).1;
      var rest := names[1..];
      if visit(names[0], w).0.Raised? {
        assert VisitResult(visit, names, w, 0) == r.0;
        assert VisitWorld(visit, names, w, 1) == w1;
      } else {
        VisitAllRaises(visit, rest, w1);
        var i :| 0 <= i < |rest|
          && (forall j :: 0 <= j < i ==> VisitResult(visit, rest, w1, j).Ok?)
          && r.0 == VisitResult(visit, rest, w1, i)
          && r.1 == VisitWorld(visit, rest, w1, i + 1);
        VisitResultShift(visit, names, w, i);
        VisitWorldShift(visit, names, w, i + 1);
        forall j | 0 <= j < i + 1
          ensures VisitResult(visit, names, w, j).Ok?
        {
          if j > 0 {
            VisitResultShift(visit, names, w, j - 1);
          } else {
            assert VisitResult(visit, names, w, 0) == visit(names[0], w).0;
          }
        }
      }
    }
  }

  /**
   * The loop of `set_all_toggles`: `all_success` starts True, each toggle goes through
   * `ensure_toggle_state` (the retry loop), a False answer or a not-found exception clears the
   * flag, and any other exception leaves the function.
   */
  method SetAllToggles(env: Env, cfg: Config, w0: World) returns (outcome: Outcome<bool>, w: World)
    ensures (outcome, w) == SetToggles(env, cfg, ToggleNames, w0)
  {
    var allSuccess := true;
    w := w0;
    for k := 0 to |ToggleNames|
      invariant SetToggles(env, cfg, ToggleNames, w0) == Combine(allSuccess, SetToggles(env, cfg, ToggleNames[k..], w))
    {
      var o, s, attempts, pauses := RetryOnStale(ToggleAction(env, ToggleNames[k], true), RetryPause(env), w, None, cfg.maxRetries);
      assert ToggleNames[k..][1..] == ToggleNames[k + 1..];
      w := s;
      if o.Raised? && o.exn.NoSuchElement? {
        allSuccess := false;
      } else if o.Raised? {
        return o, w;
      } else if !o.value {
        allSuccess := false;
      }
    }
    outcome := Ok(allSuccess);
  }

  // ---------------------------------------------------------------------------------------
  // The drift check
  // ---------------------------------------------------------------------------------------

  /**
   * `verify_toggles_still_on`: a read-only check of the page. A toggle that is found and
   * unchecked makes it False at once; a missing toggle is passed over.
   */
  function StillOn(page: Page, names: seq<string>): (b: bool)
    ensures b <==> AllFoundOn(page, names)
  {
    if names == [] then true
    else
      assert AllFoundOn(page, names) <==> FoundOn(page, names[0]) && AllFoundOn(page, names[1..]) by {
        assert forall i :: 0 < i < |names| ==> names[i] == names[1..][i - 1];
      }
      match FindToggle(page, names[0])
      case Raised(_) => StillOn(page, names[1..])
      case Ok((_, checked)) => if !checked then false else StillOn(page, names[1..])
  }

  /** The toggle is missing, or found and checked. */
  predicate FoundOn(page: Page, name: string) {
    FindToggle(page, name).Ok? ==> FindToggle(page, name).value.1
  }

  /** Every toggle of the list that is found is checked. */
  predicate AllFoundOn(page: Page, names: seq<string>) {
    forall i :: 0 <= i < |names| ==> FoundOn(page, names[i])
  }

  /** After a successful `set_all_toggles`, the last toggle it switched on reads as on, on the page it left. */
  lemma SetTogglesLastOn(env: Env, cfg: Config, w: World)
    ensures var r := SetToggles(env, cfg, ToggleNames, w);
      r.0 == Ok(true) ==> InState(r.1.page, ToggleNames[1], true)
  {
    var visit := Visit(env, cfg);
    VisitAllVisits(visit, ToggleNames, w);
    VisitAllAnd(visit, ToggleNames, w);
    var r := SetToggles(env, cfg, ToggleNames, w);
    if r.0 == Ok(true) {
      var w1 := VisitWorld(visit, ToggleNames, w, 1);
      assert VisitResult(visit, ToggleNames, w, 1) == Ok(true);
      EnsureToggleTrue(env, cfg, ToggleNames[1], true, w1);
    }
  }
}
