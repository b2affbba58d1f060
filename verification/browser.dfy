/**
 * The browser as data. A page is what `driver.find_elements` returns for each locator rule;
 * an element is the part of a DOM node the scraper reads. Actions on elements (scrolling,
 * clicking, typing) and the passing of time are answered by an environment given as
 * functions, and every action and sleep is recorded in a log, so that "no click happened"
 * and "the steps ran in this order" are statements about values.
 */
module Browser {
  import opened Outcomes

  /**
   * A DOM element. `stale`: the node has left the document, and every read of it raises a
   * stale-element exception. `children`: what the scraper's nested query on the element
   * finds (the rows of a grid, the cells of a row).
   */
  datatype Element = Element(
    stale: bool,
    displayed: bool,
    selected: bool,
    attrs: map<string, string>,
    text: string,
    children: seq<Element>)

  /** `element.get_attribute(name)`: None when the attribute is absent. */
  function Attr(e: Element, name: string): Option<string> {
    if name in e.attrs then Some(e.attrs[name]) else None
  }

  /** The two date inputs of the filter bar. */
  datatype DateField = Start | End

  /**
   * The locator rules, as opaque identifiers: the selector strings belong to the browser.
   * Date rules 0..5 depend on the field; 6 and 7 are the generic date inputs shared by both.
   * Toggle rules depend on the label; grid rules on nothing.
   */
  datatype Rule =
    | DateRule(field: DateField, rank: nat)
    | GenericDateRule(rank: nat)
    | ToggleRule(name: string, rank: nat)
    | GridRule(rank: nat)

  const DateRuleCount: nat := 8
  const ToggleRuleCount: nat := 11
  const GridRuleCount: nat := 7

  /** The i-th date locator for a field, in the order the source lists them. */
  function DateRuleAt(field: DateField, i: nat): Rule {
    if i < 6 then DateRule(field, i) else GenericDateRule(i)
  }

  /** The toggle locators for one toggle label, in order. */
  function ToggleRules(name: string): (rules: seq<Rule>)
    ensures |rules| == ToggleRuleCount
    ensures forall i :: 0 <= i < |rules| ==> rules[i] == ToggleRule(name, i)
  {
    seq(ToggleRuleCount, i requires 0 <= i => ToggleRule(name, i))
  }

  /** The grid locators, in order. */
  function GridRules(): (rules: seq<Rule>)
    ensures |rules| == GridRuleCount
    ensures forall i :: 0 <= i < |rules| ==> rules[i] == GridRule(i)
  {
    seq(GridRuleCount, i requires 0 <= i => GridRule(i))
  }

  /** What one `find_elements` call gives: the matches in document order, or an exception. */
  datatype Lookup = Matches(elements: seq<Element>) | LookupError(exn: Exn)

  /** A page: the answer to each locator rule. Rules the page does not list find nothing. */
  datatype Page = Page(lookups: map<Rule, Lookup>)

  function FindElements(page: Page, rule: Rule): Lookup {
    if rule in page.lookups then page.lookups[rule] else Matches([])
  }

  /** The actions the scraper performs on an element. */
  datatype Op =
    | Scroll                  // scrollIntoView through execute_script
    | Click                   // element.click()
    | ScriptClick             // a click through execute_script, after an intercepted click
    | ReplaceValue(value: string)  // click, select all, delete, type the value, tab out

  /** The configured pauses. */
  datatype Delay = ActionDelay | RetryDelay | GridRefreshWait

  /** One entry of the log: an action issued on an element, or a sleep. */
  datatype Event = Action(target: Element, op: Op) | Slept(delay: Delay)

  /** The state the scraper drives: the current page and everything done so far. */
  datatype World = World(page: Page, log: seq<Event>)

  /**
   * How the browser reacts: to an action on a live element (the next page, or an exception
   * such as an intercepted click) and to time passing (the page after a pause).
   */
  datatype Env = Env(respond: (Page, Element, Op) -> Outcome<Page>, settle: (Page, Delay) -> Page)

  /**
   * Issue an action on an element. It is always logged; on a stale element it raises a
   * stale-element exception and the page stays as it was; otherwise the browser answers.
   */
  function Perform(env: Env, w: World, e: Element, op: Op): (r: (Outcome<()>, World))
    ensures r.1.log == w.log + [Action(e, op)]
    ensures e.stale ==> r.0 == Raised(StaleElement) && r.1.page == w.page
    ensures r.0.Raised? ==> r.1.page == w.page
    ensures !e.stale && env.respond(w.page, e, op).Ok? ==> r.0.Ok? && r.1.page == env.respond(w.page, e, op).value
  {
    var logged := w.(log := w.log + [Action(e, op)]);
    if e.stale then (Raised(StaleElement), logged)
    else
      match env.respond(w.page, e, op)
      case Ok(p) => (Ok(()), logged.(page := p))
      case Raised(x) => (Raised(x), logged)
  }

  /** `time.sleep(delay)`: the page settles and the sleep is logged. */
  function Sleep(env: Env, w: World, d: Delay): (r: World)
    ensures r.log == w.log + [Slept(d)]
    ensures r.page == env.settle(w.page, d)
  {
    World(env.settle(w.page, d), w.log + [Slept(d)])
  }

  /** The pause between retries of any unit of work. */
  function RetryPause(env: Env): World -> World {
    w => Sleep(env, w, RetryDelay)
  }

  /** The actions issued on elements that `log` records, in order. */
  function Actions(log: seq<Event>): (ops: seq<Op>)
    ensures |ops| <= |log|
  {
    if log == [] then []
    else Actions(log[..|log| - 1]) + (if log[|log| - 1].Action? then [log[|log| - 1].op] else [])
  }

  /** Every action of the log is counted: all of them are actions iff none is dropped, and none is iff all are sleeps. */
  lemma {:induction false} ActionsCount(log: seq<Event>)
    ensures |Actions(log)| == |log| <==> forall j :: 0 <= j < |log| ==> log[j].Action?
    ensures Actions(log) == [] <==> forall j :: 0 <= j < |log| ==> log[j].Slept?
  {
    if log != [] {
      var init := log[..|log| - 1];
      ActionsCount(init);
      assert forall j :: 0 <= j < |init| ==> init[j] == log[j];
    }
  }

  lemma ActionsSingle(ev: Event)
    ensures Actions([ev]) == if ev.Action? then [ev.op] else []
  {
    assert [ev][..0] == [];
  }

  lemma {:induction false} ActionsAppend(a: seq<Event>, b: seq<Event>)
    ensures Actions(a + b) == Actions(a) + Actions(b)
    decreases |b|
  {
    if b == [] {
      assert a + b == a;
    } else {
      var b' := b[..|b| - 1];
      assert (a + b)[..|a + b| - 1] == a + b';
      ActionsAppend(a, b');
    }
  }
}
