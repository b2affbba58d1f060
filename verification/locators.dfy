/**
 * The ordered-fallback locators: `find_date_input`, `find_toggle_element` and
 * `find_job_grid`. Each tries its rules in a fixed order and takes the first usable match;
 * a rule whose lookup (or whose reading of an element) throws is skipped.
 */
module Locators {
  import opened Outcomes
  import opened Text
  import opened Browser

  // ---------------------------------------------------------------------------------------
  // Date inputs
  // ---------------------------------------------------------------------------------------

  function FieldName(field: DateField): string {
    match field
    case Start => "start"
    case End => "end"
  }

  /** Which match a date rule yields: the first for start; the second for end when there are two or more, else the first. */
  function PickOrdinal(field: DateField, es: seq<Element>): (e: Element)
    requires |es| > 0
    ensures field == Start ==> e == es[0]
    ensures field == End && |es| >= 2 ==> e == es[1]
    ensures field == End && |es| == 1 ==> e == es[0]
  {
    if field == End && |es| >= 2 then es[1] else es[0]
  }

  /** A rule "decides" when its lookup succeeds with at least one match. */
  predicate Decides(page: Page, rule: Rule) {
    FindElements(page, rule).Matches? && |FindElements(page, rule).elements| > 0
  }

  /** `find_date_input` from rule `i` on. */
  function FindDateInputFrom(page: Page, field: DateField, i: nat): (r: Outcome<Element>)
    decreases DateRuleCount - i
    ensures r.Raised? ==> r.exn == NoSuchElement("Could not find " + FieldName(field) + " date input")
  {
    if i >= DateRuleCount then Raised(NoSuchElement("Could not find " + FieldName(field) + " date input"))
    else if Decides(page, DateRuleAt(field, i)) then Ok(PickOrdinal(field, FindElements(page, DateRuleAt(field, i)).elements))
    else FindDateInputFrom(page, field, i + 1)
  }

  function FindDateInput(page: Page, field: DateField): Outcome<Element> {
    FindDateInputFrom(page, field, 0)
  }

  lemma {:induction false} FindDateInputFromFirst(page: Page, field: DateField, from: nat, i: nat)
    requires from <= i < DateRuleCount
    requires forall j :: from <= j < i ==> !Decides(page, DateRuleAt(field, j))
    requires Decides(page, DateRuleAt(field, i))
    decreases i - from
    ensures FindDateInputFrom(page, field, from) == Ok(PickOrdinal(field, FindElements(page, DateRuleAt(field, i)).elements))
  {
    if from < i {
      FindDateInputFromFirst(page, field, from + 1, i);
    }
  }

  /**
   * First match wins: when rule i is the first date rule with a non-empty match list (the
   * earlier ones threw or found nothing), the input is picked from rule i's matches.
   */
  lemma FindDateInputFirstMatch(page: Page, field: DateField, i: nat)
    requires i < DateRuleCount
    requires forall j :: 0 <= j < i ==> !Decides(page, DateRuleAt(field, j))
    requires Decides(page, DateRuleAt(field, i))
    ensures FindDateInput(page, field) == Ok(PickOrdinal(field, FindElements(page, DateRuleAt(field, i)).elements))
  {
    FindDateInputFromFirst(page, field, 0, i);
  }

  lemma {:induction false} FindDateInputFromNone(page: Page, field: DateField, from: nat)
    requires forall j :: from <= j < DateRuleCount ==> !Decides(page, DateRuleAt(field, j))
    decreases DateRuleCount - from
    ensures FindDateInputFrom(page, field, from) == Raised(NoSuchElement("Could not find " + FieldName(field) + " date input"))
  {
    if from < DateRuleCount {
      FindDateInputFromNone(page, field, from + 1);
    }
  }

  /** The date input is found exactly when some date rule decides; otherwise NoSuchElement is raised. */
  lemma FindDateInputFound(page: Page, field: DateField)
    ensures FindDateInput(page, field).Ok? <==> exists i :: 0 <= i < DateRuleCount && Decides(page, DateRuleAt(field, i))
    ensures FindDateInput(page, field).Raised? ==> FindDateInput(page, field).exn == NoSuchElement("Could not find " + FieldName(field) + " date input")
  {
    if exists i :: 0 <= i < DateRuleCount && Decides(page, DateRuleAt(field, i)) {
      var i :| 0 <= i < DateRuleCount && Decides(page, DateRuleAt(field, i));
      while exists j :: 0 <= j < i && Decides(page, DateRuleAt(field, j))
        invariant 0 <= i < DateRuleCount && Decides(page, DateRuleAt(field, i))
        decreases i
      {
        var earlier :| 0 <= earlier < i && Decides(page, DateRuleAt(field, earlier));
        i := earlier;
      }
      FindDateInputFirstMatch(page, field, i);
    } else {
      FindDateInputFromNone(page, field, 0);
    }
  }

  // ---------------------------------------------------------------------------------------
  // Scanning the matches of a rule
  // ---------------------------------------------------------------------------------------

  /** What the scraper wants of a candidate: a displayed element (toggles) or one with two or more rows (grids). */
  datatype Want = Visible | HasRows

  /**
   * Reading one candidate: `Abort` when the read throws (a stale element), which abandons the
   * whole rule; `Hit` when it qualifies; `Miss` otherwise.
   */
  datatype Probe = Hit | Miss | Abort

  function ProbeOf(want: Want, e: Element): Probe {
    if e.stale then Abort
    else
      match want
      case Visible => if e.displayed then Hit else Miss
      case HasRows => if |e.children| >= 2 then Hit else Miss
  }

  /** The result of scanning one rule's matches in order. */
  datatype Scan = Found(e: Element) | Exhausted | Aborted

  function ScanElements(es: seq<Element>, want: Want): (r: Scan)
    ensures r.Found? ==> r.e in es && ProbeOf(want, r.e) == Hit
    ensures r.Exhausted? <==> forall k :: 0 <= k < |es| ==> ProbeOf(want, es[k]) == Miss
  {
    if es == [] then Exhausted
    else
      match ProbeOf(want, es[0])
      case Hit => Found(es[0])
      case Abort => Aborted
      case Miss => ScanElements(es[1..], want)
  }

  /** The first element the scan stops at is the first one that is not a miss. */
  lemma {:induction false} ScanElementsFirst(es: seq<Element>, want: Want, k: nat)
    requires k < |es| && ProbeOf(want, es[k]) != Miss
    requires forall j :: 0 <= j < k ==> ProbeOf(want, es[j]) == Miss
    ensures ScanElements(es, want) == if ProbeOf(want, es[k]) == Hit then Found(es[k]) else Aborted
  {
    if k > 0 {
      ScanElementsFirst(es[1..], want, k - 1);
    }
  }

  /** What one rule yields: the first qualifying match, or nothing (lookup threw, a read threw, or no match qualified). */
  function RuleYield(page: Page, rule: Rule, want: Want): Option<Element> {
    match FindElements(page, rule)
    case LookupError(_) => None
    case Matches(es) =>
      match ScanElements(es, want)
      case Found(e) => Some(e)
      case _ => None
  }

  /** The rules in order; the first that yields decides. */
  function FirstUsable(page: Page, rules: seq<Rule>, want: Want): (r: Option<Element>)
    ensures r.Some? ==> ProbeOf(want, r.value) == Hit
    ensures r.None? <==> forall i :: 0 <= i < |rules| ==> RuleYield(page, rules[i], want).None?
  {
    if rules == [] then None
    else
      match RuleYield(page, rules[0], want)
      case Some(e) => Some(e)
      case None => FirstUsable(page, rules[1..], want)
  }

  lemma {:induction false} FirstUsableFirst(page: Page, rules: seq<Rule>, want: Want, i: nat)
    requires i < |rules| && RuleYield(page, rules[i], want).Some?
    requires forall j :: 0 <= j < i ==> RuleYield(page, rules[j], want).None?
    ensures FirstUsable(page, rules, want) == RuleYield(page, rules[i], want)
  {
    if i > 0 {
      FirstUsableFirst(page, rules[1..], want, i - 1);
    }
  }

  // ---------------------------------------------------------------------------------------
  // Toggles
  // ---------------------------------------------------------------------------------------

  /**
   * The checked state of a toggle: any one of `is_selected()`, `checked == "true"`,
   * `aria-checked == "true"`, or "checked" inside the lower-cased class attribute.
   */
  predicate IsChecked(e: Element) {
    || e.selected
    || Attr(e, "checked") == Some("true")
    || Attr(e, "aria-checked") == Some("true")
    || Contains(Lower(match Attr(e, "class") case Some(c) => c case None => ""), "checked")
  }

  /** `find_toggle_element`: the first displayed match over the name's rules, with its checked state. */
  function FindToggle(page: Page, name: string): (r: Outcome<(Element, bool)>)
    ensures r.Ok? ==> !r.value.0.stale && r.value.0.displayed && r.value.1 == IsChecked(r.value.0)
    ensures r.Raised? ==> r.exn == NoSuchElement("Could not find toggle: " + name)
  {
    match FirstUsable(page, ToggleRules(name), Visible)
    case Some(e) => Ok((e, IsChecked(e)))
    case None => Raised(NoSuchElement("Could not find toggle: " + name))
  }

  /**
   * First displayed element wins: when rule i is the first toggle rule that yields, and
   * within it element k is the first element that is not hidden, that element is returned
   * with its checked state; hidden elements before it are passed over.
   */
  lemma FindToggleFirstDisplayed(page: Page, name: string, i: nat, k: nat)
    requires i < ToggleRuleCount
    requires forall j :: 0 <= j < i ==> RuleYield(page, ToggleRule(name, j), Visible).None?
    requires FindElements(page, ToggleRule(name, i)).Matches?
    requires var es := FindElements(page, ToggleRule(name, i)).elements;
      k < |es| && !es[k].stale && es[k].displayed && forall m :: 0 <= m < k ==> !es[m].stale && !es[m].displayed
    ensures var e := FindElements(page, ToggleRule(name, i)).elements[k];
      FindToggle(page, name) == Ok((e, IsChecked(e)))
  {
    var rules := ToggleRules(name);
    var es := FindElements(page, ToggleRule(name, i)).elements;
    forall m | 0 <= m < k
      ensures ProbeOf(Visible, es[m]) == Miss
    {
    }
    ScanElementsFirst(es, Visible, k);
    forall j | 0 <= j < i
      ensures RuleYield(page, rules[j], Visible).None?
    {
      assert rules[j] == ToggleRule(name, j);
    }
    FirstUsableFirst(page, rules, Visible, i);
  }

  /** A toggle is reported missing exactly when no toggle rule yields a displayed element. */
  lemma FindToggleMissing(page: Page, name: string)
    ensures FindToggle(page, name).Raised? <==> forall i :: 0 <= i < ToggleRuleCount ==> RuleYield(page, ToggleRule(name, i), Visible).None?
  {
    var rules := ToggleRules(name);
    assert forall i :: 0 <= i < ToggleRuleCount ==> rules[i] == ToggleRule(name, i);
  }

  // ---------------------------------------------------------------------------------------
  // The job grid
  // ---------------------------------------------------------------------------------------

  /** `find_job_grid`: the first candidate, in rule order, with at least two rows (a header and a data row). */
  function FindJobGrid(page: Page): (r: Outcome<Element>)
    ensures r.Ok? ==> !r.value.stale && |r.value.children| >= 2
    ensures r.Raised? ==> r.exn == NoSuchElement("Could not find job grid")
  {
    match FirstUsable(page, GridRules(), HasRows)
    case Some(e) => Ok(e)
    case None => Raised(NoSuchElement("Could not find job grid"))
  }

  /**
   * First grid wins: when grid rule i is the first that yields, and element k the first of
   * its matches that is not too small, that element is the grid.
   */
  lemma FindJobGridFirst(page: Page, i: nat, k: nat)
    requires i < GridRuleCount
    requires forall j :: 0 <= j < i ==> RuleYield(page, GridRule(j), HasRows).None?
    requires FindElements(page, GridRule(i)).Matches?
    requires var es := FindElements(page, GridRule(i)).elements;
      k < |es| && !es[k].stale && |es[k].children| >= 2 && forall m :: 0 <= m < k ==> !es[m].stale && |es[m].children| < 2
    ensures FindJobGrid(page) == Ok(FindElements(page, GridRule(i)).elements[k])
  {
    var rules := GridRules();
    var es := FindElements(page, GridRule(i)).elements;
    forall m | 0 <= m < k
      ensures ProbeOf(HasRows, es[m]) == Miss
    {
    }
    ScanElementsFirst(es, HasRows, k);
    forall j | 0 <= j < i
      ensures RuleYield(page, rules[j], HasRows).None?
    {
      assert rules[j] == GridRule(j);
    }
    FirstUsableFirst(page, rules, HasRows, i);
  }

  /** The grid is reported missing exactly when no grid rule yields a live candidate with at least two rows. */
  lemma FindJobGridMissing(page: Page)
    ensures FindJobGrid(page).Raised? <==> forall i :: 0 <= i < GridRuleCount ==> RuleYield(page, GridRule(i), HasRows).None?
  {
    var rules := GridRules();
    assert forall i :: 0 <= i < GridRuleCount ==> rules[i] == GridRule(i);
  }

  /** A stale candidate abandons the rest of its rule: later matches of that rule are never considered. */
  lemma StaleCandidateEndsRule(page: Page, rule: Rule, want: Want, k: nat)
    requires FindElements(page, rule).Matches?
    requires var es := FindElements(page, rule).elements;
      k < |es| && es[k].stale && forall m :: 0 <= m < k ==> ProbeOf(want, es[m]) == Miss
    ensures RuleYield(page, rule, want) == None
  {
    ScanElementsFirst(FindElements(page, rule).elements, want, k);
  }
}
