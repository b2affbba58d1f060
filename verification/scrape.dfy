/**
 * The main flow: `scrape_date_window` (the fixed sequence of steps for one date window, with
 * one remediation when the toggles reset, and every exception turned into "no jobs") and
 * `run_scraper` (choose the windows for a mode, scrape each, save the non-empty ones).
 */
module Scrape {
  import opened Outcomes
  import opened Settings
  import opened Browser
  import opened Retry
  import opened Dates
  import opened Windows
  import opened Controls
  import opened Extraction
  import opened Locators

  /** `wait_for_grid_refresh`: the fixed grid-refresh pause (its loading-indicator polls only pass time). */
  function WaitForGridRefresh(env: Env, w: World): (r: World)
    ensures r.log == w.log + [Slept(GridRefreshWait)]
    ensures r.page == env.settle(w.page, GridRefreshWait)
  {
    Sleep(env, w, GridRefreshWait)
  }

  /** The steps of `scrape_date_window`, as they are started. */
  datatype Step = SetDates | ApplyToggles | AwaitGrid | CheckDrift | Extract

  /** The full sequence of steps: with `drift`, the toggles are applied again and the grid awaited again before extraction. */
  function Plan(drift: bool): (steps: seq<Step>)
    ensures |steps| == if drift then 7 else 5
  {
    if drift then [SetDates, ApplyToggles, AwaitGrid, CheckDrift, ApplyToggles, AwaitGrid, Extract]
    else [SetDates, ApplyToggles, AwaitGrid, CheckDrift, Extract]
  }

  /** The pieces the stages of a window contribute, each a prefix of a plan or completing one. */
  lemma PlanPieces()
    ensures [SetDates] <= Plan(false) && [SetDates, ApplyToggles] <= Plan(false)
    ensures [SetDates, ApplyToggles, AwaitGrid] + [CheckDrift] + [Extract] == Plan(false)
    ensures [SetDates, ApplyToggles, AwaitGrid] + [CheckDrift, ApplyToggles] <= Plan(true)
    ensures [SetDates, ApplyToggles, AwaitGrid] + [CheckDrift, ApplyToggles, AwaitGrid] + [Extract] == Plan(true)
  {
  }

  /** How many times `s` occurs in `steps`. */
  function Count(steps: seq<Step>, s: Step): nat {
    if steps == [] then 0 else Count(steps[..|steps| - 1], s) + if steps[|steps| - 1] == s then 1 else 0
  }

  /** The outcome of one window: the jobs, the world after it, the steps started, and the exception that ended it, if any. */
  datatype WindowRun = WindowRun(jobs: seq<Record>, world: World, steps: seq<Step>, error: Option<Exn>)

  /** A stage of `scrape_date_window`: whether it raised, the world after it, and the steps it started. */
  datatype Stage = Stage(outcome: Outcome<()>, world: World, steps: seq<Step>)

  /** The steps the preparation may have started: all three, or fewer when it raised. */
  predicate PrepareShape(s: Stage) {
    if s.outcome.Ok? then s.steps == [SetDates, ApplyToggles, AwaitGrid]
    else s.steps == [SetDates] || s.steps == [SetDates, ApplyToggles]
  }

  /** The steps the drift check may have started: the check alone, or the check and a remediation. */
  predicate RemediateShape(s: Stage) {
    || (s.outcome.Ok? && s.steps == [CheckDrift])
    || (s.outcome.Ok? && s.steps == [CheckDrift, ApplyToggles, AwaitGrid])
    || (s.outcome.Raised? && s.steps == [CheckDrift, ApplyToggles])
  }

  /** Steps 2 to 4 of `scrape_date_window`: set the dates, switch the toggles on, wait for the grid. */
  function Prepare(env: Env, cfg: Config, win: Window, w: World): (r: Stage)
    ensures PrepareShape(r)
    ensures var dates := SetDateRange(env, cfg, win.start, win.end, w);
      var toggles := SetToggles(env, cfg, ToggleNames, dates.1);
      && (r.outcome.Ok? <==> dates.0.Ok? && toggles.0.Ok?)
      && (dates.0.Raised? ==> r.outcome == Raised(dates.0.exn) && r.world == dates.1)
      && (dates.0.Ok? && toggles.0.Raised? ==> r.outcome == Raised(toggles.0.exn) && r.world == toggles.1)
      && (r.outcome.Ok? ==> r.world == WaitForGridRefresh(env, toggles.1))
  {
    var (dates, w1) := SetDateRange(env, cfg, win.start, win.end, w);
    if dates.Raised? then Stage(Raised(dates.exn), w1, [SetDates])
    else
      var (toggles, w2) := SetToggles(env, cfg, ToggleNames, w1);
      if toggles.Raised? then Stage(Raised(toggles.exn), w2, [SetDates, ApplyToggles])
      else Stage(Ok(()), WaitForGridRefresh(env, w2), [SetDates, ApplyToggles, AwaitGrid])
  }

  /**
   * Step 5 of `scrape_date_window`: check that the toggles are still on; when one has reset,
   * switch them on again and wait for the grid again, once.
   */
  function Remediate(env: Env, cfg: Config, w: World): (r: Stage)
    ensures RemediateShape(r)
    ensures StillOn(w.page, ToggleNames) ==> r == Stage(Ok(()), w, [CheckDrift])
    ensures !StillOn(w.page, ToggleNames) ==> |r.steps| > 1
    ensures !StillOn(w.page, ToggleNames) ==>
      var again := SetToggles(env, cfg, ToggleNames, w);
      && (r.outcome.Ok? <==> again.0.Ok?)
      && (again.0.Raised? ==> r.outcome == Raised(again.0.exn) && r.world == again.1)
      && (again.0.Ok? ==> r.world == WaitForGridRefresh(env, again.1))
  {
    if StillOn(w.page, ToggleNames) then Stage(Ok(()), w, [CheckDrift])
    else
      var (again, w1) := SetToggles(env, cfg, ToggleNames, w);
      if again.Raised? then Stage(Raised(again.exn), w1, [CheckDrift, ApplyToggles])
      else Stage(Ok(()), WaitForGridRefresh(env, w1), [CheckDrift, ApplyToggles, AwaitGrid])
  }

  /** Step 6 of `scrape_date_window`: extract the rows, retried; the records it returns are clean. */
  function Collect(env: Env, cfg: Config, w: World): (r: (Outcome<seq<Record>>, World))
    ensures r.0.Ok? ==> Clean(r.0.value, cfg.columns)
  {
    ExtractGridRowsRecords(env, cfg, w);
    var run := ExtractGridRows(env, cfg, w);
    (run.outcome, run.state)
  }

  /**
   * The control flow of `scrape_date_window` over its stages: the preparation, then (if it did
   * not raise) the drift check, then (if that did not raise) the extraction; the first
   * exception ends the window with no jobs.
   */
  function Flow(prep: Stage, remediate: World -> Stage, collect: World -> (Outcome<seq<Record>>, World),
                columns: seq<string>): (r: WindowRun)
    requires PrepareShape(prep)
    requires forall x :: RemediateShape(remediate(x))
    requires forall x :: collect(x).0.Ok? ==> Clean(collect(x).0.value, columns)
    ensures r.error.Some? ==> r.jobs == []
    ensures r.error.None? ==> r.steps == Plan(false) || r.steps == Plan(true)
    ensures 0 < |r.steps| && (r.steps <= Plan(false) || r.steps <= Plan(true))
    ensures Clean(r.jobs, columns)
    ensures (|r.steps| > 4 && r.steps[4] == ApplyToggles) <==> prep.outcome.Ok? && |remediate(prep.world).steps| > 1
    ensures prep.outcome.Raised? ==> r.error == Some(prep.outcome.exn) && r.world == prep.world
    ensures prep.outcome.Ok? ==>
      var fix := remediate(prep.world);
      && (fix.outcome.Raised? ==> r.error == Some(fix.outcome.exn) && r.world == fix.world)
      && (fix.outcome.Ok? ==> r.world == collect(fix.world).1)
      && (fix.outcome.Ok? && collect(fix.world).0.Raised? ==> r.error == Some(collect(fix.world).0.exn))
      && (fix.outcome.Ok? && collect(fix.world).0.Ok? ==> r.error.None? && r.jobs == collect(fix.world).0.value)
  {
    PlanPieces();
    if prep.outcome.Raised? then
      WindowRun([], prep.world, prep.steps, Some(prep.outcome.exn))
    else
      var fix := remediate(prep.world);
      assert RemediateShape(fix);
      var steps := prep.steps + fix.steps;
      if fix.outcome.Raised? then
        assert steps == [SetDates, ApplyToggles, AwaitGrid] + [CheckDrift, ApplyToggles];
        WindowRun([], fix.world, steps, Some(fix.outcome.exn))
      else
        assert steps + [Extract] == Plan(|fix.steps| > 1) by {
          if |fix.steps| > 1 {
            assert fix.steps == [CheckDrift, ApplyToggles, AwaitGrid];
          } else {
            assert fix.steps == [CheckDrift];
          }
        }
        var (jobs, w') := collect(fix.world);
        match jobs
        case Raised(x) => WindowRun([], w', steps + [Extract], Some(x))
        case Ok(records) => WindowRun(records, w', steps + [Extract], None)
  }

  /**
   * `scrape_date_window`: set the dates, switch the toggles on, wait for the grid, check that
   * the toggles are still on (and if not, switch them on again and wait once more), then
   * extract. The answers of the date and toggle steps are not consulted; an exception from any
   * step ends the window with no jobs. The toggles are applied a second time exactly when the
   * preparation succeeded and the drift check then found a toggle present and off.
   */
  function ScrapeWindow(env: Env, cfg: Config, win: Window, w: World): (r: WindowRun)
    ensures r.error.Some? ==> r.jobs == []
    ensures r.error.None? ==> r.steps == Plan(false) || r.steps == Plan(true)
    ensures 0 < |r.steps| && (r.steps <= Plan(false) || r.steps <= Plan(true))
    ensures Clean(r.jobs, cfg.columns)
    ensures (|r.steps| > 4 && r.steps[4] == ApplyToggles) <==>
      Prepare(env, cfg, win, w).outcome.Ok? && !StillOn(Prepare(env, cfg, win, w).world.page, ToggleNames)
    ensures var prep := Prepare(env, cfg, win, w);
      var fix := Remediate(env, cfg, prep.world);
      var extracted := ExtractGridRows(env, cfg, fix.world);
      && (r.error.None? <==> prep.outcome.Ok? && fix.outcome.Ok? && extracted.outcome.Ok?)
      && (prep.outcome.Raised? ==> r.error == Some(prep.outcome.exn) && r.world == prep.world)
      && (prep.outcome.Ok? && fix.outcome.Raised? ==> r.error == Some(fix.outcome.exn) && r.world == fix.world)
      && (prep.outcome.Ok? && fix.outcome.Ok? ==> r.world == extracted.state)
      && (r.error.None? ==> r.jobs == extracted.outcome.value)
  {
    Flow(Prepare(env, cfg, win, w), x => Remediate(env, cfg, x), x => Collect(env, cfg, x), cfg.columns)
  }

  /**
   * The end-to-end case: when the preparation and the drift check do not raise, and the grid
   * found afterwards can be read, the window ends without error in the world the drift check
   * left, and its jobs are the records of the grid's kept rows, headers dropped, in grid order.
   */
  lemma ScrapeWindowExtracts(env: Env, cfg: Config, win: Window, w: World)
    ensures var prep := Prepare(env, cfg, win, w);
      var fix := Remediate(env, cfg, prep.world);
      var grid := FindJobGrid(fix.world.page);
      var r := ScrapeWindow(env, cfg, win, w);
      prep.outcome.Ok? && fix.outcome.Ok? && grid.Ok? && !grid.value.stale && Readable(grid.value.children, cfg.columns) ==>
        && r.error.None?
        && r.world == fix.world
        && r.jobs == Jobs(cfg.columns, KeptTexts(grid.value.children, cfg.columns))
  {
    var prep := Prepare(env, cfg, win, w);
    var fix := Remediate(env, cfg, prep.world);
    var grid := FindJobGrid(fix.world.page);
    if prep.outcome.Ok? && fix.outcome.Ok? && grid.Ok? && !grid.value.stale && Readable(grid.value.children, cfg.columns) {
      ExtractGridRowsSettled(env, cfg, fix.world);
    }
  }

  /** The toggles are applied at most twice and the grid awaited at most twice per window. */
  lemma ScrapeWindowBounded(env: Env, cfg: Config, win: Window, w: World)
    ensures Count(ScrapeWindow(env, cfg, win, w).steps, ApplyToggles) <= 2
    ensures Count(ScrapeWindow(env, cfg, win, w).steps, Extract) <= 1
  {
    StartedBounded(ScrapeWindow(env, cfg, win, w).steps);
  }

  /** A prefix of either plan applies the toggles at most twice and extracts at most once. */
  lemma StartedBounded(steps: seq<Step>)
    requires steps <= Plan(false) || steps <= Plan(true)
    ensures Count(steps, ApplyToggles) <= 2 && Count(steps, Extract) <= 1
  {
    var full := if steps <= Plan(false) then Plan(false) else Plan(true);
    assert steps == full[..|steps|];
    CountPrefix(full, |steps|, ApplyToggles);
    CountPrefix(full, |steps|, Extract);
    CountPlan(false);
    CountPlan(true);
  }

  lemma {:induction false} CountPrefix(steps: seq<Step>, k: nat, s: Step)
    requires k <= |steps|
    decreases |steps| - k
    ensures Count(steps[..k], s) <= Count(steps, s)
  {
    if k < |steps| {
      CountPrefix(steps[..|steps| - 1], k, s);
      assert steps[..|steps| - 1][..k] == steps[..k];
    } else {
      assert steps[..k] == steps;
    }
  }

  lemma {:induction false} CountAppend(a: seq<Step>, b: seq<Step>, s: Step)
    decreases |b|
    ensures Count(a + b, s) == Count(a, s) + Count(b, s)
  {
    if b != [] {
      assert (a + b)[..|a + b| - 1] == a + b[..|b| - 1];
      CountAppend(a, b[..|b| - 1], s);
    } else {
      assert a + b == a;
    }
  }

  lemma CountSingle(x: Step, s: Step)
    ensures Count([x], s) == if x == s then 1 else 0
  {
    assert [x][..0] == [];
  }

  lemma CountPlan(drift: bool)
    ensures Count(Plan(drift), ApplyToggles) == if drift then 2 else 1
    ensures Count(Plan(drift), Extract) == 1
  {
    forall s: Step, x: Step
      ensures Count([x], s) == if x == s then 1 else 0
    {
      CountSingle(x, s);
    }
    forall s: Step, a: seq<Step>, b: seq<Step>
      ensures Count(a + b, s) == Count(a, s) + Count(b, s)
    {
      CountAppend(a, b, s);
    }
    assert Plan(drift) == [SetDates] + [ApplyToggles] + [AwaitGrid] + [CheckDrift]
      + (if drift then [ApplyToggles] + [AwaitGrid] else []) + [Extract];
  }

  /** A window whose extraction raises, or any earlier step raises, gives no jobs; otherwise its jobs are those extracted. */
  lemma ScrapeWindowJobs(env: Env, cfg: Config, win: Window, w: World)
    ensures var r := ScrapeWindow(env, cfg, win, w);
      r.jobs != [] ==> r.error.None? && r.steps[|r.steps| - 1] == Extract
  {
  }

  // ---------------------------------------------------------------------------------------
  // Choosing the windows
  // ---------------------------------------------------------------------------------------

  /** Python's `s[i]` for an integer index: a negative index counts from the end; outside the list it is an index error. */
  function PyIndex<T>(s: seq<T>, i: int): (r: Option<T>)
    ensures r.Some? <==> -|s| <= i < |s|
    ensures 0 <= i < |s| ==> r == Some(s[i])
    ensures -|s| <= i < 0 ==> r == Some(s[|s| + i])
  {
    if 0 <= i < |s| then Some(s[i])
    else if -|s| <= i < 0 then Some(s[|s| + i])
    else None
  }

  datatype Selection = Selected(windows: seq<Window>) | InvalidMode | SelectionFailed(exn: Exn)

  /**
   * The window selection of `run_scraper`: mode "month" with a month other than None or 0
   * takes that entry of the monthly list (Python indexing, so an index error outside -11..12);
   * a mode that names a table entry takes that entry; anything else is an invalid mode.
   */
  function SelectWindows(mode: string, month: Option<int>): (r: Selection)
    ensures mode == "month" && month.Some? && 1 <= month.value <= 12 ==> r == Selected([MonthlyWindows[month.value - 1]])
    ensures mode == "month" && month.Some? && -11 <= month.value <= -1 ==> r == Selected([MonthlyWindows[11 + month.value]])
    ensures mode == "month" && month.Some? && (month.value < -11 || month.value > 12) ==> r == SelectionFailed(Unexpected("IndexError"))
    ensures !(mode == "month" && month.Some? && month.value != 0) ==>
      r == if mode in DateWindows then Selected(DateWindows[mode]) else InvalidMode
    ensures mode != "month" ==> (r.Selected? <==> mode in DateWindows)
    ensures r.Selected? ==> |r.windows| > 0
  {
    if mode == "month" && month.Some? && month.value != 0 then
      match PyIndex(MonthlyWindows, month.value - 1)
      case Some(win) => Selected([win])
      case None => SelectionFailed(Unexpected("IndexError"))
    else if mode in DateWindows then Selected(DateWindows[mode])
    else InvalidMode
  }

  /** `--month m` for m in 1..12 scrapes the single calendar month m of 2025. */
  lemma SelectMonth(m: int)
    requires 1 <= m <= 12
    ensures SelectWindows("month", Some(m)) == Selected([CalendarWindow(m, m, 2025)])
  {
    MonthWindowIs(m);
  }

  /** Mode "month" without a month is not a mode of the table: nothing is selected. */
  lemma SelectMonthWithoutMonth()
    ensures SelectWindows("month", None) == InvalidMode
    ensures SelectWindows("month", Some(0)) == InvalidMode
  {
  }

  /** Two clock readings that differ give two different file names for the same window. */
  lemma WindowFilenameDistinct(win: Window, stamp1: string, stamp2: string)
    requires stamp1 != stamp2
    ensures WindowFilename(win, stamp1) != WindowFilename(win, stamp2)
  {
    assert ("_" + stamp1)[1..] == stamp1 && ("_" + stamp2)[1..] == stamp2;
  }

  // ---------------------------------------------------------------------------------------
  // Running all windows
  // ---------------------------------------------------------------------------------------

  /** A saved CSV file: its name and the jobs written to it. */
  datatype SavedFile = SavedFile(name: string, jobs: seq<Record>)

  /** What a run over windows produced: the files saved, in order, and the world after it. */
  datatype Report = Report(files: seq<SavedFile>, world: World)

  /** The file name for window `k`: the default prefix, the window's suffix, and the clock's reading for it. */
  function WindowFilename(win: Window, stamp: string): (name: string)
    ensures |name| == |DefaultPrefix| + |Suffix(win.start, win.end)| + |stamp| + 5
    ensures name[..|DefaultPrefix| + |Suffix(win.start, win.end)|] == DefaultPrefix + Suffix(win.start, win.end)
    ensures name[|DefaultPrefix| + |Suffix(win.start, win.end)|..|name| - 4] == "_" + stamp
    ensures name[|name| - 4..] == ".csv"
  {
    OutputFilename(DefaultPrefix, Suffix(win.start, win.end), stamp)
  }

  /** Every saved file holds at least one job, and its records are clean. */
  predicate AllClean(files: seq<SavedFile>, columns: seq<string>) {
    forall k :: 0 <= k < |files| ==> files[k].jobs != [] && Clean(files[k].jobs, columns)
  }

  lemma AllCleanSnoc(files: seq<SavedFile>, file: SavedFile, columns: seq<string>)
    requires AllClean(files, columns) && file.jobs != [] && Clean(file.jobs, columns)
    ensures AllClean(files + [file], columns)
  {
  }

  /** How one window is scraped: the window and the world before it give the window's run. */
  type Scraper = (Window, World) -> WindowRun

  /** `scrape_date_window` with the driver and configuration fixed. */
  function WindowScraper(env: Env, cfg: Config): Scraper {
    (win, w) => ScrapeWindow(env, cfg, win, w)
  }

  /**
   * The window loop of `run_scraper` over the first windows: scrape each; a window with jobs
   * is saved under its file name, and when saving fails (`store` answers False) the window is
   * passed over like a failed one. `clock(k)` is the timestamp read for window k.
   */
  function RunAll(scrape: Scraper, windows: seq<Window>, clock: nat -> string,
                  store: (string, seq<Record>) -> bool, w: World): (r: Report)
    ensures |r.files| <= |windows|
  {
    if windows == [] then Report([], w)
    else
      var n := |windows| - 1;
      NextWindow(scrape, RunAll(scrape, windows[..n], clock, store, w), windows[n], n, clock, store)
  }

  /** Window `k` of the loop, after the report of the windows before it: scrape it, and save it when it has jobs. */
  function NextWindow(scrape: Scraper, before: Report, win: Window, k: nat, clock: nat -> string,
                      store: (string, seq<Record>) -> bool): (r: Report)
    ensures r.files == before.files || |r.files| == |before.files| + 1
    ensures before.files <= r.files
    ensures var run := scrape(win, before.world); var name := WindowFilename(win, clock(k));
      && r.world == run.world
      && (|r.files| == |before.files| + 1 <==> run.jobs != [] && store(name, run.jobs))
      && (|r.files| == |before.files| + 1 ==> r.files[|before.files|] == SavedFile(name, run.jobs))
  {
    var run := scrape(win, before.world);
    var name := WindowFilename(win, clock(k));
    if run.jobs != [] && store(name, run.jobs) then Report(before.files + [SavedFile(name, run.jobs)], run.world)
    else Report(before.files, run.world)
  }

  /**
   * Window `k` is handled after the windows before it, in the world they left: its file is
   * appended exactly when it has jobs and saving them succeeds.
   */
  lemma RunAllSaves(scrape: Scraper, windows: seq<Window>, clock: nat -> string,
                    store: (string, seq<Record>) -> bool, w: World, k: nat)
    requires k < |windows|
    ensures var before := RunAll(scrape, windows[..k], clock, store, w);
      var run := scrape(windows[k], before.world);
      var name := WindowFilename(windows[k], clock(k));
      var after := RunAll(scrape, windows[..k + 1], clock, store, w);
      && after.world == run.world
      && after.files == before.files + (if run.jobs != [] && store(name, run.jobs) then [SavedFile(name, run.jobs)] else [])
  {
    assert windows[..k + 1][..k] == windows[..k];
  }

  /** The files saved for the first windows are the first files saved for all of them: files come out in window order. */
  lemma {:induction false} RunAllPrefix(scrape: Scraper, windows: seq<Window>, clock: nat -> string,
                                        store: (string, seq<Record>) -> bool, w: World, k: nat)
    requires k <= |windows|
    decreases |windows| - k
    ensures RunAll(scrape, windows[..k], clock, store, w).files <= RunAll(scrape, windows, clock, store, w).files
  {
    if k < |windows| {
      RunAllPrefix(scrape, windows[..|windows| - 1], clock, store, w, k);
      assert windows[..|windows| - 1][..k] == windows[..k];
    } else {
      assert windows[..k] == windows;
    }
  }

  /** When every window's jobs are clean, every saved file holds at least one job and its records are clean. */
  lemma {:induction false} RunAllClean(scrape: Scraper, windows: seq<Window>, clock: nat -> string,
                                       store: (string, seq<Record>) -> bool, w: World, columns: seq<string>)
    requires forall win, x :: Clean(scrape(win, x).jobs, columns)
    ensures AllClean(RunAll(scrape, windows, clock, store, w).files, columns)
  {
    if windows != [] {
      var n := |windows| - 1;
      var before := RunAll(scrape, windows[..n], clock, store, w);
      RunAllClean(scrape, windows[..n], clock, store, w, columns);
      var run := scrape(windows[n], before.world);
      var name := WindowFilename(windows[n], clock(n));
      if run.jobs != [] && store(name, run.jobs) {
        AllCleanSnoc(before.files, SavedFile(name, run.jobs), columns);
      }
    }
  }

  /** The window loop of `run_scraper` over the selected windows. */
  function RunWindows(env: Env, cfg: Config, windows: seq<Window>, clock: nat -> string,
                      store: (string, seq<Record>) -> bool, w: World): (r: Report)
    ensures |r.files| <= |windows|
    ensures AllClean(r.files, cfg.columns)
  {
    RunAllClean(WindowScraper(env, cfg), windows, clock, store, w, cfg.columns);
    RunAll(WindowScraper(env, cfg), windows, clock, store, w)
  }

  /**
   * The window loop, window by window: window `k` is scraped in the world the earlier windows
   * left, and its file is appended exactly when it has jobs and saving succeeds. The files of
   * the first `k` windows are the first files of the whole run.
   */
  lemma RunWindowsSaves(env: Env, cfg: Config, windows: seq<Window>, clock: nat -> string,
                        store: (string, seq<Record>) -> bool, w: World, k: nat)
    requires k < |windows|
    ensures var before := RunWindows(env, cfg, windows[..k], clock, store, w);
      var run := ScrapeWindow(env, cfg, windows[k], before.world);
      var name := WindowFilename(windows[k], clock(k));
      var after := RunWindows(env, cfg, windows[..k + 1], clock, store, w);
      && after.world == run.world
      && after.files == before.files + (if run.jobs != [] && store(name, run.jobs) then [SavedFile(name, run.jobs)] else [])
      && before.files <= RunWindows(env, cfg, windows, clock, store, w).files
  {
    RunAllSaves(WindowScraper(env, cfg), windows, clock, store, w, k);
    RunAllPrefix(WindowScraper(env, cfg), windows, clock, store, w, k);
  }

  /** The number of jobs in the saved files. */
  function TotalJobs(files: seq<SavedFile>): nat {
    if files == [] then 0 else TotalJobs(files[..|files| - 1]) + |files[|files| - 1].jobs|
  }

  function Names(files: seq<SavedFile>): (names: seq<string>)
    ensures |names| == |files|
    ensures forall k :: 0 <= k < |files| ==> names[k] == files[k].name
  {
    if files == [] then [] else Names(files[..|files| - 1]) + [files[|files| - 1].name]
  }

  /** Each saved file holds at least one job, so there are at least as many jobs as files. */
  lemma {:induction false} TotalJobsAtLeastFiles(files: seq<SavedFile>)
    requires forall k :: 0 <= k < |files| ==> files[k].jobs != []
    ensures TotalJobs(files) >= |files|
  {
    if files != [] {
      TotalJobsAtLeastFiles(files[..|files| - 1]);
    }
  }

  /**
   * `run_scraper`: choose the windows (an invalid mode gives no files; an index error
   * propagates), connect (a failed connection gives no files), then the window loop, which
   * accumulates the saved file names and the total number of jobs.
   */
  method RunScraper(env: Env, cfg: Config, mode: string, month: Option<int>, connected: bool,
                    clock: nat -> string, store: (string, seq<Record>) -> bool, w0: World)
    returns (outcome: Outcome<seq<string>>, totalJobs: nat, w: World)
    ensures match SelectWindows(mode, month)
      case InvalidMode => outcome == Ok([]) && totalJobs == 0 && w == w0
      case SelectionFailed(x) => outcome == Raised(x) && w == w0
      case Selected(windows) =>
        if !connected then outcome == Ok([]) && totalJobs == 0 && w == w0
        else
          var report := RunWindows(env, cfg, windows, clock, store, w0);
          outcome == Ok(Names(report.files)) && totalJobs == TotalJobs(report.files) && w == report.world
  {
    var windows: seq<Window>;
    match SelectWindows(mode, month)
    case InvalidMode =>
      return Ok([]), 0, w0;
    case SelectionFailed(x) =>
      return Raised(x), 0, w0;
    case Selected(ws) =>
      windows := ws;
    if !connected {
      return Ok([]), 0, w0;
    }
    var savedFiles;
    savedFiles, totalJobs, w := ScrapeWindows(WindowScraper(env, cfg), windows, clock, store, w0);
    outcome := Ok(savedFiles);
  }

  /**
   * The window loop of `run_scraper`: scrape each window in turn; a window with jobs is saved,
   * and when saving succeeds its file name is recorded and its jobs are counted.
   */
  method ScrapeWindows(scrape: Scraper, windows: seq<Window>, clock: nat -> string,
                       store: (string, seq<Record>) -> bool, w0: World)
    returns (savedFiles: seq<string>, totalJobs: nat, w: World)
    ensures var report := RunAll(scrape, windows, clock, store, w0);
      savedFiles == Names(report.files) && totalJobs == TotalJobs(report.files) && w == report.world
  {
    savedFiles, totalJobs, w := [], 0, w0;
    ghost var files: seq<SavedFile> := [];
    for k := 0 to |windows|
      invariant RunAll(scrape, windows[..k], clock, store, w0) == Report(files, w)
      invariant savedFiles == Names(files) && totalJobs == TotalJobs(files)
    {
      assert windows[..k + 1][..k] == windows[..k];
      assert RunAll(scrape, windows[..k + 1], clock, store, w0) == NextWindow(scrape, Report(files, w), windows[k], k, clock, store);
      var run := scrape(windows[k], w);
      w := run.world;
      if run.jobs != [] {
        var name := WindowFilename(windows[k], clock(k));
        if store(name, run.jobs) {
          ghost var before := files;
          files := files + [SavedFile(name, run.jobs)];
          assert files[..|files| - 1] == before;
          savedFiles := savedFiles + [name];
          totalJobs := totalJobs + |run.jobs|;
        }
      }
    }
    assert windows[..|windows|] == windows;
  }
}
