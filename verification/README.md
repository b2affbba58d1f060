# VCS extra-duty scraper — a Dafny model

`scripts/vcs_extra_duty_scrape.py` drives an already-open, already-logged-in Chrome session on the
VCS portal's Extra Duty Signup page. For each date window of a mode (one quarter of 2025, the four
quarters, the twelve months, or one month), it does the following:

1. sets the start and end date inputs of the filter bar;
2. switches on the toggles "Show Closed Jobs" and "Show Jobs with Scheduling Conflicts";
3. waits for the grid to refresh;
4. switches the toggles on again, once, if the refresh reset them;
5. reads the job grid row by row into records keyed by the configured CSV columns;
6. saves each window that has jobs to a timestamped CSV file.

Every interaction that can meet a stale element is wrapped in a retry rule, except the drift check (see below).

The model covers this core:

- **Browser as data.** The browser is a value. A `Page` answers each locator rule with the
  elements it finds, in document order, or with an exception. An `Element` carries:
  - a `stale` flag (any read of a stale element raises a stale-element exception);
  - its displayed and selected state;
  - its attributes, its text and the elements a nested query on it finds.
- **Actions and time.**
  - Actions on elements and the passing of time are answered by an `Env`: the page after an
    action, or an exception such as an intercepted click, and the page after a pause.
  - Everything done is appended to a log in a `World(page, log)`. "No click happened" and "the
    steps ran in this order" are therefore statements about values.
- **Functions and methods.**
  - Each Python function of the core that acts on the browser is a Dafny function on a `World`.
    The element finders and the drift check only read, so they are functions on a `Page`.
  - The source's loops are methods proved equal to those functions:
    - the retry loop;
    - the toggle loop;
    - the row, cell and column loops;
    - the window loop;
    - the argument loop.
- **Modules** (one per part of the script):

  | module | covers |
  |---|---|
  | `Outcomes` | values and exceptions |
  | `Settings` | the configuration the core reads |
  | `Text` | `strip`, `lower`, `int` |
  | `Dates` | `strptime`/`strftime` on `MM/DD/YYYY`, the file-name suffix, the file name |
  | `Windows` | the date-window table |
  | `Retry` | `retry_on_stale` |
  | `Browser` | the page, the actions, the log |
  | `Locators` | the three element finders |
  | `Controls` | date range, toggles, drift check |
  | `Extraction` | the grid's rows to records |
  | `Scrape` | one window, and the run over windows |
  | `Cli` | `main`'s argument handling |

The model follows the code on these points:

- **Checked state of a toggle.** It is the OR of four signals: `is_selected()`, a `checked`
  attribute equal to "true", an `aria-checked` attribute equal to "true", and "checked" inside
  the lower-cased class. A signal that says "not checked" does not stop the later ones from
  being consulted.
- **Retried exceptions.** `retry_on_stale` retries not-found exceptions as well as stale-element
  exceptions, including the not-found exception a finder raises after exhausting its locators.
- **Retry budget of zero.** `max_retries or CONFIG["max_retries"]` replaces a requested budget
  of 0 by the configured one (`Retry.RetryBudget`).
- **Header filter.** It keys on the column literally named "Job #". With no such column, every
  row is dropped (`Extraction.NoJobColumnNoJobs`).
- **Quarter suffixes.** They are recognised only for the calendar month pairs (1,3), (4,6),
  (7,9) and (10,12) of the start date's year. Every other pair of distinct months gets the
  generic "_YYYY_MMtoMM" suffix.
- **Drift check.** `verify_toggles_still_on` (line 758) runs once, outside the retry rule. A stale
  element met while looking for a toggle is swallowed by the finder's `except Exception` (line 449),
  so a toggle whose candidates are all stale counts as missing and is passed over.
- **`--help`.** The `def print_usage():` line is commented out in the source, so `--help` would
  reach an undefined name. The model gives `--help` its evident meaning, which is to print the
  usage text and stop (`Cli.ShowUsage`).

## Model

| member | source | states |
|---|---|---|
| Text.Strip | scripts/vcs_extra_duty_scrape.py:662 | `.strip()`: the result is the input with a run of leading and a run of trailing whitespace removed (`Trimmed`: an infix s[i..j] with only whitespace outside it). It neither starts nor ends with whitespace, is empty for all-whitespace input, and is the input itself when that has no surrounding whitespace |
| Text.ParseIntDecimal | scripts/vcs_extra_duty_scrape.py:923 | `int(str(n)) == n`: the month parser reads back every decimal numeral |
| Text.ParseIntBlank | scripts/vcs_extra_duty_scrape.py:923 | `int()` rejects the empty string and whitespace-only strings |
| Dates.ParseDate | scripts/vcs_extra_duty_scrape.py:176-177 | `strptime(s, "%m/%d/%Y")` only accepts real calendar dates (month 1..12, day within the month, leap years included) |
| Dates.ParseFormatDate | scripts/vcs_extra_duty_scrape.py:176-177 | Round trip: parsing the `MM/DD/YYYY` text of a valid date gives that date back |
| Dates.FormatParseDate | scripts/vcs_extra_duty_scrape.py:176-177 | Round trip: every string the parser accepts is exactly the `MM/DD/YYYY` text of the date it parses to |
| Dates.QuarterLabelByArithmetic | scripts/vcs_extra_duty_scrape.py:185-194 | The quarter table matches distinct months exactly when the start month is 1, 4, 7 or 10 and the end month is two later; the label is then Q1..Q4 |
| Dates.SuffixDecodesMonth | scripts/vcs_extra_duty_scrape.py:181-182 | The single-month suffix "_YYYYMmm" decodes back to that year and month |
| Dates.SuffixDecodesSpan | scripts/vcs_extra_duty_scrape.py:196-197 | The generic suffix "_YYYY_MMtoMM" decodes back to the year and both months |
| Dates.QuarterSuffix | scripts/vcs_extra_duty_scrape.py:185-194 | A window from month 3q-2 to month 3q gets "_YYYYQq", with the start date's year |
| Dates.MonthSuffix | scripts/vcs_extra_duty_scrape.py:180-182 | A window inside one month gets "_YYYYM" and the zero-padded month of the start date |
| Dates.SuffixDecodes | scripts/vcs_extra_duty_scrape.py:165-199 | `get_suffix_from_dates`: an unparseable date gives "". Otherwise the suffix decodes back to the window's shape (one month, a calendar quarter, or a span of months), in the start date's year, so distinct shapes get distinct suffixes |
| Dates.OutputFilename | scripts/vcs_extra_duty_scrape.py:150-162 | `get_output_filename`: the name is prefix, suffix, "_", timestamp and ".csv", in that order |
| Windows.MonthWindowIs | scripts/vcs_extra_duty_scrape.py:87-100 | Entry i of the monthly table runs from the first to the last day of calendar month i of 2025 (February has 28 days) |
| Windows.QuarterWindowIs | scripts/vcs_extra_duty_scrape.py:81-86 | Entry q of the full-year table runs from the first day of month 3q-2 to the last day of month 3q of 2025 |
| Windows.MonthlyAreCalendarMonths | scripts/vcs_extra_duty_scrape.py:87-100 | The "monthly" mode has exactly the twelve calendar months of 2025, in order |
| Windows.QuartersAreCalendarQuarters | scripts/vcs_extra_duty_scrape.py:75-86 | The "full_year" mode has exactly the four calendar quarters, in order, and equals the q1..q4 modes concatenated |
| Windows.CalendarWindowDecodes | scripts/vcs_extra_duty_scrape.py:165-199 | Any calendar-aligned window's suffix decodes back to the shape of its month range |
| Windows.QuarterWindowSuffix | scripts/vcs_extra_duty_scrape.py:185-194 | Quarter q of a year is saved under "_YYYYQq", which decodes back to that quarter |
| Windows.MonthWindowSuffix | scripts/vcs_extra_duty_scrape.py:180-182 | Month m of a year is saved under "_YYYYMmm", which decodes back to that month |
| Retry.RetryBudget | scripts/vcs_extra_duty_scrape.py:214 | A requested non-zero budget is used; an absent or zero request falls back to the configured one |
| Retry.Retried | scripts/vcs_extra_duty_scrape.py:214-228 | The retry rule makes between 1 and retries+1 attempts, and a transient exception as the final outcome means the budget was used up |
| Retry.RetriedAttempts | scripts/vcs_extra_duty_scrape.py:202-228 | The retried call's outcome and final state are those of its last attempt. Every earlier attempt raised a stale-element or not-found exception. It stops before the budget only on a value or another exception |
| Retry.RetriedFirstFinal | scripts/vcs_extra_duty_scrape.py:216-218 | An attempt that returns a value or raises a non-transient exception ends the call at once, unchanged |
| Retry.RetriedNoRetries | scripts/vcs_extra_duty_scrape.py:214-228 | With a budget of 0 the work runs once and no pause happens |
| Retry.RetryOnStale | scripts/vcs_extra_duty_scrape.py:202-228 | The for loop gives the retry rule's outcome, final state and attempt count, with one pause fewer than attempts (no sleep after the last) |
| Locators.PickOrdinal | scripts/vcs_extra_duty_scrape.py:328-333 | The start field takes the first match. The end field takes the second, or the first when there is only one |
| Locators.FindDateInputFirstMatch | scripts/vcs_extra_duty_scrape.py:323-335 | The first locator that finds anything decides the element. Earlier locators that find nothing or raise are passed over |
| Locators.FindDateInputFound | scripts/vcs_extra_duty_scrape.py:295-337 | `find_date_input` succeeds iff some locator finds an element; otherwise it raises not-found "Could not find <type> date input" |
| Locators.ScanElements | scripts/vcs_extra_duty_scrape.py:438-448 | A scan returns a usable element of the list, and is exhausted iff every element is unusable (a stale element aborts the locator) |
| Locators.FirstUsable | scripts/vcs_extra_duty_scrape.py:435-450 | The result is usable, and nothing is found iff no locator yields |
| Locators.FindToggle | scripts/vcs_extra_duty_scrape.py:403-452 | `find_toggle_element` returns a live, displayed element with its checked state (the OR of the four signals). Its only exception is not-found "Could not find toggle: <name>" |
| Locators.FindToggleFirstDisplayed | scripts/vcs_extra_duty_scrape.py:435-448 | The first displayed element of the first locator that yields is returned; hidden elements before it are passed over |
| Locators.FindToggleMissing | scripts/vcs_extra_duty_scrape.py:435-452 | The toggle is reported missing iff no locator yields a displayed element |
| Locators.FindJobGrid | scripts/vcs_extra_duty_scrape.py:564-597 | The grid returned is live and has at least two rows; otherwise not-found "Could not find job grid" |
| Locators.FindJobGridFirst | scripts/vcs_extra_duty_scrape.py:585-595 | The first candidate with at least two rows, in the first locator that has one, is the grid |
| Locators.FindJobGridMissing | scripts/vcs_extra_duty_scrape.py:585-597 | The grid is reported missing iff no grid locator yields a live candidate with at least two rows |
| Locators.StaleCandidateEndsRule | scripts/vcs_extra_duty_scrape.py:585-595 | A stale candidate met before a usable one makes that whole locator yield nothing (the exception is swallowed and the next locator is tried) |
| Controls.DateStep | scripts/vcs_extra_duty_scrape.py:356-380 | One attempt of `set_single_date`. A missing input raises not-found and does nothing. A found input is scrolled to first; the attempt succeeds iff the scroll and the typing are both accepted, and a failure raises the browser's exception for whichever of the two failed. Success answers True after exactly scroll, pause, replace-value, pause on the found input |
| Controls.SetDateRange | scripts/vcs_extra_duty_scrape.py:340-394 | `set_date_range` succeeds (always True) iff the start date and then the end date succeed. A start-date failure propagates and the end date is not attempted. An end-date failure propagates with the world the end date left. Success is the world after the end date plus the grid-refresh sleep |
| Controls.SetSingleDateTrue | scripts/vcs_extra_duty_scrape.py:354-382 | `set_single_date` never answers False |
| Controls.SetSingleDateTyped | scripts/vcs_extra_duty_scrape.py:354-382 | When `set_single_date` answers True, its last attempt typed the value into the input and then paused |
| Controls.SetDateRangeTyped | scripts/vcs_extra_duty_scrape.py:340-394 | When `set_date_range` answers True, the start date and then the end date were typed, and the grid-refresh pause came last |
| Controls.ClickToggle | scripts/vcs_extra_duty_scrape.py:481-485 | A click is issued; a script click follows it iff the click was intercepted |
| Controls.ClickToggleActions | scripts/vcs_extra_duty_scrape.py:481-485 | The click issues exactly one plain click, and then a script click iff the plain one was intercepted |
| Controls.ClickAndReread | scripts/vcs_extra_duty_scrape.py:477-496 | It scrolls to the toggle first. It answers iff the scroll is accepted, the click goes through, and the toggle is found again after the pause; the answer is then True iff the toggle is in the desired state. A refused scroll or click raises the browser's exception in the world it left |
| Controls.ClickAndRereadActions | scripts/vcs_extra_duty_scrape.py:477-496 | A refused scroll issues only the scroll. Otherwise the actions are the scroll, then exactly one click (with a script click after an intercepted one) |
| Controls.ScrolledActions | scripts/vcs_extra_duty_scrape.py:477-485 | Once the scroll is accepted: the scroll, then exactly one click, with a script click after an intercepted one |
| Controls.Reread | scripts/vcs_extra_duty_scrape.py:490-496 | Re-reading changes nothing. It answers iff the toggle is found (otherwise the finder's not-found exception), and answers True iff the toggle is in the desired state |
| Controls.ToggleStep | scripts/vcs_extra_duty_scrape.py:470-496 | A missing toggle raises not-found and does nothing. A toggle already in the desired state answers True with no action. Otherwise it is scrolled to and clicked, and read again (`ClickAndReread`); the answer is True iff the toggle ends in the desired state |
| Controls.ToggleStepActions | scripts/vcs_extra_duty_scrape.py:470-496 | One attempt only extends the log, and issues at most a scroll, a click and a script click, in that order. A found toggle in the other state is scrolled to first; once the scroll is accepted it is clicked exactly once: a plain click, followed by a script click only if the plain one was intercepted |
| Controls.EnsureToggleNoop | scripts/vcs_extra_duty_scrape.py:473-475 | A toggle already in the desired state takes one attempt, answers True, and leaves the world unchanged |
| Controls.EnsureToggleTrue | scripts/vcs_extra_duty_scrape.py:455-498 | When `ensure_toggle_state` answers True, the toggle is in the desired state in the world it leaves |
| Controls.EnsureToggleIdempotent | scripts/vcs_extra_duty_scrape.py:455-498 | After an answer of True, a second call does nothing and answers True |
| Controls.Tolerated | scripts/vcs_extra_duty_scrape.py:520-529 | A not-found exception counts as False. Other exceptions pass through, and a value counts as True only if it was True |
| Controls.VisitAllVisits | scripts/vcs_extra_duty_scrape.py:518-531 | The toggle loop answers a value iff every toggle's visit does. Each toggle is visited in the world the previous one left |
| Controls.VisitAllAnd | scripts/vcs_extra_duty_scrape.py:518-531 | `all_success` is True iff every toggle answered True (a False does not stop the loop) |
| Controls.VisitAllRaises | scripts/vcs_extra_duty_scrape.py:518-531 | An exception from the loop is the first toggle's exception, raised after the toggles before it answered, and no later toggle is visited |
| Controls.SetAllToggles | scripts/vcs_extra_duty_scrape.py:501-531 | The for loop over the two toggle names computes `set_all_toggles` |
| Controls.StillOn | scripts/vcs_extra_duty_scrape.py:534-555 | `verify_toggles_still_on` is True iff every toggle that can be found reads as checked; missing toggles are passed over |
| Controls.SetTogglesLastOn | scripts/vcs_extra_duty_scrape.py:513-531 | When `set_all_toggles` answers True, the last toggle it set is on in the world it leaves |
| Extraction.CellTexts | scripts/vcs_extra_duty_scrape.py:662 | Reading the cells succeeds iff no cell is stale (otherwise a stale-element exception), and gives each cell's stripped text, in order (`StrippedTexts`) |
| Extraction.StrippedTexts | scripts/vcs_extra_duty_scrape.py:662 | One stripped text per cell, in order |
| Extraction.KeptRows | scripts/vcs_extra_duty_scrape.py:661-664 | The rows the loop keeps: exactly those with cells and at least `len(columns) - 1` of them, in grid order |
| Extraction.KeptTexts | scripts/vcs_extra_duty_scrape.py:658-664 | One text list per kept row: the stripped texts of its cells |
| Extraction.DataRows | scripts/vcs_extra_duty_scrape.py:658-664 | The row loop succeeds iff no row is stale and no cell of a kept row is stale (`Readable`); its only exception is a stale-element one. A success is exactly the stripped cell texts of the kept rows, in grid order (`KeptTexts`): each non-empty and at least `len(columns) - 1` long |
| Extraction.DataRowsRaisedExtends | scripts/vcs_extra_duty_scrape.py:659-663 | A stale row anywhere makes the whole row loop raise |
| Extraction.Fill | scripts/vcs_extra_duty_scrape.py:671-678 | Every column is a key of the record |
| Extraction.FillColumns | scripts/vcs_extra_duty_scrape.py:672-678 | With distinct column names, column i holds cell i, or "" when the row is shorter |
| Extraction.FillLastWins | scripts/vcs_extra_duty_scrape.py:672-678 | With repeated column names, the last position of a name wins |
| Extraction.Jobs | scripts/vcs_extra_duty_scrape.py:668-685 | At most one record per data row, each with every column and none with a header-like or empty job number |
| Extraction.JobsAppend | scripts/vcs_extra_duty_scrape.py:671-683 | The filter works row by row, in order: the records of two row lists are the concatenation of each one's records |
| Extraction.JobsSingle | scripts/vcs_extra_duty_scrape.py:679-683 | One row gives its record, unless its job number lower-cases to "job #", "job" or "" |
| Extraction.NoJobColumnNoJobs | scripts/vcs_extra_duty_scrape.py:680-681 | Without a "Job #" column every row is dropped |
| Extraction.ExtractFromGrid | scripts/vcs_extra_duty_scrape.py:651-685 | Reading a found grid succeeds iff the grid and its rows can be read; its only exception is a stale-element one. A success is exactly `Jobs` of the kept rows' texts, so at most one record per grid row, and a live grid with no rows gives no records |
| Extraction.JobsAllKept | scripts/vcs_extra_duty_scrape.py:668-685 | When no row is a header row, the records are exactly the filled rows, one per row, in order |
| Extraction.ExtractFromGridRecords | scripts/vcs_extra_duty_scrape.py:651-685 | A readable grid without header rows gives exactly one filled record per kept row, in grid order |
| Extraction.ExtractStep | scripts/vcs_extra_duty_scrape.py:647-685 | One attempt of `extract_grid_rows`: a missing grid raises "Could not find job grid"; a found grid gives exactly what reading that grid gives. The records are clean (every column, no header rows) |
| Extraction.ExtractGridRowsReadOnly | scripts/vcs_extra_duty_scrape.py:638-687 | Extraction, retries included, issues no action on any element |
| Extraction.ExtractGridRowsRecords | scripts/vcs_extra_duty_scrape.py:638-687 | The records `extract_grid_rows` returns after retries are clean |
| Extraction.ExtractGridRowsSettled | scripts/vcs_extra_duty_scrape.py:638-687 | An attempt that does not raise a retried exception is the whole of `extract_grid_rows`: a single attempt, and the world is left as it was |
| Extraction.ReadTexts | scripts/vcs_extra_duty_scrape.py:662 | The list comprehension over the cells computes the cell texts, stopping at the first stale cell |
| Extraction.ToRecord | scripts/vcs_extra_duty_scrape.py:672-678 | The loop over the columns builds the filled record |
| Extraction.ReadRows | scripts/vcs_extra_duty_scrape.py:658-664 | The for loop over the grid rows computes the row loop's outcome |
| Extraction.ToJobs | scripts/vcs_extra_duty_scrape.py:668-685 | The for loop over the data rows computes the records |
| Extraction.ExtractRows | scripts/vcs_extra_duty_scrape.py:651-685 | The row loop and then the mapping loop compute what reading the grid gives |
| Scrape.WaitForGridRefresh | scripts/vcs_extra_duty_scrape.py:600-635 | The wait is one grid-refresh sleep: the page settles and the sleep is logged |
| Scrape.Prepare | scripts/vcs_extra_duty_scrape.py:748-755 | Steps 2–4 start in order: dates, toggles, grid wait. It succeeds iff `set_date_range` and then `set_all_toggles` do not raise. An exception ends it in the world the raising stage left; a success ends in that world after one grid-refresh wait |
| Scrape.Remediate | scripts/vcs_extra_duty_scrape.py:757-761 | Toggles still on: nothing is done. Otherwise `set_all_toggles` runs again; it succeeds iff that does not raise, and then the grid is awaited again, once. The world it leaves is the one those stages leave |
| Scrape.Collect | scripts/vcs_extra_duty_scrape.py:763-767 | The records extracted for a window are clean |
| Scrape.Flow | scripts/vcs_extra_duty_scrape.py:743-777 | The try/except over the stages. An exception from a stage ends the window with that exception, no jobs, and the world the stage left. Otherwise the jobs and the world are those of the extraction run after the drift check. A complete run follows one of the two plans, and the re-application happens iff preparation succeeded and the drift check failed |
| Scrape.ScrapeWindow | scripts/vcs_extra_duty_scrape.py:727-777 | `scrape_date_window` meets the following:<br>• it ends without error iff preparation, drift check and `extract_grid_rows` all succeed, and its jobs are then what the extraction returned;<br>• an exception ends it with no jobs in the world the raising stage left;<br>• a complete run starts exactly the steps of the plan with or without remediation;<br>• every run starts a non-empty prefix of a plan;<br>• the jobs are clean;<br>• the toggles are re-applied iff the page was prepared and they had reset |
| Scrape.ScrapeWindowExtracts | scripts/vcs_extra_duty_scrape.py:743-777 | When preparation and drift check succeed and the grid found afterwards can be read, the window ends without error, in the world the drift check left, with the records of the grid's kept rows |
| Scrape.ScrapeWindowBounded | scripts/vcs_extra_duty_scrape.py:743-767 | Per window the toggles are applied at most twice and the grid is extracted at most once |
| Scrape.ScrapeWindowJobs | scripts/vcs_extra_duty_scrape.py:743-777 | A window with jobs ran to completion and its last step was the extraction |
| Scrape.PyIndex | scripts/vcs_extra_duty_scrape.py:802 | Python list indexing: defined iff -len <= i < len; negative indices count from the end |
| Scrape.SelectWindows | scripts/vcs_extra_duty_scrape.py:800-808 | Mode "month" with a non-zero month m indexes the monthly table as Python does: 1..12 select month m, -11..-1 count from the end, anything else is an IndexError. Otherwise the mode selects exactly its table entry, or is invalid when it is not a key. A selection is never empty |
| Scrape.SelectMonth | scripts/vcs_extra_duty_scrape.py:801-802 | `--month m` selects calendar month m of 2025 |
| Scrape.SelectMonthWithoutMonth | scripts/vcs_extra_duty_scrape.py:801-808 | Mode "month" with no month (or month 0) is an invalid mode, because "month" is not a table key |
| Scrape.WindowFilename | scripts/vcs_extra_duty_scrape.py:829-830 | A window's file name is the default prefix, the window's suffix, "_", the timestamp and ".csv" |
| Scrape.WindowFilenameDistinct | scripts/vcs_extra_duty_scrape.py:829-830 | Two different timestamps give two different file names for the same window |
| Scrape.NextWindow | scripts/vcs_extra_duty_scrape.py:823-842 | One window is scraped in the world the earlier windows left. The earlier files are kept, and a file is added iff the window has jobs and saving succeeds: the window's file name with the timestamp `clock(k)`, holding its jobs |
| Scrape.RunAll | scripts/vcs_extra_duty_scrape.py:822-842 | No more files are saved than there are windows (window by window: `RunAllSaves`) |
| Scrape.RunAllSaves | scripts/vcs_extra_duty_scrape.py:822-842 | Window k is scraped in the world windows 0..k-1 left. Its file, named with `clock(k)`, is appended iff it has jobs and saving succeeds |
| Scrape.RunAllPrefix | scripts/vcs_extra_duty_scrape.py:822-842 | The files of the first k windows are the first files of the whole run |
| Scrape.RunAllClean | scripts/vcs_extra_duty_scrape.py:822-842 | When every window's jobs are clean, every saved file holds at least one job and only clean records |
| Scrape.RunWindows | scripts/vcs_extra_duty_scrape.py:818-842 | The window loop saves at most one file per window. Each saved file is non-empty and holds clean records (window by window: `RunWindowsSaves`) |
| Scrape.RunWindowsSaves | scripts/vcs_extra_duty_scrape.py:822-842 | The same window-by-window statement for the scraper's own windows: window k's file is appended iff `scrape_date_window` found jobs and saving succeeded, and earlier files stay first |
| Scrape.TotalJobsAtLeastFiles | scripts/vcs_extra_duty_scrape.py:827-836 | The job total is at least the number of saved files |
| Scrape.ScrapeWindows | scripts/vcs_extra_duty_scrape.py:818-842 | The for loop over the windows returns the saved file names in order, the job total and the final world of the window loop |
| Scrape.RunScraper | scripts/vcs_extra_duty_scrape.py:780-859 | `run_scraper`:<br>• an invalid mode gives [] and does nothing;<br>• an index error propagates;<br>• a failed connection gives [] and does nothing;<br>• otherwise it returns the names of the files the window loop saved, in order, with the job total |
| Cli.ParseFrom | scripts/vcs_extra_duty_scrape.py:909-929 | The argument loop stops early only for `--help`/`-h` or a month that `int()` rejects (where: `StoppedAtVisited`, `StopAtVisited`; what wins: `LastModeWins`, `LastMonthWins`) |
| Cli.VisitsState | scripts/vcs_extra_duty_scrape.py:909-929 | Any position the loop reaches resumes it with some mode and month |
| Cli.StopAtVisited | scripts/vcs_extra_duty_scrape.py:913-928 | A help flag the loop reaches stops it with the usage text; a `--month` it reaches whose value `int()` rejects stops it naming that value |
| Cli.StoppedAtVisited | scripts/vcs_extra_duty_scrape.py:909-929 | The loop stops only at a reached help flag or a reached unreadable month |
| Cli.QuietFinish | scripts/vcs_extra_duty_scrape.py:909-929 | Arguments that are not options are passed over: the mode and month stay as they were |
| Cli.MonthKept | scripts/vcs_extra_duty_scrape.py:909-929 | With no help flag and no `--month` left, the loop ends and keeps its month |
| Cli.LastModeWins | scripts/vcs_extra_duty_scrape.py:916-919 | The last `--mode` the loop reaches decides the mode, lower-cased |
| Cli.LastMonthWins | scripts/vcs_extra_duty_scrape.py:920-925 | The last `--month` the loop reaches decides the month, and sets mode "month" unless a `--mode` follows |
| Cli.Validate | scripts/vcs_extra_duty_scrape.py:931-940 | The scraper runs iff the mode is valid and, for mode "month", the month is in 1..12; it runs with that mode and month |
| Cli.ParseCommandLine | scripts/vcs_extra_duty_scrape.py:899-943 | The while loop over the arguments, then the validation, decides the same command as the argument rules |
| Cli.DecideDefault | scripts/vcs_extra_duty_scrape.py:904-906 | No arguments run mode "q4" without a month |
| Cli.ParseMonthOnly | scripts/vcs_extra_duty_scrape.py:920-925 | `--month n` sets mode "month" and month n |
| Cli.DecideMonth | scripts/vcs_extra_duty_scrape.py:920-943 | `--month n` with n in 1..12 runs month n |
| Cli.DecideMonthOutOfRange | scripts/vcs_extra_duty_scrape.py:938-940 | `--month 0` or a month above 12 stops with "Month mode requires --month 1-12" |
| Cli.DecideBadMonth | scripts/vcs_extra_duty_scrape.py:922-928 | A month `int()` rejects stops with "Invalid month" |
| Cli.DecideHelp | scripts/vcs_extra_duty_scrape.py:913-915 | `--help` first stops with the usage text, whatever follows |
| Cli.ValidModesSelect | scripts/vcs_extra_duty_scrape.py:932-936 | Every valid mode except "month" is a key of the date-window table |
| Cli.DecideRunSelects | scripts/vcs_extra_duty_scrape.py:931-943 | Whatever `main` decides to run selects a non-empty list of windows; validation rules out the invalid-mode and index-error paths |

## Left out

- Logging is left out: every `logger` call, the log folder and `setup_logging`.
- Console output of `main` is left out: each message becomes a `Command` value, and the usage text is not modelled.
- Configuration loading (`config.json`) is left out. `Settings.Config` carries the only values the core decides on: the retry budget and the CSV columns. Delays are named, not timed.
- `connect_to_chrome` is a `connected` flag given to `Scrape.RunScraper`. The driver session and the WebDriver exception are not modelled.
- `verify_page_state` is left out. Its answer only chooses a log message.
- `save_to_csv` is a `store` function parameter that answers whether the file was written. CSV encoding and the output folder path are not modelled.
- `datetime.now()` is a `clock` parameter (window k gets `clock(k)`); the timestamp format is not modelled.
- `wait_for_grid_refresh` is one grid-refresh sleep. Its polls of loading indicators only pass time, and their time-outs are swallowed.
- Typing into a date input is one `ReplaceValue` action, with no intermediate 0.2 s and 0.1 s sleeps. These are click, select-all, delete, type and tab.
- Selector strings are left out. Each locator is an opaque rule identified by its position in the source's list, and what it finds is the page's business.
- A staleness that arises between finding an element and reading it is only captured through `Env.respond` and the element's `stale` flag. Timing races are not modelled.
- `Retry.RetryOnStale`: the `delay` argument is not modelled (every caller uses the configured one). A negative requested budget is not modelled, because budgets are natural numbers.
- `Text.Lower` lower-cases ASCII letters only; Python's full Unicode case mapping is not modelled.
- `Text.ParseInt` accepts ASCII digits only; Unicode digits that Python's `int()` accepts are not modelled.
- `Dates.ParseDate` accepts exactly two-digit months and days and four-digit years. `strptime` also accepts a one-digit month or day and a space-padded day; those forms are not modelled. Like `strptime`, it rejects leading or trailing text. Every date the scraper passes comes from the fixed table in `MM/DD/YYYY` form.
- `Windows.MonthlyAreCalendarMonths` and `Windows.QuartersAreCalendarQuarters`: the suffix of each table entry is stated through `CalendarWindow` and the year-generic lemmas `Windows.QuarterWindowSuffix` and `Windows.MonthWindowSuffix`. It is not stated as a literal string per entry.
- `Dates.OutputFilename` models only the f-string. `prefix` always receives the default, so its default value is the constant `Dates.DefaultPrefix`.
- The summary printed at the end of `run_scraper` is not modelled; only the saved names and the job total it prints from are.
