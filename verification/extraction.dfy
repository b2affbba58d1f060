/**
 * `extract_grid_rows`: read the rows of the job grid, keep those with enough cells, strip the
 * cell texts, map them onto the configured columns, and drop header-like records. The unit
 * of work (find the grid, read it) runs under the retry rule.
 */
module Extraction {
  import opened Outcomes
  import opened Text
  import opened Settings
  import opened Browser
  import opened Locators
  import opened Retry

  /** One job: a value for every configured column. */
  type Record = map<string, string>

  /** The record's keys are exactly the columns. */
  predicate HasColumns(job: Record, columns: seq<string>) {
    (forall c :: c in job ==> c in columns) && (forall c :: c in columns ==> c in job)
  }

  /** Reading the cells one by one: the stripped texts, in order; reading a stale cell raises. */
  function CellTexts(cells: seq<Element>): (r: Outcome<seq<string>>)
    ensures r.Ok? <==> Live(cells)
    ensures r.Raised? ==> r.exn == StaleElement
    ensures r.Ok? ==> r.value == StrippedTexts(cells)
  {
    if cells == [] then Ok([])
    else
      var last := cells[|cells| - 1];
      var front := cells[..|cells| - 1];
      assert Live(cells) <==> Live(front) && !last.stale;
      match CellTexts(front)
      case Raised(x) => Raised(x)
      case Ok(texts) =>
        if last.stale then Raised(StaleElement)
        else
          StrippedTextsSnoc(cells);
          Ok(texts + [Strip(last.text)])
  }

  lemma StrippedTextsSnoc(cells: seq<Element>)
    requires cells != []
    ensures StrippedTexts(cells) == StrippedTexts(cells[..|cells| - 1]) + [Strip(cells[|cells| - 1].text)]
  {
  }

  /** The stripped texts of the cells, in order (`cell.text.strip()` for each cell). */
  function StrippedTexts(cells: seq<Element>): (texts: seq<string>)
    ensures |texts| == |cells|
  {
    seq(|cells|, i requires 0 <= i < |cells| => Strip(cells[i].text))
  }

  /** No cell has left the document. */
  predicate Live(cells: seq<Element>) {
    forall i :: 0 <= i < |cells| ==> !cells[i].stale
  }

  /** A row is a data row when it has cells, and at least one fewer than there are columns. */
  predicate Kept(cells: seq<Element>, columns: seq<string>) {
    |cells| > 0 && |cells| >= |columns| - 1
  }

  /** The rows with enough cells to be data rows, in grid order. */
  function KeptRows(rows: seq<Element>, columns: seq<string>): (kept: seq<Element>)
    ensures |kept| <= |rows|
    ensures forall k :: 0 <= k < |kept| ==> kept[k] in rows && Kept(kept[k].children, columns)
    ensures forall e :: e in rows && Kept(e.children, columns) ==> e in kept
  {
    if rows == [] then []
    else
      var row := rows[|rows| - 1];
      KeptRows(rows[..|rows| - 1], columns) + if Kept(row.children, columns) then [row] else []
  }

  /** The stripped cell texts of the kept rows, in grid order. */
  function KeptTexts(rows: seq<Element>, columns: seq<string>): (data: seq<seq<string>>)
    ensures |data| == |KeptRows(rows, columns)|
  {
    var kept := KeptRows(rows, columns);
    seq(|kept|, k requires 0 <= k < |kept| => StrippedTexts(kept[k].children))
  }

  /** The rows can be read: no row is stale, and no cell of a kept row is stale. */
  predicate Readable(rows: seq<Element>, columns: seq<string>) {
    forall i :: 0 <= i < |rows| ==> !rows[i].stale && (Kept(rows[i].children, columns) ==> Live(rows[i].children))
  }

  /** Adding a row at the end adds its texts at the end when it is kept. */
  lemma KeptTextsSnoc(rows: seq<Element>, columns: seq<string>)
    requires rows != []
    ensures var row := rows[|rows| - 1];
      KeptTexts(rows, columns) ==
        KeptTexts(rows[..|rows| - 1], columns) + if Kept(row.children, columns) then [StrippedTexts(row.children)] else []
  {
    var row := rows[|rows| - 1];
    var front := KeptRows(rows[..|rows| - 1], columns);
    assert KeptRows(rows, columns) == front + if Kept(row.children, columns) then [row] else [];
  }

  /**
   * The row loop of `extract_grid_rows`: the cell texts of every kept row, in order. It
   * succeeds exactly when the rows are readable, and then gives the kept rows' stripped texts.
   */
  function DataRows(rows: seq<Element>, columns: seq<string>): (r: Outcome<seq<seq<string>>>)
    ensures r.Ok? <==> Readable(rows, columns)
    ensures r.Raised? ==> r.exn == StaleElement
    ensures r.Ok? ==> r.value == KeptTexts(rows, columns)
    ensures r.Ok? ==> |r.value| <= |rows|
    ensures r.Ok? ==> forall i :: 0 <= i < |rows| ==> !rows[i].stale
    ensures r.Ok? ==> forall k :: 0 <= k < |r.value| ==> |r.value[k]| > 0 && |r.value[k]| >= |columns| - 1
  {
    if rows == [] then Ok([])
    else
      var row := rows[|rows| - 1];
      var front := rows[..|rows| - 1];
      assert Readable(rows, columns) <==>
        Readable(front, columns) && !row.stale && (Kept(row.children, columns) ==> Live(row.children));
      KeptTextsSnoc(rows, columns);
      match DataRows(front, columns)
      case Raised(x) => Raised(x)
      case Ok(done) =>
        if row.stale then Raised(StaleElement)
        else if !Kept(row.children, columns) then Ok(done)
        else
          match CellTexts(row.children)
          case Raised(x) => Raised(x)
          case Ok(texts) => Ok(done + [texts])
  }

  /** Once a prefix of the rows raises, reading all of them raises. */
  lemma {:induction false} DataRowsRaisedExtends(rows: seq<Element>, columns: seq<string>, k: nat)
    requires k <= |rows|
    requires DataRows(rows[..k], columns).Raised?
    decreases |rows| - k
    ensures DataRows(rows, columns).Raised?
  {
    if k < |rows| {
      assert rows[..k + 1][..k] == rows[..k];
      DataRowsRaisedExtends(rows, columns, k + 1);
    } else {
      assert rows[..k] == rows;
    }
  }

  /** The value of cell `i`, or the empty string when the row is shorter. */
  function Cell(texts: seq<string>, i: nat): string {
    if i < |texts| then texts[i] else ""
  }

  /**
   * The record of one data row: every column gets the cell at its position, or "" past the end
   * of the row. When a column name repeats, its last position wins.
   */
  function Fill(columns: seq<string>, texts: seq<string>): (job: Record)
    ensures HasColumns(job, columns)
  {
    if columns == [] then map[]
    else
      var n := |columns| - 1;
      Fill(columns[..n], texts)[columns[n] := Cell(texts, n)]
  }

  /** Column i holds cell i (or "" past the end of the row) unless the same name appears again later. */
  lemma {:induction false} FillLastWins(columns: seq<string>, texts: seq<string>, i: nat)
    requires i < |columns|
    requires forall j :: i < j < |columns| ==> columns[j] != columns[i]
    ensures Fill(columns, texts)[columns[i]] == Cell(texts, i)
  {
    var n := |columns| - 1;
    if i < n {
      FillLastWins(columns[..n], texts, i);
    }
  }

  /** With distinct column names, cell i is the value of column i, and a short row is padded with "". */
  lemma FillColumns(columns: seq<string>, texts: seq<string>, i: nat)
    requires forall a, b :: 0 <= a < b < |columns| ==> columns[a] != columns[b]
    requires i < |columns|
    ensures Fill(columns, texts)[columns[i]] == if i < |texts| then texts[i] else ""
  {
    FillLastWins(columns, texts, i);
  }

  /** The values `extract_grid_rows` treats as a header or an empty job number. */
  const HeaderValues: seq<string> := ["job #", "job", ""]

  /** `job.get("Job #", "")`. */
  function JobNumber(job: Record): string {
    if "Job #" in job then job["Job #"] else ""
  }

  /**
   * Rows whose lower-cased job number is "job #", "job" or empty are skipped. (The source's
   * second test, an empty or missing job number, is already covered by the empty string.)
   */
  predicate Dropped(job: Record) {
    Lower(JobNumber(job)) in HeaderValues
  }

  /** Records as `extract_grid_rows` returns them: every column present, no header or empty job number. */
  predicate Clean(jobs: seq<Record>, columns: seq<string>) {
    forall k :: 0 <= k < |jobs| ==> !Dropped(jobs[k]) && HasColumns(jobs[k], columns)
  }

  /** The records of the data rows, in order, without the dropped ones. */
  function Jobs(columns: seq<string>, data: seq<seq<string>>): (jobs: seq<Record>)
    ensures |jobs| <= |data|
    ensures Clean(jobs, columns)
  {
    if data == [] then []
    else
      var job := Fill(columns, data[|data| - 1]);
      Jobs(columns, data[..|data| - 1]) + if Dropped(job) then [] else [job]
  }

  /** Records come out in row order: the records of two runs of rows are those of the first, then those of the second. */
  lemma {:induction false} JobsAppend(columns: seq<string>, a: seq<seq<string>>, b: seq<seq<string>>)
    decreases |b|
    ensures Jobs(columns, a + b) == Jobs(columns, a) + Jobs(columns, b)
  {
    if b == [] {
      assert a + b == a;
    } else {
      var b' := b[..|b| - 1];
      assert (a + b)[..|a + b| - 1] == a + b';
      JobsAppend(columns, a, b');
    }
  }

  /** One row gives its record, unless that record is dropped. */
  lemma JobsSingle(columns: seq<string>, texts: seq<string>)
    ensures Jobs(columns, [texts]) == if Dropped(Fill(columns, texts)) then [] else [Fill(columns, texts)]
  {
    assert [texts][..0] == [];
  }

  /** When no data row is a header, every data row gives its record, in order: k data rows give k records. */
  lemma {:induction false} JobsAllKept(columns: seq<string>, data: seq<seq<string>>)
    requires forall k :: 0 <= k < |data| ==> !Dropped(Fill(columns, data[k]))
    ensures Jobs(columns, data) == seq(|data|, k requires 0 <= k < |data| => Fill(columns, data[k]))
    ensures |Jobs(columns, data)| == |data|
  {
    if data != [] {
      var n := |data| - 1;
      JobsAllKept(columns, data[..n]);
      assert Jobs(columns, data) == Jobs(columns, data[..n]) + [Fill(columns, data[n])];
    }
  }

  /** Without a "Job #" column every record has an empty job number, so every record is dropped. */
  lemma {:induction false} NoJobColumnNoJobs(columns: seq<string>, data: seq<seq<string>>)
    requires "Job #" !in columns
    ensures Jobs(columns, data) == []
  {
    if data != [] {
      NoJobColumnNoJobs(columns, data[..|data| - 1]);
      var job := Fill(columns, data[|data| - 1]);
      assert "Job #" !in job;
      assert Lower("") == "";
    }
  }

  /**
   * What one read of a grid gives: it succeeds exactly when the grid and its rows are readable,
   * and then gives the records of the kept rows' texts, headers dropped, in grid order.
   */
  function ExtractFromGrid(grid: Element, columns: seq<string>): (r: Outcome<seq<Record>>)
    ensures r.Ok? <==> !grid.stale && Readable(grid.children, columns)
    ensures r.Ok? ==> r.value == Jobs(columns, KeptTexts(grid.children, columns))
    ensures r.Raised? ==> r.exn == StaleElement
    ensures r.Ok? ==> |r.value| <= |grid.children|
    ensures !grid.stale && grid.children == [] ==> r == Ok([])
  {
    if grid.stale then Raised(StaleElement)
    else
      var rows := grid.children;
      if rows == [] then Ok([])
      else
        match DataRows(rows, columns)
        case Raised(x) => Raised(x)
        case Ok(data) => Ok(Jobs(columns, data))
  }

  /** One attempt of `extract_grid_rows`: find the grid on the page and read it. */
  function ExtractStep(cfg: Config, page: Page): (r: Outcome<seq<Record>>)
    ensures FindJobGrid(page).Raised? ==> r == Raised(NoSuchElement("Could not find job grid"))
    ensures FindJobGrid(page).Ok? ==> r == ExtractFromGrid(FindJobGrid(page).value, cfg.columns)
    ensures r.Ok? ==> Clean(r.value, cfg.columns)
  {
    match FindJobGrid(page)
    case Raised(x) => Raised(x)
    case Ok(grid) =>
      match ExtractFromGrid(grid, cfg.columns)
      case Raised(x) => Raised(x)
      case Ok(jobs) =>
        assert forall d :: DataRows(grid.children, cfg.columns) == Ok(d) ==> jobs == Jobs(cfg.columns, d);
        Ok(jobs)
  }

  /**
   * A readable grid whose kept rows all hold real jobs gives one record per kept row, in grid
   * order: the record of that row's stripped cell texts.
   */
  lemma ExtractFromGridRecords(grid: Element, columns: seq<string>)
    requires !grid.stale && Readable(grid.children, columns)
    requires var data := KeptTexts(grid.children, columns);
      forall k :: 0 <= k < |data| ==> !Dropped(Fill(columns, data[k]))
    ensures var data := KeptTexts(grid.children, columns);
      ExtractFromGrid(grid, columns) == Ok(seq(|data|, k requires 0 <= k < |data| => Fill(columns, data[k])))
  {
    JobsAllKept(columns, KeptTexts(grid.children, columns));
  }

  function ExtractAction(cfg: Config): World -> (Outcome<seq<Record>>, World) {
    (w: World) => (ExtractStep(cfg, w.page), w)
  }

  /** `extract_grid_rows`: the extraction step under the retry rule with the configured budget. */
  function ExtractGridRows(env: Env, cfg: Config, w: World): RetryRun<World, seq<Record>> {
    Retried(ExtractAction(cfg), RetryPause(env), w, RetryBudget(None, cfg.maxRetries), 0)
  }

  /** Extraction only reads: whatever it returns, it has issued no action on any element (only retry pauses). */
  lemma ExtractGridRowsReadOnly(env: Env, cfg: Config, w: World)
    ensures Actions(ExtractGridRows(env, cfg, w).state.log) == Actions(w.log)
  {
    var inv := (x: World) => Actions(x.log) == Actions(w.log);
    forall x | inv(x)
      ensures inv(RetryPause(env)(x))
    {
      ActionsAppend(x.log, [Slept(RetryDelay)]);
      ActionsSingle(Slept(RetryDelay));
    }
    RetriedKeeps(ExtractAction(cfg), RetryPause(env), w, RetryBudget(None, cfg.maxRetries), 0, inv);
  }

  /** When the first attempt does not raise a transient exception, `extract_grid_rows` is that attempt: no retry, no pause. */
  lemma ExtractGridRowsSettled(env: Env, cfg: Config, w: World)
    requires !Retryable(ExtractStep(cfg, w.page))
    ensures ExtractGridRows(env, cfg, w) == RetryRun(ExtractStep(cfg, w.page), w, 1)
  {
    RetriedFirstFinal(ExtractAction(cfg), RetryPause(env), w, RetryBudget(None, cfg.maxRetries));
  }

  /** Every record that `extract_grid_rows` returns has every column and a real job number. */
  lemma ExtractGridRowsRecords(env: Env, cfg: Config, w: World)
    ensures var r := ExtractGridRows(env, cfg, w);
      r.outcome.Ok? ==> Clean(r.outcome.value, cfg.columns)
  {
    var post := (o: Outcome<seq<Record>>, _: World) => o.Ok? ==> Clean(o.value, cfg.columns);
    RetriedEnds(ExtractAction(cfg), RetryPause(env), w, RetryBudget(None, cfg.maxRetries), 0, post);
  }

  // ---------------------------------------------------------------------------------------
  // The loops of `extract_grid_rows`
  // ---------------------------------------------------------------------------------------

  /** `[cell.text.strip() for cell in cells]`. */
  method ReadTexts(cells: seq<Element>) returns (r: Outcome<seq<string>>)
    ensures r == CellTexts(cells)
  {
    var texts: seq<string> := [];
    for k := 0 to |cells|
      invariant |texts| == k
      invariant forall i :: 0 <= i < k ==> !cells[i].stale && texts[i] == Strip(cells[i].text)
    {
      if cells[k].stale {
        assert CellTexts(cells).Raised?;
        return Raised(StaleElement);
      }
      texts := texts + [Strip(cells[k].text)];
    }
    assert CellTexts(cells).Ok?;
    assert CellTexts(cells).value == texts;
    return Ok(texts);
  }

  /** The loop that fills `job` column by column. */
  method ToRecord(columns: seq<string>, texts: seq<string>) returns (job: Record)
    ensures job == Fill(columns, texts)
  {
    job := map[];
    for i := 0 to |columns|
      invariant job == Fill(columns[..i], texts)
    {
      assert columns[..i + 1][..i] == columns[..i];
      job := job[columns[i] := if i < |texts| then texts[i] else ""];
    }
    assert columns[..|columns|] == columns;
  }

  /** The row loop of `extract_grid_rows`: keep the stripped texts of each row with enough cells. */
  method ReadRows(rows: seq<Element>, columns: seq<string>) returns (r: Outcome<seq<seq<string>>>)
    ensures r == DataRows(rows, columns)
  {
    var dataRows: seq<seq<string>> := [];
    for k := 0 to |rows|
      invariant DataRows(rows[..k], columns) == Ok(dataRows)
    {
      assert rows[..k + 1][..k] == rows[..k];
      var row := rows[k];
      if row.stale {
        DataRowsRaisedExtends(rows, columns, k + 1);
        return Raised(StaleElement);
      }
      var cells := row.children;
      if |cells| > 0 && |cells| >= |columns| - 1 {
        var texts := ReadTexts(cells);
        if texts.Raised? {
          DataRowsRaisedExtends(rows, columns, k + 1);
          return Raised(StaleElement);
        }
        dataRows := dataRows + [texts.value];
      }
    }
    assert rows[..|rows|] == rows;
    return Ok(dataRows);
  }

  /** The mapping loop of `extract_grid_rows`: fill a record per data row and keep those that are not headers. */
  method ToJobs(columns: seq<string>, dataRows: seq<seq<string>>) returns (jobs: seq<Record>)
    ensures jobs == Jobs(columns, dataRows)
  {
    jobs := [];
    for k := 0 to |dataRows|
      invariant jobs == Jobs(columns, dataRows[..k])
    {
      assert dataRows[..k + 1][..k] == dataRows[..k];
      var job := ToRecord(columns, dataRows[k]);
      if !(Lower(JobNumber(job)) in HeaderValues) {
        jobs := jobs + [job];
      }
    }
    assert dataRows[..|dataRows|] == dataRows;
  }

  /**
   * The action of `extract_grid_rows` once the grid is found: collect the data rows, then map
   * each onto the columns and keep the records that are not dropped.
   */
  method ExtractRows(grid: Element, columns: seq<string>) returns (r: Outcome<seq<Record>>)
    ensures r == ExtractFromGrid(grid, columns)
  {
    if grid.stale {
      return Raised(StaleElement);
    }
    var rows := grid.children;
    if |rows| == 0 {
      return Ok([]);
    }
    var data := ReadRows(rows, columns);
    if data.Raised? {
      return Raised(data.exn);
    }
    var jobs := ToJobs(columns, data.value);
    return Ok(jobs);
  }
}
