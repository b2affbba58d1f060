/**
 * `main`: read the command-line arguments left to right (`--help`/`-h`, `--mode <m>`,
 * `--month <n>`), then validate the mode and the month, and either stop with a message or
 * run the scraper.
 */
module Cli {
  import opened Outcomes
  import opened Text
  import opened Windows
  import opened Scrape

  /** What `main` decides. */
  datatype Command =
    | ShowUsage                            // --help or -h: print the usage text and stop
    | BadMonth(arg: string)                // --month followed by something int() rejects
    | BadMode(mode: string)                // a mode outside the valid list
    | MonthRequired                        // mode "month" without a month in 1..12
    | Run(mode: string, month: Option<int>)

  /** The argument loop either stops early or ends with a mode and a month. */
  datatype Parsed = Stopped(cmd: Command) | Finished(mode: string, month: Option<int>)

  const ValidModes: seq<string> := ["q1", "q2", "q3", "q4", "full_year", "monthly", "month"]

  /**
   * The argument loop from position `i`, with the mode and month read so far. An option that
   * takes a value consumes it only when there is one; unknown arguments are passed over.
   */
  function ParseFrom(args: seq<string>, i: nat, mode: string, month: Option<int>): (r: Parsed)
    decreases |args| - i
    ensures r.Stopped? ==> r.cmd == ShowUsage || r.cmd.BadMonth?
  {
    if i >= |args| then Finished(mode, month)
    else
      var arg := Lower(args[i]);
      if arg == "--help" || arg == "-h" then Stopped(ShowUsage)
      else if arg == "--mode" && i + 1 < |args| then ParseFrom(args, i + 2, Lower(args[i + 1]), month)
      else if arg == "--month" && i + 1 < |args| then
        match ParseInt(args[i + 1])
        case None => Stopped(BadMonth(args[i + 1]))
        case Some(n) => ParseFrom(args, i + 2, "month", Some(n))
      else ParseFrom(args, i + 1, mode, month)
  }

  /** `--help` or `-h`, in any case. */
  predicate IsHelp(arg: string) {
    Lower(arg) == "--help" || Lower(arg) == "-h"
  }

  /** An argument the loop acts on: a help flag, `--mode` or `--month`, in any case. */
  predicate IsOption(arg: string) {
    IsHelp(arg) || Lower(arg) == "--mode" || Lower(arg) == "--month"
  }

  /**
   * The loop started at `i` looks at position `j` as an argument of its own: it gets there
   * without stopping, and `j` is not the value of a `--mode` or `--month` before it.
   */
  predicate Visits(args: seq<string>, i: nat, j: nat)
    decreases |args| - i
  {
    i <= j < |args| &&
    (i == j ||
      (var arg := Lower(args[i]);
       arg != "--help" && arg != "-h" &&
       if (arg == "--mode" || arg == "--month") && i + 1 < |args| then
         (arg == "--month" ==> ParseInt(args[i + 1]).Some?) && Visits(args, i + 2, j)
       else Visits(args, i + 1, j)))
  }

  /** The loop stops at position `j` with `cmd`: a help flag, or a `--month` whose value int() rejects. */
  predicate StopsHere(args: seq<string>, j: nat, cmd: Command) {
    j < |args| &&
    ((IsHelp(args[j]) && cmd == ShowUsage) ||
     (Lower(args[j]) == "--month" && j + 1 < |args| && ParseInt(args[j + 1]).None? && cmd == BadMonth(args[j + 1])))
  }

  /** Whatever position the loop visits, the outcome is that of the loop resumed there with some mode and month. */
  lemma {:induction false} VisitsState(args: seq<string>, i: nat, j: nat, mode: string, month: Option<int>)
    requires Visits(args, i, j)
    ensures exists m: string, mo: Option<int> :: ParseFrom(args, i, mode, month) == ParseFrom(args, j, m, mo)
    decreases |args| - i
  {
    if i == j {
      assert ParseFrom(args, i, mode, month) == ParseFrom(args, j, mode, month);
    } else {
      var arg := Lower(args[i]);
      if arg == "--mode" && i + 1 < |args| {
        VisitsState(args, i + 2, j, Lower(args[i + 1]), month);
      } else if arg == "--month" && i + 1 < |args| {
        VisitsState(args, i + 2, j, "month", ParseInt(args[i + 1]));
      } else {
        VisitsState(args, i + 1, j, mode, month);
      }
    }
  }

  /** A help flag the loop reaches stops it with the usage text; so does an unreadable month it reaches, naming the value. */
  lemma StopAtVisited(args: seq<string>, i: nat, j: nat, mode: string, month: Option<int>, cmd: Command)
    requires Visits(args, i, j) && StopsHere(args, j, cmd)
    ensures ParseFrom(args, i, mode, month) == Stopped(cmd)
  {
    VisitsState(args, i, j, mode, month);
  }

  /** Conversely, the loop stops only at a position it reaches that holds a help flag or an unreadable month. */
  lemma {:induction false} StoppedAtVisited(args: seq<string>, i: nat, mode: string, month: Option<int>)
    ensures var r := ParseFrom(args, i, mode, month);
      r.Stopped? ==> exists j :: Visits(args, i, j) && StopsHere(args, j, r.cmd)
    decreases |args| - i
  {
    var r := ParseFrom(args, i, mode, month);
    if i < |args| && r.Stopped? {
      var arg := Lower(args[i]);
      if arg == "--help" || arg == "-h" {
        assert Visits(args, i, i) && StopsHere(args, i, r.cmd);
      } else if arg == "--mode" && i + 1 < |args| {
        StoppedAtVisited(args, i + 2, Lower(args[i + 1]), month);
        var j :| Visits(args, i + 2, j) && StopsHere(args, j, r.cmd);
        assert Visits(args, i, j);
      } else if arg == "--month" && i + 1 < |args| {
        if ParseInt(args[i + 1]).None? {
          assert Visits(args, i, i) && StopsHere(args, i, r.cmd);
        } else {
          StoppedAtVisited(args, i + 2, "month", ParseInt(args[i + 1]));
          var j :| Visits(args, i + 2, j) && StopsHere(args, j, r.cmd);
          assert Visits(args, i, j);
        }
      } else {
        StoppedAtVisited(args, i + 1, mode, month);
        var j :| Visits(args, i + 1, j) && StopsHere(args, j, r.cmd);
        assert Visits(args, i, j);
      }
    }
  }

  /** With no option left from `i` on, the loop ends with the mode and month it has. */
  lemma {:induction false} QuietFinish(args: seq<string>, i: nat, mode: string, month: Option<int>)
    requires forall k :: i <= k < |args| ==> !IsOption(args[k])
    ensures ParseFrom(args, i, mode, month) == Finished(mode, month)
    decreases |args| - i
  {
    if i < |args| {
      QuietFinish(args, i + 1, mode, month);
    }
  }

  /** With no help flag and no `--month` left from `i` on, the loop ends and keeps the month it has. */
  lemma {:induction false} MonthKept(args: seq<string>, i: nat, mode: string, month: Option<int>)
    requires forall k :: i <= k < |args| ==> !IsHelp(args[k]) && Lower(args[k]) != "--month"
    ensures ParseFrom(args, i, mode, month).Finished? && ParseFrom(args, i, mode, month).month == month
    decreases |args| - i
  {
    if i < |args| {
      if Lower(args[i]) == "--mode" && i + 1 < |args| {
        MonthKept(args, i + 2, Lower(args[i + 1]), month);
      } else {
        MonthKept(args, i + 1, mode, month);
      }
    }
  }

  /** The last `--mode` wins: one the loop reaches, with a value and no option after it, decides the mode, lower-cased. */
  lemma LastModeWins(args: seq<string>, i: nat, j: nat, mode: string, month: Option<int>)
    requires Visits(args, i, j) && Lower(args[j]) == "--mode" && j + 1 < |args|
    requires forall k :: j + 1 < k < |args| ==> !IsOption(args[k])
    ensures ParseFrom(args, i, mode, month).Finished? && ParseFrom(args, i, mode, month).mode == Lower(args[j + 1])
  {
    VisitsState(args, i, j, mode, month);
    var m, mo :| ParseFrom(args, i, mode, month) == ParseFrom(args, j, m, mo);
    QuietFinish(args, j + 2, Lower(args[j + 1]), mo);
  }

  /**
   * The last `--month` wins: one the loop reaches, whose value int() reads as n, with no help
   * flag and no `--month` after it, decides the month; it also sets month mode, which only a
   * later `--mode` can change.
   */
  lemma LastMonthWins(args: seq<string>, i: nat, j: nat, mode: string, month: Option<int>, n: int)
    requires Visits(args, i, j) && Lower(args[j]) == "--month" && j + 1 < |args| && ParseInt(args[j + 1]) == Some(n)
    requires forall k :: j + 1 < k < |args| ==> !IsHelp(args[k]) && Lower(args[k]) != "--month"
    ensures var r := ParseFrom(args, i, mode, month);
      && r.Finished? && r.month == Some(n)
      && ((forall k :: j + 1 < k < |args| ==> Lower(args[k]) != "--mode") ==> r.mode == "month")
  {
    VisitsState(args, i, j, mode, month);
    var m, mo :| ParseFrom(args, i, mode, month) == ParseFrom(args, j, m, mo);
    MonthKept(args, j + 2, "month", Some(n));
    if forall k :: j + 1 < k < |args| ==> Lower(args[k]) != "--mode" {
      QuietFinish(args, j + 2, "month", Some(n));
    }
  }

  /** The validation after the loop. A month of None or 0 counts as absent, as in the source's truth test. */
  function Validate(mode: string, month: Option<int>): (cmd: Command)
    ensures cmd.Run? <==> mode in ValidModes && (mode == "month" ==> month.Some? && 1 <= month.value <= 12)
    ensures cmd.Run? ==> cmd == Run(mode, month)
  {
    if mode !in ValidModes then BadMode(mode)
    else if mode == "month" && (month.None? || month.value == 0 || month.value < 1 || month.value > 12) then MonthRequired
    else Run(mode, month)
  }

  /** What `main` decides for the arguments after the program name. */
  function Decide(args: seq<string>): Command {
    match ParseFrom(args, 0, "q4", None)
    case Stopped(cmd) => cmd
    case Finished(mode, month) => Validate(mode, month)
  }

  /**
   * The loop of `main`: `while i < len(args)`, lower-casing each argument, updating `mode`,
   * `specific_month` and `i`, and returning early on `--help` or a month that is not an
   * integer; then the validation.
   */
  method ParseCommandLine(args: seq<string>) returns (cmd: Command)
    ensures cmd == Decide(args)
  {
    var mode := "q4";
    var month: Option<int> := None;
    var i := 0;
    while i < |args|
      invariant i <= |args| + 1
      invariant ParseFrom(args, 0, "q4", None) == ParseFrom(args, i, mode, month)
      decreases |args| - i
    {
      var arg := Lower(args[i]);
      if arg == "--help" || arg == "-h" {
        return ShowUsage;
      } else if arg == "--mode" {
        if i + 1 < |args| {
          mode := Lower(args[i + 1]);
          i := i + 1;
        }
      } else if arg == "--month" {
        if i + 1 < |args| {
          match ParseInt(args[i + 1])
          case None =>
            return BadMonth(args[i + 1]);
          case Some(n) =>
            month := Some(n);
            mode := "month";
            i := i + 1;
        }
      }
      i := i + 1;
    }
    cmd := Validate(mode, month);
  }

  /** With no arguments, the scraper runs the fourth quarter. */
  lemma DecideDefault()
    ensures Decide([]) == Run("q4", None)
  {
  }

  /** `--month n` as its only arguments: the loop ends in month mode with month n. */
  lemma ParseMonthOnly(n: nat)
    ensures ParseFrom(["--month", Decimal(n)], 0, "q4", None) == Finished("month", Some(n))
  {
    var args := ["--month", Decimal(n)];
    assert Lower(args[0]) == "--month";
    ParseIntDecimal(n);
    assert ParseFrom(args, 0, "q4", None) == ParseFrom(args, 2, "month", Some(n));
  }

  /** `--month n` with n in 1..12 runs month mode for n. */
  lemma DecideMonth(n: nat)
    requires 1 <= n <= 12
    ensures Decide(["--month", Decimal(n)]) == Run("month", Some(n))
  {
    ParseMonthOnly(n);
    assert "month" in ValidModes;
  }

  /** `--month n` with n outside 1..12 stops without running. */
  lemma DecideMonthOutOfRange(n: nat)
    requires n == 0 || n > 12
    ensures Decide(["--month", Decimal(n)]) == MonthRequired
  {
    ParseMonthOnly(n);
    assert "month" in ValidModes;
  }

  /** `--month s` where int() rejects s stops, naming s. */
  lemma DecideBadMonth(s: string)
    requires ParseInt(s) == None
    ensures Decide(["--month", s]) == BadMonth(s)
  {
    assert Lower("--month") == "--month";
  }

  /** `--help` first stops with the usage text, whatever follows. */
  lemma DecideHelp(rest: seq<string>)
    ensures Decide(["--help"] + rest) == ShowUsage
  {
    assert Lower("--help") == "--help";
  }

  lemma ValidModesSelect(mode: string)
    requires mode in ValidModes && mode != "month"
    ensures mode in DateWindows
  {
  }

  /**
   * Validation is enough for the window selection: whenever `main` decides to run, the mode
   * and month it passes select at least one window, with no invalid mode and no index error.
   */
  lemma DecideRunSelects(args: seq<string>)
    ensures Decide(args).Run? ==>
      var s := SelectWindows(Decide(args).mode, Decide(args).month);
      s.Selected? && |s.windows| > 0
  {
    var cmd := Decide(args);
    if cmd.Run? {
      var parsed := ParseFrom(args, 0, "q4", None);
      assert parsed.Finished? && cmd == Validate(parsed.mode, parsed.month);
      if cmd.mode != "month" {
        ValidModesSelect(cmd.mode);
      }
    }
  }
}
