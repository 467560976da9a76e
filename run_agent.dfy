/**
 * The command-line runner: it turns its flags into search criteria, an output
 * file and a `save_to_sheets` flag, runs either the daily discovery or the
 * plain discovery, and exits 0 exactly when the run reports success. Both
 * discoveries run the same graph, whose sheet node writes whenever the sheet
 * credentials are configured; the flag only chooses between the two.
 */
module RunAgent {
  import opened Wrappers
  import opened Text
  import opened Service

  const DEFAULT_CRITERIA_PREFIX: string :=
    "new US scholarships and financial aid opportunities for American college students and students attending US universities "

  /** `create_default_search_criteria`: a fixed sentence ending with the year. */
  function DefaultSearchCriteria(year: nat): (c: string)
    ensures EndsWith(c, NatToString(year))
    ensures |c| > |NatToString(year)|
  {
    var y := NatToString(year);
    var c := DEFAULT_CRITERIA_PREFIX + y;
    assert c[|c| - |y|..] == y;
    c
  }

  /** The command-line flags; an absent option is `None`. */
  datatype Args = Args(search: Option<string>, output: Option<string>, noSheets: bool, daily: bool, test: bool)

  /** What the runner does: the criteria it searches for, the file it writes (if any), whether it saves. */
  datatype Plan = Plan(criteria: string, outputFile: Option<string>, saveToSheets: bool)

  /** Python truthiness of an optional string: present and non-empty. */
  predicate Given(o: Option<string>) {
    o.Some? && o.value != ""
  }

  /** The file name a daily run writes to when none is given. */
  function DailyOutputName(timestamp: string): string {
    "scholarship_discovery_" + timestamp + ".json"
  }

  /**
   * The flag rules of `main`: a given search is used, otherwise the default
   * criteria; a given output file is written, a daily run without one writes a
   * timestamped file, anything else writes none; `save_to_sheets` (which
   * selects the daily discovery) holds unless `--no-sheets` or `--test` is given.
   */
  function PlanRun(args: Args, year: nat, timestamp: string): (p: Plan)
    ensures p.criteria != ""
    ensures Given(args.search) ==> p.criteria == args.search.value
    ensures !Given(args.search) ==> EndsWith(p.criteria, NatToString(year))
    ensures p.saveToSheets <==> !args.noSheets && !args.test
    ensures p.outputFile.Some? <==> Given(args.output) || args.daily
    ensures Given(args.output) ==> p.outputFile == args.output
    ensures p.outputFile.Some? ==> p.outputFile.value != ""
  {
    var criteria := if Given(args.search) then args.search.value else DefaultSearchCriteria(year);
    var output := if Given(args.output) then args.output
                  else if args.daily then Some(DailyOutputName(timestamp))
                  else None;
    Plan(criteria, output, !args.noSheets && !args.test)
  }

  /** What `run_discovery` returns: a daily summary, a plain discovery report, or the error it caught. */
  datatype RunResult =
    | DailyRun(summary: DailySummary)
    | DirectRun(report: DiscoveryReport)
    | RunErrored(error: string)

  /** `result.get("success", False)`. */
  predicate Succeeded(r: RunResult) {
    match r
    case DailyRun(s) => s.DailySucceeded?
    case DirectRun(d) => d.success
    case RunErrored(_) => false
  }

  /** The criteria the graph is actually run with. */
  function EffectiveCriteria(criteria: string, saveToSheets: bool, year: nat): string {
    if saveToSheets then DailyCriteria(criteria, year) else criteria
  }

  /**
   * `run_discovery`: run the daily discovery when saving, the plain discovery
   * otherwise. `fault` is an exception raised by the steps around the run
   * (writing the output file, printing the report); it is caught and returned
   * as an error result.
   */
  function RunDiscovery(criteria: string, saveToSheets: bool, year: nat, run: string -> GraphOutcome,
                        fault: Option<string>): (r: RunResult)
    ensures fault.Some? ==> r == RunErrored(fault.value)
    ensures fault.None? ==> (r.DailyRun? <==> saveToSheets)
    ensures Succeeded(r) <==>
      fault.None? && (var o := run(EffectiveCriteria(criteria, saveToSheets, year)); o.GraphFinished? && o.collection.Some?)
  {
    if fault.Some? then RunErrored(fault.value)
    else if saveToSheets then DailyRun(RunDailyDiscovery(criteria, year, run))
    else DirectRun(Discover(run(criteria), criteria))
  }

  /**
   * `main`: exit 1 when the model's API key is not configured, otherwise plan
   * the run, run it, and exit 0 exactly when it succeeded.
   */
  function MainExitCode(args: Args, apiKeyConfigured: bool, year: nat, timestamp: string,
                        run: string -> GraphOutcome, fault: Option<string>): (code: int)
    ensures code == 0 || code == 1
  {
    if !apiKeyConfigured then 1
    else
      var plan := PlanRun(args, year, timestamp);
      if Succeeded(RunDiscovery(plan.criteria, plan.saveToSheets, year, run, fault)) then 0 else 1
  }

  /**
   * The runner exits 0 exactly when the key is configured, nothing around the
   * run raised, and the graph, run with the planned criteria (which the daily
   * discovery keeps, being non-empty), finished with a collection.
   */
  lemma ExitZeroIff(args: Args, apiKeyConfigured: bool, year: nat, timestamp: string,
                    run: string -> GraphOutcome, fault: Option<string>)
    ensures MainExitCode(args, apiKeyConfigured, year, timestamp, run, fault) == 0 <==>
      && apiKeyConfigured && fault.None?
      && var o := run(PlanRun(args, year, timestamp).criteria); o.GraphFinished? && o.collection.Some?
  {
    var plan := PlanRun(args, year, timestamp);
    assert EffectiveCriteria(plan.criteria, plan.saveToSheets, year) == plan.criteria;
  }

  /**
   * Test mode takes the plain discovery, never the daily one, on the planned
   * criteria unchanged. That discovery still runs the whole graph.
   */
  lemma TestModeRunsPlainDiscovery(args: Args, year: nat, timestamp: string, run: string -> GraphOutcome)
    requires args.test
    ensures var plan := PlanRun(args, year, timestamp);
      && !plan.saveToSheets
      && RunDiscovery(plan.criteria, plan.saveToSheets, year, run, None)
         == DirectRun(Discover(run(plan.criteria), plan.criteria))
  {
  }

  /** A daily run without an output file writes to the timestamped file. */
  lemma DailyWritesTimestampedFile(args: Args, year: nat, timestamp: string)
    requires args.daily && !Given(args.output)
    ensures PlanRun(args, year, timestamp).outputFile == Some(DailyOutputName(timestamp))
  {
  }
}
