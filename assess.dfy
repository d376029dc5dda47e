/**
 * The reporting half of `assessDiff` before anything is written: pick the
 * range, ask the version-control service for the three diff views of that
 * one range, categorise the name-only list and render the report
 * (lib/agent.js:72-147, index.js:74-125).
 */
module Assess {
  import opened Wrappers
  import opened Strings
  import opened Categorizer
  import opened Report
  import opened Revisions

  /** The three `git diff` shapes: `--name-status`, `--stat`, `--name-only`. */
  datatype DiffView = NameStatus | Stat | NameOnly

  /** The version-control service as an oracle: whether `fetch` succeeds,
      which references `revparse --verify` accepts, and the text each diff
      view returns for a range (`None` when the call fails). */
  datatype Git = Git(fetchOk: bool, verified: set<string>, diff: (DiffView, string) -> Option<string>)

  datatype AssessError = FetchFailed | DiffFailed(view: DiffView)

  /** What one run computes: the range, the buckets and the report text. */
  datatype Assessment = Assessment(range: string, buckets: Buckets, report: string)

  /** The base of the range: the library resolves it with its fallback,
      the command-line copy uses it as given. */
  function RangeBase(v: Variant, base: string, head: string, git: Git): string {
    if v == Library then ResolveBase(base, head, git.verified) else base
  }

  /** `assessDiff` up to the report. The library swallows a failed fetch;
      the command-line copy lets it abort the run. A failed diff aborts
      either copy. The diff views are requested in source order. */
  function Assess(v: Variant, baseRef: Option<string>, headRef: Option<string>, git: Git)
    : Result<Assessment, AssessError>
  {
    var base := OrDefault(baseRef, DefaultBase);
    var head := OrDefault(headRef, DefaultHead);
    if v == Cli && !git.fetchOk then Failure(FetchFailed)
    else
      var range := RangeBase(v, base, head, git) + ".." + head;
      match git.diff(NameStatus, range)
      case None => Failure(DiffFailed(NameStatus))
      case Some(nameStatus) =>
        match git.diff(Stat, range)
        case None => Failure(DiffFailed(Stat))
        case Some(stats) =>
          match git.diff(NameOnly, range)
          case None => Failure(DiffFailed(NameOnly))
          case Some(nameOnly) =>
            var buckets := Categorize(v, ChangedFiles(nameOnly));
            Success(Assessment(range, buckets, RenderReport(range, stats, nameStatus, buckets)))
  }

  /** The one range every diff view is asked about. */
  function RangeOf(v: Variant, baseRef: Option<string>, headRef: Option<string>, git: Git): string {
    RangeBase(v, OrDefault(baseRef, DefaultBase), OrDefault(headRef, DefaultHead), git)
      + ".." + OrDefault(headRef, DefaultHead)
  }

  /** A run succeeds exactly when (for the command-line copy) the fetch
      succeeds and all three views answer for the same range `base..head`. */
  lemma AssessSucceedsExactlyWhen(v: Variant, baseRef: Option<string>, headRef: Option<string>, git: Git)
    ensures var range := RangeOf(v, baseRef, headRef, git);
      Assess(v, baseRef, headRef, git).Success? <==>
        (v == Library || git.fetchOk) && git.diff(NameStatus, range).Some?
        && git.diff(Stat, range).Some? && git.diff(NameOnly, range).Some?
  {
  }

  /** A successful run reports on that range: the report is titled with it
      and its buckets are those of the name-only view's non-empty lines. */
  lemma AssessUsesOneRange(v: Variant, baseRef: Option<string>, headRef: Option<string>, git: Git)
    requires Assess(v, baseRef, headRef, git).Success?
    ensures var range := RangeOf(v, baseRef, headRef, git);
      var a := Assess(v, baseRef, headRef, git).value;
      && a.range == range
      && "# Change Delta " + range + "\n" <= a.report
      && a.buckets == Categorize(v, ChangedFiles(git.diff(NameOnly, range).value))
  {
    var range := RangeOf(v, baseRef, headRef, git);
    var a := Assess(v, baseRef, headRef, git).value;
    var stats, nameStatus := git.diff(Stat, range).value, git.diff(NameStatus, range).value;
    assert a.report == RenderReport(range, stats, nameStatus, a.buckets);
    ReportLayout(range, stats, nameStatus, a.buckets);
  }

  /** The library's result does not depend on whether the fetch succeeded. */
  lemma LibraryIgnoresFetchFailure(baseRef: Option<string>, headRef: Option<string>, git: Git)
    ensures Assess(Library, baseRef, headRef, git) == Assess(Library, baseRef, headRef, git.(fetchOk := true))
  {
  }

  /** The command-line copy aborts on a failed fetch before any diff. */
  lemma CliFetchFailureIsFatal(baseRef: Option<string>, headRef: Option<string>, git: Git)
    requires !git.fetchOk
    ensures Assess(Cli, baseRef, headRef, git) == Failure(FetchFailed)
  {
  }

  /** The command-line copy has no fallback: its range is the given
      references with their defaults, whatever verifies. */
  lemma CliHasNoFallback(baseRef: Option<string>, headRef: Option<string>, git: Git)
    requires Assess(Cli, baseRef, headRef, git).Success?
    ensures Assess(Cli, baseRef, headRef, git).value.range ==
              OrDefault(baseRef, DefaultBase) + ".." + OrDefault(headRef, DefaultHead)
  {
  }

  /** The `assess` command of the command-line copy: parse `--diff`, then run. */
  function AssessCommand(diff: Option<string>, git: Git): Result<Assessment, AssessError> {
    var refs := ParseRange(diff);
    Assess(Cli, refs.baseRef, refs.headRef, git)
  }

  /** `--diff a..b` with plain references reports on exactly `a..b`. */
  lemma AssessCommandRange(a: string, b: string, git: Git)
    requires a != "" && b != "" && !Contains(a, "..") && !Contains(b, "..") && a[|a| - 1] != '.'
    ensures AssessCommand(Some(a + ".." + b), git).Success? ==>
              AssessCommand(Some(a + ".." + b), git).value.range == a + ".." + b
  {
    ParseRangeOfPair(a, b);
    var refs := ParseRange(Some(a + ".." + b));
    assert refs.baseRef == Some(a) && refs.headRef == Some(b);
    if Assess(Cli, refs.baseRef, refs.headRef, git).Success? {
      CliHasNoFallback(refs.baseRef, refs.headRef, git);
    }
  }

  /** The library's fallback as exercised by its unit test: with the default
      base unknown and `HEAD~1` known, the range is `HEAD~1..HEAD`; with
      neither known it starts at the empty tree. */
  lemma LibraryFallbackRange(git: Git)
    requires DefaultBase !in git.verified
    ensures Assess(Library, None, None, git).Success? ==>
              Assess(Library, None, None, git).value.range ==
                (if "HEAD~1" in git.verified then "HEAD~1..HEAD" else EmptyTree + "..HEAD")
  {
    assert ParentOf(DefaultHead) == "HEAD~1";
    assert "HEAD~1" + ".." + "HEAD" == "HEAD~1..HEAD";
    assert EmptyTree + ".." + "HEAD" == EmptyTree + "..HEAD";
  }
}
