/**
 * The rule of `action.py`: a conjunction of optional filters over a submission,
 * a dry-run short-circuit, and the mapping of the effect's result to a boolean.
 */
module Actions {
  import opened Wrappers
  import opened Reddit
  import Text

  /** What an effect callable returned: Python `None`, or a boolean. */
  datatype Signal = NoSignal | Returned(value: bool)

  /** The configuration an `Action` is constructed with; `None` leaves a filter unset. */
  datatype Config = Config(
    name: string,
    subreddits: Option<set<string>>,
    maxAgeDays: Option<int>,
    minAgeDays: Option<int>,
    isSelfPost: Option<bool>,
    hasUrl: Option<bool>,
    dryRun: bool,
    deleteAfterExecution: bool)

  /** `Action.__init__`: the subreddit iterable becomes a set of the names exactly as given (not lowercased). */
  function NewConfig(
    name: string,
    subreddits: Option<seq<string>>,
    maxAgeDays: Option<int>,
    minAgeDays: Option<int>,
    isSelfPost: Option<bool>,
    hasUrl: Option<bool>,
    dryRun: bool,
    deleteAfterExecution: bool): (c: Config)
    ensures c.subreddits.Some? <==> subreddits.Some?
    ensures subreddits.Some? ==> forall n :: n in c.subreddits.value <==> n in subreddits.value
  {
    Config(
      name,
      if subreddits.Some? then Some(set n | n in subreddits.value) else None,
      maxAgeDays, minAgeDays, isSelfPost, hasUrl, dryRun, deleteAfterExecution)
  }

  /** A configuration with every filter unset. */
  predicate NoFilters(c: Config) {
    c.subreddits.None? && c.maxAgeDays.None? && c.minAgeDays.None? && c.isSelfPost.None? && c.hasUrl.None?
  }

  /** A URL that is absent or the empty string counts as no URL. */
  predicate HasNonEmptyUrl(s: Submission) {
    s.url.Some? && s.url.value != ""
  }

  /** Earliest creation time the age filters accept relative to `now`, for an age of `days`. */
  function AgeCutoff(now: int, days: int): int {
    now - days * SecondsPerDay
  }

  /**
   * `_should_execute`, checked filter by filter in the order of the source,
   * the first failing filter deciding. The age filters compare the creation time
   * with `now - days`, in seconds (see `ShouldExecuteAsWritten` for the code as written).
   * The chain accepts exactly when every filter on its own passes, unset ones vacuously.
   */
  predicate ShouldExecute(c: Config, s: Submission, now: int)
    ensures ShouldExecute(c, s, now) <==>
      SubredditPasses(c, s) && MaxAgePasses(c, s, now) && MinAgePasses(c, s, now)
      && SelfPostPasses(c, s) && UrlPasses(c, s)
  {
    if c.subreddits.Some? && Text.Lower(s.subreddit) !in c.subreddits.value then false
    else if c.maxAgeDays.Some? && s.createdUtc < AgeCutoff(now, c.maxAgeDays.value) then false
    else if c.minAgeDays.Some? && s.createdUtc > AgeCutoff(now, c.minAgeDays.value) then false
    else if c.isSelfPost.Some? && s.isSelf != c.isSelfPost.value then false
    else if c.hasUrl.Some? && !HasNonEmptyUrl(s) then false
    else true
  }

  // Each filter on its own; an unset filter holds vacuously.
  predicate SubredditPasses(c: Config, s: Submission) {
    c.subreddits.Some? ==> Text.Lower(s.subreddit) in c.subreddits.value
  }
  predicate MaxAgePasses(c: Config, s: Submission, now: int) {
    c.maxAgeDays.Some? ==> s.createdUtc >= now - c.maxAgeDays.value * SecondsPerDay
  }
  predicate MinAgePasses(c: Config, s: Submission, now: int) {
    c.minAgeDays.Some? ==> s.createdUtc <= now - c.minAgeDays.value * SecondsPerDay
  }
  predicate SelfPostPasses(c: Config, s: Submission) {
    c.isSelfPost.Some? ==> s.isSelf == c.isSelfPost.value
  }
  predicate UrlPasses(c: Config, s: Submission) {
    c.hasUrl.Some? ==> HasNonEmptyUrl(s)
  }

  /** With no filter configured every submission passes. */
  lemma NoFiltersMatchesAll(c: Config, s: Submission, now: int)
    requires NoFilters(c)
    ensures ShouldExecute(c, s, now)
  {
  }

  /** The subreddit filter compares the lowercased display name with the names as configured. */
  lemma SubredditFilter(c: Config, s: Submission, now: int)
    ensures ShouldExecute(c, s, now) <==>
      (c.subreddits.Some? ==> Text.Lower(s.subreddit) in c.subreddits.value)
      && ShouldExecute(c.(subreddits := None), s, now)
  {
  }

  /**
   * Only the submission's name is lowercased, so the filter cannot tell apart
   * two display names that differ only in letter case.
   */
  lemma SubredditCaseInsensitive(c: Config, s: Submission, name: string, now: int)
    requires Text.EqualIgnoringCase(s.subreddit, name)
    ensures ShouldExecute(c, s, now) == ShouldExecute(c, s.(subreddit := name), now)
  {
    Text.LowerIgnoresCase(s.subreddit, name);
  }

  /**
   * Configured names are not lowercased, so a configured name containing an
   * upper-case letter can never match: a submission is rejected when all of them do.
   */
  lemma UpperCaseNamesNeverMatch(c: Config, s: Submission, now: int)
    requires c.subreddits.Some?
    requires forall n :: n in c.subreddits.value ==> !Text.IsLower(n)
    ensures !ShouldExecute(c, s, now)
  {
  }

  /** A submission created strictly before `now - N` days is rejected; one created exactly then passes this filter. */
  lemma MaxAgeFilter(c: Config, s: Submission, now: int)
    requires c.maxAgeDays.Some?
    ensures ShouldExecute(c, s, now) <==>
      s.createdUtc >= now - c.maxAgeDays.value * SecondsPerDay && ShouldExecute(c.(maxAgeDays := None), s, now)
  {
  }

  /** A submission created strictly after `now - N` days is rejected; one created exactly then passes this filter. */
  lemma MinAgeFilter(c: Config, s: Submission, now: int)
    requires c.minAgeDays.Some?
    ensures ShouldExecute(c, s, now) <==>
      s.createdUtc <= now - c.minAgeDays.value * SecondsPerDay && ShouldExecute(c.(minAgeDays := None), s, now)
  {
  }

  /** The post-type filter keeps exactly the submissions whose `is_self` equals the configured value. */
  lemma SelfPostFilter(c: Config, s: Submission, now: int)
    requires c.isSelfPost.Some?
    ensures ShouldExecute(c, s, now) <==>
      s.isSelf == c.isSelfPost.value && ShouldExecute(c.(isSelfPost := None), s, now)
  {
  }

  /**
   * The URL filter rejects an absent or empty URL whatever the flag's value:
   * `has_url = False` filters exactly like `has_url = True`.
   */
  lemma UrlFilter(c: Config, s: Submission, now: int)
    requires c.hasUrl.Some?
    ensures ShouldExecute(c, s, now) <==>
      (s.url.Some? && s.url.value != "") && ShouldExecute(c.(hasUrl := None), s, now)
    ensures ShouldExecute(c, s, now) == ShouldExecute(c.(hasUrl := Some(!c.hasUrl.value)), s, now)
  {
  }

  /** What one call of `Action.execute` did: its return value and whether the effect was invoked. */
  datatype Execution = Execution(executed: bool, effectCalled: bool)

  /**
   * `Action.execute`: filters first, then dry-run, then exactly one call of the
   * effect, whose `None` counts as success.
   */
  function Execute(c: Config, effect: Submission -> Signal, s: Submission, now: int): (r: Execution)
    ensures r.effectCalled <==> ShouldExecute(c, s, now) && !c.dryRun
    ensures !r.effectCalled ==> !r.executed
    ensures r.effectCalled ==> (r.executed <==> effect(s).NoSignal? || effect(s).value)
  {
    if !ShouldExecute(c, s, now) then Execution(false, false)
    else if c.dryRun then Execution(false, false)
    else
      match effect(s)
      case NoSignal => Execution(true, true)
      case Returned(b) => Execution(b, true)
  }

  /** A dry-run rule never invokes its effect and never reports success. */
  lemma DryRunNeverExecutes(c: Config, effect: Submission -> Signal, s: Submission, now: int)
    requires c.dryRun
    ensures Execute(c, effect, s, now) == Execution(false, false)
  {
  }

  /** A reported success means the filters passed, the rule is live, and the effect did not return `False`. */
  lemma ExecutedMeansMatched(c: Config, effect: Submission -> Signal, s: Submission, now: int)
    requires Execute(c, effect, s, now).executed
    ensures ShouldExecute(c, s, now) && !c.dryRun && effect(s) != Returned(false)
  {
  }

  // ------------------------------------------------------------------------
  // The age filters as written.

  /** The exception Python raises on the comparison as written. */
  datatype Fault = TypeError

  /**
   * `_should_execute` exactly as written: `created_utc` (a float) is compared with
   * `datetime.now() - timedelta(...)` (a datetime), which Python 3 refuses with
   * `TypeError`. So any configured age filter raises once the subreddit filter passes.
   */
  function ShouldExecuteAsWritten(c: Config, s: Submission): (r: Result<bool, Fault>)
    ensures r.Failure? <==> SubredditPasses(c, s) && (c.maxAgeDays.Some? || c.minAgeDays.Some?)
  {
    if c.subreddits.Some? && Text.Lower(s.subreddit) !in c.subreddits.value then Success(false)
    else if c.maxAgeDays.Some? then Failure(TypeError)
    else if c.minAgeDays.Some? then Failure(TypeError)
    else if c.isSelfPost.Some? && s.isSelf != c.isSelfPost.value then Success(false)
    else if c.hasUrl.Some? && !HasNonEmptyUrl(s) then Success(false)
    else Success(true)
  }

  /** Without age filters the code as written and the corrected predicate agree. */
  lemma AsWrittenAgreesWithoutAgeFilters(c: Config, s: Submission, now: int)
    requires c.maxAgeDays.None? && c.minAgeDays.None?
    ensures ShouldExecuteAsWritten(c, s) == Success(ShouldExecute(c, s, now))
  {
  }

  /**
   * A concrete input: a week's maximum age and a submission made an hour ago.
   * The code as written raises; the corrected filter lets it through.
   */
  lemma MaxAgeRaisesAsWritten()
    ensures var c := NewConfig("recent", None, Some(7), None, None, None, false, false);
            var s := Submission("abc", "python", 1_700_000_000 - 3600, true, None, "t");
            ShouldExecuteAsWritten(c, s) == Failure(TypeError)
            && ShouldExecute(c, s, 1_700_000_000)
  {
  }
}
