# reddit-actions, modelled in Dafny

This project models the rule engine of a small personal automation script. The
script fetches a Reddit account's saved posts and runs a list of *actions* over
them. An action is a filter plus an effect. Posts that a deleting action handled
successfully are deleted after the scan. The one shipped action archives link
posts to Instapaper.

Modules, one per source concern:

- `Wrappers` (`wrappers.dfy`): `Option` (Python's `None`) and `Result` (a value or the exception Python would raise).
- `Text` (`text.dfy`): `str.lower()` on subreddit names.
- `Encoding` (`encoding.dfy`): `str.encode()` (UTF-8) and `base64.b64encode`, with their inverses. Together they build the Instapaper `Authorization` header.
- `Reddit` (`reddit.dfy`): the submission record, saved-listing items, the `reddit.py` constants, and the `get_saved_threads_for_user` filter.
- `Actions` (`actions.dfy`): `Action` from `action.py`. It holds the configuration, the `_should_execute` filter chain, and `execute` with its dry-run short-circuit and `None`-means-success mapping.
- `Instapaper` (`instapaper_action.py`, in `instapaper.dfy`): `InstapaperAction`. It holds the configuration, the exact-match host exclusion, the request shaping and the mapping of the HTTP outcome.
- `Executor` (`executor.dfy`): `ActionExecutor.execute`, both as a fold (`Execute`) and as the source's nested loops (`RunExecute`), which is proved to compute the fold.

How the outside world enters the model:

- Time is whole seconds. `now` is a parameter, read once per evaluation (and once per executor run).
- A base action's effect is a function `Submission -> Signal`. `Signal` is `NoSignal` (Python `None`) or `Returned(b)`.
- URL parsing is a function `netloc` from the URL to its network location, `urlparse(url).netloc`. That keeps any `user@` prefix, any `:port` and the letter case, so `youtube.com:443` and `YouTube.com` are not excluded hosts.
- The HTTP exchange is a function `http` from a request to `TransportError` or `Status(code)`. As in `raise_for_status`, a status from 400 to 599 is a failure.
- The executor records what it does as a list of events. `Applied(rule, id, executed, call)` is one `action.execute` call together with what it did outwardly: nothing, the effect ran, or an Instapaper request was sent. `Deleted(submission)` is one `delete()`.
- The deletion queue is a Python dict keyed by submission id, kept in insertion order. It is modelled as a sequence with distinct ids. Re-inserting a key replaces the value in place.

Behaviour kept exactly as the code has it:

- Configured subreddit names are stored as given. Only the submission's name is lowercased (action.py:55, action.py:79). A configured name with an upper-case letter therefore never matches (`Actions.UpperCaseNamesNeverMatch`).
- The code only asks whether `has_url` is set. `has_url = False` filters like `True` (`Actions.UrlFilter`).
- `InstapaperAction.execute` overrides `Action.execute`. The executor calls the override, so the subreddit, post-type and URL filters and the action's own dry-run flag are never consulted for it (`Instapaper.ExecuteIgnoresConfig`, `Instapaper.DryRunFilteredPostStillSent`). A self-post still never reaches Instapaper, because its permalink is on an excluded host (`Instapaper.PermalinkNeverSent`).
- The executor's dry-run only suppresses deletion. Archive requests are still sent (`Executor.DryRunDeletesNothing`).
- The queue lives on the executor. Later calls never clear it, and each call deletes every entry again (`Executor.QueueAccumulates`).
- `SELECT_SUBREDDITS` is the literal `{}`, which is an empty dict. Membership in it is always false, so `get_saved_threads_for_user` yields nothing.

## Model

| member | source | states |
|---|---|---|
| Text.Lower | action.py:79 | lowercasing keeps the length and maps each character through the ASCII case map |
| Text.LowerIsLower | action.py:79 | a lowercased name has no upper-case letter, and lowercasing leaves a name alone exactly when it has none |
| Text.LowerIdempotent | action.py:79 | lowercasing twice is lowercasing once |
| Text.LowerIgnoresCase | action.py:79 | two names lowercase to the same string exactly when, position by position, their characters are equal or the same ASCII letter in the other case |
| Encoding.Utf8Encode | instapaper_action.py:47 | each character becomes one to four bytes; ASCII text keeps its length |
| Encoding.Utf8RoundTrip | instapaper_action.py:47 | decoding the UTF-8 bytes of a string gives the string back |
| Encoding.Base64Encode | instapaper_action.py:47 | the encoding is four characters per started group of three bytes |
| Encoding.Base64Alphabet | instapaper_action.py:47 | every character of the encoding is a base64 digit or `=` |
| Encoding.Base64RoundTrip | instapaper_action.py:47 | decoding the base64 text gives the original bytes back |
| Reddit.Qualifies | reddit.py:129-131 | the display name is lowercased before the membership test, so a selected-name set whose every name holds an upper-case letter lets no thread through |
| Reddit.SelectThreads | reddit.py:129-137 | every yielded thread comes from the listing and qualifies (lowercased subreddit selected, self-post, created strictly before the cutoff); every qualifying thread is yielded |
| Reddit.SelectThreadsIsSubsequence | reddit.py:129-135 | the yielded threads keep their relative order from the saved listing |
| Reddit.SelectThreadsAppend | reddit.py:129-137 | the filter treats each item on its own: filtering a concatenation is concatenating the filtered parts |
| Reddit.SelectOne | reddit.py:132-137 | a single item is yielded iff it qualifies; a selected self-post at or after the cutoff is skipped |
| Reddit.SavedThreads | reddit.py:103-139 | with the shipped constants, yielded threads satisfy the filter, and the empty subreddit set means nothing is yielded |
| Actions.NewConfig | action.py:55 | the configured subreddit set holds exactly the names supplied, not lowercased, and is absent iff none were supplied |
| Actions.ShouldExecute | action.py:64-93 | the early-return chain accepts iff every configured filter on its own passes (subreddit, max age, min age, post type, URL); unset filters pass vacuously |
| Actions.NoFiltersMatchesAll | action.py:79-93 | with no filter configured every submission is accepted |
| Actions.SubredditFilter | action.py:79-80 | with a subreddit set, acceptance needs the lowercased display name in the set, and otherwise depends only on the other filters |
| Actions.SubredditCaseInsensitive | action.py:79-80 | two submissions whose display names differ only in ASCII letter case get the same answer from the filter chain |
| Actions.UpperCaseNamesNeverMatch | action.py:79-80 | configured names are compared as given, so a set of names each holding an upper-case letter rejects every submission |
| Actions.MaxAgeFilter | action.py:81-84 | with max_age_days N, a submission created strictly before now minus N days is rejected; one created exactly at that instant passes |
| Actions.MinAgeFilter | action.py:85-88 | with min_age_days N, a submission created strictly after now minus N days is rejected; one created exactly at that instant passes |
| Actions.SelfPostFilter | action.py:89-90 | with is_self_post set, acceptance needs is_self equal to the configured value |
| Actions.UrlFilter | action.py:91-92 | with has_url set, an absent or empty URL is rejected, and flipping the flag's value changes nothing |
| Actions.Execute | action.py:110-118 | the effect is invoked exactly once iff the filters pass and the action is not dry-run; otherwise the result is False; when invoked, the result is True for None and the effect's own boolean otherwise |
| Actions.DryRunNeverExecutes | action.py:112-114 | a dry-run action never invokes its effect and returns False |
| Actions.ExecutedMeansMatched | action.py:110-118 | a True result implies the filters passed, the action is live, and the effect did not return False |
| Actions.ShouldExecuteAsWritten | action.py:79-93 | with an age filter set, the code as written raises TypeError exactly when the subreddit filter passes |
| Actions.AsWrittenAgreesWithoutAgeFilters | action.py:79-93 | without age filters the code as written and the corrected filter give the same answer |
| Actions.MaxAgeRaisesAsWritten | action.py:81-84 | a week's max age and a post made an hour ago: as written it raises; the corrected filter accepts it |
| Instapaper.New | instapaper_action.py:36-58 | the action is named "instapaper", requires link posts with a URL, deletes after execution, keeps the caller's subreddits and dry-run, carries the eight fixed hosts, and its encoded credential decodes to the UTF-8 bytes of "user:pass" |
| Instapaper.AuthorizationCarriesCredentials | instapaper_action.py:46-47 | the header is "Basic " followed by text that base64-decodes and then UTF-8-decodes to exactly "user:pass" |
| Instapaper.SelectionShape | instapaper_action.py:84 | the annotation is `From r/<subreddit>: "` + title + `"`, and the title can be read back from it |
| Instapaper.Succeeded | instapaper_action.py:86-97 | a transport error and every 4xx (client error) and 5xx (server error) status count as failure; every other status, redirects included, counts as success |
| Instapaper.Execute | instapaper_action.py:60-97 | an excluded host returns False and sends nothing; otherwise exactly one request goes to the add endpoint with the submission URL, the annotation and the Basic header, and the result is True iff no transport error and no 4xx/5xx status |
| Instapaper.ExclusionIsExact | instapaper_action.py:49-58 | a host is excluded iff it equals one of the eight listed strings |
| Instapaper.MobileSubdomainsNotExcluded | instapaper_action.py:77 | no "m." host is excluded (m.youtube.com is sent) although youtube.com is |
| Instapaper.ExecuteIgnoresConfig | instapaper_action.py:60-78 | the override's outcome and request do not depend on the action's filters or dry-run flag |
| Instapaper.DryRunFilteredPostStillSent | instapaper_action.py:60-97 | a dry-run Instapaper action restricted to some subreddits still sends the request for a link post from another subreddit on a non-excluded host, although its own filters reject that post |
| Instapaper.PermalinkNeverSent | instapaper_action.py:75-78 | a post whose URL lies on www.reddit.com (every self-post's permalink) is never sent and returns False, whatever the configuration and dry-run flag |
| Instapaper.ConfigKeepsLinkPostsWithUrl | instapaper_action.py:36-44 | the configuration, if consulted, would accept exactly non-self posts with a non-empty URL in the chosen subreddits |
| Executor.Apply | action_executor.py:64 | a base action runs the base execute; an Instapaper action runs the override, which sends a request iff its host is not excluded |
| Executor.Put | action_executor.py:66 | storing under an id adds that id, grows the dict only for a new id, and keeps the order of existing keys |
| Executor.PutKeepsDistinct | action_executor.py:66 | storing keeps keys distinct, puts the submission under its id, and leaves every other entry unchanged |
| Executor.DistinctLength | action_executor.py:69 | the dict's length is its number of distinct ids |
| Executor.New | action_executor.py:39-42 | a new executor starts with an empty queue |
| Executor.EarlierActionsUnaffected | action_executor.py:63-66 | a later action never changes what an earlier one did: with only the first k actions a submission gets exactly the first k events and the queue those actions leave |
| Executor.StepRulesQueue | action_executor.py:63-66 | after all actions run on one submission, its id is queued iff some action returned True and deletes after execution; earlier entries keep their places |
| Executor.ScanQueueContents | action_executor.py:60-66 | after the scan the queue holds the earlier ids plus exactly the ids of submissions that a deleting action succeeded on, with no id twice |
| Executor.SkipsNonSubmissions | action_executor.py:60-62 | dropping the non-submission items from the listing changes neither the events nor the queue |
| Executor.DryRunDeletesNothing | action_executor.py:68-70 | in dry-run nothing is deleted, the reported count is the number of distinct queued ids, and the scan's calls (archive requests included) are those of a non-dry run |
| Executor.DeletesEachQueuedOnce | action_executor.py:71-72 | outside dry-run every deletion comes after the whole scan, one per queued entry in dict order, and no id is deleted twice |
| Executor.QueueAccumulates | action_executor.py:59-72 | entries from earlier calls stay queued, and outside dry-run each of them is deleted again |
| Executor.ShippedWiringScenario | action_executor.py:60-72 | one Instapaper action over a succeeding link post and a self-post: the link post is sent and deleted once; the self-post is stopped by the excluded reddit host and is never deleted |
| Executor.ApplyAll | action_executor.py:63-66 | the inner loop produces exactly the per-submission events and queue of the fold |
| Executor.DeleteAll | action_executor.py:71-72 | the delete loop issues exactly one deletion per queue entry, in order |
| Executor.Execute | action_executor.py:51-72 | the run leaves the executor with the scanned queue and changes nothing else of it, and keeps its queue free of duplicate ids; dry-run reports the queue's length, a live run reports nothing |
| Executor.RunExecute | action_executor.py:51-72 | the nested loops of execute compute exactly the fold: same final queue, same events, same dry-run count |

## Findings

| source | as written | input that shows it | evidently intended | confidence | as-written member | corrected member |
|---|---|---|---|---|---|---|
| action.py:81-88 | the age filters compare the float created_utc with a datetime, which Python 3 refuses with TypeError | an Action with max_age_days = 7 (or any min_age_days) and a submission that passes the subreddit filter | compare created_utc with the timestamp of now minus N days | high; not executed | Actions.ShouldExecuteAsWritten | Actions.ShouldExecute |

`Actions.MaxAgeRaisesAsWritten` exhibits the input. The corrected `Actions.ShouldExecute` is the filter the rest of the model uses. `Actions.MaxAgeFilter` and `Actions.MinAgeFilter` prove the intended boundaries for it. No action in the shipped wiring sets an age filter, and the Instapaper override never calls the filter chain. So the fault is latent in the shipped program.

## Left out

- Client plumbing is not modelled: PRAW client construction, `load_dotenv`, reading credentials from the environment, and `main.py`. This is I/O and configuration. The Instapaper credentials are parameters of `Instapaper.New`.
- `get_reddit_client`, `get_thread_from_url` and `remove_from_saved` are not modelled. They are thin wrappers over remote calls.
- `max_submissions` is stored but has no effect in the model. The `limit=` pagination belongs to the library, so the saved listing is given already bounded.
- The HTTP request, `urlparse` and `raise_for_status` are parameters, not code: `netloc` and `http`. Only the 4xx/5xx rule of `raise_for_status` is kept.
- Clock reads are not modelled. The source reads the clock at every age comparison; the model uses one `now` per evaluation and one per executor run. Timestamps are integer seconds, not floats.
- Printing and logging are not modelled.
- Exceptions other than the request errors `InstapaperAction.execute` catches are not modelled: faults inside a base action's effect, and a failing `delete()`.
- The effect, `netloc` and `http` oracles are pure functions, so the model cannot express a second identical call getting a different answer.
- Reddit.ThreadCutoff: subtracts 2 × 86400 elapsed seconds from `now`. The source subtracts two calendar days from a naive local datetime and converts with `.timestamp()`, so across a daylight-saving change the cutoff lies 47 or 49 hours before now.
- Actions.ShouldExecute: the corrected age filters subtract N × 86400 elapsed seconds; a fix that converts a local `datetime.now() - timedelta(days=N)` with `.timestamp()` would differ by an hour across a daylight-saving change.
- Text.Lower: maps only ASCII `A`-`Z`. Python's `str.lower` also folds letters of other scripts.
- Reddit.SelectThreads: takes submissions only. A non-submission in the listing would reach library attribute lookups (`is_self`) that are not part of this model.
- Encoding.Utf8Decode: the inverse used for the round trip does not reject every malformed byte sequence. It is not part of the source.
- The base `Action.execute` path for an `InstapaperAction` is not modelled. That path would filter and then call the override as the effect, but the executor never takes it.
