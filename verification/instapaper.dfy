/**
 * `InstapaperAction` of `instapaper_action.py`: a rule configured for link posts
 * whose own `execute` replaces the base one, so the executor reaches it directly.
 * URL parsing and the HTTP exchange are parameters: `netloc` gives the network
 * location `urlparse(url).netloc` of a URL (user, port and letter case kept),
 * `http` the outcome of a request.
 */
module Instapaper {
  import opened Wrappers
  import opened Reddit
  import Actions
  import Encoding
  import Text

  const Endpoint: string := "https://www.instapaper.com/api/add"

  /** Hosts never sent to Instapaper: image hosts, Reddit itself, YouTube. Matched by exact equality. */
  const ExcludeDomains: seq<string> := [
    "i.redd.it",
    "imgur.com",
    "reddit.com",
    "v.redd.it",
    "www.reddit.com",
    "www.youtube.com",
    "youtu.be",
    "youtube.com"
  ]

  datatype InstapaperAction = InstapaperAction(
    config: Actions.Config,
    basicAuth: string,          // "user:pass"
    basicAuthEncoded: string,   // its base64 form
    excludeDomains: seq<string>)

  /** `InstapaperAction.__init__`, with the two credentials read from the environment passed in. */
  function New(subreddits: Option<seq<string>>, dryRun: bool, user: string, pass: string): (a: InstapaperAction)
    ensures a.config.name == "instapaper"
    ensures a.config.isSelfPost == Some(false) && a.config.hasUrl == Some(true)
    ensures a.config.maxAgeDays.None? && a.config.minAgeDays.None?
    ensures a.config.deleteAfterExecution && a.config.dryRun == dryRun
    ensures a.config.subreddits.Some? <==> subreddits.Some?
    ensures subreddits.Some? ==> forall n :: n in a.config.subreddits.value <==> n in subreddits.value
    ensures Encoding.Base64Decode(a.basicAuthEncoded) == Some(Encoding.Utf8Encode(user + ":" + pass))
    ensures a.excludeDomains == ExcludeDomains
  {
    var basicAuth := user + ":" + pass;
    Encoding.Base64RoundTrip(Encoding.Utf8Encode(basicAuth));
    InstapaperAction(
      Actions.NewConfig("instapaper", subreddits, None, None, Some(false), Some(true), dryRun, true),
      basicAuth,
      Encoding.Base64Encode(Encoding.Utf8Encode(basicAuth)),
      ExcludeDomains)
  }

  /** The `Authorization` header value sent with every request. */
  function Authorization(a: InstapaperAction): string {
    "Basic " + a.basicAuthEncoded
  }

  /** The header decodes back to the credentials it was built from. */
  lemma AuthorizationCarriesCredentials(subreddits: Option<seq<string>>, dryRun: bool, user: string, pass: string)
    ensures var h := Authorization(New(subreddits, dryRun, user, pass));
      && h[..6] == "Basic "
      && Encoding.Base64Decode(h[6..]).Some?
      && Encoding.Utf8Decode(Encoding.Base64Decode(h[6..]).value) == Some(user + ":" + pass)
  {
    var a := New(subreddits, dryRun, user, pass);
    assert Authorization(a)[6..] == a.basicAuthEncoded;
    Encoding.Utf8RoundTrip(user + ":" + pass);
  }

  /** The `selection` parameter: `From r/<subreddit>: "<title>"`. */
  function Selection(subreddit: string, title: string): string {
    "From r/" + subreddit + ": \"" + title + "\""
  }

  /** The annotation names the subreddit and quotes the title, which can be read back from it. */
  lemma SelectionShape(subreddit: string, title: string)
    ensures var sel, head := Selection(subreddit, title), "From r/" + subreddit + ": \"";
      && |sel| == |head| + |title| + 1
      && sel[..|head|] == head
      && sel[|head|..|sel| - 1] == title
      && sel[|sel| - 1] == '"'
  {
  }

  /** One GET request to the add endpoint. */
  datatype Request = Request(endpoint: string, authorization: string, url: Option<string>, selection: string)

  /** What the request came to: a transport failure, or a response with a status code. */
  datatype HttpOutcome = TransportError | Status(code: int)

  /** Neither `requests` nor `raise_for_status` (which rejects 4xx and 5xx) raised. */
  predicate Succeeded(o: HttpOutcome)
    ensures o.TransportError? ==> !Succeeded(o)
    ensures o.Status? && o.code < 400 ==> Succeeded(o)        // informational, success, redirect
    ensures o.Status? && 400 <= o.code < 500 ==> !Succeeded(o) // client error
    ensures o.Status? && 500 <= o.code < 600 ==> !Succeeded(o) // server error
    ensures o.Status? && 600 <= o.code ==> Succeeded(o)
  {
    o.Status? && !(400 <= o.code < 600)
  }

  /** `domain in self.exclude_domains`. */
  predicate Excluded(a: InstapaperAction, host: string) {
    host in a.excludeDomains
  }

  /** What one call of `execute` did: its return value and the request it issued, if any. */
  datatype Attempt = Attempt(saved: bool, request: Option<Request>)

  /** The request `execute` issues for a submission. */
  function RequestFor(a: InstapaperAction, s: Submission): Request {
    Request(Endpoint, Authorization(a), s.url, Selection(s.subreddit, s.title))
  }

  /**
   * `InstapaperAction.execute`: an excluded host returns `False` before any request;
   * otherwise exactly one request, and `True` only if it succeeded.
   */
  function Execute(a: InstapaperAction, s: Submission, netloc: Option<string> -> string, http: Request -> HttpOutcome): (r: Attempt)
    ensures Excluded(a, netloc(s.url)) ==> r == Attempt(false, None)
    ensures !Excluded(a, netloc(s.url)) ==>
      && r.request.Some?
      && r.request.value.endpoint == Endpoint
      && r.request.value.url == s.url
      && r.request.value.selection == "From r/" + s.subreddit + ": \"" + s.title + "\""
      && r.request.value.authorization == "Basic " + a.basicAuthEncoded
    ensures r.saved <==> r.request.Some? && Succeeded(http(r.request.value))
  {
    var host := netloc(s.url);
    if host in a.excludeDomains then Attempt(false, None)
    else
      var request := RequestFor(a, s);
      Attempt(Succeeded(http(request)), Some(request))
  }

  /** Exclusion is exact: a host is excluded only if it is literally one of the eight. */
  lemma ExclusionIsExact(a: InstapaperAction, host: string)
    requires a.excludeDomains == ExcludeDomains
    ensures Excluded(a, host) <==>
        host == "i.redd.it" || host == "imgur.com" || host == "reddit.com" || host == "v.redd.it"
        || host == "www.reddit.com" || host == "www.youtube.com" || host == "youtu.be" || host == "youtube.com"
  {
  }

  /** No `m.` subdomain of anything is excluded, e.g. `m.youtube.com` is sent although `youtube.com` is not. */
  lemma MobileSubdomainsNotExcluded(a: InstapaperAction, host: string)
    requires a.excludeDomains == ExcludeDomains
    ensures !Excluded(a, "m." + host)
    ensures Excluded(a, "youtube.com")
  {
    forall i | 0 <= i < |a.excludeDomains|
      ensures a.excludeDomains[i] != "m." + host
    {
      assert ("m." + host)[0] == 'm';
    }
  }

  /**
   * The override consults none of the configuration: neither the subreddit,
   * post-type and URL filters nor the rule's own dry-run flag change what it does.
   */
  lemma ExecuteIgnoresConfig(a: InstapaperAction, c: Actions.Config, s: Submission, netloc: Option<string> -> string, http: Request -> HttpOutcome)
    ensures Execute(a, s, netloc, http) == Execute(a.(config := c), s, netloc, http)
  {
  }

  /**
   * Even a dry-run Instapaper rule sends the request for a link post from a
   * subreddit outside its own list, which its filters would reject.
   */
  lemma DryRunFilteredPostStillSent(names: seq<string>, user: string, pass: string, s: Submission, now: int,
                                    netloc: Option<string> -> string, http: Request -> HttpOutcome)
    requires Text.Lower(s.subreddit) !in names
    requires !Excluded(New(Some(names), true, user, pass), netloc(s.url))
    ensures !Actions.ShouldExecute(New(Some(names), true, user, pass).config, s, now)
    ensures Execute(New(Some(names), true, user, pass), s, netloc, http).request.Some?
  {
  }

  /**
   * A self-post's URL is its own permalink on `www.reddit.com`, an excluded
   * host: such a post is never sent, dry-run or not.
   */
  lemma PermalinkNeverSent(subreddits: Option<seq<string>>, dryRun: bool, user: string, pass: string, s: Submission,
                           netloc: Option<string> -> string, http: Request -> HttpOutcome)
    requires netloc(s.url) == "www.reddit.com"
    ensures Execute(New(subreddits, dryRun, user, pass), s, netloc, http) == Attempt(false, None)
  {
  }

  /** Were the base filters consulted, the configuration would keep exactly the link posts with a URL (in the chosen subreddits). */
  lemma ConfigKeepsLinkPostsWithUrl(subreddits: Option<seq<string>>, dryRun: bool, user: string, pass: string, s: Submission, now: int)
    ensures var c := New(subreddits, dryRun, user, pass).config;
      Actions.ShouldExecute(c, s, now) <==>
        Actions.SubredditPasses(c, s) && !s.isSelf && s.url.Some? && s.url.value != ""
  {
  }
}
