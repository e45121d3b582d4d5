/**
 * `ActionExecutor` of `action_executor.py`: every rule applied to every saved
 * submission in order, successful deleting rules queueing the submission in a
 * dict keyed by id, and the queue deleted (or only counted, in dry-run) after
 * the whole scan. What the outside world answers is a `World` parameter; what
 * the executor does to it is recorded as a list of events.
 */
module Executor {
  import opened Wrappers
  import opened Reddit
  import Actions
  import Instapaper

  /** An action in the executor's list: a base `Action` with its effect, or an `InstapaperAction`. */
  datatype Rule =
    | Base(config: Actions.Config, effect: Submission -> Actions.Signal)
    | Archive(action: Instapaper.InstapaperAction)

  function DeleteAfterExecution(rule: Rule): bool {
    match rule
    case Base(c, _) => c.deleteAfterExecution
    case Archive(a) => a.config.deleteAfterExecution
  }

  /** The clock, the URL parser and the HTTP exchange, as seen during one run. */
  datatype World = World(
    now: int,
    netloc: Option<string> -> string,
    http: Instapaper.Request -> Instapaper.HttpOutcome)

  /** What an action did outwardly during one call. */
  datatype Call = Quiet | EffectRan | Sent(request: Instapaper.Request)

  /** Returned by one `action.execute(submission)` call. */
  datatype Outcome = Outcome(executed: bool, call: Call)

  /** One observable step of a run. */
  datatype Event =
    | Applied(rule: nat, id: string, executed: bool, call: Call)
    | Deleted(submission: Submission)

  /**
   * `action.execute(submission)`, dispatched on the action's class: the base
   * method for a plain `Action`, the override for an `InstapaperAction`.
   */
  function Apply(rule: Rule, s: Submission, w: World): (o: Outcome)
    ensures rule.Base? ==> o.executed == Actions.Execute(rule.config, rule.effect, s, w.now).executed
    ensures rule.Base? ==> (o.call == EffectRan <==> Actions.ShouldExecute(rule.config, s, w.now) && !rule.config.dryRun)
    ensures rule.Archive? ==> o.executed == Instapaper.Execute(rule.action, s, w.netloc, w.http).saved
    ensures rule.Archive? ==> (o.call.Sent? <==> !Instapaper.Excluded(rule.action, w.netloc(s.url)))
  {
    match rule
    case Base(c, effect) =>
      var x := Actions.Execute(c, effect, s, w.now);
      Outcome(x.executed, if x.effectCalled then EffectRan else Quiet)
    case Archive(a) =>
      var x := Instapaper.Execute(a, s, w.netloc, w.http);
      Outcome(x.saved, if x.request.Some? then Sent(x.request.value) else Quiet)
  }

  /** The rule asks for this submission to be deleted: it reported success and deletes after execution. */
  predicate Marks(rule: Rule, s: Submission, w: World) {
    Apply(rule, s, w).executed && DeleteAfterExecution(rule)
  }

  // ------------------------------------------------------------------------
  // The deletion queue: a Python dict from submission id to submission,
  // kept in insertion order.

  function Ids(q: seq<Submission>): set<string> {
    set i | 0 <= i < |q| :: q[i].id
  }

  /** No id is a key twice. */
  predicate DistinctIds(q: seq<Submission>) {
    forall i, j :: 0 <= i < j < |q| ==> q[i].id != q[j].id
  }

  /** `q[s.id] = s`: a new key goes last, an existing key keeps its place and takes the new value. */
  function Put(q: seq<Submission>, s: Submission): (r: seq<Submission>)
    ensures Ids(r) == Ids(q) + {s.id}
    ensures |r| == if s.id in Ids(q) then |q| else |q| + 1
    ensures forall i :: 0 <= i < |q| ==> r[i].id == q[i].id
  {
    if q == [] then
      assert Ids([s]) == {s.id} by { assert [s][0] == s; }
      [s]
    else
      IdsCons(q[0], q[1..]);
      assert [q[0]] + q[1..] == q;
      if q[0].id == s.id then
        IdsCons(s, q[1..]);
        [s] + q[1..]
      else
        var rest := Put(q[1..], s);
        IdsCons(q[0], rest);
        [q[0]] + rest
  }

  /** Put keeps the keys distinct, stores `s` under its id and leaves every other entry as it was. */
  lemma {:induction false} PutKeepsDistinct(q: seq<Submission>, s: Submission)
    requires DistinctIds(q)
    ensures DistinctIds(Put(q, s))
    ensures forall i :: 0 <= i < |Put(q, s)| ==> Put(q, s)[i] == (if i < |q| && q[i].id != s.id then q[i] else s)
  {
    if q != [] && q[0].id != s.id {
      PutKeepsDistinct(q[1..], s);
      var r := Put(q, s);
      assert r == [q[0]] + Put(q[1..], s);
      forall i | 0 < i < |r| ensures r[i].id != q[0].id {
        if i < |q| && q[i].id != s.id {
          assert r[i] == q[1..][i - 1] == q[i];
        } else {
          assert r[i] == s;
        }
      }
    }
  }

  lemma IdsCons(x: Submission, t: seq<Submission>)
    ensures Ids([x] + t) == {x.id} + Ids(t)
  {
    var u := [x] + t;
    forall id | id in Ids(u) ensures id in {x.id} + Ids(t) {
      var i :| 0 <= i < |u| && u[i].id == id;
      if i > 0 { assert t[i - 1].id == id; }
    }
    forall id | id in Ids(t) ensures id in Ids(u) {
      var i :| 0 <= i < |t| && t[i].id == id;
      assert u[i + 1].id == id;
    }
    assert u[0].id == x.id;
  }

  /** Without duplicate keys the dict's length is its number of distinct ids. */
  lemma {:induction false} DistinctLength(q: seq<Submission>)
    requires DistinctIds(q)
    ensures |q| == |Ids(q)|
  {
    if q != [] {
      var last := |q| - 1;
      DistinctLength(q[..last]);
      assert Ids(q) == Ids(q[..last]) + {q[last].id};
      assert q[last].id !in Ids(q[..last]);
    }
  }

  // ------------------------------------------------------------------------
  // The executor and its scan, as a fold over the saved listing.

  datatype Executor = Executor(
    rules: seq<Rule>,
    maxSubmissions: Option<int>,
    dryRun: bool,
    toDelete: seq<Submission>)

  /** The executor's own invariant: its dict has no key twice. */
  predicate Valid(e: Executor) {
    DistinctIds(e.toDelete)
  }

  /** `ActionExecutor.__init__` (without the client): the queue starts empty. */
  function New(rules: seq<Rule>, maxSubmissions: Option<int>, dryRun: bool): (e: Executor)
    ensures e.toDelete == [] && Valid(e)
    ensures e.rules == rules && e.dryRun == dryRun
  {
    Executor(rules, maxSubmissions, dryRun, [])
  }

  /** The queue after applying the first `n` rules to submission `s`. */
  function StepRules(rules: seq<Rule>, s: Submission, w: World, q: seq<Submission>, n: nat): seq<Submission>
    requires n <= |rules|
  {
    if n == 0 then q
    else
      var q' := StepRules(rules, s, w, q, n - 1);
      if Marks(rules[n - 1], s, w) then Put(q', s) else q'
  }

  /** The events of one saved item: none for a non-submission, one per rule in list order for a submission. */
  function ItemEvents(rules: seq<Rule>, item: SavedItem, w: World): (r: seq<Event>)
    ensures item.Other? ==> r == []
    ensures item.Post? ==> |r| == |rules|
    ensures item.Post? ==> forall j :: 0 <= j < |rules| ==>
      r[j] == Applied(j, item.submission.id, Apply(rules[j], item.submission, w).executed, Apply(rules[j], item.submission, w).call)
  {
    match item
    case Other => []
    case Post(s) =>
      seq(|rules|, j requires 0 <= j < |rules| =>
        Applied(j, s.id, Apply(rules[j], s, w).executed, Apply(rules[j], s, w).call))
  }

  /** The queue after the first `n` rules reads nothing of the list past its first `k` rules. */
  lemma {:induction false} StepRulesReadsPrefix(rules: seq<Rule>, k: nat, s: Submission, w: World, q: seq<Submission>, n: nat)
    requires n <= k <= |rules|
    ensures StepRules(rules[..k], s, w, q, n) == StepRules(rules, s, w, q, n)
  {
    if n > 0 {
      StepRulesReadsPrefix(rules, k, s, w, q, n - 1);
      assert rules[..k][n - 1] == rules[n - 1];
    }
  }

  /**
   * A later action never changes what an earlier one did: with only the first
   * `k` actions, a submission gets exactly the first `k` events and the queue
   * those actions leave.
   */
  lemma EarlierActionsUnaffected(rules: seq<Rule>, k: nat, s: Submission, w: World, q: seq<Submission>)
    requires k <= |rules|
    ensures ItemEvents(rules[..k], Post(s), w) == ItemEvents(rules, Post(s), w)[..k]
    ensures ItemQueue(rules[..k], Post(s), w, q) == StepRules(rules, s, w, q, k)
  {
    StepRulesReadsPrefix(rules, k, s, w, q, k);
  }

  /** The queue after one saved item. */
  function ItemQueue(rules: seq<Rule>, item: SavedItem, w: World, q: seq<Submission>): seq<Submission> {
    match item
    case Other => q
    case Post(s) => StepRules(rules, s, w, q, |rules|)
  }

  /** The queue after scanning `items`, starting from `q`. */
  function ScanQueue(rules: seq<Rule>, items: seq<SavedItem>, w: World, q: seq<Submission>): seq<Submission> {
    if items == [] then q
    else ItemQueue(rules, items[|items| - 1], w, ScanQueue(rules, items[..|items| - 1], w, q))
  }

  /** The events of scanning `items`. */
  function ScanEvents(rules: seq<Rule>, items: seq<SavedItem>, w: World): (r: seq<Event>)
    ensures forall k :: 0 <= k < |r| ==> r[k].Applied?
  {
    if items == [] then []
    else ScanEvents(rules, items[..|items| - 1], w) + ItemEvents(rules, items[|items| - 1], w)
  }

  /** One `delete()` per queue entry, in the dict's order. */
  function DeleteEvents(q: seq<Submission>): (r: seq<Event>)
    ensures |r| == |q|
    ensures forall k :: 0 <= k < |q| ==> r[k] == Deleted(q[k])
  {
    seq(|q|, k requires 0 <= k < |q| => Deleted(q[k]))
  }

  /** What one `execute()` call leaves behind: the executor's new state, the events, and the dry-run count. */
  datatype Run = Run(executor: Executor, events: seq<Event>, reported: Option<nat>)

  /** `ActionExecutor.execute`: the scan, then either the dry-run count or the deletions. */
  function Execute(e: Executor, saved: seq<SavedItem>, w: World): (r: Run)
    ensures r.executor == e.(toDelete := ScanQueue(e.rules, saved, w, e.toDelete))
    ensures e.dryRun ==> r.reported == Some(|r.executor.toDelete|)
    ensures !e.dryRun ==> r.reported.None?
    ensures Valid(e) ==> Valid(r.executor)
  {
    var q := ScanQueue(e.rules, saved, w, e.toDelete);
    ScanQueueContents(e.rules, saved, w, e.toDelete);
    var scan := ScanEvents(e.rules, saved, w);
    if e.dryRun then Run(e.(toDelete := q), scan, Some(|q|))
    else Run(e.(toDelete := q), scan + DeleteEvents(q), None)
  }

  // ------------------------------------------------------------------------
  // Properties of the scan.

  /** Some rule marks `s` for deletion among the first `n`. */
  predicate MarkedBy(rules: seq<Rule>, s: Submission, w: World, n: nat)
    requires n <= |rules|
  {
    exists j :: 0 <= j < n && Marks(rules[j], s, w)
  }

  /** Applying the rules to one submission adds its id exactly when some rule marks it, and keeps everything else. */
  lemma {:induction false} StepRulesQueue(rules: seq<Rule>, s: Submission, w: World, q: seq<Submission>, n: nat)
    requires n <= |rules|
    ensures var r := StepRules(rules, s, w, q, n);
      && Ids(r) == Ids(q) + (if MarkedBy(rules, s, w, n) then {s.id} else {})
      && |q| <= |r|
      && (forall i :: 0 <= i < |q| ==> r[i].id == q[i].id)
      && (DistinctIds(q) ==> DistinctIds(r))
  {
    if n > 0 {
      StepRulesQueue(rules, s, w, q, n - 1);
      var q' := StepRules(rules, s, w, q, n - 1);
      if Marks(rules[n - 1], s, w) {
        if DistinctIds(q) {
          PutKeepsDistinct(q', s);
        }
      } else {
        if MarkedBy(rules, s, w, n) {
          var j :| 0 <= j < n && Marks(rules[j], s, w);
          assert MarkedBy(rules, s, w, n - 1) by { assert j < n - 1; }
        }
      }
    }
  }

  /** Some submission among `items` with this id is marked for deletion by some rule. */
  predicate QueuedFrom(rules: seq<Rule>, items: seq<SavedItem>, w: World, id: string) {
    exists i, j :: 0 <= i < |items| && 0 <= j < |rules|
      && items[i].Post? && items[i].submission.id == id && Marks(rules[j], items[i].submission, w)
  }

  /** Extending the listing by one item can only add that item's id to the ids some rule marks. */
  lemma QueuedFromLast(rules: seq<Rule>, items: seq<SavedItem>, w: World, id: string)
    requires items != []
    ensures var last := items[|items| - 1];
      QueuedFrom(rules, items, w, id) <==>
        || QueuedFrom(rules, items[..|items| - 1], w, id)
        || (last.Post? && id == last.submission.id && MarkedBy(rules, last.submission, w, |rules|))
  {
  }

  /**
   * After the scan the queue holds exactly the ids it held before plus those of
   * submissions some deleting rule succeeded on; earlier entries keep their
   * places, and no id is a key twice.
   */
  lemma {:induction false} ScanQueueContents(rules: seq<Rule>, items: seq<SavedItem>, w: World, q: seq<Submission>)
    ensures var r := ScanQueue(rules, items, w, q);
      && (forall id :: id in Ids(r) <==> id in Ids(q) || QueuedFrom(rules, items, w, id))
      && |q| <= |r|
      && (forall i :: 0 <= i < |q| ==> r[i].id == q[i].id)
      && (DistinctIds(q) ==> DistinctIds(r))
  {
    if items != [] {
      var n := |items| - 1;
      ScanQueueContents(rules, items[..n], w, q);
      var mid := ScanQueue(rules, items[..n], w, q);
      if items[n].Post? {
        StepRulesQueue(rules, items[n].submission, w, mid, |rules|);
      }
      forall id {
        QueuedFromLast(rules, items, w, id);
      }
    }
  }

  /** The saved listing with everything that is not a submission dropped. */
  function Posts(items: seq<SavedItem>): (r: seq<SavedItem>)
    ensures forall k :: 0 <= k < |r| ==> r[k].Post?
  {
    if items == [] then []
    else
      var last := items[|items| - 1];
      Posts(items[..|items| - 1]) + (if last.Post? then [last] else [])
  }

  /** Non-submissions are skipped: removing them changes neither the events nor the queue. */
  lemma {:induction false} SkipsNonSubmissions(e: Executor, saved: seq<SavedItem>, w: World)
    ensures Execute(e, saved, w) == Execute(e, Posts(saved), w)
  {
    ScanSkipsNonSubmissions(e.rules, saved, w, e.toDelete);
  }

  lemma {:induction false} ScanSkipsNonSubmissions(rules: seq<Rule>, items: seq<SavedItem>, w: World, q: seq<Submission>)
    ensures ScanQueue(rules, items, w, q) == ScanQueue(rules, Posts(items), w, q)
    ensures ScanEvents(rules, items, w) == ScanEvents(rules, Posts(items), w)
  {
    if items != [] {
      var last := |items| - 1;
      ScanSkipsNonSubmissions(rules, items[..last], w, q);
      var p := Posts(items[..last]);
      if items[last].Post? {
        assert Posts(items) == p + [items[last]];
        assert (p + [items[last]])[..|p|] == p;
      } else {
        assert Posts(items) == p;
      }
    }
  }

  /**
   * In dry-run no deletion happens and the reported count is the number of
   * distinct queued ids; the scan itself, archive requests included, is the
   * same as outside dry-run.
   */
  lemma DryRunDeletesNothing(e: Executor, saved: seq<SavedItem>, w: World)
    requires e.dryRun && Valid(e)
    ensures var r := Execute(e, saved, w);
      && (forall k :: 0 <= k < |r.events| ==> r.events[k].Applied?)
      && r.reported == Some(|Ids(r.executor.toDelete)|)
      && r.events <= Execute(e.(dryRun := false), saved, w).events
  {
    ScanQueueContents(e.rules, saved, w, e.toDelete);
    DistinctLength(ScanQueue(e.rules, saved, w, e.toDelete));
  }

  /**
   * Outside dry-run the deletions come after the whole scan, one per queued
   * entry in the dict's order, and no submission is deleted twice.
   */
  lemma DeletesEachQueuedOnce(e: Executor, saved: seq<SavedItem>, w: World)
    requires !e.dryRun && Valid(e)
    ensures var r := Execute(e, saved, w);
      var q, n := r.executor.toDelete, |r.events| - |r.executor.toDelete|;
      && 0 <= n
      && (forall k :: 0 <= k < n ==> r.events[k].Applied?)
      && (forall k :: 0 <= k < |q| ==> r.events[n + k] == Deleted(q[k]))
      && (forall k, l :: 0 <= k < l < |r.events| && r.events[k].Deleted? && r.events[l].Deleted?
            ==> r.events[k].submission.id != r.events[l].submission.id)
  {
    ScanQueueContents(e.rules, saved, w, e.toDelete);
    var r := Execute(e, saved, w);
    var q := r.executor.toDelete;
    var scan := ScanEvents(e.rules, saved, w);
    assert r.events == scan + DeleteEvents(q);
    forall k, l | 0 <= k < l < |r.events| && r.events[k].Deleted? && r.events[l].Deleted?
      ensures r.events[k].submission.id != r.events[l].submission.id
    {
      assert k >= |scan| && l >= |scan|;
      assert r.events[k] == Deleted(q[k - |scan|]);
      assert r.events[l] == Deleted(q[l - |scan|]);
    }
  }

  /**
   * The queue is never cleared: what earlier calls queued stays queued, and
   * outside dry-run each such entry is deleted again by this call.
   */
  lemma QueueAccumulates(e: Executor, saved: seq<SavedItem>, w: World)
    ensures var r := Execute(e, saved, w);
      && Ids(e.toDelete) <= Ids(r.executor.toDelete)
      && (!e.dryRun ==> forall i :: 0 <= i < |e.toDelete| ==>
            exists k :: 0 <= k < |r.events| && r.events[k].Deleted? && r.events[k].submission.id == e.toDelete[i].id)
  {
    ScanQueueContents(e.rules, saved, w, e.toDelete);
    var r := Execute(e, saved, w);
    var q := r.executor.toDelete;
    if !e.dryRun {
      var scan := ScanEvents(e.rules, saved, w);
      forall i | 0 <= i < |e.toDelete|
        ensures exists k :: 0 <= k < |r.events| && r.events[k].Deleted? && r.events[k].submission.id == e.toDelete[i].id
      {
        assert r.events[|scan| + i] == Deleted(q[i]);
      }
    }
  }

  /**
   * The shipped wiring on two saved posts: a link post on `www.example.com`
   * whose request succeeds, and a self-post, whose URL is its own Reddit
   * permalink. The link post is sent once and deleted once; the self-post
   * reaches the override unfiltered but is stopped by the host exclusion, and
   * is never deleted.
   */
  lemma ShippedWiringScenario(a: Instapaper.InstapaperAction, link: Submission, self: Submission, w: World)
    requires a.excludeDomains == Instapaper.ExcludeDomains && a.config.deleteAfterExecution
    requires !link.isSelf && self.isSelf && link.id != self.id
    requires w.netloc(link.url) == "www.example.com" && w.netloc(self.url) == "www.reddit.com"
    requires Instapaper.Succeeded(w.http(Instapaper.RequestFor(a, link)))
    ensures var r := Execute(New([Archive(a)], None, false), [Post(link), Post(self)], w);
      && r.events == [Applied(0, link.id, true, Sent(Instapaper.RequestFor(a, link))),
                      Applied(0, self.id, false, Quiet),
                      Deleted(link)]
      && r.executor.toDelete == [link]
  {
    var rules := [Archive(a)];
    var saved := [Post(link), Post(self)];
    assert !Instapaper.Excluded(a, "www.example.com");
    assert Instapaper.Excluded(a, "www.reddit.com") by { assert a.excludeDomains[4] == "www.reddit.com"; }
    assert Apply(rules[0], link, w) == Outcome(true, Sent(Instapaper.RequestFor(a, link)));
    assert Apply(rules[0], self, w) == Outcome(false, Quiet);
    assert saved[..1] == [Post(link)] && [Post(link)][..0] == [];
    assert Marks(rules[0], link, w) && !Marks(rules[0], self, w);
    assert Put([], link) == [link];
    assert StepRules(rules, link, w, [], 1) == [link];
    var q1 := ScanQueue(rules, saved[..1], w, []);
    assert q1 == ItemQueue(rules, Post(link), w, ScanQueue(rules, [], w, []));
    assert q1 == [link];
    assert StepRules(rules, self, w, [link], 1) == [link];
    assert ScanQueue(rules, saved, w, []) == ItemQueue(rules, Post(self), w, q1);
    assert ScanEvents(rules, saved[..1], w) == [Applied(0, link.id, true, Sent(Instapaper.RequestFor(a, link)))];
    assert ScanEvents(rules, saved, w) == ScanEvents(rules, saved[..1], w) + [Applied(0, self.id, false, Quiet)];
    assert DeleteEvents([link]) == [Deleted(link)];
  }

  // ------------------------------------------------------------------------
  // The loops of `execute`, step by step.

  /** The inner loop: every action applied to one submission, in list order. */
  method ApplyAll(rules: seq<Rule>, s: Submission, w: World, q0: seq<Submission>) returns (q: seq<Submission>, events: seq<Event>)
    ensures q == StepRules(rules, s, w, q0, |rules|)
    ensures events == ItemEvents(rules, Post(s), w)
  {
    ghost var item := ItemEvents(rules, Post(s), w);
    q, events := q0, [];
    var j := 0;
    while j < |rules|
      invariant 0 <= j <= |rules|
      invariant q == StepRules(rules, s, w, q0, j)
      invariant events == item[..j]
    {
      var o := Apply(rules[j], s, w);
      events := events + [Applied(j, s.id, o.executed, o.call)];
      if o.executed && DeleteAfterExecution(rules[j]) {
        q := Put(q, s);
      }
      assert item[..j + 1] == item[..j] + [item[j]];
      j := j + 1;
    }
    assert item[..j] == item;
  }

  /** The delete loop: one `delete()` per queued entry. */
  method DeleteAll(q: seq<Submission>) returns (events: seq<Event>)
    ensures events == DeleteEvents(q)
  {
    ghost var deletes := DeleteEvents(q);
    events := [];
    var k := 0;
    while k < |q|
      invariant 0 <= k <= |q|
      invariant events == deletes[..k]
    {
      events := events + [Deleted(q[k])];
      assert deletes[..k + 1] == deletes[..k] + [Deleted(q[k])];
      k := k + 1;
    }
    assert deletes[..k] == deletes;
  }

  /**
   * `ActionExecutor.execute` as the source writes it: an outer loop over the
   * saved items, the actions applied to each submission, then the dry-run
   * report or the delete loop. It computes exactly the fold `Execute`.
   */
  method RunExecute(e: Executor, saved: seq<SavedItem>, w: World) returns (r: Run)
    ensures r == Execute(e, saved, w)
  {
    var q := e.toDelete;
    var events: seq<Event> := [];
    var i := 0;
    while i < |saved|
      invariant 0 <= i <= |saved|
      invariant q == ScanQueue(e.rules, saved[..i], w, e.toDelete)
      invariant events == ScanEvents(e.rules, saved[..i], w)
    {
      assert saved[..i + 1][..i] == saved[..i];
      if saved[i].Post? {
        var q', more := ApplyAll(e.rules, saved[i].submission, w, q);
        q, events := q', events + more;
      }
      i := i + 1;
    }
    assert saved[..i] == saved;
    if e.dryRun {
      r := Run(e.(toDelete := q), events, Some(|q|));
    } else {
      var deletes := DeleteAll(q);
      r := Run(e.(toDelete := q), events + deletes, None);
    }
  }
}
