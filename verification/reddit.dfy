/**
 * Saved Reddit items and the saved-thread filter of `reddit.py`.
 * Timestamps are whole seconds since the epoch; the clock is a parameter.
 */
module Reddit {
  import opened Wrappers
  import Text

  const SecondsPerDay: int := 86400

  /** Threads must be older than this many days to be yielded. */
  const TimeOffsetInDays: int := 2

  /**
   * Subreddit names the saved-thread filter keeps. The literal in the source is
   * `{}`, an empty dict; membership in it is always false, as in this empty set.
   */
  const SelectSubreddits: set<string> := {}

  /** A submission as the code reads it: a post never changed by this program. */
  datatype Submission = Submission(
    id: string,
    subreddit: string,     // display name, in the site's own casing
    createdUtc: int,
    isSelf: bool,
    url: Option<string>,
    title: string)

  /** An entry of the saved listing: a submission, or anything else (a saved comment). */
  datatype SavedItem = Post(submission: Submission) | Other

  /** Start of the window of threads old enough to yield: `now` minus the offset. */
  function ThreadCutoff(now: int): int {
    now - TimeOffsetInDays * SecondsPerDay
  }

  /**
   * The condition under which one saved thread is yielded. The selected names
   * are compared with the lowercased display name, so a name set in which every
   * name holds an upper-case letter lets nothing through.
   */
  predicate Qualifies(s: Submission, selected: set<string>, cutoff: int)
    ensures (forall n :: n in selected ==> !Text.IsLower(n)) ==> !Qualifies(s, selected, cutoff)
  {
    Text.LowerIsLower(s.subreddit);
    Text.Lower(s.subreddit) in selected && s.isSelf && s.createdUtc < cutoff
  }

  /** The loop of `get_saved_threads_for_user` against a given name set and cutoff. */
  function SelectThreads(saved: seq<Submission>, selected: set<string>, cutoff: int): (r: seq<Submission>)
    ensures |r| <= |saved|
    ensures forall i :: 0 <= i < |r| ==> r[i] in saved && Qualifies(r[i], selected, cutoff)
    ensures forall i :: 0 <= i < |saved| && Qualifies(saved[i], selected, cutoff) ==> saved[i] in r
  {
    if saved == [] then []
    else
      var rest := SelectThreads(saved[1..], selected, cutoff);
      if Qualifies(saved[0], selected, cutoff) then [saved[0]] + rest else rest
  }

  /** `get_saved_threads_for_user()`: the saved threads yielded, with the cutoff computed once from `now`. */
  function SavedThreads(saved: seq<Submission>, now: int): (r: seq<Submission>)
    ensures forall i :: 0 <= i < |r| ==>
      r[i] in saved && Text.Lower(r[i].subreddit) in SelectSubreddits
      && r[i].isSelf && r[i].createdUtc < now - TimeOffsetInDays * SecondsPerDay
    // With the shipped empty name set nothing is ever yielded.
    ensures SelectSubreddits == {} ==> r == []
  {
    var r := SelectThreads(saved, SelectSubreddits, ThreadCutoff(now));
    assert r != [] ==> Text.Lower(r[0].subreddit) in SelectSubreddits;
    r
  }

  /** `a` is `b` with some elements removed and the rest in their original order. */
  predicate IsSubsequence<T(==)>(a: seq<T>, b: seq<T>)
    decreases |b|
  {
    || a == []
    || (&& b != []
        && ((a[0] == b[0] && IsSubsequence(a[1..], b[1..])) || IsSubsequence(a, b[1..])))
  }

  /** The yielded threads keep the relative order of the saved listing. */
  lemma {:induction false} SelectThreadsIsSubsequence(saved: seq<Submission>, selected: set<string>, cutoff: int)
    ensures IsSubsequence(SelectThreads(saved, selected, cutoff), saved)
  {
    if saved != [] {
      SelectThreadsIsSubsequence(saved[1..], selected, cutoff);
      var r := SelectThreads(saved, selected, cutoff);
      if Qualifies(saved[0], selected, cutoff) {
        assert r[1..] == SelectThreads(saved[1..], selected, cutoff);
      }
    }
  }

  /** Filtering a concatenated listing is filtering each part: the loop treats items independently and in order. */
  lemma {:induction false} SelectThreadsAppend(a: seq<Submission>, b: seq<Submission>, selected: set<string>, cutoff: int)
    ensures SelectThreads(a + b, selected, cutoff)
         == SelectThreads(a, selected, cutoff) + SelectThreads(b, selected, cutoff)
  {
    if a == [] {
      assert a + b == b;
    } else {
      assert (a + b)[1..] == a[1..] + b;
      SelectThreadsAppend(a[1..], b, selected, cutoff);
    }
  }

  /** A single thread is yielded exactly when it qualifies; in particular a qualifying self-post at or after the cutoff is skipped. */
  lemma SelectOne(s: Submission, selected: set<string>, cutoff: int)
    ensures SelectThreads([s], selected, cutoff) == (if Qualifies(s, selected, cutoff) then [s] else [])
    ensures Text.Lower(s.subreddit) in selected && s.isSelf && s.createdUtc >= cutoff
        ==> SelectThreads([s], selected, cutoff) == []
  {
  }
}
