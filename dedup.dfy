/**
  The dedup decision of the validate stage (validate in pipeline.go) over an
  explicit cache: a map from path to the second at which its entry expires,
  read at an explicit current time `now`. An entry counts as present while
  `now` is before its expiry, as the cache's lookup reports it; storing a
  path again overwrites its expiry.
*/
module Dedup {

  /** A cache entry's time to live, in whole seconds. */
  type Seconds = n: int | 0 < n witness 1

  type Cache = map<string, int>

  /** What the validate stage does with a record. */
  datatype Verdict =
    | Defer   // empty body, not ignored: re-submitted, nothing passed on
    | Accept  // passed on to the parse stage, path stored in the cache
    | Reject  // dropped

  /** The facts about one record that the decision reads. */
  datatype Submission = Submission(path: string, emptyBody: bool, ignored: bool, now: int)

  predicate Live(cache: Cache, path: string, now: int)
  {
    path in cache && now < cache[path]
  }

  /**
    The decision for one submission and the cache after it; `eligible` is
    what the path filter says of the submission's path.
  */
  function Admit(cache: Cache, sub: Submission, eligible: bool, ttl: Seconds): (out: (Verdict, Cache))
    ensures out.0 == Defer <==> sub.emptyBody && !sub.ignored
    ensures out.0 == Accept <==> !(sub.emptyBody && !sub.ignored) && eligible && !Live(cache, sub.path, sub.now)
    ensures out.0 == Accept ==> out.1 == cache[sub.path := sub.now + ttl]
    ensures out.0 != Accept ==> out.1 == cache
  {
    if sub.emptyBody && !sub.ignored then (Defer, cache)
    else if eligible && !Live(cache, sub.path, sub.now) then (Accept, cache[sub.path := sub.now + ttl])
    else (Reject, cache)
  }

  /** A path accepted at `now` is rejected when submitted again before its entry expires. */
  lemma RejectedWithinWindow(cache: Cache, s1: Submission, s2: Submission, e1: bool, e2: bool, ttl: Seconds)
    requires Admit(cache, s1, e1, ttl).0 == Accept
    requires s2.path == s1.path && s1.now <= s2.now < s1.now + ttl
    requires !s2.emptyBody || s2.ignored
    ensures Admit(Admit(cache, s1, e1, ttl).1, s2, e2, ttl).0 == Reject
  {
  }

  /** Once the entry has expired, an eligible path is accepted again. */
  lemma AcceptedAfterExpiry(cache: Cache, s1: Submission, s2: Submission, e1: bool, ttl: Seconds)
    requires Admit(cache, s1, e1, ttl).0 == Accept
    requires s2.path == s1.path && s2.now >= s1.now + ttl
    requires !s2.emptyBody || s2.ignored
    ensures Admit(Admit(cache, s1, e1, ttl).1, s2, true, ttl).0 == Accept
  {
  }

  /** Accepting one path leaves what the cache says of every other path unchanged. */
  lemma OtherPathsUntouched(cache: Cache, sub: Submission, eligible: bool, ttl: Seconds, p: string, t: int)
    requires p != sub.path
    ensures Live(Admit(cache, sub, eligible, ttl).1, p, t) == Live(cache, p, t)
  {
  }

  /** The verdicts for a series of submissions handled one after another. */
  function Replay(cache: Cache, subs: seq<Submission>, eligible: string -> bool, ttl: Seconds): (vs: seq<Verdict>)
    ensures |vs| == |subs|
    decreases |subs|
  {
    if subs == [] then []
    else
      var out := Admit(cache, subs[0], eligible(subs[0].path), ttl);
      [out.0] + Replay(out.1, subs[1..], eligible, ttl)
  }

  /**
    While the cache holds an entry for `p` expiring at `t` or later, no
    submission of `p` is accepted before `t`, however the submissions are
    ordered in time.
  */
  lemma {:induction false} NoAcceptBeforeExpiry(
    cache: Cache, subs: seq<Submission>, eligible: string -> bool, ttl: Seconds, p: string, t: int, j: nat)
    requires p in cache && cache[p] >= t
    requires j < |subs| && subs[j].path == p
    requires Replay(cache, subs, eligible, ttl)[j] == Accept
    ensures subs[j].now >= t
    decreases j
  {
    var out := Admit(cache, subs[0], eligible(subs[0].path), ttl);
    if j > 0 {
      assert out.1[p] >= t;
      NoAcceptBeforeExpiry(out.1, subs[1..], eligible, ttl, p, t, j - 1);
    }
  }

  /** Two acceptances of the same path in a series are at least one time to live apart. */
  lemma {:induction false} AcceptedOncePerWindow(
    cache: Cache, subs: seq<Submission>, eligible: string -> bool, ttl: Seconds, i: nat, j: nat)
    requires i < j < |subs| && subs[i].path == subs[j].path
    requires Replay(cache, subs, eligible, ttl)[i] == Accept
    requires Replay(cache, subs, eligible, ttl)[j] == Accept
    ensures subs[j].now >= subs[i].now + ttl
    decreases i
  {
    var out := Admit(cache, subs[0], eligible(subs[0].path), ttl);
    if i == 0 {
      NoAcceptBeforeExpiry(out.1, subs[1..], eligible, ttl, subs[0].path, subs[0].now + ttl, j - 1);
    } else {
      AcceptedOncePerWindow(out.1, subs[1..], eligible, ttl, i - 1, j - 1);
    }
  }
}
