/** The lab 2 server's sliding-window rate limiter.  Each client address
    owns a queue of the instants at which it was admitted.  A new request
    first drops, from the front of its queue, every instant older than
    `now - window`; it is admitted only when fewer than `limit` instants
    remain, and then its own instant is appended.  Instants are integers
    supplied by the caller in place of the monotonic clock. */
module RateLimiter {

  type Windows = map<string, seq<int>>

  /** The queue of `ip`, empty for an address never seen. */
  function WindowOf(windows: Windows, ip: string): seq<int> {
    if ip in windows then windows[ip] else []
  }

  predicate Ascending(q: seq<int>) {
    forall i, j :: 0 <= i < j < |q| ==> q[i] <= q[j]
  }

  /** How many instants the `popleft` loop removes: it stops at the first
      instant that is not older than `cutoff`. */
  function Dropped(q: seq<int>, cutoff: int): (d: nat)
    ensures d <= |q|
    ensures forall i :: 0 <= i < d ==> q[i] < cutoff
    ensures d < |q| ==> q[d] >= cutoff
    decreases |q|
  {
    if |q| > 0 && q[0] < cutoff then 1 + Dropped(q[1..], cutoff) else 0
  }

  /** The queue after the purge. */
  function Purge(q: seq<int>, cutoff: int): (r: seq<int>)
    ensures |r| <= |q|
  {
    q[Dropped(q, cutoff)..]
  }

  /** `[t for t in q if t >= cutoff]`: what the purge is meant to keep. */
  function Recent(q: seq<int>, cutoff: int): (r: seq<int>)
    decreases |q|
  {
    if |q| == 0 then []
    else if q[0] >= cutoff then [q[0]] + Recent(q[1..], cutoff)
    else Recent(q[1..], cutoff)
  }

  /** One call of the limiter for `ip` at instant `now`: the new queues and
      whether the request may proceed. */
  function Allow(windows: Windows, ip: string, now: int, window: int, limit: int): (r: (Windows, bool))
    ensures r.0.Keys == windows.Keys + {ip}
    ensures forall other :: other in windows && other != ip ==> r.0[other] == windows[other]
    ensures r.1 <==> |Purge(WindowOf(windows, ip), now - window)| < limit
    ensures r.1 ==> r.0[ip] == Purge(WindowOf(windows, ip), now - window) + [now]
    ensures !r.1 ==> r.0[ip] == Purge(WindowOf(windows, ip), now - window)
  {
    var q := Purge(WindowOf(windows, ip), now - window);
    if |q| >= limit then (windows[ip := q], false)
    else (windows[ip := q + [now]], true)
  }

  // ---------------------------------------------------------------------
  // The purge
  // ---------------------------------------------------------------------

  /** On an ascending queue the purge keeps exactly the recent instants. */
  lemma {:induction false} PurgeIsRecent(q: seq<int>, cutoff: int)
    requires Ascending(q)
    ensures Purge(q, cutoff) == Recent(q, cutoff)
    decreases |q|
  {
    if |q| > 0 {
      if q[0] < cutoff {
        PurgeIsRecent(q[1..], cutoff);
      } else {
        RecentAll(q, cutoff);
      }
    }
  }

  lemma {:induction false} RecentAll(q: seq<int>, cutoff: int)
    requires forall i :: 0 <= i < |q| ==> q[i] >= cutoff
    ensures Recent(q, cutoff) == q
    decreases |q|
  {
    if |q| > 0 {
      RecentAll(q[1..], cutoff);
    }
  }

  /** An instant survives the purge of an ascending queue exactly when it
      is in the queue and not older than the cutoff; instants exactly at the
      cutoff stay. */
  lemma {:induction false} RecentMembers(q: seq<int>, cutoff: int, t: int)
    ensures t in Recent(q, cutoff) <==> t in q && t >= cutoff
    decreases |q|
  {
    if |q| > 0 {
      RecentMembers(q[1..], cutoff, t);
      assert q == [q[0]] + q[1..];
    }
  }

  // ---------------------------------------------------------------------
  // The invariant the limiter keeps
  // ---------------------------------------------------------------------

  /** A queue that ascends, holds no instant after `now`, and holds at most
      `limit` instants. */
  predicate ValidQueue(q: seq<int>, now: int, limit: int) {
    && Ascending(q)
    && (forall i :: 0 <= i < |q| ==> q[i] <= now)
    && |q| <= (if limit < 0 then 0 else limit)
  }

  predicate Valid(windows: Windows, now: int, limit: int) {
    forall ip :: ip in windows ==> ValidQueue(windows[ip], now, limit)
  }

  lemma SuffixAscending(q: seq<int>, k: nat)
    requires Ascending(q) && k <= |q|
    ensures Ascending(q[k..])
  {
    var p := q[k..];
    forall i, j | 0 <= i < j < |p| ensures p[i] <= p[j] {
      assert p[i] == q[k + i] && p[j] == q[k + j];
    }
  }

  lemma SuffixBounded(q: seq<int>, k: nat, bound: int)
    requires k <= |q|
    requires forall i :: 0 <= i < |q| ==> q[i] <= bound
    ensures forall i :: 0 <= i < |q[k..]| ==> q[k..][i] <= bound
  {
    forall i | 0 <= i < |q[k..]| ensures q[k..][i] <= bound {
      assert q[k..][i] == q[k + i];
    }
  }

  lemma AboveFirst(p: seq<int>, cutoff: int)
    requires Ascending(p)
    requires |p| > 0 ==> p[0] >= cutoff
    ensures forall i :: 0 <= i < |p| ==> cutoff <= p[i]
  {
    forall i | 0 <= i < |p| ensures cutoff <= p[i] {
      assert p[0] <= p[i];
    }
  }

  /** What survives the purge of an ascending queue is ascending and no
      older than the cutoff. */
  lemma PurgeAscending(q: seq<int>, cutoff: int)
    requires Ascending(q)
    ensures Ascending(Purge(q, cutoff))
    ensures forall i :: 0 <= i < |Purge(q, cutoff)| ==> cutoff <= Purge(q, cutoff)[i]
  {
    var p := Purge(q, cutoff);
    SuffixAscending(q, |q| - |p|);
    AboveFirst(p, cutoff);
  }

  lemma AppendAscending(p: seq<int>, now: int)
    requires Ascending(p)
    requires forall i :: 0 <= i < |p| ==> p[i] <= now
    ensures Ascending(p + [now])
  {
    var n := p + [now];
    forall i, j | 0 <= i < j < |n| ensures n[i] <= n[j] {
      if j < |p| {
        assert n[i] == p[i] && n[j] == p[j];
      } else {
        assert n[i] == p[i];
      }
    }
  }

  /** The caller's own queue after one call. */
  lemma AllowQueueValid(q: seq<int>, before: int, now: int, window: int, limit: int)
    requires ValidQueue(q, before, limit)
    requires before <= now
    ensures ValidQueue(Purge(q, now - window), now, limit)
    ensures |Purge(q, now - window)| < limit ==> ValidQueue(Purge(q, now - window) + [now], now, limit)
  {
    var p := Purge(q, now - window);
    PurgeAscending(q, now - window);
    SuffixBounded(q, |q| - |p|, now);
    AppendAscending(p, now);
  }

  lemma MembersBetween(s: seq<int>, lo: int, hi: int)
    requires forall i :: 0 <= i < |s| ==> lo <= s[i] <= hi
    ensures forall t :: t in s ==> lo <= t <= hi
  {
    forall t | t in s ensures lo <= t <= hi {
      var i :| 0 <= i < |s| && s[i] == t;
    }
  }

  /** With a clock that never runs backwards, every call keeps the
      invariant, and afterwards the caller's queue holds only instants no
      older than `now - window`. */
  lemma AllowPreservesValid(windows: Windows, ip: string, before: int, now: int, window: int, limit: int)
    requires Valid(windows, before, limit)
    requires before <= now && window >= 0
    ensures Valid(Allow(windows, ip, now, window, limit).0, now, limit)
    ensures forall t :: t in Allow(windows, ip, now, window, limit).0[ip] ==> now - window <= t <= now
  {
    var q := WindowOf(windows, ip);
    assert ValidQueue(q, before, limit);
    AllowQueueValid(q, before, now, window, limit);
    var r := Allow(windows, ip, now, window, limit);
    assert ValidQueue(r.0[ip], now, limit);
    forall other | other in r.0
      ensures ValidQueue(r.0[other], now, limit)
    {
      if other != ip {
        assert ValidQueue(windows[other], before, limit);
      }
    }
    var p := Purge(q, now - window);
    PurgeAscending(q, now - window);
    assert ValidQueue(p, now, limit);
    var n := r.0[ip];
    assert forall i :: 0 <= i < |n| ==> now - window <= n[i] <= now by {
      forall i | 0 <= i < |n| ensures now - window <= n[i] <= now {
        if i < |p| {
          assert n[i] == p[i];
        }
      }
    }
    MembersBetween(n, now - window, now);
  }

  // ---------------------------------------------------------------------
  // Sequences of calls
  // ---------------------------------------------------------------------

  /** The queues after calls for `ip` at the given instants, in order. */
  function After(windows: Windows, ip: string, times: seq<int>, window: int, limit: int): Windows
    decreases |times|
  {
    if |times| == 0 then windows
    else Allow(After(windows, ip, times[..|times| - 1], window, limit), ip, times[|times| - 1], window, limit).0
  }

  /** The verdict of each of those calls. */
  function Verdicts(windows: Windows, ip: string, times: seq<int>, window: int, limit: int): (r: seq<bool>)
    ensures |r| == |times|
    decreases |times|
  {
    if |times| == 0 then []
    else
      var n := |times| - 1;
      Verdicts(windows, ip, times[..n], window, limit)
        + [Allow(After(windows, ip, times[..n], window, limit), ip, times[n], window, limit).1]
  }

  function Min(a: int, b: int): int {
    if a < b then a else b
  }

  /** A purge whose cutoff precedes every instant keeps the queue whole. */
  lemma PurgeNothing(q: seq<int>, cutoff: int)
    requires forall i :: 0 <= i < |q| ==> cutoff <= q[i]
    ensures Purge(q, cutoff) == q
  {
  }

  /** Instants that ascend and all lie within `window` of the first. */
  predicate OneWindow(times: seq<int>, window: int) {
    && Ascending(times)
    && forall i :: 0 <= i < |times| ==> times[i] - window <= times[0]
  }

  lemma OneWindowPrefix(times: seq<int>, n: nat, window: int)
    requires OneWindow(times, window) && 0 < n <= |times|
    ensures OneWindow(times[..n], window)
  {
    var p := times[..n];
    forall i, j | 0 <= i < j < |p| ensures p[i] <= p[j] {
      assert p[i] == times[i] && p[j] == times[j];
    }
    forall i | 0 <= i < |p| ensures p[i] - window <= p[0] {
      assert p[i] == times[i];
    }
  }

  /** Within one window, no queued earlier instant of a burst is older
      than the window measured from a later instant. */
  lemma BurstCovers(times: seq<int>, n: nat, k: nat, window: int)
    requires k <= n < |times| && OneWindow(times, window)
    ensures forall i :: 0 <= i < k ==> times[n] - window <= times[..k][i]
  {
    forall i | 0 <= i < k ensures times[n] - window <= times[..k][i] {
      assert times[..k][i] == times[i];
      assert times[0] <= times[i];
    }
  }

  lemma PrefixExtend(s: seq<int>, n: nat)
    requires n < |s|
    ensures s[..n] + [s[n]] == s[..n + 1]
  {
  }

  /** The call at the `n`th instant of a burst, after the first `n` calls
      left the earliest `min(n, limit)` instants queued. */
  lemma BurstStep(w: Windows, ip: string, times: seq<int>, n: nat, window: int, limit: int)
    requires n < |times| && OneWindow(times, window) && limit >= 0
    requires WindowOf(w, ip) == times[..Min(n, limit)]
    ensures Allow(w, ip, times[n], window, limit).1 <==> n < limit
    ensures WindowOf(Allow(w, ip, times[n], window, limit).0, ip) == times[..Min(n + 1, limit)]
  {
    var q := WindowOf(w, ip);
    var t := times[n];
    BurstCovers(times, n, Min(n, limit), window);
    PurgeNothing(q, t - window);
    var r := Allow(w, ip, t, window, limit);
    assert WindowOf(r.0, ip) == r.0[ip];
    if n < limit {
      assert r.0[ip] == q + [t];
      PrefixExtend(times, n);
    } else {
      assert r.0[ip] == q;
    }
  }

  /** Exactly the first `limit` verdicts admit. */
  predicate FirstAdmitted(verdicts: seq<bool>, limit: int) {
    forall i :: 0 <= i < |verdicts| ==> (verdicts[i] <==> i < limit)
  }

  lemma FirstOnly(earlier: seq<bool>, last: bool, limit: int)
    requires FirstAdmitted(earlier, limit)
    requires last <==> |earlier| < limit
    ensures FirstAdmitted(earlier + [last], limit)
  {
    var v := earlier + [last];
    forall i | 0 <= i < |v| ensures v[i] <==> i < limit {
      if i < |earlier| {
        assert v[i] == earlier[i];
      }
    }
  }

  /** A burst inside one window: when an address with an empty queue sends
      requests whose instants ascend and all lie within `window` of the
      first, exactly the first `limit` are admitted and every later one is
      rejected, and its queue ends holding the admitted instants. */
  lemma {:induction false} Burst(windows: Windows, ip: string, times: seq<int>, window: int, limit: int)
    requires WindowOf(windows, ip) == []
    requires OneWindow(times, window)
    requires limit >= 0
    ensures WindowOf(After(windows, ip, times, window, limit), ip) == times[..Min(|times|, limit)]
    ensures FirstAdmitted(Verdicts(windows, ip, times, window, limit), limit)
    decreases |times|
  {
    if |times| > 0 {
      var n := |times| - 1;
      var init := times[..n];
      if n > 0 {
        OneWindowPrefix(times, n, window);
      }
      Burst(windows, ip, init, window, limit);
      PrefixOfPrefix(times, n, Min(n, limit));
      BurstStep(After(windows, ip, init, window, limit), ip, times, n, window, limit);
      LastCall(windows, ip, times, window, limit);
      FirstOnly(Verdicts(windows, ip, init, window, limit),
                Allow(After(windows, ip, init, window, limit), ip, times[n], window, limit).1, limit);
    }
  }

  lemma PrefixOfPrefix(s: seq<int>, n: nat, k: nat)
    requires k <= n <= |s|
    ensures s[..n][..k] == s[..k]
  {
  }

  /** The last of a sequence of calls, taken on its own. */
  lemma LastCall(windows: Windows, ip: string, times: seq<int>, window: int, limit: int)
    requires |times| > 0
    ensures var n := |times| - 1;
            var step := Allow(After(windows, ip, times[..n], window, limit), ip, times[n], window, limit);
            && After(windows, ip, times, window, limit) == step.0
            && Verdicts(windows, ip, times, window, limit) == Verdicts(windows, ip, times[..n], window, limit) + [step.1]
  {
  }

  /** Once every recorded instant of an address is older than the window,
      its next request is admitted (for any positive limit) and starts a
      fresh queue. */
  lemma Recovery(windows: Windows, ip: string, now: int, window: int, limit: int)
    requires forall i :: 0 <= i < |WindowOf(windows, ip)| ==> WindowOf(windows, ip)[i] < now - window
    requires limit > 0
    ensures Allow(windows, ip, now, window, limit).1
    ensures Allow(windows, ip, now, window, limit).0[ip] == [now]
  {
    var q := WindowOf(windows, ip);
    assert Dropped(q, now - window) == |q|;
  }
}
