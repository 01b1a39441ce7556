/**
 * The sliding-log rate-limit reporter of the library API.
 *
 * For each client key the cache holds the timestamps of that client's recent
 * requests, newest first. Every envelope-building branch of the book views
 * calls the reporter once: it drops the stale entries from the tail of the
 * log, pushes the current time on the head, writes the log back and reports
 * the configured limit, the advisory remaining quota and the reset time.
 * Timestamps are whole seconds.
 */
module RateLimit {
  import opened Wrappers

  /** A duration in seconds; the framework's rate parser only yields 1, 60, 3600 or 86400. */
  type Seconds = d: int | d > 0 witness 1

  /** A configured throttle rate: `limit` requests per `duration` seconds. */
  datatype Rate = Rate(limit: nat, duration: Seconds)

  /** The rate the deployed settings configure for anonymous clients: 100 per hour. */
  const ConfiguredRate: Rate := Rate(100, 3600)

  /** The three advisory values returned to clients. */
  datatype RateLimitInfo = RateLimitInfo(limit: nat, remaining: nat, reset: int)

  type Key = string

  /** The cache contents: client key to request log. */
  type Entries = map<Key, seq<int>>

  /** A request log ordered newest first. */
  ghost predicate NewestFirst(h: seq<int>)
  {
    forall i, j :: 0 <= i < j < |h| ==> h[i] >= h[j]
  }

  /** The log stored under `key`; a missing key reads as the empty log. */
  function Lookup(entries: Entries, key: Key): (h: seq<int>)
    ensures key !in entries ==> h == []
    ensures key in entries ==> h == entries[key]
  {
    if key in entries then entries[key] else []
  }

  /**
   * Pops entries off the tail of the log while the last one is at or before
   * `cutoff`. The result is the prefix of `h` that ends at the last entry
   * later than `cutoff`, counted from the tail.
   */
  function Prune(h: seq<int>, cutoff: int): (r: seq<int>)
    ensures r <= h
    ensures r == [] || r[|r| - 1] > cutoff
    ensures forall i :: |r| <= i < |h| ==> h[i] <= cutoff
    decreases |h|
  {
    if h != [] && h[|h| - 1] <= cutoff then Prune(h[..|h| - 1], cutoff) else h
  }

  /** Reference definition of the window: the entries of `h` later than `cutoff`, in order. */
  function Recent(h: seq<int>, cutoff: int): (r: seq<int>)
    ensures forall t :: t in r <==> t in h && t > cutoff
    ensures |r| <= |h|
  {
    if h == [] then []
    else (if h[0] > cutoff then [h[0]] else []) + Recent(h[1..], cutoff)
  }

  /** The log written back by one call at `now`: the pruned log with `now` pushed on the head. */
  function Record(h: seq<int>, now: int, duration: Seconds): (r: seq<int>)
    ensures |r| >= 1 && r[0] == now
    ensures r[1..] <= h
    ensures forall i :: |r| - 1 <= i < |h| ==> h[i] <= now - duration
    ensures |r| == 1 || r[|r| - 1] > now - duration
  {
    [now] + Prune(h, now - duration)
  }

  /** The reported values for a log `history` just written at `now`. */
  function Report(rate: Rate, history: seq<int>, now: int): (info: RateLimitInfo)
    ensures info.limit == rate.limit
    ensures info.reset == now + rate.duration
    ensures |history| >= rate.limit ==> info.remaining == 0
    ensures |history| < rate.limit ==> info.remaining + |history| == rate.limit
  {
    RateLimitInfo(rate.limit, if rate.limit > |history| then rate.limit - |history| else 0,
                  now + rate.duration)
  }

  /**
   * What one call of the reporter does to the cache and what it returns:
   * no configured rate leaves the cache as it is and reports nothing;
   * otherwise only the entry under `key` is rewritten.
   */
  function Fetch(entries: Entries, rate: Option<Rate>, key: Key, now: int): (r: (Entries, Option<RateLimitInfo>))
    ensures rate.None? ==> r.0 == entries && r.1 == None
    ensures rate.Some? ==> r.1.Some? && key in r.0
    ensures rate.Some? ==> r.0.Keys == entries.Keys + {key}
    ensures forall k :: k in entries && k != key ==> k in r.0 && r.0[k] == entries[k]
    ensures rate.Some? ==> r.0[key] == Record(Lookup(entries, key), now, rate.value.duration)
    ensures rate.Some? ==> r.1.value == Report(rate.value, r.0[key], now)
  {
    match rate
    case None => (entries, None)
    case Some(rt) =>
      var history := Record(Lookup(entries, key), now, rt.duration);
      (entries[key := history], Some(Report(rt, history, now)))
  }

  /** The shared key-value cache holding the request logs. */
  class RateCache {
    var entries: Entries

    constructor ()
      ensures entries == map[]
    {
      entries := map[];
    }

    /** `cache.get(key, [])`. */
    function History(key: Key): (h: seq<int>)
      reads this
      ensures key !in entries ==> h == []
      ensures key in entries ==> h == entries[key]
    {
      Lookup(entries, key)
    }

    /**
     * `fetch_rate_limit_info`: the framework's throttle supplies `rate`
     * (None when no rate is configured) and the client `key`; the clock
     * supplies `now`.
     */
    method FetchRateLimitInfo(rate: Option<Rate>, key: Key, now: int) returns (info: Option<RateLimitInfo>)
      modifies this
      ensures (entries, info) == Fetch(old(entries), rate, key, now)
    {
      if rate.None? {
        return None;
      }
      var limit, duration := rate.value.limit, rate.value.duration;
      var history := History(key);
      ghost var original := history;
      while history != [] && history[|history| - 1] <= now - duration
        invariant Prune(history, now - duration) == Prune(original, now - duration)
        decreases |history|
      {
        history := history[..|history| - 1];
      }
      history := [now] + history;
      entries := entries[key := history];
      var remaining := if limit - |history| > 0 then limit - |history| else 0;
      info := Some(RateLimitInfo(limit, remaining, now + duration));
    }
  }

  // ---------------------------------------------------------------------
  // Properties of one call

  /** Recent distributes over concatenation. */
  lemma {:induction false} RecentAppend(a: seq<int>, b: seq<int>, cutoff: int)
    ensures Recent(a + b, cutoff) == Recent(a, cutoff) + Recent(b, cutoff)
  {
    if a == [] {
      assert a + b == b;
    } else {
      assert (a + b)[0] == a[0];
      assert (a + b)[1..] == a[1..] + b;
      RecentAppend(a[1..], b, cutoff);
    }
  }

  /** A log lying wholly inside the window is kept whole. */
  lemma {:induction false} RecentAllInside(h: seq<int>, cutoff: int)
    requires forall i :: 0 <= i < |h| ==> h[i] > cutoff
    ensures Recent(h, cutoff) == h
  {
    if h != [] {
      RecentAllInside(h[1..], cutoff);
    }
  }

  /** A log lying wholly outside the window is dropped whole. */
  lemma {:induction false} RecentAllOutside(h: seq<int>, cutoff: int)
    requires forall i :: 0 <= i < |h| ==> h[i] <= cutoff
    ensures Recent(h, cutoff) == []
  {
    if h != [] {
      RecentAllOutside(h[1..], cutoff);
    }
  }

  /**
   * On a newest-first log, popping stale entries off the tail removes exactly
   * the entries at or before the cutoff and keeps every later one.
   */
  lemma {:induction false} PruneIsWindow(h: seq<int>, cutoff: int)
    requires NewestFirst(h)
    ensures Prune(h, cutoff) == Recent(h, cutoff)
  {
    var r := Prune(h, cutoff);
    var k := |r|;
    assert r == h[..k];
    forall i | 0 <= i < k
      ensures h[..k][i] > cutoff
    {
      assert h[i] >= h[k - 1];
    }
    RecentAllInside(h[..k], cutoff);
    RecentAllOutside(h[k..], cutoff);
    RecentAppend(h[..k], h[k..], cutoff);
    assert h == h[..k] + h[k..];
  }

  /**
   * The newest-first order is kept: if the stored log is newest first and
   * `now` is not earlier than its head, the new log is newest first and
   * every entry in it lies inside the window that ends at `now`.
   */
  lemma {:induction false} RecordKeepsOrder(h: seq<int>, now: int, duration: Seconds)
    requires NewestFirst(h)
    requires h == [] || h[0] <= now
    ensures NewestFirst(Record(h, now, duration))
    ensures forall i :: 0 <= i < |Record(h, now, duration)| ==> Record(h, now, duration)[i] > now - duration
  {
  }

  /** A cache whose every log is newest first, with no entry later than `now`. */
  ghost predicate OrderedUpTo(entries: Entries, now: int)
  {
    forall k :: k in entries ==> NewestFirst(entries[k]) && (entries[k] == [] || entries[k][0] <= now)
  }

  /**
   * The ordering invariant of the whole cache: a call at `now` keeps every
   * log newest first, and no log holds an entry later than any later call.
   */
  lemma {:induction false} FetchKeepsOrder(entries: Entries, rate: Option<Rate>, key: Key, now: int, later: int)
    requires OrderedUpTo(entries, now)
    requires later >= now
    ensures OrderedUpTo(Fetch(entries, rate, key, now).0, later)
  {
    if rate.Some? {
      RecordKeepsOrder(Lookup(entries, key), now, rate.value.duration);
    }
  }

  /**
   * Sliding-window expiry: on a newest-first log, a call at `now` keeps an
   * old timestamp exactly when it is later than `now - duration`, that is,
   * a request made at t0 stops counting at the first call with now >= t0 + duration.
   */
  lemma {:induction false} SlidingWindowExpiry(h: seq<int>, now: int, duration: Seconds, t0: int)
    requires NewestFirst(h)
    requires t0 in h
    ensures t0 in Record(h, now, duration)[1..] <==> t0 > now - duration
  {
  }

  /**
   * One timestamp recorded per call: the new log is the old log's window
   * plus one entry, so its length never exceeds the old length plus one.
   */
  lemma {:induction false} RecordLength(h: seq<int>, now: int, duration: Seconds)
    requires NewestFirst(h)
    ensures |Record(h, now, duration)| == |Recent(h, now - duration)| + 1
    ensures |Record(h, now, duration)| <= |h| + 1
  {
    PruneIsWindow(h, now - duration);
  }

  /**
   * The remaining quota reported after a call is never negative and, when
   * the limit is at least one, is at most the limit minus one, because the
   * call itself is in the log.
   */
  lemma {:induction false} RemainingBound(entries: Entries, rate: Rate, key: Key, now: int)
    ensures var info := Fetch(entries, Some(rate), key, now).1.value;
            info.remaining >= 0 && (rate.limit >= 1 ==> info.remaining <= rate.limit - 1)
  {
  }

  // ---------------------------------------------------------------------
  // Properties of a sequence of calls

  /** The log after calls at `times`, in order, starting from the log `h`. */
  function Replay(h: seq<int>, times: seq<int>, duration: Seconds): (r: seq<int>)
    ensures times != [] ==> |r| >= 1 && r[0] == times[|times| - 1]
    decreases |times|
  {
    if times == [] then h
    else Record(Replay(h, times[..|times| - 1], duration), times[|times| - 1], duration)
  }

  /** The call times never go backwards. */
  ghost predicate NonDecreasing(times: seq<int>)
  {
    forall i, j :: 0 <= i < j < |times| ==> times[i] <= times[j]
  }

  /** The calls in `times`, last first. */
  function Reversed(times: seq<int>): (r: seq<int>)
    ensures |r| == |times|
    ensures forall t :: t in r <==> t in times
    decreases |times|
  {
    if times == [] then [] else [times[|times| - 1]] + Reversed(times[..|times| - 1])
  }

  /** A call keeps, behind its own timestamp, every leading entry that lies inside the window. */
  lemma {:induction false} RecordKeepsWindowPrefix(h: seq<int>, now: int, duration: Seconds, m: nat)
    requires m <= |h|
    requires forall i :: 0 <= i < m ==> h[i] > now - duration
    ensures |Record(h, now, duration)| >= m + 1
    ensures Record(h, now, duration)[..m + 1] == [now] + h[..m]
  {
    var p := Prune(h, now - duration);
    var k := |p|;
    assert k < |h| ==> h[k] <= now - duration;
    assert p[..m] == h[..m];
  }

  /**
   * When calls at non-decreasing times all fall inside the window that ends
   * at the last call, none of them has expired: the log starts with all of
   * them, newest first.
   */
  lemma {:induction false} ReplayKeepsWindow(h: seq<int>, times: seq<int>, duration: Seconds)
    requires times != [] && NonDecreasing(times)
    requires times[0] > times[|times| - 1] - duration
    ensures |Replay(h, times, duration)| >= |times|
    ensures Replay(h, times, duration)[..|times|] == Reversed(times)
  {
    var n := |times|;
    var init := times[..n - 1];
    var t := times[n - 1];
    if init == [] {
      assert Reversed(times) == [t] + Reversed(init);
    } else {
      var m := |init|;
      assert NonDecreasing(init) && init[0] > init[m - 1] - duration by {
        assert init[0] == times[0];
        assert init[m - 1] == times[n - 2] <= t;
      }
      ReplayKeepsWindow(h, init, duration);
      var prev := Replay(h, init, duration);
      forall i | 0 <= i < m
        ensures prev[i] > t - duration
      {
        assert prev[i] == Reversed(init)[i];
        assert prev[i] in init;
        var j :| 0 <= j < m && init[j] == prev[i];
        assert times[j] >= times[0];
      }
      RecordKeepsWindowPrefix(prev, t, duration, m);
      assert Replay(h, times, duration) == Record(prev, t, duration);
      assert Reversed(times) == [t] + Reversed(init);
    }
  }

  /**
   * Once `limit` calls fall inside one window, the remaining quota reported
   * by the last of them is zero, and it stays zero (never negative) for
   * every further call inside the same window.
   */
  lemma {:induction false} QuotaExhausted(h: seq<int>, times: seq<int>, rate: Rate)
    requires times != [] && NonDecreasing(times)
    requires times[0] > times[|times| - 1] - rate.duration
    requires |times| >= rate.limit
    ensures Report(rate, Replay(h, times, rate.duration), times[|times| - 1]).remaining == 0
  {
    ReplayKeepsWindow(h, times, rate.duration);
  }

  /** With the deployed rate, the 101st request inside one hour is told it has no quota left. */
  lemma {:induction false} HundredAndFirstRequest(h: seq<int>, times: seq<int>)
    requires |times| == 101 && NonDecreasing(times)
    requires times[100] - times[0] < 3600
    ensures Report(ConfiguredRate, Replay(h, times, 3600), times[100]).remaining == 0
  {
    QuotaExhausted(h, times, ConfiguredRate);
  }
}
