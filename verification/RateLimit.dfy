/**
 * The two rate-limit stores: an exact sliding window in memory, and the fixed window that the
 * INCR / EXPIRE script gives on Redis. Times are milliseconds.
 */
module RateLimit {

  datatype Verdict = Verdict(allowed: bool, count: nat, remaining: int, resetAt: int)

  ghost predicate Sorted(s: seq<int>) {
    forall i, j :: 0 <= i < j < |s| ==> s[i] <= s[j]
  }

  /** The instants later than `cutoff`. */
  function After(cutoff: int, s: seq<int>): (r: seq<int>)
    ensures forall t :: t in r ==> t > cutoff && t in s
  {
    if s == [] then []
    else
      var rest := After(cutoff, s[1..]);
      if s[0] > cutoff then [s[0]] + rest else rest
  }

  /** How many of the instants lie in the window (to - width, to]. */
  function CountIn(s: seq<int>, width: int, to: int): nat {
    if s == [] then 0
    else (if to - width < s[0] <= to then 1 else 0) + CountIn(s[1..], width, to)
  }

  // ---------------------------------------------------- sliding window, in memory

  /** What one call does to the timestamps of its key. */
  function Slide(ts: seq<int>, limit: nat, windowMs: int, now: int): (seq<int>, Verdict) {
    var live := After(now - windowMs, ts);
    var resetAt := if |live| > 0 then live[0] + windowMs else now + windowMs;
    if |live| >= limit then (live, Verdict(false, |live|, 0, resetAt))
    else (live + [now], Verdict(true, |live| + 1, limit - (|live| + 1), resetAt))
  }

  class MemoryRateLimitStore {
    var windows: map<string, seq<int>>

    constructor ()
      ensures windows == map[]
    {
      windows := map[];
    }

    method IncrementAndCheck(key: string, limit: nat, windowSeconds: nat, now: int) returns (v: Verdict)
      modifies this
      ensures var ts := if key in old(windows) then old(windows)[key] else [];
              && v == Slide(ts, limit, windowSeconds * 1000, now).1
              && windows == old(windows)[key := Slide(ts, limit, windowSeconds * 1000, now).0]
    {
      var windowMs := windowSeconds * 1000;
      var cutoff := now - windowMs;
      var ts := if key in windows then windows[key] else [];
      ts := After(cutoff, ts);
      var resetAt := if |ts| > 0 then ts[0] + windowMs else now + windowMs;
      if |ts| >= limit {
        windows := windows[key := ts];
        return Verdict(false, |ts|, 0, resetAt);
      }
      ts := ts + [now];
      windows := windows[key := ts];
      v := Verdict(true, |ts|, limit - |ts|, resetAt);
    }

    method Clear()
      modifies this
      ensures windows == map[]
    {
      windows := map[];
    }
  }

  /** The instants allowed over a run of calls for one key, starting from its timestamps. */
  function Allowed(ts: seq<int>, limit: nat, windowMs: int, calls: seq<int>): seq<int>
    decreases |calls|
  {
    if calls == [] then []
    else
      var (ts', v) := Slide(ts, limit, windowMs, calls[0]);
      (if v.allowed then [calls[0]] else []) + Allowed(ts', limit, windowMs, calls[1..])
  }

  /** The timestamps left after the run. */
  function Remaining(ts: seq<int>, limit: nat, windowMs: int, calls: seq<int>): seq<int>
    decreases |calls|
  {
    if calls == [] then ts
    else Remaining(Slide(ts, limit, windowMs, calls[0]).0, limit, windowMs, calls[1..])
  }

  // -- facts about the two scans

  lemma {:induction false} AfterAppend(cutoff: int, a: seq<int>, b: seq<int>)
    ensures After(cutoff, a + b) == After(cutoff, a) + After(cutoff, b)
  {
    if a == [] {
      assert a + b == b;
    } else {
      assert (a + b)[1..] == a[1..] + b;
      AfterAppend(cutoff, a[1..], b);
    }
  }

  lemma {:induction false} AfterTwice(early: int, late: int, s: seq<int>)
    requires early <= late
    ensures After(late, After(early, s)) == After(late, s)
  {
    if s != [] {
      AfterTwice(early, late, s[1..]);
      if s[0] > early {
        assert After(early, s)[1..] == After(early, s[1..]);
      }
    }
  }

  lemma {:induction false} CountAppend(a: seq<int>, b: seq<int>, width: int, to: int)
    ensures CountIn(a + b, width, to) == CountIn(a, width, to) + CountIn(b, width, to)
  {
    if a == [] {
      assert a + b == b;
    } else {
      assert (a + b)[1..] == a[1..] + b;
      CountAppend(a[1..], b, width, to);
    }
  }

  /** When no instant is later than `to`, the window holds those after its start. */
  lemma {:induction false} CountIsAfter(s: seq<int>, width: int, to: int)
    requires forall i :: 0 <= i < |s| ==> s[i] <= to
    ensures CountIn(s, width, to) == |After(to - width, s)|
  {
    if s != [] {
      CountIsAfter(s[1..], width, to);
    }
  }

  /** A window that ends later than every instant holds no more of them than one that ends sooner. */
  lemma {:induction false} LaterHoldsLess(s: seq<int>, width: int, sooner: int, later: int)
    requires forall i :: 0 <= i < |s| ==> s[i] <= sooner
    requires sooner <= later
    ensures CountIn(s, width, later) <= CountIn(s, width, sooner)
  {
    if s != [] {
      LaterHoldsLess(s[1..], width, sooner, later);
    }
  }

  /** A window that ends before `now` does not see it. */
  lemma {:induction false} CountShort(s: seq<int>, width: int, to: int)
    ensures CountIn(s, width, to) <= |After(to - width, s)|
  {
    if s != [] {
      CountShort(s[1..], width, to);
    }
  }

  lemma {:induction false} AfterLess(early: int, late: int, s: seq<int>)
    requires early <= late
    ensures |After(late, s)| <= |After(early, s)|
  {
    if s != [] {
      AfterLess(early, late, s[1..]);
    }
  }

  // -- the history of a key

  ghost predicate AtMost(s: seq<int>, now: int) {
    forall i :: 0 <= i < |s| ==> s[i] <= now
  }

  /** `ts` is what the store keeps for a key whose allowed instants so far are `history`. */
  ghost predicate Represents(ts: seq<int>, history: seq<int>, windowMs: nat, now: int) {
    && AtMost(history, now)
    && After(now - windowMs, ts) == After(now - windowMs, history)
  }

  /** A call is allowed exactly when fewer than `limit` calls were allowed in the window that ends
      with it; the count it reports is the number in that window; and the store goes on
      representing the history. */
  lemma SlideDecides(ts: seq<int>, history: seq<int>, limit: nat, windowMs: nat, before: int, now: int)
    requires Represents(ts, history, windowMs, before) && before <= now
    ensures var (ts', v) := Slide(ts, limit, windowMs, now);
            var history' := Extend(history, v.allowed, now);
            && (v.allowed <==> CountIn(history, windowMs, now) < limit)
            && Represents(ts', history', windowMs, now)
            && (windowMs > 0 ==> v.count == CountIn(history', windowMs, now))
            && v.remaining == (if v.allowed then limit - v.count else 0)
            && var oldest := After(now - windowMs, history);
               v.resetAt == (if oldest == [] then now else oldest[0]) + windowMs
  {
    var cutoff := now - windowMs;
    var live := After(cutoff, ts);
    AfterTwice(before - windowMs, cutoff, ts);
    AfterTwice(before - windowMs, cutoff, history);
    CountIsAfter(history, windowMs, now);
    AfterTwice(cutoff, cutoff, ts);
    AfterAppend(cutoff, live, [now]);
    AfterAppend(cutoff, history, [now]);
    CountAppend(history, [now], windowMs, now);
  }

  ghost predicate NonDecreasing(calls: seq<int>, from: int) {
    && (forall i :: 0 <= i < |calls| ==> from <= calls[i])
    && (forall i, j :: 0 <= i < j < |calls| ==> calls[i] <= calls[j])
  }

  /** The history once a call is decided. */
  function Extend(history: seq<int>, allowed: bool, now: int): seq<int> {
    if allowed then history + [now] else history
  }

  lemma ExtendFirst(history: seq<int>, allowed: bool, now: int, rest: seq<int>)
    ensures history + ((if allowed then [now] else []) + rest) == Extend(history, allowed, now) + rest
  {
  }

  ghost predicate Bounded(history: seq<int>, limit: int, windowMs: nat) {
    forall t :: CountIn(history, windowMs, t) <= limit
  }

  lemma AllowKeepsBound(history: seq<int>, limit: nat, windowMs: nat, now: int)
    requires AtMost(history, now) && Bounded(history, limit, windowMs)
    requires CountIn(history, windowMs, now) < limit
    ensures Bounded(history + [now], limit, windowMs)
  {
    forall t ensures CountIn(history + [now], windowMs, t) <= limit {
      CountAppend(history, [now], windowMs, t);
      if t >= now {
        LaterHoldsLess(history, windowMs, now, t);
      }
    }
  }

  lemma {:induction false} RunStaysBounded(ts: seq<int>, history: seq<int>, limit: nat, windowMs: nat, before: int,
                                           calls: seq<int>)
    requires Represents(ts, history, windowMs, before) && Bounded(history, limit, windowMs)
    requires NonDecreasing(calls, before)
    ensures Bounded(history + Allowed(ts, limit, windowMs, calls), limit, windowMs)
    decreases |calls|
  {
    if calls == [] {
      assert history + [] == history;
    } else {
      var now := calls[0];
      var (ts', v) := Slide(ts, limit, windowMs, now);
      SlideKeepsBound(ts, history, limit, windowMs, before, now);
      RunStaysBounded(ts', Extend(history, v.allowed, now), limit, windowMs, now, calls[1..]);
      ExtendFirst(history, v.allowed, now, Allowed(ts', limit, windowMs, calls[1..]));
    }
  }

  lemma SlideKeepsBound(ts: seq<int>, history: seq<int>, limit: nat, windowMs: nat, before: int, now: int)
    requires Represents(ts, history, windowMs, before) && Bounded(history, limit, windowMs) && before <= now
    ensures var (ts', v) := Slide(ts, limit, windowMs, now);
            && Represents(ts', Extend(history, v.allowed, now), windowMs, now)
            && Bounded(Extend(history, v.allowed, now), limit, windowMs)
  {
    SlideDecides(ts, history, limit, windowMs, before, now);
    if Slide(ts, limit, windowMs, now).1.allowed {
      AllowKeepsBound(history, limit, windowMs, now);
    }
  }

  /** In every run with a fixed limit and window, every interval (t - w, t] holds at most `limit`
      allowed calls. */
  lemma SlidingWindowTheorem(limit: nat, windowMs: nat, from: int, calls: seq<int>, t: int)
    requires NonDecreasing(calls, from)
    ensures CountIn(Allowed([], limit, windowMs, calls), windowMs, t) <= limit
  {
    RunStaysBounded([], [], limit, windowMs, from, calls);
    assert [] + Allowed([], limit, windowMs, calls) == Allowed([], limit, windowMs, calls);
  }

  /** Nothing is refused that the window has room for: each call of a run is decided by the calls
      allowed before it and by nothing else. */
  lemma {:induction false} RunIsExact(ts: seq<int>, history: seq<int>, limit: nat, windowMs: nat, before: int,
                                      calls: seq<int>, now: int)
    requires Represents(ts, history, windowMs, before) && NonDecreasing(calls, before)
    requires before <= now && (forall i :: 0 <= i < |calls| ==> calls[i] <= now)
    ensures Slide(Remaining(ts, limit, windowMs, calls), limit, windowMs, now).1.allowed
            <==> CountIn(history + Allowed(ts, limit, windowMs, calls), windowMs, now) < limit
    decreases |calls|
  {
    if calls == [] {
      assert history + [] == history;
      SlideDecides(ts, history, limit, windowMs, before, now);
    } else {
      var (ts', v) := Slide(ts, limit, windowMs, calls[0]);
      SlideDecides(ts, history, limit, windowMs, before, calls[0]);
      RunIsExact(ts', Extend(history, v.allowed, calls[0]), limit, windowMs, calls[0], calls[1..], now);
      ExtendFirst(history, v.allowed, calls[0], Allowed(ts', limit, windowMs, calls[1..]));
    }
  }

  // -- when a denied caller may come back

  /** What every call with this limit leaves in the map. */
  ghost predicate Tidy(ts: seq<int>, limit: nat, now: int) {
    Sorted(ts) && |ts| <= limit && AtMost(ts, now)
  }

  lemma {:induction false} AfterSorted(cutoff: int, s: seq<int>)
    requires Sorted(s)
    ensures Sorted(After(cutoff, s)) && |After(cutoff, s)| <= |s|
    ensures s != [] ==> (After(cutoff, s) == s <==> s[0] > cutoff)
    ensures s != [] && s[0] <= cutoff ==> |After(cutoff, s)| < |s|
  {
    if s != [] {
      AfterSorted(cutoff, s[1..]);
      if |s| > 1 { assert s[0] <= s[1]; }
      assert s == [s[0]] + s[1..];
    }
  }

  lemma SlideStaysTidy(ts: seq<int>, limit: nat, windowMs: nat, before: int, now: int)
    requires Tidy(ts, limit, before) && before <= now
    ensures Tidy(Slide(ts, limit, windowMs, now).0, limit, now)
  {
    AfterSorted(now - windowMs, ts);
    var live := After(now - windowMs, ts);
    forall i | 0 <= i < |live| ensures live[i] <= now { assert live[i] in live; }
  }

  lemma {:induction false} RunStaysTidy(ts: seq<int>, limit: nat, windowMs: nat, before: int, calls: seq<int>)
    requires Tidy(ts, limit, before) && NonDecreasing(calls, before)
    ensures Tidy(Remaining(ts, limit, windowMs, calls), limit, if calls == [] then before else calls[|calls| - 1])
    decreases |calls|
  {
    if calls != [] {
      SlideStaysTidy(ts, limit, windowMs, before, calls[0]);
      RunStaysTidy(Slide(ts, limit, windowMs, calls[0]).0, limit, windowMs, calls[0], calls[1..]);
    }
  }

  /** After a denial, `resetAt` is exactly the first instant at which a call would be allowed. */
  lemma DenialTellsWhen(limit: nat, windowMs: nat, from: int, calls: seq<int>, now: int, later: int)
    requires limit >= 1 && NonDecreasing(calls + [now], from) && now <= later
    requires !Slide(Remaining([], limit, windowMs, calls), limit, windowMs, now).1.allowed
    ensures var (ts, v) := Slide(Remaining([], limit, windowMs, calls), limit, windowMs, now);
            Slide(ts, limit, windowMs, later).1.allowed <==> later >= v.resetAt
  {
    assert forall i :: 0 <= i < |calls| ==> calls[i] == (calls + [now])[i];
    RunStaysTidy([], limit, windowMs, from, calls);
    var ts := Remaining([], limit, windowMs, calls);
    AfterSorted(now - windowMs, ts);
    var live := After(now - windowMs, ts);
    AfterSorted(later - windowMs, live);
  }

  // ------------------------------------------------------ fixed window, on Redis

  /** The value and expiry instant of a Redis key. */
  datatype Counter = Missing | Counter(count: nat, expiresAt: int)

  /** A key past its expiry reads as missing. */
  function Current(c: Counter, now: int): Counter {
    if c.Counter? && now < c.expiresAt then c else Missing
  }

  /** INCR, then EXPIRE when the counter is new, then PTTL. */
  function Script(c: Counter, limit: nat, windowMs: nat, now: int): (Counter, Verdict) {
    var live := Current(c, now);
    var n := if live.Counter? then live.count + 1 else 1;
    var c' := Counter(n, if n == 1 then now + windowMs else live.expiresAt);
    var ttl := if c'.expiresAt > now then c'.expiresAt - now else 0;
    (c', Verdict(c'.count <= limit, c'.count, if limit > c'.count then limit - c'.count else 0, now + ttl))
  }

  class RedisRateLimitStore {
    var keys: map<string, Counter>

    constructor ()
      ensures keys == map[]
    {
      keys := map[];
    }

    method IncrementAndCheck(key: string, limit: nat, windowSeconds: nat, now: int) returns (v: Verdict)
      modifies this
      ensures var c := if key in old(keys) then old(keys)[key] else Missing;
              && v == Script(c, limit, windowSeconds * 1000, now).1
              && keys == old(keys)[key := Script(c, limit, windowSeconds * 1000, now).0]
    {
      var c := if key in keys then Current(keys[key], now) else Missing;
      var count := if c.Counter? then c.count + 1 else 1;
      var expiresAt := if count == 1 then now + windowSeconds * 1000 else c.expiresAt;
      keys := keys[key := Counter(count, expiresAt)];
      var ttl := if expiresAt > now then expiresAt - now else 0;
      v := Verdict(count <= limit, count, if limit > count then limit - count else 0, now + ttl);
    }
  }

  /** What the script answers: how many calls the window has seen, this one included, whether that is within
      the limit, what is left of the limit, and when the window ends: one length after it was opened by
      the first call that found no window. */
  lemma ScriptMeans(c: Counter, limit: nat, windowMs: nat, now: int)
    requires windowMs > 0
    ensures var (c', v) := Script(c, limit, windowMs, now);
            var open := c.Counter? && c.count > 0 && now < c.expiresAt;
            && v.count == (if open then c.count + 1 else 1)
            && (v.allowed <==> v.count <= limit)
            && (v.allowed ==> v.remaining == limit - v.count) && (!v.allowed ==> v.remaining == 0)
            && v.resetAt == (if open then c.expiresAt else now + windowMs)
            && c' == Counter(v.count, v.resetAt)
  {
  }

  /** The counter is the number of calls, refused ones included, since the window was opened. */
  ghost predicate CountsCalls(c: Counter, past: seq<int>, windowMs: nat, now: int) {
    && AtMost(past, now)
    && (c.Missing? ==> past == [])
    && (c.Counter? ==>
          && c.expiresAt - windowMs <= now && AtMost(past, c.expiresAt - 1)
          && c.count == |After(c.expiresAt - windowMs - 1, past)| > 0)
  }

  lemma CallIsCounted(c: Counter, past: seq<int>, limit: nat, windowMs: nat, before: int, now: int)
    requires windowMs > 0 && CountsCalls(c, past, windowMs, before) && before <= now
    ensures CountsCalls(Script(c, limit, windowMs, now).0, past + [now], windowMs, now)
  {
    var c' := Script(c, limit, windowMs, now).0;
    AfterAppend(c'.expiresAt - windowMs - 1, past, [now]);
    if c.Counter? && now >= c.expiresAt {
      NoneLater(past, now - 1);
    }
  }

  lemma {:induction false} NoneLater(past: seq<int>, now: int)
    requires AtMost(past, now)
    ensures After(now, past) == []
  {
    if past != [] {
      NoneLater(past[1..], now);
    }
  }

  lemma LaterCalls(calls: seq<int>, from: int, now: int)
    requires calls != [] && NonDecreasing(calls, from) && AtMost(calls, now)
    ensures from <= calls[0] <= now && NonDecreasing(calls[1..], calls[0]) && AtMost(calls[1..], now)
  {
  }

  /** Over every run of calls for one key, up to any later instant, the counter is exact. */
  lemma {:induction false} RunIsCounted(c: Counter, past: seq<int>, limit: nat, windowMs: nat, before: int,
                                        calls: seq<int>, now: int)
    requires windowMs > 0 && CountsCalls(c, past, windowMs, before) && NonDecreasing(calls, before)
    requires before <= now && AtMost(calls, now)
    ensures CountsCalls(CounterAfter(c, limit, windowMs, calls), past + calls, windowMs, now)
    decreases |calls|
  {
    if calls == [] {
      assert past + [] == past;
    } else {
      var c' := Script(c, limit, windowMs, calls[0]).0;
      LaterCalls(calls, before, now);
      CallIsCounted(c, past, limit, windowMs, before, calls[0]);
      RunIsCounted(c', past + [calls[0]], limit, windowMs, calls[0], calls[1..], now);
      assert CounterAfter(c, limit, windowMs, calls) == CounterAfter(c', limit, windowMs, calls[1..]);
      assert past + [calls[0]] + calls[1..] == past + calls;
    }
  }

  /** The instants the script allows over a run of calls for one key. */
  function Granted(c: Counter, limit: nat, windowMs: nat, calls: seq<int>): seq<int>
    decreases |calls|
  {
    if calls == [] then []
    else
      var (c', v) := Script(c, limit, windowMs, calls[0]);
      (if v.allowed then [calls[0]] else []) + Granted(c', limit, windowMs, calls[1..])
  }

  function CounterAfter(c: Counter, limit: nat, windowMs: nat, calls: seq<int>): Counter
    decreases |calls|
  {
    if calls == [] then c
    else CounterAfter(Script(c, limit, windowMs, calls[0]).0, limit, windowMs, calls[1..])
  }

  function Min(a: nat, b: nat): nat { if a < b then a else b }

  /** The open window started at expiresAt - w with an allowed call, has granted min(count, limit)
      calls, and the window before it granted at most limit - 1 calls that are still in reach. */
  ghost predicate Accounts(c: Counter, history: seq<int>, limit: nat, windowMs: nat, now: int) {
    && AtMost(history, now)
    && Bounded(history, 2 * limit - 1, windowMs)
    && (c.Missing? ==> history == [])
    && (c.Counter? ==>
          var start := c.expiresAt - windowMs;
          && start <= now
          && c.count >= 1
          && AtMost(history, c.expiresAt - 1)
          && |After(start - 1, history)| == Min(c.count, limit)
          && |After(start, history)| <= Min(c.count, limit) - 1
          && |After(start - windowMs, history)| <= limit - 1 + Min(c.count, limit))
  }

  lemma GrantKeepsBound(history: seq<int>, limit: nat, windowMs: nat, now: int)
    requires AtMost(history, now) && Bounded(history, 2 * limit - 1, windowMs)
    requires |After(now - windowMs, history)| + 1 <= 2 * limit - 1
    ensures Bounded(history + [now], 2 * limit - 1, windowMs)
  {
    forall t ensures CountIn(history + [now], windowMs, t) <= 2 * limit - 1 {
      CountAppend(history, [now], windowMs, t);
      if t >= now {
        CountShort(history, windowMs, t);
        AfterLess(now - windowMs, t - windowMs, history);
      }
    }
  }

  lemma OneMoreAfter(cutoff: int, history: seq<int>, now: int)
    ensures |After(cutoff, history + [now])| == |After(cutoff, history)| + if now > cutoff then 1 else 0
  {
    AfterAppend(cutoff, history, [now]);
  }

  /** A call inside the open window. */
  lemma JoinWindow(c: Counter, history: seq<int>, limit: nat, windowMs: nat, before: int, now: int)
    requires limit >= 1 && windowMs >= 1 && c.Counter? && Accounts(c, history, limit, windowMs, before)
    requires before <= now < c.expiresAt
    ensures var (c', v) := Script(c, limit, windowMs, now);
            Accounts(c', Extend(history, v.allowed, now), limit, windowMs, now)
  {
    if Script(c, limit, windowMs, now).1.allowed {
      var start := c.expiresAt - windowMs;
      AfterLess(start - windowMs, now - windowMs, history);
      GrantKeepsBound(history, limit, windowMs, now);
      OneMoreAfter(start - 1, history, now);
      OneMoreAfter(start, history, now);
      OneMoreAfter(start - windowMs, history, now);
      assert Script(c, limit, windowMs, now).0 == Counter(c.count + 1, c.expiresAt);
    }
  }

  /** Where no window is open, what was granted within one length is less than the limit, and none of it
      is of this instant. */
  lemma ClosedWindow(c: Counter, history: seq<int>, limit: nat, windowMs: nat, before: int, now: int)
    requires limit >= 1 && windowMs >= 1 && Accounts(c, history, limit, windowMs, before) && before <= now
    requires Current(c, now).Missing?
    ensures |After(now - windowMs, history)| <= limit - 1
    ensures After(now - 1, history) == [] && After(now, history) == []
  {
    NoneLater(history, now);
    if c.Counter? {
      AfterLess(c.expiresAt - windowMs, now - windowMs, history);
      NoneLater(history, now - 1);
    }
  }

  /** A call that opens a new window. */
  lemma OpenWindow(c: Counter, history: seq<int>, limit: nat, windowMs: nat, before: int, now: int)
    requires limit >= 1 && windowMs >= 1 && Accounts(c, history, limit, windowMs, before) && before <= now
    requires Current(c, now).Missing?
    ensures var (c', v) := Script(c, limit, windowMs, now);
            v.allowed && Accounts(c', history + [now], limit, windowMs, now)
  {
    ClosedWindow(c, history, limit, windowMs, before, now);
    GrantKeepsBound(history, limit, windowMs, now);
    OneMoreAfter(now - 1, history, now);
    OneMoreAfter(now, history, now);
    OneMoreAfter(now - windowMs, history, now);
    assert Script(c, limit, windowMs, now).0 == Counter(1, now + windowMs);
  }

  lemma {:induction false} ScriptRunAccounts(c: Counter, history: seq<int>, limit: nat, windowMs: nat, before: int,
                                             calls: seq<int>)
    requires limit >= 1 && windowMs >= 1 && Accounts(c, history, limit, windowMs, before)
             && NonDecreasing(calls, before)
    ensures Accounts(CounterAfter(c, limit, windowMs, calls), history + Granted(c, limit, windowMs, calls), limit,
            windowMs,
                     if calls == [] then before else calls[|calls| - 1])
    decreases |calls|
  {
    if calls == [] {
      assert history + [] == history;
    } else {
      var now := calls[0];
      var (c', v) := Script(c, limit, windowMs, now);
      if Current(c, now).Missing? {
        OpenWindow(c, history, limit, windowMs, before, now);
      } else {
        JoinWindow(c, history, limit, windowMs, before, now);
      }
      ScriptRunAccounts(c', Extend(history, v.allowed, now), limit, windowMs, now, calls[1..]);
      ExtendFirst(history, v.allowed, now, Granted(c', limit, windowMs, calls[1..]));
    }
  }

  /** In every run of the script with a fixed limit and window, each fixed window grants at most
      `limit` calls, and any sliding interval of one window length at most 2 * limit - 1. */
  lemma FixedWindowTheorem(limit: nat, windowMs: nat, from: int, calls: seq<int>, t: int)
    requires limit >= 1 && windowMs >= 1 && NonDecreasing(calls, from)
    ensures var granted, c := Granted(Missing, limit, windowMs, calls), CounterAfter(Missing, limit, windowMs, calls);
            && CountIn(granted, windowMs, t) <= 2 * limit - 1
            && (c.Counter? ==> |After(c.expiresAt - windowMs - 1, granted)| == Min(c.count, limit))
  {
    ScriptRunAccounts(Missing, [], limit, windowMs, from, calls);
    assert [] + Granted(Missing, limit, windowMs, calls) == Granted(Missing, limit, windowMs, calls);
  }

  /** `n` calls at one instant inside a window that still has room for them are all granted. */
  lemma {:induction false} BurstIsGranted(c: Counter, limit: nat, windowMs: nat, now: int, n: nat, later: seq<int>)
    requires windowMs >= 1 && c.Counter? && c.count >= 1 && now < c.expiresAt && c.count + n <= limit
    ensures Granted(c, limit, windowMs, seq(n, _ => now) + later)
            == seq(n, _ => now) + Granted(Counter(c.count + n, c.expiresAt), limit, windowMs, later)
    decreases n
  {
    var burst := seq(n, _ => now);
    if n == 0 {
      assert burst + later == later;
    } else {
      var shorter := seq(n - 1, _ => now);
      assert burst == [now] + shorter;
      assert (burst + later)[1..] == shorter + later;
      BurstIsGranted(Counter(c.count + 1, c.expiresAt), limit, windowMs, now, n - 1, later);
      assert [now] + (shorter + Granted(Counter(c.count + n, c.expiresAt), limit, windowMs, later))
          == burst + Granted(Counter(c.count + n, c.expiresAt), limit, windowMs, later);
    }
  }

  lemma {:induction false} CountOfBurst(n: nat, at: int, width: int, to: int)
    requires to - width < at <= to
    ensures CountIn(seq(n, _ => at), width, to) == n
    decreases n
  {
    if n > 0 {
      assert seq(n, _ => at)[1..] == seq(n - 1, _ => at);
      CountOfBurst(n - 1, at, width, to);
    }
  }

  /** `limit` calls at the instant the previous window has run out are all granted. */
  lemma FreshBurst(c: Counter, limit: nat, windowMs: nat, now: int)
    requires limit >= 1 && windowMs >= 1 && Current(c, now).Missing?
    ensures Granted(c, limit, windowMs, seq(limit, _ => now)) == seq(limit, _ => now)
  {
    var burst, more := seq(limit, _ => now), seq(limit - 1, _ => now);
    assert burst == [now] + more && burst[1..] == more;
    assert more + [] == more;
    BurstIsGranted(Counter(1, now + windowMs), limit, windowMs, now, limit - 1, []);
  }

  /** `limit` calls around the end of the first window and `limit` at the start of the next. */
  function WorstCase(limit: nat, windowMs: nat): seq<int>
    requires limit >= 1
  {
    [0] + (seq(limit - 1, _ => windowMs - 1) + seq(limit, _ => windowMs))
  }

  lemma WorstCaseIsGranted(limit: nat, windowMs: nat)
    requires limit >= 1 && windowMs >= 2
    ensures Granted(Missing, limit, windowMs, WorstCase(limit, windowMs)) == WorstCase(limit, windowMs)
  {
    var first, second := seq(limit - 1, _ => windowMs - 1), seq(limit, _ => windowMs);
    assert WorstCase(limit, windowMs)[1..] == first + second;
    BurstIsGranted(Counter(1, windowMs), limit, windowMs, windowMs - 1, limit - 1, second);
    FreshBurst(Counter(limit, windowMs), limit, windowMs, windowMs);
  }

  /** The bound is reached: a call opens a window, limit - 1 more come at its last instant, and
      `limit` at the first instant of the next one. */
  lemma FixedWindowBoundIsTight(limit: nat, windowMs: nat)
    requires limit >= 1 && windowMs >= 2
    ensures NonDecreasing(WorstCase(limit, windowMs), 0)
    ensures CountIn(Granted(Missing, limit, windowMs, WorstCase(limit, windowMs)), windowMs, windowMs) == 2 * limit - 1
  {
    WorstCaseIsGranted(limit, windowMs);
    var first, second := seq(limit - 1, _ => windowMs - 1), seq(limit, _ => windowMs);
    assert WorstCase(limit, windowMs)[1..] == first + second;
    CountAppend(first, second, windowMs, windowMs);
    CountOfBurst(limit - 1, windowMs - 1, windowMs, windowMs);
    CountOfBurst(limit, windowMs, windowMs, windowMs);
  }
}
