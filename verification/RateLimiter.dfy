/**
 The sliding-window rate limiter of `abir_guard/mcp_http.py`.

 The limiter keeps, per address, only the acceptance times still inside its window.  The full
 history of accepted requests is a function of the calls made, and the results relate the two.
 Times are real numbers and the clock reading is an argument; calls are sequential.
 */
module RateLimiter {

  datatype Limits = Limits(maxRequests: int, window: real)

  // ----- The limiter -----

  function Purged(times: seq<real>, cutoff: real): seq<real> {
    if times == [] then []
    else
      var last := times[|times| - 1];
      var rest := Purged(times[..|times| - 1], cutoff);
      if last > cutoff then rest + [last] else rest
  }

  function Stored(requests: map<string, seq<real>>, ip: string): seq<real> {
    if ip in requests then requests[ip] else []
  }

  predicate Allows(limits: Limits, times: seq<real>, now: real) {
    |Purged(times, now - limits.window)| < limits.maxRequests
  }

  function Updated(limits: Limits, times: seq<real>, now: real): seq<real> {
    var kept := Purged(times, now - limits.window);
    if Allows(limits, times, now) then kept + [now] else kept
  }

  class RateLimiter {
    const limits: Limits
    var requests: map<string, seq<real>>

    constructor (maxRequests: int, window: real)
      ensures limits == Limits(maxRequests, window) && requests == map[]
    {
      limits, requests := Limits(maxRequests, window), map[];
    }

    method IsAllowed(ip: string, now: real) returns (allowed: bool, remaining: int)
      modifies this
      ensures allowed <==> Allows(limits, Stored(old(requests), ip), now)
      ensures requests == old(requests)[ip := Updated(limits, Stored(old(requests), ip), now)]
      ensures remaining == if allowed then limits.maxRequests - |Stored(requests, ip)| else 0
    {
      var cutoff := now - limits.window;
      var times := Stored(requests, ip);
      var kept: seq<real> := [];
      for i := 0 to |times|
        invariant kept == Purged(times[..i], cutoff)
      {
        assert times[..i + 1][..i] == times[..i];
        if times[i] > cutoff {
          kept := kept + [times[i]];
        }
      }
      assert times[..|times|] == times;
      requests := requests[ip := kept];
      var count := |kept|;
      if count >= limits.maxRequests {
        return false, 0;
      }
      requests := requests[ip := kept + [now]];
      return true, limits.maxRequests - count - 1;
    }

    method Reset(ip: string)
      modifies this
      ensures requests == old(requests) - {ip}
    {
      requests := requests - {ip};
    }
  }

  // ----- Runs -----

  datatype Call = Ask(ip: string, now: real) | Reset(ip: string)

  function After(limits: Limits, calls: seq<Call>): map<string, seq<real>> {
    if calls == [] then map[]
    else
      var requests := After(limits, calls[..|calls| - 1]);
      match calls[|calls| - 1]
      case Ask(ip, now) => requests[ip := Updated(limits, Stored(requests, ip), now)]
      case Reset(ip) => requests - {ip}
  }

  /** Whether a request from `ip` at `now` is accepted after `calls`. */
  predicate Accepts(limits: Limits, calls: seq<Call>, ip: string, now: real) {
    Allows(limits, Stored(After(limits, calls), ip), now)
  }

  /** The times of all requests accepted from `ip` since its last reset, in order. */
  function History(limits: Limits, calls: seq<Call>, ip: string): seq<real> {
    if calls == [] then []
    else
      var before := calls[..|calls| - 1];
      match calls[|calls| - 1]
      case Ask(ip', now) =>
        var history := History(limits, before, ip);
        if ip' == ip && Accepts(limits, before, ip, now) then history + [now] else history
      case Reset(ip') => if ip' == ip then [] else History(limits, before, ip)
  }

  ghost predicate ClockRuns(calls: seq<Call>) {
    forall i, j :: 0 <= i < j < |calls| && calls[i].Ask? && calls[j].Ask? ==> calls[i].now <= calls[j].now
  }

  // ----- Counting -----

  /** A half-open interval: (lo, hi] or [lo, hi). */
  datatype Span = OpenBelow(lo: real, hi: real) | OpenAbove(lo: real, hi: real) {
    predicate Contains(t: real) {
      match this
      case OpenBelow(_, _) => lo < t <= hi
      case OpenAbove(_, _) => lo <= t < hi
    }
  }

  function Count(times: seq<real>, span: Span): (n: nat)
    ensures n <= |times|
  {
    if times == [] then 0
    else Count(times[..|times| - 1], span) + if span.Contains(times[|times| - 1]) then 1 else 0
  }

  lemma {:induction false} CountWeakens(times: seq<real>, span: Span, wider: Span)
    requires forall t :: t in times && span.Contains(t) ==> wider.Contains(t)
    ensures Count(times, span) <= Count(times, wider)
  {
    if times != [] {
      assert forall t :: t in times[..|times| - 1] ==> t in times;
      assert times[|times| - 1] in times;
      CountWeakens(times[..|times| - 1], span, wider);
    }
  }

  lemma CountAppend(times: seq<real>, t: real, span: Span)
    ensures Count(times + [t], span) == Count(times, span) + if span.Contains(t) then 1 else 0
  {
    assert (times + [t])[..|times|] == times;
  }

  lemma {:induction false} PurgedCounts(times: seq<real>, cutoff: real, now: real)
    requires forall t :: t in times ==> t <= now
    ensures |Purged(times, cutoff)| == Count(times, OpenBelow(cutoff, now))
  {
    if times != [] {
      var init := times[..|times| - 1];
      assert times[|times| - 1] in times;
      assert forall t :: t in init ==> t in times;
      PurgedCounts(init, cutoff, now);
    }
  }

  lemma PurgedAppend(times: seq<real>, t: real, cutoff: real)
    ensures Purged(times + [t], cutoff) ==
            if t > cutoff then Purged(times, cutoff) + [t] else Purged(times, cutoff)
  {
    assert (times + [t])[..|times|] == times;
  }

  /** Purging by an earlier cutoff first makes no difference. */
  lemma {:induction false} PurgedTwice(times: seq<real>, early: real, late: real)
    requires early <= late
    ensures Purged(Purged(times, early), late) == Purged(times, late)
  {
    if times != [] {
      var init, last := times[..|times| - 1], times[|times| - 1];
      PurgedTwice(init, early, late);
      PurgedAppend(Purged(init, early), last, late);
    }
  }

  // ----- The stored list and the history -----

  lemma ClockRanBefore(calls: seq<Call>, call: Call, later: Call)
    requires ClockRuns(calls + [call] + [later])
    ensures ClockRuns(calls + [later]) && ClockRuns(calls + [call])
    ensures call.Ask? && later.Ask? ==> call.now <= later.now
  {
    var all, short := calls + [call] + [later], calls + [later];
    assert all[|calls|] == call && all[|calls| + 1] == later;
    forall i, j | 0 <= i < j < |short| && short[i].Ask? && short[j].Ask?
      ensures short[i].now <= short[j].now
    {
      assert short[i] == all[i] && short[j] == all[if j < |calls| then j else j + 1];
    }
    forall i, j | 0 <= i < j <= |calls| && all[i].Ask? && all[j].Ask?
      ensures all[i].now <= all[j].now
    {
    }
    assert calls + [call] == all[..|calls| + 1];
  }

  /** What one accepted or refused request adds, seen through a later cutoff. */
  lemma PurgedUpdate(limits: Limits, stored: seq<real>, history: seq<real>, t: real, late: real)
    requires t - limits.window <= late
    requires Purged(stored, t - limits.window) == Purged(history, t - limits.window)
    ensures Purged(Updated(limits, stored, t), late)
         == Purged(if Allows(limits, stored, t) then history + [t] else history, late)
  {
    PurgedAppend(Purged(stored, t - limits.window), t, late);
    PurgedAppend(history, t, late);
    PurgedTwice(history, t - limits.window, late);
  }

  /** What a call does to the list and the history of one address. */
  lemma CallEffect(limits: Limits, before: seq<Call>, call: Call, ip: string)
    ensures var stored, stored' := Stored(After(limits, before), ip), Stored(After(limits, before + [call]), ip);
            var history, history' := History(limits, before, ip), History(limits, before + [call], ip);
            if call.ip != ip then stored' == stored && history' == history
            else if call.Reset? then stored' == [] && history' == []
            else stored' == Updated(limits, stored, call.now)
                 && history' == if Allows(limits, stored, call.now) then history + [call.now] else history
  {
    assert (before + [call])[..|before|] == before;
  }

  /** The stored list and the history agree on the window of a request at `now`. */
  ghost predicate Recent(limits: Limits, calls: seq<Call>, ip: string, now: real) {
    && Purged(Stored(After(limits, calls), ip), now - limits.window)
       == Purged(History(limits, calls, ip), now - limits.window)
    && forall t :: t in History(limits, calls, ip) ==> t <= now
  }

  /**
   With a clock that never steps back, the stored list and the full history agree on everything
   inside the window of the next request, and nothing accepted lies in its future.
   */
  lemma {:induction false} StoredIsRecentHistory(limits: Limits, calls: seq<Call>, ip: string, now: real)
    requires ClockRuns(calls + [Ask(ip, now)])
    ensures Recent(limits, calls, ip, now)
  {
    if calls != [] {
      var before, call := calls[..|calls| - 1], calls[|calls| - 1];
      assert calls == before + [call];
      ClockRanBefore(before, call, Ask(ip, now));
      StoredIsRecentHistory(limits, before, ip, now);
      if call.Ask? && call.ip == ip {
        StoredIsRecentHistory(limits, before, ip, call.now);
      }
      RecentStep(limits, before, call, ip, now);
    }
  }

  lemma RecentStep(limits: Limits, before: seq<Call>, call: Call, ip: string, now: real)
    requires Recent(limits, before, ip, now)
    requires call.Ask? && call.ip == ip ==> call.now <= now && Recent(limits, before, ip, call.now)
    ensures Recent(limits, before + [call], ip, now)
  {
    hide After, History, Purged, Updated, Allows;
    CallEffect(limits, before, call, ip);
    if call.ip == ip && call.Ask? {
      PurgedUpdate(limits, Stored(After(limits, before), ip), History(limits, before, ip), call.now,
                   now - limits.window);
    }
  }

  /**
   A request is refused exactly when the window that ends at it, open below and closed above,
   already holds the maximum of accepted requests.
   */
  lemma RefusedIffFull(limits: Limits, calls: seq<Call>, ip: string, now: real)
    requires ClockRuns(calls + [Ask(ip, now)])
    ensures !Accepts(limits, calls, ip, now) <==>
            Count(History(limits, calls, ip), OpenBelow(now - limits.window, now)) >= limits.maxRequests
  {
    StoredIsRecentHistory(limits, calls, ip, now);
    PurgedCounts(History(limits, calls, ip), now - limits.window, now);
  }

  /** The most a window may hold; a negative limit accepts nothing. */
  function Quota(limits: Limits): nat {
    if limits.maxRequests < 0 then 0 else limits.maxRequests
  }

  /**
   No half-open window of the limiter's length, wherever it starts and whichever end is open, ever
   holds more accepted requests from one address than the limit.
   */
  lemma {:induction false} WindowNeverOverfull(limits: Limits, calls: seq<Call>, ip: string, span: Span)
    requires ClockRuns(calls) && span.hi == span.lo + limits.window
    ensures Count(History(limits, calls, ip), span) <= Quota(limits)
  {
    if calls != [] {
      var before, call := calls[..|calls| - 1], calls[|calls| - 1];
      assert calls == before + [call];
      WindowNeverOverfull(limits, before, ip, span);
      CallEffect(limits, before, call, ip);
      if call.Ask? && call.ip == ip && Accepts(limits, before, ip, call.now) {
        AcceptedFits(limits, before, ip, call.now, span);
      }
    }
  }

  /** A window that contains the newest acceptance holds no more than the window ending at it. */
  lemma AcceptedFits(limits: Limits, before: seq<Call>, ip: string, now: real, span: Span)
    requires ClockRuns(before + [Ask(ip, now)]) && span.hi == span.lo + limits.window
    requires Accepts(limits, before, ip, now) && Count(History(limits, before, ip), span) <= Quota(limits)
    ensures Count(History(limits, before, ip) + [now], span) <= Quota(limits)
  {
    var history := History(limits, before, ip);
    CountAppend(history, now, span);
    if span.Contains(now) {
      StoredIsRecentHistory(limits, before, ip, now);
      RefusedIffFull(limits, before, ip, now);
      CountWeakens(history, span, OpenBelow(now - limits.window, now));
    }
  }

  // ----- A clock that may step back -----

  /** `n` acceptances, or `n` requests, at time 0. */
  function Zeros(n: nat): (times: seq<real>)
    ensures |times| == n
  {
    if n == 0 then [] else Zeros(n - 1) + [0.0]
  }

  function Burst(ip: string, n: nat): seq<Call> {
    if n == 0 then [] else Burst(ip, n - 1) + [Ask(ip, 0.0)]
  }

  lemma {:induction false} PurgedZeros(n: nat, cutoff: real)
    ensures Purged(Zeros(n), cutoff) == if cutoff < 0.0 then Zeros(n) else []
  {
    if n > 0 {
      PurgedZeros(n - 1, cutoff);
      PurgedAppend(Zeros(n - 1), 0.0, cutoff);
    }
  }

  lemma {:induction false} CountZeros(n: nat, span: Span)
    ensures Count(Zeros(n), span) == if span.Contains(0.0) then n else 0
  {
    if n > 0 {
      CountZeros(n - 1, span);
      CountAppend(Zeros(n - 1), 0.0, span);
    }
  }

  lemma AskEffect(limits: Limits, before: seq<Call>, ip: string, now: real, kept: seq<real>)
    requires kept == Purged(Stored(After(limits, before), ip), now - limits.window)
    ensures var calls := before + [Ask(ip, now)];
            if |kept| < limits.maxRequests then
              Stored(After(limits, calls), ip) == kept + [now]
              && History(limits, calls, ip) == History(limits, before, ip) + [now]
            else Stored(After(limits, calls), ip) == kept && History(limits, calls, ip) == History(limits, before, ip)
  {
    CallEffect(limits, before, Ask(ip, now), ip);
  }

  lemma {:induction false} BurstFills(limits: Limits, ip: string, n: nat)
    requires limits.window > 0.0 && n <= limits.maxRequests
    ensures Stored(After(limits, Burst(ip, n)), ip) == Zeros(n) == History(limits, Burst(ip, n), ip)
  {
    if n > 0 {
      BurstFills(limits, ip, n - 1);
      BurstStep(limits, ip, n);
    }
  }

  lemma BurstStep(limits: Limits, ip: string, n: nat)
    requires limits.window > 0.0 && 0 < n <= limits.maxRequests
    requires Stored(After(limits, Burst(ip, n - 1)), ip) == Zeros(n - 1) == History(limits, Burst(ip, n - 1), ip)
    ensures Stored(After(limits, Burst(ip, n)), ip) == Zeros(n) == History(limits, Burst(ip, n), ip)
  {
    hide After, History, Purged;
    PurgedZeros(n - 1, 0.0 - limits.window);
    AskEffect(limits, Burst(ip, n - 1), ip, 0.0, Zeros(n - 1));
  }

  /** A full window at time 0, one request at its end, and one for which the clock stepped back half a window. */
  function SteppedBack(limits: Limits, ip: string): seq<Call>
    requires limits.maxRequests >= 0
  {
    Burst(ip, limits.maxRequests) + [Ask(ip, limits.window)] + [Ask(ip, limits.window / 2.0)]
  }

  /** With a quota of two or more a clock that steps back lets one request too many into a window. */
  lemma ClockStepsBack(limits: Limits, ip: string)
    requires limits.maxRequests >= 2 && limits.window > 0.0
    ensures Count(History(limits, SteppedBack(limits, ip), ip), OpenAbove(0.0, limits.window)) == Quota(limits) + 1
  {
    var m, w := limits.maxRequests, limits.window;
    SteppedBackHistory(limits, ip);
    var span := OpenAbove(0.0, w);
    CountZeros(m, span);
    CountAppend(Zeros(m), w, span);
    CountAppend(Zeros(m) + [w], w / 2.0, span);
  }

  lemma SteppedBackHistory(limits: Limits, ip: string)
    requires limits.maxRequests >= 2 && limits.window > 0.0
    ensures History(limits, SteppedBack(limits, ip), ip)
         == Zeros(limits.maxRequests) + [limits.window] + [limits.window / 2.0]
  {
    hide After, History, Purged;
    var m, w := limits.maxRequests, limits.window;
    BurstFills(limits, ip, m);
    PurgedZeros(m, w - w);
    AskEffect(limits, Burst(ip, m), ip, w, []);
    assert [] + [w] == [w];
    PurgedOne(w, w / 2.0 - w);
    AskEffect(limits, Burst(ip, m) + [Ask(ip, w)], ip, w / 2.0, [w]);
  }

  lemma PurgedOne(t: real, cutoff: real)
    ensures Purged([t], cutoff) == if t > cutoff then [t] else []
  {
    assert [t][..0] == [];
  }

  /** Each time is at least `gap` after the one before. */
  ghost predicate Spaced(times: seq<real>, gap: real) {
    forall i, j :: 0 <= i < j < |times| ==> times[i] + gap <= times[j]
  }

  /** With a quota of one the list is the last acceptance, and acceptances are a window apart. */
  lemma {:induction false} OneAtATime(limits: Limits, calls: seq<Call>, ip: string)
    requires limits.maxRequests == 1 && limits.window > 0.0
    ensures var history := History(limits, calls, ip);
            Spaced(history, limits.window) &&
            Stored(After(limits, calls), ip) == if history == [] then [] else [history[|history| - 1]]
  {
    if calls != [] {
      var before, call := calls[..|calls| - 1], calls[|calls| - 1];
      assert calls == before + [call];
      OneAtATime(limits, before, ip);
      hide After, History, Purged;
      var history := History(limits, before, ip);
      if call.Reset? || call.ip != ip {
        CallEffect(limits, before, call, ip);
      } else if history == [] {
        AskEffect(limits, before, ip, call.now, []);
      } else {
        var last := history[|history| - 1];
        PurgedOne(last, call.now - limits.window);
        AskEffect(limits, before, ip, call.now, if last > call.now - limits.window then [last] else []);
      }
    }
  }

  lemma {:induction false} SpacedCount(times: seq<real>, span: Span)
    requires span.lo < span.hi && Spaced(times, span.hi - span.lo)
    ensures Count(times, span) <= 1
    ensures Count(times, span) == 1 ==> exists i :: 0 <= i < |times| && span.Contains(times[i])
  {
    if times != [] {
      SpacedCount(times[..|times| - 1], span);
    }
  }

  lemma {:induction false} EmptySpan(times: seq<real>, span: Span)
    requires span.hi <= span.lo
    ensures Count(times, span) == 0
  {
    if times != [] {
      EmptySpan(times[..|times| - 1], span);
    }
  }

  lemma {:induction false} NothingAccepted(limits: Limits, calls: seq<Call>, ip: string)
    requires limits.maxRequests <= 0
    ensures History(limits, calls, ip) == []
  {
    if calls != [] {
      NothingAccepted(limits, calls[..|calls| - 1], ip);
    }
  }

  lemma SmallQuotaHolds(limits: Limits, calls: seq<Call>, ip: string, span: Span)
    requires limits.maxRequests <= 1 || limits.window <= 0.0
    requires span.hi == span.lo + limits.window
    ensures Count(History(limits, calls, ip), span) <= Quota(limits)
  {
    if limits.window <= 0.0 {
      EmptySpan(History(limits, calls, ip), span);
    } else if limits.maxRequests <= 0 {
      NothingAccepted(limits, calls, ip);
    } else {
      OneAtATime(limits, calls, ip);
      SpacedCount(History(limits, calls, ip), span);
    }
  }

  /**
   Exactly which limits hold whatever the clock does: a quota of at most one, or an empty window.
   Every other limiter depends on a clock that does not step back.
   */
  lemma AnyClockIff(limits: Limits)
    ensures (forall calls, ip, span: Span :: span.hi == span.lo + limits.window ==>
               Count(History(limits, calls, ip), span) <= Quota(limits))
       <==> limits.maxRequests <= 1 || limits.window <= 0.0
  {
    if limits.maxRequests <= 1 || limits.window <= 0.0 {
      forall calls, ip, span: Span | span.hi == span.lo + limits.window
        ensures Count(History(limits, calls, ip), span) <= Quota(limits)
      {
        SmallQuotaHolds(limits, calls, ip, span);
      }
    } else {
      ClockStepsBack(limits, "a");
      var calls, span := SteppedBack(limits, "a"), OpenAbove(0.0, limits.window);
      assert span.hi == span.lo + limits.window && Count(History(limits, calls, "a"), span) > Quota(limits);
    }
  }

  // ----- Addresses do not interfere -----

  function OnlyFor(calls: seq<Call>, ip: string): seq<Call> {
    if calls == [] then []
    else
      var last := calls[|calls| - 1];
      var rest := OnlyFor(calls[..|calls| - 1], ip);
      if last.ip == ip then rest + [last] else rest
  }

  /** What other addresses do never changes the answer an address gets. */
  lemma {:induction false} AddressesAreIndependent(limits: Limits, calls: seq<Call>, ip: string)
    ensures Stored(After(limits, calls), ip) == Stored(After(limits, OnlyFor(calls, ip)), ip)
    ensures forall now :: Accepts(limits, calls, ip, now) <==> Accepts(limits, OnlyFor(calls, ip), ip, now)
  {
    if calls != [] {
      var before, last := calls[..|calls| - 1], calls[|calls| - 1];
      AddressesAreIndependent(limits, before, ip);
      if last.ip == ip {
        assert OnlyFor(calls, ip)[..|OnlyFor(before, ip)|] == OnlyFor(before, ip);
      }
    }
  }
}
