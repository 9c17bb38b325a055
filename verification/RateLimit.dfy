/** The shared fixed-window rate limiter, with its background cleanup and a store that may fail. */
module RateLimit {
  import opened Division
  import opened Seqs

  const PURGE_AGE_MS := 3_600_000

  type Key = string

  datatype Counter = Counter(windowStart: int, count: nat)

  type Rows = map<Key, Counter>

  datatype RawLimit = Limit(max: nat, windowMs: nat)

  type Limit = l: RawLimit | l.windowMs > 0 witness Limit(0, 1)

  /** A store error may strike before the update is committed, or after it, when only the reply is lost. */
  datatype Fault = NoFault | BeforeCommit | AfterCommit

  datatype Verdict = Verdict(allowed: bool, remaining: nat, resetAt: int)

  function WindowStart(now: nat, windowMs: nat): nat
    requires windowMs > 0
  {
    now / windowMs * windowMs
  }

  /** One atomic upsert: count within the window, start again in another one. */
  function Upsert(rows: Rows, key: Key, windowStart: int): Rows {
    var count := if key in rows && rows[key].windowStart == windowStart then rows[key].count + 1 else 1;
    rows[key := Counter(windowStart, count)]
  }

  function Purge(rows: Rows, now: nat): Rows {
    map k | k in rows && !(rows[k].windowStart < now - PURGE_AGE_MS) :: rows[k]
  }

  /** The verdict on a call whose upsert made the count `count`, or that met a store error. */
  function Judge(limit: Limit, now: nat, fault: Fault, count: nat, failClosed: bool): Verdict {
    var resetAt := WindowStart(now, limit.windowMs) + limit.windowMs;
    if fault.NoFault? then Verdict(count <= limit.max, if count <= limit.max then limit.max - count else 0, resetAt)
    else if failClosed then Verdict(false, 0, resetAt)
    else Verdict(true, limit.max, resetAt)
  }

  /** The first multiple of the window after `now`. */
  predicate EndsWindow(resetAt: int, now: nat, windowMs: nat)
    requires windowMs > 0
  {
    resetAt % windowMs == 0 && resetAt - windowMs <= now < resetAt
  }

  /** Every verdict tells the end of the window of its call, the first multiple of the width after it. */
  lemma VerdictTellsReset(limit: Limit, now: nat, fault: Fault, count: nat, failClosed: bool)
    ensures EndsWindow(Judge(limit, now, fault, count, failClosed).resetAt, now, limit.windowMs)
  {
    var w, q := limit.windowMs, now / limit.windowMs;
    assert now == q * w + now % w;
    Quotient((q + 1) * w, w, q + 1, 0);
    assert (q + 1) * w == q * w + w;
  }

  /** No other multiple of the width will do. */
  lemma ResetIsUnique(x: int, y: int, now: nat, windowMs: nat)
    requires windowMs > 0 && EndsWindow(x, now, windowMs) && EndsWindow(y, now, windowMs)
    ensures x == y
  {
    var p, q := x / windowMs, y / windowMs;
    assert x == p * windowMs && y == q * windowMs;
    MultipleIsFar(p - q, windowMs);
    assert (p - q) * windowMs == x - y;
  }

  class RateLimitStore {
    var rows: Rows

    constructor ()
      ensures rows == map[]
    {
      rows := map[];
    }

    method CheckRateLimit(key: Key, limit: Limit, now: nat, fault: Fault, failClosed: bool) returns (v: Verdict)
      modifies this
      ensures rows == if fault.BeforeCommit? then old(rows)
                      else Upsert(old(rows), key, WindowStart(now, limit.windowMs))
      ensures v == Judge(limit, now, fault, if fault.NoFault? then rows[key].count else 0, failClosed)
      ensures !fault.NoFault? ==> v.allowed == !failClosed && v.remaining == if failClosed then 0 else limit.max
    {
      var windowStart := WindowStart(now, limit.windowMs);
      var resetAt := windowStart + limit.windowMs;
      if !fault.BeforeCommit? { rows := Upsert(rows, key, windowStart); }
      if fault.NoFault? {
        var count := rows[key].count;
        return Verdict(count <= limit.max, if limit.max >= count then limit.max - count else 0, resetAt);
      }
      if failClosed { return Verdict(false, 0, resetAt); }
      return Verdict(true, limit.max, resetAt);
    }

    method CleanupRateLimitCounters(now: nat)
      modifies this
      ensures forall key :: key in rows <==> key in old(rows) && old(rows)[key].windowStart >= now - PURGE_AGE_MS
      ensures forall key | key in rows :: rows[key] == old(rows)[key]
      ensures rows == Purge(old(rows), now)
    {
      rows := map key | key in rows && !(rows[key].windowStart < now - PURGE_AGE_MS) :: rows[key];
    }
  }

  // ---------------------------------------------------------------------
  // Runs of a fail-closed limiter over any keys, each with its own limit.
  // ---------------------------------------------------------------------

  type Limits = Key -> Limit

  datatype Event =
    | Check(key: Key, now: nat, fault: Fault)
    | Cleanup(now: nat)

  function Apply(rows: Rows, e: Event, limits: Limits): Rows
  {
    match e
    case Check(key, now, fault) =>
      if fault.BeforeCommit? then rows else Upsert(rows, key, WindowStart(now, limits(key).windowMs))
    case Cleanup(now) => Purge(rows, now)
  }

  function RowsAfter(es: seq<Event>, limits: Limits): Rows
  {
    if es == [] then map[] else Apply(RowsAfter(es[..|es| - 1], limits), es[|es| - 1], limits)
  }

  /** The verdict on the call `e` when it comes after `es`. */
  function VerdictAfter(es: seq<Event>, e: Event, limits: Limits, failClosed: bool): Verdict
    requires e.Check?
  {
    var rows := Apply(RowsAfter(es, limits), e, limits);
    Judge(limits(e.key), e.now, e.fault, if e.fault.NoFault? then rows[e.key].count else 0, failClosed)
  }

  /** Is the call `e` allowed by a fail-closed limiter when it comes after `es`? */
  predicate AllowedAfter(es: seq<Event>, e: Event, limits: Limits)
  {
    e.Check? && VerdictAfter(es, e, limits, true).allowed
  }

  /** The clock never runs backwards. */
  predicate Timed(es: seq<Event>) {
    forall i, j | 0 <= i < j < |es| :: es[i].now <= es[j].now
  }

  /** A committed call of `key` in the window that starts at `start`. */
  predicate Counts(e: Event, key: Key, start: int, limits: Limits)
  {
    e.Check? && !e.fault.BeforeCommit? && e.key == key && WindowStart(e.now, limits(e.key).windowMs) == start
  }

  function Count(es: seq<Event>, key: Key, start: int, limits: Limits): nat
  {
    if es == [] then 0
    else Count(es[..|es| - 1], key, start, limits) + if Counts(es[|es| - 1], key, start, limits) then 1 else 0
  }

  /** Purging is harmless within this age, or when there is none. */
  predicate PurgeSafe(es: seq<Event>, key: Key, limits: Limits) {
    limits(key).windowMs <= 3_600_001 || forall e | e in es :: e.Check?
  }

  // ----- Windows -----

  lemma WindowBounds(now: nat, w: nat)
    requires w > 0
    ensures WindowStart(now, w) <= now < WindowStart(now, w) + w
  {
  }

  lemma {:induction false} MulStep(x: nat, y: nat, w: nat)
    requires x < y
    ensures x * w + w <= y * w
    decreases y
  {
    assert y * w == (y - 1) * w + w;
    if x < y - 1 { MulStep(x, y - 1, w); }
  }

  lemma WindowMonotone(a: nat, b: nat, w: nat)
    requires w > 0 && a <= b
    ensures WindowStart(a, w) <= WindowStart(b, w)
  {
    WindowBounds(a, w);
    WindowBounds(b, w);
    var x, y := a / w, b / w;
    if y < x { MulStep(y, x, w); } else if x < y { MulStep(x, y, w); }
  }

  /** A time belongs to the window that holds it. */
  lemma StartOfWindow(now: nat, q: nat, w: nat)
    requires w > 0 && q * w <= now < q * w + w
    ensures WindowStart(now, w) == q * w
  {
    WindowBounds(now, w);
    var x := now / w;
    if x < q { MulStep(x, q, w); } else if q < x { MulStep(q, x, w); }
  }

  // ----- The count the store keeps -----

  /** The count a row holds for a window. */
  function Seen(rows: Rows, key: Key, start: int): nat {
    if key in rows && rows[key].windowStart == start then rows[key].count else 0
  }

  lemma {:induction false} NoneAhead(es: seq<Event>, key: Key, start: int, limits: Limits)
    requires forall e | e in es :: !Counts(e, key, start, limits)
    ensures Count(es, key, start, limits) == 0
    decreases |es|
  {
    if es != [] { NoneAhead(es[..|es| - 1], key, start, limits); }
  }

  /** For the window of the latest event, and every later one, the store has seen exactly what was committed. */
  lemma {:induction false} SeenIsCount(es: seq<Event>, key: Key, start: int, limits: Limits)
    requires Timed(es) && PurgeSafe(es, key, limits)
    requires es != [] ==> WindowStart(es[|es| - 1].now, limits(key).windowMs) <= start
    ensures Seen(RowsAfter(es, limits), key, start) == Count(es, key, start, limits)
    decreases |es|
  {
    if es != [] {
      var init, e := es[..|es| - 1], es[|es| - 1];
      var w := limits(key).windowMs;
      if init != [] { WindowMonotone(init[|init| - 1].now, e.now, w); }
      SeenIsCount(init, key, start, limits);
      WindowBounds(e.now, w);
      if e.Check? && WindowStart(e.now, w) < start {
        forall x | x in init ensures !Counts(x, key, start, limits) {
          WindowMonotone(x.now, e.now, w);
        }
        NoneAhead(init, key, start, limits);
      }
    }
  }

  // ---------------------------------------------------------------------
  // The theorems.
  // ---------------------------------------------------------------------

  /** The count a call makes is one more than the calls of its key committed in its window before it. */
  lemma CountOfCall(es: seq<Event>, e: Event, limits: Limits)
    requires Timed(es + [e]) && e.Check? && e.fault.NoFault? && PurgeSafe(es, e.key, limits)
    ensures Apply(RowsAfter(es, limits), e, limits)[e.key].count
            == Count(es, e.key, WindowStart(e.now, limits(e.key).windowMs), limits) + 1
  {
    TimedPrefix(es, e);
    if es != [] { WindowMonotone(es[|es| - 1].now, e.now, limits(e.key).windowMs); }
    SeenIsCount(es, e.key, WindowStart(e.now, limits(e.key).windowMs), limits);
  }

  /**
   * Exactly the first `max` committed calls of a key in a window are allowed, and each is told how
   * many are left.
   */
  lemma ExactlyTheFirstMax(es: seq<Event>, e: Event, limits: Limits, failClosed: bool)
    requires Timed(es + [e]) && e.Check? && e.fault.NoFault? && PurgeSafe(es, e.key, limits)
    ensures var before := Count(es, e.key, WindowStart(e.now, limits(e.key).windowMs), limits);
            && (VerdictAfter(es, e, limits, failClosed).allowed <==> before < limits(e.key).max)
            && VerdictAfter(es, e, limits, failClosed).remaining
               == if before < limits(e.key).max then limits(e.key).max - before - 1 else 0
  {
    CountOfCall(es, e, limits);
  }

  lemma TimedPrefix(es: seq<Event>, e: Event)
    requires Timed(es + [e])
    ensures Timed(es) && forall x | x in es :: x.now <= e.now
  {
    forall i, j | 0 <= i < j < |es| ensures es[i].now <= es[j].now {
      assert (es + [e])[i] == es[i] && (es + [e])[j] == es[j];
    }
    forall i | 0 <= i < |es| ensures es[i].now <= e.now {
      assert (es + [e])[i] == es[i] && (es + [e])[|es|] == e;
    }
  }

  /**
   * A call that meets a store error is allowed by a fail-open limiter, with all of its limit left, and
   * refused by a fail-closed one, whatever came before.
   */
  lemma StoreErrorDecides(es: seq<Event>, e: Event, limits: Limits)
    requires e.Check? && !e.fault.NoFault?
    ensures var open, closed := VerdictAfter(es, e, limits, false), VerdictAfter(es, e, limits, true);
            && open.allowed && open.remaining == limits(e.key).max
            && !closed.allowed && closed.remaining == 0
  {
  }

  function WithoutCleanup(es: seq<Event>): (r: seq<Event>)
    ensures forall e | e in r :: e.Check? && e in es
  {
    if es == [] then [] else
    WithoutCleanup(es[..|es| - 1]) + if es[|es| - 1].Check? then [es[|es| - 1]] else []
  }

  lemma {:induction false} WithoutCleanupTimed(es: seq<Event>)
    requires Timed(es)
    ensures Timed(WithoutCleanup(es))
    decreases |es|
  {
    if es != [] {
      var init, e := es[..|es| - 1], es[|es| - 1];
      assert es == init + [e];
      TimedPrefix(init, e);
      WithoutCleanupTimed(init);
      TimedAppend(WithoutCleanup(init), e);
    }
  }

  lemma TimedAppend(es: seq<Event>, e: Event)
    requires Timed(es) && forall x | x in es :: x.now <= e.now
    ensures Timed(es + [e])
  {
  }

  lemma CountAppend(es: seq<Event>, e: Event, key: Key, start: int, limits: Limits)
    ensures Count(es + [e], key, start, limits)
            == Count(es, key, start, limits) + if Counts(e, key, start, limits) then 1 else 0
  {
    assert (es + [e])[..|es|] == es;
  }

  lemma WithoutCleanupAppend(es: seq<Event>, e: Event)
    ensures WithoutCleanup(es + [e]) == if e.Check? then WithoutCleanup(es) + [e] else WithoutCleanup(es)
  {
    assert (es + [e])[..|es|] == es;
  }

  lemma {:induction false} WithoutCleanupCount(es: seq<Event>, key: Key, start: int, limits: Limits)
    ensures Count(WithoutCleanup(es), key, start, limits) == Count(es, key, start, limits)
    decreases |es|
  {
    if es != [] {
      var init, e := es[..|es| - 1], es[|es| - 1];
      WithoutCleanupCount(init, key, start, limits);
      SameCountAppend(init, e, key, start, limits);
      InitLast(es);
    }
  }

  lemma SameCountAppend(es: seq<Event>, e: Event, key: Key, start: int, limits: Limits)
    requires Count(WithoutCleanup(es), key, start, limits) == Count(es, key, start, limits)
    ensures Count(WithoutCleanup(es + [e]), key, start, limits) == Count(es + [e], key, start, limits)
  {
    WithoutCleanupAppend(es, e);
    CountAppend(es, e, key, start, limits);
    CountAppend(WithoutCleanup(es), e, key, start, limits);
  }

  /** Cleanups inserted anywhere change no verdict, for windows of up to an hour (and a millisecond). */
  lemma CleanupChangesNoAnswer(es: seq<Event>, e: Event, limits: Limits, failClosed: bool)
    requires Timed(es + [e]) && e.Check? && limits(e.key).windowMs <= 3_600_001
    ensures VerdictAfter(es, e, limits, failClosed) == VerdictAfter(WithoutCleanup(es), e, limits, failClosed)
  {
    if e.fault.NoFault? {
      TimedPrefix(es, e);
      WithoutCleanupTimed(es);
      WithoutCleanupCount(es, e.key, WindowStart(e.now, limits(e.key).windowMs), limits);
      var kept := WithoutCleanup(es);
      TimedAppend(kept, e);
      CountOfCall(es, e, limits);
      CountOfCall(kept, e, limits);
    }
  }

  function Repeat(e: Event, n: nat): (es: seq<Event>)
    ensures |es| == n && forall i | 0 <= i < n :: es[i] == e
  {
    if n == 0 then [] else Repeat(e, n - 1) + [e]
  }

  lemma {:induction false} CountRepeat(e: Event, n: nat, limits: Limits)
    requires e.Check? && e.fault.NoFault?
    ensures Count(Repeat(e, n), e.key, WindowStart(e.now, limits(e.key).windowMs), limits) == n
  {
    if n > 0 {
      CountRepeat(e, n - 1, limits);
      assert Repeat(e, n)[..n - 1] == Repeat(e, n - 1);
    }
  }

  /** `max` calls at the start of the first window, then a cleanup at its end. */
  function Burst(key: Key, limit: Limit): seq<Event> {
    Repeat(Check(key, 0, NoFault), limit.max) + [Cleanup(limit.windowMs - 1)]
  }

  function LateCall(key: Key, limit: Limit): Event {
    Check(key, limit.windowMs - 1, NoFault)
  }

  /** For any longer window a cleanup can hand out a further `max` calls. */
  lemma CleanupHarmsLongWindows(key: Key, limits: Limits)
    requires limits(key).windowMs > 3_600_001 && limits(key).max > 0
    ensures Timed(Burst(key, limits(key)) + [LateCall(key, limits(key))])
    ensures AllowedAfter(Burst(key, limits(key)), LateCall(key, limits(key)), limits)
    ensures !AllowedAfter(WithoutCleanup(Burst(key, limits(key))), LateCall(key, limits(key)), limits)
  {
    var limit := limits(key);
    TimedBurst(key, limit);
    ForgottenCount(key, limits);
    DropsLastCleanup(Repeat(Check(key, 0, NoFault), limit.max), limit.windowMs - 1);
    FullWindow(key, limits);
  }

  /** `max` calls at the start of a window fill it to its end. */
  lemma FullWindow(key: Key, limits: Limits)
    ensures !AllowedAfter(Repeat(Check(key, 0, NoFault), limits(key).max), LateCall(key, limits(key)), limits)
  {
    var first, last := Check(key, 0, NoFault), LateCall(key, limits(key));
    var calls := Repeat(first, limits(key).max);
    StartOfWindow(0, 0, limits(key).windowMs);
    StartOfWindow(last.now, 0, limits(key).windowMs);
    CountRepeat(first, limits(key).max, limits);
    TimedAppend(calls, last);
    ExactlyTheFirstMax(calls, last, limits, true);
  }

  /** A purge at the end of a long first window forgets what was counted in it. */
  lemma ForgottenCount(key: Key, limits: Limits)
    requires limits(key).windowMs > 3_600_001 && limits(key).max > 0
    ensures AllowedAfter(Burst(key, limits(key)), LateCall(key, limits(key)), limits)
  {
    var calls := Repeat(Check(key, 0, NoFault), limits(key).max);
    var purged := Burst(key, limits(key));
    StartOfWindow(limits(key).windowMs - 1, 0, limits(key).windowMs);
    assert purged[..|calls|] == calls;
    assert Seen(RowsAfter(purged, limits), key, 0) == 0;
  }

  lemma TimedBurst(key: Key, limit: Limit)
    ensures Timed(Burst(key, limit) + [LateCall(key, limit)])
  {
    var calls := Repeat(Check(key, 0, NoFault), limit.max);
    TimedAppend(calls, Cleanup(limit.windowMs - 1));
    TimedAppend(Burst(key, limit), LateCall(key, limit));
  }

  lemma {:induction false} KeepsChecks(es: seq<Event>)
    requires forall e | e in es :: e.Check?
    ensures WithoutCleanup(es) == es
    decreases |es|
  {
    if es != [] {
      KeepsChecks(es[..|es| - 1]);
      assert es[|es| - 1] in es;
      InitLast(es);
    }
  }

  lemma DropsLastCleanup(es: seq<Event>, now: nat)
    requires forall e | e in es :: e.Check?
    ensures WithoutCleanup(es + [Cleanup(now)]) == es
  {
    assert (es + [Cleanup(now)])[..|es|] == es;
    KeepsChecks(es);
  }

  /** A limit of zero refuses everything, whatever was purged. */
  lemma ZeroLimitRefuses(es: seq<Event>, e: Event, limits: Limits)
    requires e.Check? && limits(e.key).max == 0
    ensures VerdictAfter(es, e, limits, true)
            == Verdict(false, 0, WindowStart(e.now, limits(e.key).windowMs) + limits(e.key).windowMs)
  {
  }

  /** Cleanups never change a verdict of the fail-closed limiter on `key`. */
  ghost predicate CleanupHarmless(key: Key, limits: Limits) {
    forall es, e | Timed(es + [e]) && e.Check? && e.key == key ::
      VerdictAfter(es, e, limits, true) == VerdictAfter(WithoutCleanup(es), e, limits, true)
  }

  /**
   * So purging at one hour is harmless exactly for windows of at most an hour and a millisecond, or
   * when nothing is allowed anyway.
   */
  lemma CleanupHarmlessIff(key: Key, limits: Limits)
    ensures CleanupHarmless(key, limits) <==> limits(key).windowMs <= 3_600_001 || limits(key).max == 0
  {
    if limits(key).windowMs <= 3_600_001 || limits(key).max == 0 {
      forall es, e | Timed(es + [e]) && e.Check? && e.key == key
        ensures VerdictAfter(es, e, limits, true) == VerdictAfter(WithoutCleanup(es), e, limits, true)
      {
        if limits(key).max == 0 {
          ZeroLimitRefuses(es, e, limits);
          ZeroLimitRefuses(WithoutCleanup(es), e, limits);
        } else {
          CleanupChangesNoAnswer(es, e, limits, true);
        }
      }
    } else {
      CleanupHarmsLongWindows(key, limits);
      assert VerdictAfter(Burst(key, limits(key)), LateCall(key, limits(key)), limits, true)
          != VerdictAfter(WithoutCleanup(Burst(key, limits(key))), LateCall(key, limits(key)), limits, true);
    }
  }

  // ----- Bounds on allowed calls -----

  /** Allowed calls of `key` in `es` with a time from `from` up to `to`. */
  function AllowedBetween(es: seq<Event>, key: Key, from: int, to: int, limits: Limits): nat
  {
    if es == [] then 0 else
    var init, e := es[..|es| - 1], es[|es| - 1];
    AllowedBetween(init, key, from, to, limits)
    + if AllowedAfter(init, e, limits) && e.key == key && from <= e.now <= to then 1 else 0
  }

  /** One window (the `q`-th) allows at most `max` calls, whatever the store errors. */
  lemma {:induction false} WindowBound(es: seq<Event>, key: Key, q: nat, limits: Limits)
    requires Timed(es) && PurgeSafe(es, key, limits)
    ensures var start := q * limits(key).windowMs;
            var allowed := AllowedBetween(es, key, start, start + limits(key).windowMs - 1, limits);
            allowed <= limits(key).max && allowed <= Count(es, key, start, limits)
    decreases |es|
  {
    if es != [] {
      var init, e := es[..|es| - 1], es[|es| - 1];
      var start := q * limits(key).windowMs;
      assert es == init + [e];
      TimedPrefix(init, e);
      WindowBound(init, key, q, limits);
      if AllowedAfter(init, e, limits) && e.key == key && start <= e.now <= start + limits(key).windowMs - 1 {
        StartOfWindow(e.now, q, limits(key).windowMs);
        ExactlyTheFirstMax(init, e, limits, true);
      }
    }
  }

  lemma {:induction false} SpanSplits(es: seq<Event>, key: Key, a: int, b: int, c: int, from: int, to: int,
                                      limits: Limits)
    requires a <= from && to <= c && a <= b <= c
    ensures AllowedBetween(es, key, from, to, limits)
            <= AllowedBetween(es, key, a, b - 1, limits) + AllowedBetween(es, key, b, c, limits)
    decreases |es|
  {
    if es != [] { SpanSplits(es[..|es| - 1], key, a, b, c, from, to, limits); }
  }

  /** Any span of one window width holds at most twice `max` allowed calls, even with a store that fails at will. */
  lemma SpanBound(es: seq<Event>, key: Key, from: nat, limits: Limits)
    requires Timed(es) && PurgeSafe(es, key, limits)
    ensures AllowedBetween(es, key, from, from + limits(key).windowMs, limits) <= 2 * limits(key).max
  {
    var w, q := limits(key).windowMs, from / limits(key).windowMs;
    WindowBounds(from, w);
    NextWindow(q, w);
    WindowBound(es, key, q, limits);
    WindowBound(es, key, q + 1, limits);
    SpanSplits(es, key, q * w, (q + 1) * w, (q + 1) * w + w - 1, from, from + w, limits);
  }

  predicate ChecksOnly(es: seq<Event>) {
    forall e | e in es :: e.Check?
  }

  /** `e` is a call without a fault in the window that starts at `start`, within the span. */
  predicate IsCall(e: Event, start: int, from: int, to: int, limits: Limits) {
    e.Check? && e.fault.NoFault? && from <= e.now <= to && start == WindowStart(e.now, limits(e.key).windowMs)
  }

  lemma AllowedAppend(es: seq<Event>, e: Event, start: int, from: int, to: int, limits: Limits)
    requires IsCall(e, start, from, to, limits) && Timed(es + [e]) && ChecksOnly(es)
    requires Count(es, e.key, start, limits) < limits(e.key).max
    ensures AllowedBetween(es + [e], e.key, from, to, limits) == AllowedBetween(es, e.key, from, to, limits) + 1
    ensures Count(es + [e], e.key, start, limits) == Count(es, e.key, start, limits) + 1
  {
    ExactlyTheFirstMax(es, e, limits, true);
    assert (es + [e])[..|es|] == es;
  }

  lemma OneMoreCall(es: seq<Event>, e: Event, n: nat)
    requires n > 0 && e.Check? && ChecksOnly(es) && Timed(es + Repeat(e, n - 1)) && Timed(es + [e])
    ensures es + Repeat(e, n) == es + Repeat(e, n - 1) + [e]
    ensures ChecksOnly(es + Repeat(e, n - 1)) && Timed(es + Repeat(e, n - 1) + [e])
  {
    var before := es + Repeat(e, n - 1);
    TimedPrefix(es, e);
    forall x | x in before ensures x.Check? && x.now <= e.now { assert x == e || x in es; }
    TimedAppend(before, e);
  }

  /** Calls at one time of a fresh window are all allowed, as many as the limit. */
  lemma {:induction false} FreshWindowAllows(es: seq<Event>, e: Event, n: nat, start: int, from: int, to: int,
                                             limits: Limits)
    requires IsCall(e, start, from, to, limits) && Timed(es + [e]) && ChecksOnly(es)
    requires Count(es, e.key, start, limits) == 0 && n <= limits(e.key).max
    ensures Timed(es + Repeat(e, n)) && Count(es + Repeat(e, n), e.key, start, limits) == n
    ensures AllowedBetween(es + Repeat(e, n), e.key, from, to, limits)
            == AllowedBetween(es, e.key, from, to, limits) + n
    decreases n
  {
    if n == 0 {
      TimedPrefix(es, e);
      assert es + Repeat(e, 0) == es;
    } else {
      FreshWindowAllows(es, e, n - 1, start, from, to, limits);
      OneMoreCall(es, e, n);
      AllowedAppend(es + Repeat(e, n - 1), e, start, from, to, limits);
    }
  }

  lemma FirstCallsAllowed(e: Event, n: nat, from: int, to: int, limits: Limits)
    requires e.Check? && e.fault.NoFault? && from <= e.now <= to && n <= limits(e.key).max
    ensures Timed(Repeat(e, n)) && AllowedBetween(Repeat(e, n), e.key, from, to, limits) == n
  {
    var none: seq<Event> := [];
    assert none + Repeat(e, n) == Repeat(e, n);
    FreshWindowAllows(none, e, n, WindowStart(e.now, limits(e.key).windowMs), from, to, limits);
  }

  /** Calls in the first window do not count in the second. */
  lemma SecondWindowIsFresh(e: Event, n: nat, w: nat, limits: Limits)
    requires e.Check? && w == limits(e.key).windowMs && e.now == w - 1
    ensures WindowStart(w, w) == w && Count(Repeat(e, n), e.key, w, limits) == 0
  {
    StartOfWindow(e.now, 0, w);
    StartOfWindow(w, 1, w);
    forall x | x in Repeat(e, n) ensures !Counts(x, e.key, w, limits) { assert x == e; }
    NoneAhead(Repeat(e, n), e.key, w, limits);
  }

  /**
   * The bound is reached: the limit at the end of the first window and the limit at the start of the
   * second are allowed, twice the limit within a millisecond.
   */
  lemma SpanBoundIsReached(first: Event, second: Event, limits: Limits)
    requires first.Check? && first.fault.NoFault? && second == Check(first.key, first.now + 1, NoFault)
    requires second.now == limits(first.key).windowMs
    ensures var max := limits(first.key).max;
            var es := Repeat(first, max) + Repeat(second, max);
            && Timed(es) && second.now <= first.now + limits(first.key).windowMs
            && AllowedBetween(es, first.key, first.now, second.now, limits) == 2 * max
  {
    var max, calls := limits(first.key).max, Repeat(first, limits(first.key).max);
    FirstCallsAllowed(first, max, first.now, second.now, limits);
    SecondWindowIsFresh(first, max, second.now, limits);
    TimedAppend(calls, second);
    FreshWindowAllows(calls, second, max, second.now, first.now, second.now, limits);
  }

  lemma NextWindow(q: nat, w: nat)
    ensures (q + 1) * w == q * w + w
  {
  }
}
