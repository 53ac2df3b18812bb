/** Root's restart decisions and its sampled clock (src/pd/root/policy/root_policy.h). */
module RootPolicy {
  import opened Words

  datatype ChildState = Live | Gone

  /** Per-child restart accounting. Fresh is the zero-initialised record. */
  datatype ChildRecord = ChildRecord(
    lifetimeCount: uint32,
    windowCount: uint32,
    lastChargeTicks: uint64,
    lastChargeValid: bool,
    state: ChildState)

  const FRESH := ChildRecord(0, 0, 0, false, Live)

  datatype Action = Resume | BudgetExhausted | WindowExhausted | LifetimeExhausted | NoEntry | IgnoreGone
  {
    predicate GiveUp() { !Resume? && !IgnoreGone? }
  }

  /** root_restart_decide: gone, then the budget, then the entry. */
  function Decide(record: ChildRecord, budget: uint32, entry: uint64): Action {
    if record.state == Gone then IgnoreGone
    else if record.lifetimeCount >= budget then BudgetExhausted
    else if entry == 0 then NoEntry
    else Resume
  }

  // ----- the timed decision -----

  datatype BudgetPolicy = BudgetPolicy(capacity: uint32, lifetimeLimit: uint32, leakInterval: uint64)
  {
    predicate Valid() { capacity != 0 && lifetimeLimit != 0 && leakInterval != 0 }
  }

  datatype TimedError = TimedValid | InvalidPolicy | InvalidRecord | ClockRegressed
  datatype TimedDecision = TimedDecision(error: TimedError, action: Action, next: ChildRecord)

  /** The record with the whole leak intervals up to now taken out of its window. */
  function Leaked(record: ChildRecord, interval: uint64, now: uint64): (r: ChildRecord)
    requires interval != 0
    requires record.lastChargeValid ==> record.lastChargeTicks <= now
  {
    if !record.lastChargeValid then record
    else
      var leaked := (now - record.lastChargeTicks) / interval;
      WholeIntervals(now - record.lastChargeTicks, interval);
      if leaked >= record.windowCount then record.(windowCount := 0, lastChargeValid := false)
      else
        Regroup(record.windowCount, leaked, interval);
        record.(windowCount := record.windowCount - leaked,
                lastChargeTicks := record.lastChargeTicks + leaked * interval)
  }

  lemma WholeIntervals(elapsed: nat, interval: nat)
    requires interval != 0
    ensures elapsed / interval * interval <= elapsed < elapsed / interval * interval + interval
    ensures 0 <= elapsed / interval <= elapsed
  {
    var k := elapsed / interval;
    assert elapsed == k * interval + elapsed % interval;
    AtLeast(k, interval);
  }

  lemma AtLeast(k: nat, interval: nat)
    requires interval != 0
    ensures k <= k * interval
  {
    assert k * interval == k + k * (interval - 1);
  }

  lemma Regroup(w: nat, k: nat, interval: nat)
    ensures (w - k) * interval == w * interval - k * interval
  {
  }

  /** root_restart_decide_at. */
  function DecideAt(record: ChildRecord, policy: BudgetPolicy, entry: uint64, now: uint64): TimedDecision {
    if record.state == Gone then TimedDecision(TimedValid, IgnoreGone, record)
    else if !policy.Valid() then TimedDecision(InvalidPolicy, IgnoreGone, record)
    else if record.windowCount > policy.capacity || record.lastChargeValid != (record.windowCount != 0) then
      TimedDecision(InvalidRecord, IgnoreGone, record)
    else if record.lastChargeValid && now < record.lastChargeTicks then
      TimedDecision(ClockRegressed, IgnoreGone, record)
    else if record.lifetimeCount >= policy.lifetimeLimit then TimedDecision(TimedValid, LifetimeExhausted, record)
    else
      var leaked := Leaked(record, policy.leakInterval, now);
      if leaked.windowCount >= policy.capacity then TimedDecision(TimedValid, WindowExhausted, leaked)
      else if entry == 0 then TimedDecision(TimedValid, NoEntry, leaked)
      else TimedDecision(TimedValid, Resume, Charged(leaked, now))
  }

  /** Each error's condition, on any record: nothing is decided then, and the record is as it was. */
  lemma ErrorsExactly(record: ChildRecord, policy: BudgetPolicy, entry: uint64, now: uint64)
    ensures var d := DecideAt(record, policy, entry, now);
            var usable := policy.capacity > 0 && policy.lifetimeLimit > 0 && policy.leakInterval > 0;
            var sound := record.windowCount <= policy.capacity && (record.lastChargeValid <==> record.windowCount > 0);
            && (d.error == InvalidPolicy <==> record.state == Live && !usable)
            && (d.error == InvalidRecord <==> record.state == Live && usable && !sound)
            && (d.error == ClockRegressed <==>
                  record.state == Live && usable && sound && record.windowCount > 0 && now < record.lastChargeTicks)
            && (d.error != TimedValid ==> d.action == IgnoreGone && d.next == record)
            && (record.state == Gone ==> d == TimedDecision(TimedValid, IgnoreGone, record))
  {
    hide Leaked, Charged;
  }

  /** One more restart in the window and in the lifetime. */
  function Charged(record: ChildRecord, now: uint64): ChildRecord
    requires record.windowCount < UINT32_MAX && record.lifetimeCount < UINT32_MAX
  {
    var started := if record.windowCount == 0 then record.(lastChargeTicks := now, lastChargeValid := true) else record;
    started.(windowCount := started.windowCount + 1, lifetimeCount := started.lifetimeCount + 1)
  }

  // ----- runs -----

  /**
   * One restart request. The caller may or may not commit the record of a refused request, and may
   * stop the child afterwards.
   */
  datatype Request = Request(entry: uint64, tick: uint64, commitRefusal: bool, stops: bool)

  ghost predicate Ordered(requests: seq<Request>) {
    forall i, j :: 0 <= i < j < |requests| ==> requests[i].tick <= requests[j].tick
  }

  function Commit(policy: BudgetPolicy, record: ChildRecord, request: Request): ChildRecord {
    var d := DecideAt(record, policy, request.entry, request.tick);
    var next := if d.action.Resume? || request.commitRefusal then d.next else record;
    if request.stops then next.(state := Gone) else next
  }

  /** The record after a series of requests, from a fresh one. */
  function After(policy: BudgetPolicy, requests: seq<Request>): ChildRecord {
    if requests == [] then FRESH
    else
      var n := |requests| - 1;
      Commit(policy, After(policy, requests[..n]), requests[n])
  }

  /** How many of the requests with ticks in [lo, hi] resumed the child. */
  function Resumes(policy: BudgetPolicy, requests: seq<Request>, lo: nat, hi: nat): nat {
    if requests == [] then 0
    else
      var n := |requests| - 1;
      var last := requests[n];
      var d := DecideAt(After(policy, requests[..n]), policy, last.entry, last.tick);
      Resumes(policy, requests[..n], lo, hi) + (if lo <= last.tick <= hi && d.action.Resume? then 1 else 0)
  }

  // ----- what one request does to the window -----

  /** What every reachable record satisfies; now is the latest tick. */
  ghost predicate Sound(record: ChildRecord, policy: BudgetPolicy, now: nat) {
    && record.windowCount <= policy.capacity
    && record.lastChargeValid == (record.windowCount != 0)
    && (record.lastChargeValid ==> record.lastChargeTicks <= now)
  }

  /** The tick by which the window will have leaked empty. */
  function DrainedAt(record: ChildRecord, interval: nat): nat {
    record.windowCount * interval + record.lastChargeTicks
  }

  /** The tick from which the window is, or will be, empty. */
  function IdleFrom(record: ChildRecord, interval: nat, now: nat): nat {
    if record.lastChargeValid then DrainedAt(record, interval) else now
  }

  /** Leaking neither brings forward nor delays the tick at which the window drains. */
  lemma LeakedFacts(record: ChildRecord, interval: uint64, now: uint64)
    requires interval != 0
    requires record.lastChargeValid == (record.windowCount != 0)
    requires record.lastChargeValid ==> record.lastChargeTicks <= now
    ensures var r := Leaked(record, interval, now);
            && r.windowCount <= record.windowCount
            && r.lastChargeValid == (r.windowCount != 0)
            && (r.lastChargeValid ==>
                  && record.lastChargeValid
                  && record.lastChargeTicks <= r.lastChargeTicks <= now < r.lastChargeTicks + interval
                  && DrainedAt(r, interval) == DrainedAt(record, interval) > now)
            && (record.lastChargeValid && !r.lastChargeValid ==> DrainedAt(record, interval) <= now)
            && r.lifetimeCount == record.lifetimeCount && r.state == record.state
  {
    if record.lastChargeValid {
      var k := (now - record.lastChargeTicks) / interval;
      WholeIntervals(now - record.lastChargeTicks, interval);
      if k >= record.windowCount {
        Scaled(record.windowCount, k, interval);
      } else {
        Regroup(record.windowCount, k, interval);
        OneMore(k, record.windowCount, interval);
      }
    }
  }

  /** A request leaves the drain tick alone, sees the window drain, or adds one interval to it. */
  lemma CommitFacts(policy: BudgetPolicy, record: ChildRecord, request: Request, before: nat)
    requires policy.Valid() && Sound(record, policy, before) && before <= request.tick
    ensures var d := DecideAt(record, policy, request.entry, request.tick);
            var next := Commit(policy, record, request);
            var interval, now := policy.leakInterval, request.tick;
            && d.error == TimedValid && Sound(next, policy, now)
            && (!d.action.Resume? ==>
                  && (next.lastChargeValid ==>
                        && record.lastChargeValid && record.lastChargeTicks <= next.lastChargeTicks
                        && DrainedAt(next, interval) == DrainedAt(record, interval))
                  && (record.lastChargeValid && !next.lastChargeValid ==> DrainedAt(record, interval) <= now))
            && (d.action.Resume? ==>
                  && next.lastChargeValid
                  && if record.lastChargeValid && DrainedAt(record, interval) > now then
                       && DrainedAt(next, interval) == DrainedAt(record, interval) + interval
                       && record.lastChargeTicks <= next.lastChargeTicks
                     else
                       && IdleFrom(record, interval, before) <= now
                       && next.lastChargeTicks == now && DrainedAt(next, interval) == now + interval)
  {
    hide Leaked, DrainedAt;
    LeakedFacts(record, policy.leakInterval, request.tick);
    var leaked := Leaked(record, policy.leakInterval, request.tick);
    if DecideAt(record, policy, request.entry, request.tick).action.Resume? {
      ChargedDrains(leaked, policy.leakInterval, request.tick, request.stops);
    }
    StateApart(leaked, policy.leakInterval);
    StateApart(record, policy.leakInterval);
  }

  lemma ChargedDrains(record: ChildRecord, interval: uint64, now: uint64, stops: bool)
    requires record.windowCount < UINT32_MAX && record.lifetimeCount < UINT32_MAX
    ensures var c := Charged(record, now);
            DrainedAt(if stops then c.(state := Gone) else c, interval) ==
            (if record.windowCount == 0 then now else DrainedAt(record, interval)) + interval
  {
    assert (record.windowCount + 1) * interval == record.windowCount * interval + interval;
  }

  lemma StateApart(record: ChildRecord, interval: uint64)
    ensures DrainedAt(record.(state := Gone), interval) == DrainedAt(record, interval)
  {
  }

  // ----- the sliding window -----

  function Latest(requests: seq<Request>): nat {
    if requests == [] then 0 else requests[|requests| - 1].tick
  }

  lemma {:induction false} AfterIsSound(policy: BudgetPolicy, requests: seq<Request>)
    requires policy.Valid() && Ordered(requests)
    ensures Sound(After(policy, requests), policy, Latest(requests))
  {
    hide Commit;
    if requests != [] {
      var n := |requests| - 1;
      AfterIsSound(policy, requests[..n]);
      CommitFacts(policy, After(policy, requests[..n]), requests[n], Latest(requests[..n]));
    }
  }

  /** The record kept by a run never reads as corrupt and the clock never reads as regressed. */
  lemma ErrorsUnreachable(policy: BudgetPolicy, requests: seq<Request>, entry: uint64, now: uint64)
    requires policy.Valid() && Ordered(requests) && Latest(requests) <= now
    ensures DecideAt(After(policy, requests), policy, entry, now).error == TimedValid
  {
    AfterIsSound(policy, requests);
    CommitFacts(policy, After(policy, requests), Request(entry, now, false, false), Latest(requests));
  }

  /** What the last request adds to the count, in leak intervals. */
  lemma CountOne(policy: BudgetPolicy, requests: seq<Request>, lo: nat, hi: nat)
    requires requests != [] && lo <= requests[|requests| - 1].tick <= hi
    ensures var n := |requests| - 1;
            var d := DecideAt(After(policy, requests[..n]), policy, requests[n].entry, requests[n].tick);
            Resumes(policy, requests, lo, hi) * policy.leakInterval ==
            Resumes(policy, requests[..n], lo, hi) * policy.leakInterval
                + (if d.action.Resume? then policy.leakInterval else 0)
  {
    hide DecideAt, After;
    var c := Resumes(policy, requests[..|requests| - 1], lo, hi);
    assert (c + 1) * policy.leakInterval == c * policy.leakInterval + policy.leakInterval;
  }

  /** Every resume since lo is paid for by an interval before the window drains. */
  lemma {:induction false} ResumesArePaid(policy: BudgetPolicy, requests: seq<Request>, lo: nat, hi: nat)
    requires policy.Valid() && Ordered(requests) && Latest(requests) <= hi
    ensures var c := Resumes(policy, requests, lo, hi);
            var idle := IdleFrom(After(policy, requests), policy.leakInterval, Latest(requests));
            c > 0 ==> c * policy.leakInterval <= idle - lo
  {
    hide Commit, DecideAt, DrainedAt;
    if requests != [] {
      var n := |requests| - 1;
      var prefix, last := requests[..n], requests[n];
      AfterIsSound(policy, prefix);
      ResumesArePaid(policy, prefix, lo, hi);
      CommitFacts(policy, After(policy, prefix), last, Latest(prefix));
      if lo <= last.tick {
        CountOne(policy, requests, lo, hi);
      }
    }
  }

  /**
   * Every closed window of ticks [lo, hi] holds at most capacity + (hi - lo) / leakInterval resumes,
   * whatever is asked, committed or stopped.
   */
  lemma {:induction false} SlidingWindow(policy: BudgetPolicy, requests: seq<Request>, lo: nat, hi: nat)
    requires policy.Valid() && Ordered(requests) && lo <= hi
    ensures Resumes(policy, requests, lo, hi) <= policy.capacity + (hi - lo) / policy.leakInterval
  {
    hide Commit, DecideAt, DrainedAt;
    if requests != [] {
      var n := |requests| - 1;
      if lo <= requests[n].tick <= hi {
        ResumesArePaid(policy, requests, lo, hi);
        AfterIsSound(policy, requests);
        IdleWithin(policy, After(policy, requests), requests[n].tick);
        CountWithin(Resumes(policy, requests, lo, hi), policy.capacity, policy.leakInterval, hi - lo);
      } else {
        SlidingWindow(policy, requests[..n], lo, hi);
      }
    }
  }

  lemma IdleWithin(policy: BudgetPolicy, record: ChildRecord, now: nat)
    requires Sound(record, policy, now)
    ensures IdleFrom(record, policy.leakInterval, now) <= policy.capacity * policy.leakInterval + now
  {
    Scaled(record.windowCount, policy.capacity, policy.leakInterval);
    Scaled(0, policy.capacity, policy.leakInterval);
  }

  /** The division test for a product that may not fit. */
  lemma Fits(a: nat, b: nat, max: nat)
    requires b != 0
    ensures a <= max / b <==> a * b <= max
  {
    WholeIntervals(max, b);
    if a <= max / b {
      Scaled(a, max / b, b);
    } else {
      OneMore(max / b, a, b);
    }
  }

  lemma Scaled(a: nat, b: nat, interval: nat)
    requires a <= b
    ensures a * interval <= b * interval
  {
  }

  lemma CountWithin(c: nat, capacity: nat, interval: nat, span: nat)
    requires interval != 0 && (c > 0 ==> c * interval <= capacity * interval + span)
    ensures c <= capacity + span / interval
  {
    if c > capacity {
      Regroup(c, capacity, interval);
      Quotient(c - capacity, interval, span);
    }
  }

  lemma Quotient(k: nat, interval: nat, span: nat)
    requires interval != 0
    ensures k * interval <= span ==> k <= span / interval
    ensures k * interval <= span < k * interval + interval ==> k == span / interval
  {
    WholeIntervals(span, interval);
    var q := span / interval;
    if k > q {
      OneMore(q, k, interval);
    } else if k < q {
      OneMore(k, q, interval);
    }
  }

  lemma OneMore(a: nat, b: nat, interval: nat)
    requires a < b
    ensures a * interval + interval <= b * interval
  {
    Regroup(b, a + 1, interval);
    assert (a + 1) * interval == a * interval + interval;
  }

  // ----- the bound is exactly what is enforced -----

  /** A window that has drained holds no resume from then on. */
  lemma {:induction false} NoResumesOnceIdle(policy: BudgetPolicy, requests: seq<Request>, lo: nat, hi: nat)
    requires policy.Valid() && Ordered(requests) && Latest(requests) <= hi
    requires IdleFrom(After(policy, requests), policy.leakInterval, Latest(requests)) <= lo
    ensures Resumes(policy, requests, lo, hi) == 0
  {
    hide Commit, DecideAt, DrainedAt;
    if requests != [] {
      var n := |requests| - 1;
      AfterIsSound(policy, requests[..n]);
      CommitFacts(policy, After(policy, requests[..n]), requests[n], Latest(requests[..n]));
      NoResumesOnceIdle(policy, requests[..n], lo, hi);
    }
  }

  /** While the window is not empty, the resumes since it last was add up exactly to its drain tick. */
  lemma {:induction false} BusyPeriod(policy: BudgetPolicy, requests: seq<Request>, hi: nat) returns (lo: nat)
    requires policy.Valid() && Ordered(requests) && Latest(requests) <= hi
    requires After(policy, requests).lastChargeValid
    ensures var record := After(policy, requests);
            && lo <= record.lastChargeTicks
            && Resumes(policy, requests, lo, hi) * policy.leakInterval == DrainedAt(record, policy.leakInterval) - lo
  {
    hide Commit, DecideAt, DrainedAt, Resumes;
    var n := |requests| - 1;
    var prefix, last := requests[..n], requests[n];
    var record := After(policy, prefix);
    var d := DecideAt(record, policy, last.entry, last.tick);
    AfterIsSound(policy, prefix);
    AfterIsSound(policy, requests);
    CommitFacts(policy, record, last, Latest(prefix));
    if d.action.Resume? && IdleFrom(record, policy.leakInterval, Latest(prefix)) <= last.tick {
      lo := last.tick;
      NoResumesOnceIdle(policy, prefix, lo, hi);
      CountOne(policy, requests, lo, hi);
    } else {
      lo := BusyPeriod(policy, prefix, hi);
      CountOne(policy, requests, lo, hi);
    }
  }

  /** Some closed window ending now already holds all the resumes it may. */
  ghost predicate WindowFull(policy: BudgetPolicy, requests: seq<Request>, now: nat)
    requires policy.Valid()
  {
    exists lo: nat ::
      lo <= now && Resumes(policy, requests, lo, now) == policy.capacity + (now - lo) / policy.leakInterval
  }

  /**
   * A live child with lifetime left is refused for its window exactly when resuming it now would
   * put more resumes in some window than the policy allows.
   */
  lemma RefusesExactlyWhenFull(policy: BudgetPolicy, requests: seq<Request>, entry: uint64, now: uint64)
    requires policy.Valid() && Ordered(requests) && Latest(requests) <= now
    requires var record := After(policy, requests);
             record.state == Live && record.lifetimeCount < policy.lifetimeLimit
    ensures DecideAt(After(policy, requests), policy, entry, now).action == WindowExhausted <==>
            WindowFull(policy, requests, now)
  {
    hide Leaked, After;
    var record := After(policy, requests);
    AfterIsSound(policy, requests);
    LeakedFacts(record, policy.leakInterval, now);
    if DecideAt(record, policy, entry, now).action == WindowExhausted {
      FullWhenRefused(policy, requests, now);
    } else {
      forall lo: nat | lo <= now
        ensures Resumes(policy, requests, lo, now) < policy.capacity + (now - lo) / policy.leakInterval
      {
        RoomForOneMore(policy, requests, lo, now);
      }
    }
  }

  /** A child that would be resumed now, given an entry, leaves room in every window ending now. */
  lemma RoomForOneMore(policy: BudgetPolicy, requests: seq<Request>, lo: nat, now: uint64)
    requires policy.Valid() && Ordered(requests) && Latest(requests) <= now && lo <= now
    requires DecideAt(After(policy, requests), policy, 1, now).action.Resume?
    ensures Resumes(policy, requests, lo, now) < policy.capacity + (now - lo) / policy.leakInterval
  {
    hide DecideAt, Commit;
    var more := requests + [Request(1, now, false, false)];
    assert more[..|more| - 1] == requests;
    SlidingWindow(policy, more, lo, now);
  }

  lemma FullWhenRefused(policy: BudgetPolicy, requests: seq<Request>, now: uint64)
    requires policy.Valid() && Ordered(requests) && Latest(requests) <= now
    requires Sound(After(policy, requests), policy, Latest(requests))
    requires Leaked(After(policy, requests), policy.leakInterval, now).windowCount >= policy.capacity
    ensures WindowFull(policy, requests, now)
  {
    hide Leaked, After, Resumes;
    var interval := policy.leakInterval;
    var record := After(policy, requests);
    var leaked := Leaked(record, interval, now);
    LeakedFacts(record, interval, now);
    var lo := BusyPeriod(policy, requests, now);
    var c := Resumes(policy, requests, lo, now);
    assert c * interval == policy.capacity * interval + leaked.lastChargeTicks - lo;
    FullCount(c, policy.capacity, interval, leaked.lastChargeTicks - lo, now - lo);
  }

  lemma FullCount(c: nat, capacity: nat, interval: nat, leaked: nat, span: nat)
    requires interval != 0 && c * interval == capacity * interval + leaked && leaked <= span < leaked + interval
    ensures c == capacity + span / interval
  {
    if c < capacity {
      OneMore(c, capacity, interval);
    } else {
      Regroup(c, capacity, interval);
      Quotient(c - capacity, interval, span);
    }
  }

  // ----- the sampled clock -----

  datatype ClockResult = ClockOk | BadFrequency | Regressed | BadInterval | IntervalOverflow

  class Clock {
    var ticksPerMs: uint64
    var lastTicks: uint64
    var seen: bool
    var available: bool

    /** root_clock_init. A tick is never shorter than the frequency says: the rate is rounded up. */
    method Init(frequencyHz: uint64, minimumHz: uint64, maximumHz: uint64) returns (result: ClockResult)
      modifies this
      ensures result == if 1000 <= minimumHz <= frequencyHz <= maximumHz then ClockOk else BadFrequency
      ensures available <==> result == ClockOk
      ensures !seen
      ensures available ==> 1000 * (ticksPerMs - 1) < frequencyHz <= 1000 * ticksPerMs
    {
      ticksPerMs, lastTicks, seen, available := 0, 0, false, false;
      if minimumHz < 1000 || minimumHz > maximumHz || frequencyHz < minimumHz || frequencyHz > maximumHz {
        return BadFrequency;
      }
      ticksPerMs := frequencyHz / 1000 + (if frequencyHz % 1000 != 0 then 1 else 0);
      available := true;
      return ClockOk;
    }

    /** root_clock_observe: a sample is accepted only if none before it was later; a loss is for good. */
    method Observe(ticks: uint64) returns (result: ClockResult)
      modifies this
      ensures ticksPerMs == old(ticksPerMs)
      ensures available <==> old(available) && ticksPerMs != 0 && (old(seen) ==> old(lastTicks) <= ticks)
      ensures available <==> result == ClockOk
      ensures result == ClockOk ==> seen && lastTicks == ticks
      ensures result == Regressed ==> old(seen) && ticks < old(lastTicks)
      ensures result != ClockOk ==> seen == old(seen) && lastTicks == old(lastTicks)
      ensures old(available) && ticksPerMs != 0 && result != ClockOk ==> result == Regressed
    {
      if !available {
        return BadFrequency;
      }
      if ticksPerMs == 0 {
        available := false;
        return BadFrequency;
      }
      if seen && ticks < lastTicks {
        available := false;
        return Regressed;
      }
      seen := true;
      lastTicks := ticks;
      return ClockOk;
    }

    /** root_clock_interval: the product, unless it does not fit 64 bits. */
    method Interval(milliseconds: uint64) returns (result: ClockResult, ticks: uint64)
      ensures result == ClockOk ==> ticks == milliseconds * ticksPerMs != 0
      ensures result == IntervalOverflow <==> available && milliseconds * ticksPerMs > UINT64_MAX
      ensures result == BadInterval <==> available && ticksPerMs != 0 && milliseconds == 0
      ensures result == BadFrequency <==> !available || ticksPerMs == 0
    {
      ticks := 0;
      if !available || ticksPerMs == 0 {
        return BadFrequency, 0;
      }
      if milliseconds == 0 {
        return BadInterval, 0;
      }
      Fits(milliseconds, ticksPerMs, UINT64_MAX);
      if milliseconds > UINT64_MAX / ticksPerMs {
        return IntervalOverflow, 0;
      }
      AtLeast(milliseconds, ticksPerMs);
      return ClockOk, milliseconds * ticksPerMs;
    }
  }
}
