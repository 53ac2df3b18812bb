/** The restart plan's window over whole runs of requests (src/pd/root/restart_plan.c). */
module RestartWindow {
  import opened Words
  import opened RootPolicy
  import opened RestartPlan
  import SpecPage

  /** The tick at which a request is decided. */
  function TickOf(r: RestartPlan.Request): uint64 { r.inputs.now }

  /** Every request is decided by the clock under this window, at ticks that never go back; budgets may change. */
  ghost predicate Timely(requests: seq<RestartPlan.Request>, window: BudgetPolicy) {
    && window.capacity != 0 && window.leakInterval != 0
    && (forall i :: 0 <= i < |requests| ==> InWindow(requests[i].inputs, window))
    && forall i, j :: 0 <= i < j < |requests| ==> TickOf(requests[i]) <= TickOf(requests[j])
  }

  predicate InWindow(inputs: Inputs, window: BudgetPolicy) {
    inputs.timed.enabled && inputs.clockAvailable && inputs.timed.policy == window
  }

  /** How many of the requests with ticks in [lo, hi] the plan resumed. */
  function ResumesIn(requests: seq<RestartPlan.Request>, lo: nat, hi: nat): nat {
    if requests == [] then 0
    else
      var n := |requests| - 1;
      ResumesIn(requests[..n], lo, hi) +
      if lo <= TickOf(requests[n]) <= hi && ActionOf(requests, n).Resume? then 1 else 0
  }

  // ----- the plan's run as a run of the timed decision -----

  /** The window alone, under a lifetime limit no count reaches. */
  function Unlimited(window: BudgetPolicy): BudgetPolicy {
    window.(lifetimeLimit := UINT32_MAX)
  }

  /** What the timed decision is asked so that it does what the plan did. */
  function Asked(action: Action, entry: uint64, now: uint64): RootPolicy.Request {
    RootPolicy.Request(if action.Resume? || action.WindowExhausted? then entry else 0, now, false, action.GiveUp())
  }

  function AllAsked(requests: seq<RestartPlan.Request>): (asked: seq<RootPolicy.Request>)
    ensures |asked| == |requests|
    ensures forall i :: 0 <= i < |requests| ==> asked[i].tick == TickOf(requests[i])
  {
    if requests == [] then []
    else
      var n := |requests| - 1;
      AllAsked(requests[..n]) + [Asked(ActionOf(requests, n), requests[n].inputs.entry, TickOf(requests[n]))]
  }

  /** Gone, then a ceiling of zero, then the ceiling, then the window, then the entry. */
  function Reasoned(retained: SpecPage.Retained, record: ChildRecord, inputs: Inputs, full: bool): Plan {
    var ceiling := AppliedCeiling(retained, inputs);
    var action := if record.state == Gone then IgnoreGone
                  else if ceiling == 0 then BudgetExhausted
                  else if record.lifetimeCount >= ceiling then LifetimeExhausted
                  else if full then WindowExhausted
                  else if inputs.entry == 0 then NoEntry
                  else Resume;
    Plan(action, record, record.state == Live && ceiling == 0)
  }

  /** One request, from any record the window keeps sound. */
  lemma OneAsked(retained: SpecPage.Retained, record: ChildRecord, inputs: Inputs, window: BudgetPolicy, before: nat)
    requires InWindow(inputs, window) && window.capacity != 0 && window.leakInterval != 0
    requires Sound(record, Unlimited(window), before) && before <= inputs.now
    ensures var plan := PlanFor(retained, record, inputs);
            var asked := Asked(plan.action, inputs.entry, inputs.now);
            && Commit(Unlimited(window), record, asked) == plan.next
            && (DecideAt(record, Unlimited(window), asked.entry, asked.tick).action.Resume? <==> plan.action.Resume?)
    ensures PlanFor(retained, record, inputs) ==
            Reasoned(retained, record, inputs,
                     DecideAt(record, Unlimited(window), inputs.entry, inputs.now).action == WindowExhausted)
              .(next := PlanFor(retained, record, inputs).next)
  {
    hide Leaked, SpecPage.SpecBudget;
    LeakedFacts(record, window.leakInterval, inputs.now);
  }

  lemma {:induction false} RunIsAsked(requests: seq<RestartPlan.Request>, window: BudgetPolicy)
    requires Timely(requests, window)
    ensures After(Unlimited(window), AllAsked(requests)) == RecordAfter(requests)
  {
    hide Commit, PlanFor, Asked, Sound, DecideAt;
    AskedInOrder(requests, window);
    if requests != [] {
      var n := |requests| - 1;
      RunIsAsked(requests[..n], window);
      var asked := AllAsked(requests[..n]);
      assert AllAsked(requests)[..n] == asked;
      AskedInOrder(requests[..n], window);
      AfterIsSound(Unlimited(window), asked);
      OneAsked(requests[n].retained, RecordAfter(requests[..n]), requests[n].inputs, window, Latest(asked));
    }
  }

  lemma AskedInOrder(requests: seq<RestartPlan.Request>, window: BudgetPolicy)
    requires Timely(requests, window)
    ensures Ordered(AllAsked(requests))
  {
  }

  lemma {:induction false} ResumesAreAsked(requests: seq<RestartPlan.Request>, window: BudgetPolicy, lo: nat, hi: nat)
    requires Timely(requests, window)
    ensures Resumes(Unlimited(window), AllAsked(requests), lo, hi) == ResumesIn(requests, lo, hi)
  {
    hide Commit, PlanFor, DecideAt, Asked;
    if requests != [] {
      var n := |requests| - 1;
      ResumesAreAsked(requests[..n], window, lo, hi);
      RunIsAsked(requests[..n], window);
      var asked := AllAsked(requests[..n]);
      assert AllAsked(requests)[..n] == asked;
      AskedInOrder(requests[..n], window);
      AfterIsSound(Unlimited(window), asked);
      OneAsked(requests[n].retained, RecordAfter(requests[..n]), requests[n].inputs, window, Latest(asked));
    }
  }

  // ----- the window -----

  /**
   * While the clock decides, whatever budgets apply: the plan resumes a child at most
   * capacity + (hi - lo) / leakInterval times in any closed window of ticks.
   */
  lemma PlanKeepsWindow(requests: seq<RestartPlan.Request>, window: BudgetPolicy, lo: nat, hi: nat)
    requires Timely(requests, window) && lo <= hi
    ensures ResumesIn(requests, lo, hi) <= window.capacity + (hi - lo) / window.leakInterval
  {
    AskedInOrder(requests, window);
    ResumesAreAsked(requests, window, lo, hi);
    SlidingWindow(Unlimited(window), AllAsked(requests), lo, hi);
  }

  /** One more resume now would put more into some window than it may hold. */
  ghost predicate OneMoreBreaks(requests: seq<RestartPlan.Request>, window: BudgetPolicy, now: nat)
    requires window.leakInterval != 0
  {
    exists lo: nat :: lo <= now && ResumesIn(requests, lo, now) + 1 > window.capacity + (now - lo) / window.leakInterval
  }

  /**
   * What the plan decides by the clock, exactly: a live child below its ceiling is given up for its
   * window if and only if one more resume would break the bound, and a ceiling of zero is the one
   * policy that ends timed decisions.
   */
  lemma PlanDecidesExactly(requests: seq<RestartPlan.Request>, next: RestartPlan.Request, window: BudgetPolicy)
    requires Timely(requests + [next], window)
    ensures window.leakInterval != 0
    ensures var record := RecordAfter(requests);
            var ceiling := AppliedCeiling(next.retained, next.inputs);
            var plan := PlanFor(next.retained, record, next.inputs);
            && (plan.action.IgnoreGone? <==> record.state == Gone)
            && (plan.policyInvalid <==> record.state == Live && ceiling == 0)
            && (plan.action.BudgetExhausted? <==> record.state == Live && ceiling == 0)
            && (plan.action.LifetimeExhausted? <==> record.state == Live && 0 < ceiling <= record.lifetimeCount)
            && (record.state == Live && record.lifetimeCount < ceiling ==>
                  && (plan.action.WindowExhausted? <==> OneMoreBreaks(requests, window, TickOf(next)))
                  && (plan.action.NoEntry? <==>
                        !OneMoreBreaks(requests, window, TickOf(next)) && next.inputs.entry == 0))
  {
    hide PlanFor, DecideAt, Commit, After, ResumesIn, Resumes, RecordAfter, Sound, Timely, Ordered, WindowFull,
        OneMoreBreaks;
    TimelyPrefix(requests, next, window);
    RunIsAsked(requests, window);
    var asked := AllAsked(requests);
    AskedInOrder(requests, window);
    AfterIsSound(Unlimited(window), asked);
    var record := RecordAfter(requests);
    OneAsked(next.retained, record, next.inputs, window, Latest(asked));
    if record.state == Live && record.lifetimeCount < AppliedCeiling(next.retained, next.inputs) {
      RefusesExactlyWhenFull(Unlimited(window), asked, next.inputs.entry, TickOf(next));
      FullMeansBreaks(requests, window, TickOf(next));
    }
  }

  lemma TimelyPrefix(requests: seq<RestartPlan.Request>, next: RestartPlan.Request, window: BudgetPolicy)
    requires Timely(requests + [next], window)
    ensures Timely(requests, window) && InWindow(next.inputs, window)
    ensures window.leakInterval != 0 && window.capacity != 0
    ensures requests != [] ==> TickOf(requests[|requests| - 1]) <= TickOf(next)
  {
    var all := requests + [next];
    assert all[|requests|] == next;
    assert forall i :: 0 <= i < |requests| ==> all[i] == requests[i];
  }

  lemma FullMeansBreaks(requests: seq<RestartPlan.Request>, window: BudgetPolicy, now: uint64)
    requires Timely(requests, window) && window.leakInterval != 0
    ensures WindowFull(Unlimited(window), AllAsked(requests), now) <==> OneMoreBreaks(requests, window, now)
  {
    hide ResumesIn, Resumes, Timely, AllAsked;
    var full := Unlimited(window);
    if lo: nat :| lo <= now && Resumes(full, AllAsked(requests), lo, now) ==
                               full.capacity + (now - lo) / full.leakInterval {
      ResumesAreAsked(requests, window, lo, now);
      assert ResumesIn(requests, lo, now) + 1 > window.capacity + (now - lo) / window.leakInterval;
    }
    if lo: nat :| lo <= now && ResumesIn(requests, lo, now) + 1 > window.capacity + (now - lo) / window.leakInterval {
      ResumesAreAsked(requests, window, lo, now);
      PlanKeepsWindow(requests, window, lo, now);
      assert Resumes(full, AllAsked(requests), lo, now) == full.capacity + (now - lo) / full.leakInterval;
    }
  }

  /** A child restarted once at this tick finds a window of one full. */
  lemma SecondCrashIsRefused()
    ensures var inputs := Inputs(0, BudgetLimits(5, 5), 4096, Timed(true, BudgetPolicy(1, 5, 1000), 5), true, 100);
            PlanFor(SpecPage.COMPILED, ChildRecord(1, 1, 100, true, Live), inputs).action == WindowExhausted
  {
    assert SpecPage.SpecBudget(SpecPage.COMPILED, 0, 5, 5) == 5;
  }
}
