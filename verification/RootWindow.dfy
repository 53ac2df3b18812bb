/** Each child's budget and window over whole runs of Root's callbacks (src/pd/root/main.c). */
module RootWindow {
  import opened Words
  import opened SpecPage
  import opened RootPolicy
  import opened RestartPlan
  import opened RestartWindow
  import opened Command
  import opened RootMain
  import opened RootRuns

  /** The child a callback decides about, and Root as it is when root_restart_child is called. */
  datatype Decides = Decides(child: Child, root: RootState, sample: Sample)

  ghost function DecidesIn(s: RootState, cb: Callback, config: Config): Option<Decides> {
    match cb
    case OnCommand(channel, ppChannel, tag, count, args, sample) =>
      if FrameResult(channel, ppChannel, tag, count) != Ok then None
      else
        var ticks := Ticks(sample.entryTicks, sample.before);
        var step := Decided(s.command, ViewOf(s, config), tag, args, ticks, sample.before);
        if !step.decision.restart then None
        else
          RestartNamesChild(s.command, ViewOf(s, config), tag, args, ticks, sample.before);
          Some(Decides(step.decision.child, s.(command := step.state), sample))
    case OnFault(raw, tag, count, mr0, mr1, sample) =>
      if raw >= CHILD_COUNT || raw !in s.publisher.present then None
      else
        var stamp := Ticks(sample.entryTicks, sample.before);
        Some(Decides(raw, FaultTaken(s, raw, tag, count, mr0, mr1, stamp, sample.before), sample))
    case OnDebugRestart(child, sample) => Some(Decides(child, s, sample))
    case OnFaultInject(_, _) => None
  }

  ghost function ActionIn(d: Decides, config: Config): Action {
    RestartChild(d.root, d.child, config, d.sample).action
  }

  /** The request the plan is given, under the policy Root retains after its refresh. */
  ghost function RequestIn(d: Decides, config: Config): RestartPlan.Request {
    RestartPlan.Request(Refreshed(d.root, config, d.sample).0.spec.retained, InputsFor(config, d.child, d.sample))
  }

  /** A callback changes at most the record of the child it decides about, to the plan's. */
  lemma CallbackCommits(s: RootState, cb: Callback, config: Config)
    ensures var d, t := DecidesIn(s, cb, config), Handled(s, cb, config).state;
            if d.None? then t.records == s.records
            else
              var r := RequestIn(d.value, config);
              var plan := PlanFor(r.retained, s.records[d.value.child], r.inputs);
              t.records == s.records[d.value.child := plan.next] && ActionIn(d.value, config) == plan.action
  {
    hide RestartChild, Concluded, Answered, Decided, PublishedBy, FaultTaken, RequestIn;
    match cb
    case OnCommand(channel, ppChannel, tag, count, args, sample) =>
      if FrameResult(channel, ppChannel, tag, count) == Ok {
        var ticks := Ticks(sample.entryTicks, sample.before);
        var step := Decided(s.command, ViewOf(s, config), tag, args, ticks, sample.before);
        if step.decision.restart {
          RestartNamesChild(s.command, ViewOf(s, config), tag, args, ticks, sample.before);
          PerformCommits(s.(command := step.state), step.decision, config, sample);
        }
      }
    case OnFault(raw, tag, count, mr0, mr1, sample) =>
      if raw < CHILD_COUNT && raw in s.publisher.present {
        var stamp := Ticks(sample.entryTicks, sample.before);
        var noted := FaultTaken(s, raw, tag, count, mr0, mr1, stamp, sample.before);
        NotingKeepsRecords(s, raw, tag, count, mr0, mr1, stamp, sample.before);
        RestartCommits(noted, raw, config, sample);
        ConcludedIsOnward(RestartChild(noted, raw, config, sample), raw,
                          [FaultEvent(raw, tag, count, mr0, mr1, stamp)], sample);
      }
    case OnDebugRestart(child, sample) =>
      RestartCommits(s, child, config, sample);
      ConcludedIsOnward(RestartChild(s, child, config, sample), child, [], sample);
    case OnFaultInject(child, sample) =>
      PublishIsOnward(s, child, [InjectEvent(child, sample)], Ticks(sample.publishTicks, sample.before), sample.before);
  }

  lemma NotingKeepsRecords(s: RootState, child: Child, tag: uint64, count: nat, mr0: uint64, mr1: uint64,
                           stamp: uint64, valid: bool)
    ensures FaultTaken(s, child, tag, count, mr0, mr1, stamp, valid).records == s.records
  {
  }

  lemma RestartCommits(s: RootState, child: Child, config: Config, sample: Sample)
    ensures var r, request := RestartChild(s, child, config, sample), RequestIn(Decides(child, s, sample), config);
            var plan := PlanFor(request.retained, s.records[child], request.inputs);
            r.state.records == s.records[child := plan.next] && r.action == plan.action
  {
    hide Refreshed, PlanFor;
    RefreshKeepsSequence(s, config, sample);
    var request := RequestIn(Decides(child, s, sample), config);
    CommitsThePlan(request.retained, s.records[child], request.inputs);
  }

  lemma PerformCommits(s: RootState, d: Decision, config: Config, sample: Sample)
    requires d.child < CHILD_COUNT
    ensures var request := RequestIn(Decides(d.child, s, sample), config);
            PerformRestart(s, d, config, sample).state.records ==
            s.records[d.child := PlanFor(request.retained, s.records[d.child], request.inputs).next]
    ensures var request := RequestIn(Decides(d.child, s, sample), config);
            ActionIn(Decides(d.child, s, sample), config) ==
            PlanFor(request.retained, s.records[d.child], request.inputs).action
  {
    hide RestartChild, Concluded, RequestIn;
    RestartCommits(s, d.child, config, sample);
    ConcludedIsOnward(RestartChild(s, d.child, config, sample), d.child, [ControlEvent(d, sample)], sample);
  }

  // ----- over runs -----

  /** What the plan was asked about one child, in order. */
  ghost function RequestsOf(start: RootState, callbacks: seq<Callback>, config: Config, child: Child)
    : seq<RestartPlan.Request>
  {
    if callbacks == [] then []
    else
      var n := |callbacks| - 1;
      var earlier := RequestsOf(start, callbacks[..n], config, child);
      var d := DecidesIn(RootRuns.After(start, callbacks[..n], config).state, callbacks[n], config);
      if d.Some? && d.value.child == child then earlier + [RequestIn(d.value, config)] else earlier
  }

  /** How often Root's callbacks resumed a child at decision ticks in [lo, hi]. */
  ghost function ResumedBetween(start: RootState, callbacks: seq<Callback>, config: Config, child: Child, lo: nat,
                                hi: nat): nat
  {
    if callbacks == [] then 0
    else
      var n := |callbacks| - 1;
      var d := DecidesIn(RootRuns.After(start, callbacks[..n], config).state, callbacks[n], config);
      ResumedBetween(start, callbacks[..n], config, child, lo, hi) +
      if d.Some? && d.value.child == child && lo <= d.value.sample.clockTicks <= hi &&
         ActionIn(d.value, config).Resume? then 1 else 0
  }

  /** Root's record of a child is the plan's, request after request. */
  lemma {:induction false} RecordsArePlanned(start: RootState, callbacks: seq<Callback>, config: Config, child: Child)
    requires start.records[child] == FRESH
    ensures RootRuns.After(start, callbacks, config).state.records[child] ==
            RecordAfter(RequestsOf(start, callbacks, config, child))
  {
    hide Handled, DecidesIn, RequestIn, PlanFor, ActionIn;
    if callbacks != [] {
      var n := |callbacks| - 1;
      RecordsArePlanned(start, callbacks[..n], config, child);
      var s := RootRuns.After(start, callbacks[..n], config).state;
      CallbackCommits(s, callbacks[n], config);
      var d := DecidesIn(s, callbacks[n], config);
      if d.Some? && d.value.child == child {
        var earlier := RequestsOf(start, callbacks[..n], config, child);
        assert (earlier + [RequestIn(d.value, config)])[..|earlier|] == earlier;
      }
    }
  }

  lemma {:induction false} ResumesArePlanned(start: RootState, callbacks: seq<Callback>, config: Config, child: Child,
                                             lo: nat, hi: nat)
    requires start.records[child] == FRESH
    ensures ResumedBetween(start, callbacks, config, child, lo, hi) ==
            ResumesIn(RequestsOf(start, callbacks, config, child), lo, hi)
  {
    hide Handled, DecidesIn, PlanFor, ActionIn, Refreshed;
    if callbacks != [] {
      var n := |callbacks| - 1;
      ResumesArePlanned(start, callbacks[..n], config, child, lo, hi);
      RecordsArePlanned(start, callbacks[..n], config, child);
      var s := RootRuns.After(start, callbacks[..n], config).state;
      CallbackCommits(s, callbacks[n], config);
      var d := DecidesIn(s, callbacks[n], config);
      if d.Some? && d.value.child == child {
        var earlier := RequestsOf(start, callbacks[..n], config, child);
        var all := earlier + [RequestIn(d.value, config)];
        assert all[..|earlier|] == earlier;
      }
    }
  }

  /** Every sample finds the clock standing, at ticks that never go back. */
  predicate SampledInOrder(callbacks: seq<Callback>) {
    && (forall i :: 0 <= i < |callbacks| ==> callbacks[i].sample.available)
    && forall i, j :: 0 <= i < j < |callbacks| ==> callbacks[i].sample.clockTicks <= callbacks[j].sample.clockTicks
  }

  /** A timed policy is in force. */
  predicate TimedBy(config: Config, window: BudgetPolicy) {
    config.timed.enabled && config.timed.policy == window && window.capacity != 0 && window.leakInterval != 0
  }

  lemma RequestIsTimely(s: RootState, cb: Callback, config: Config, window: BudgetPolicy)
    requires TimedBy(config, window) && cb.sample.available && DecidesIn(s, cb, config).Some?
    ensures var r := RequestIn(DecidesIn(s, cb, config).value, config);
            InWindow(r.inputs, window) && TickOf(r) == cb.sample.clockTicks
  {
    hide Refreshed, Decided, FaultTaken, FrameResult;
  }

  lemma {:induction false} RequestsAreTimely(
    start: RootState, callbacks: seq<Callback>, config: Config, child: Child, window: BudgetPolicy, now: nat)
    requires TimedBy(config, window) && SampledInOrder(callbacks)
    requires callbacks != [] ==> callbacks[|callbacks| - 1].sample.clockTicks <= now
    ensures var requests := RequestsOf(start, callbacks, config, child);
            Timely(requests, window) && forall i :: 0 <= i < |requests| ==> TickOf(requests[i]) <= now
  {
    hide Handled, DecidesIn, RequestIn, InWindow;
    if callbacks != [] {
      var n := |callbacks| - 1;
      RequestsAreTimely(start, callbacks[..n], config, child, window, callbacks[n].sample.clockTicks);
      var s := RootRuns.After(start, callbacks[..n], config).state;
      if DecidesIn(s, callbacks[n], config).Some? {
        RequestIsTimely(s, callbacks[n], config, window);
      }
    }
  }

  /**
   * While the clock stands Root resumes a child, whatever asks for it and whatever specs are applied,
   * at most capacity + (hi - lo) / leakInterval times in any closed window of ticks.
   */
  lemma RootKeepsWindow(start: RootState, callbacks: seq<Callback>, config: Config, child: Child,
                        window: BudgetPolicy, lo: nat, hi: nat)
    requires start.records[child] == FRESH && TimedBy(config, window) && SampledInOrder(callbacks) && lo <= hi
    ensures ResumedBetween(start, callbacks, config, child, lo, hi) <= window.capacity + (hi - lo) / window.leakInterval
  {
    hide ResumedBetween, RequestsOf, SampledInOrder, ResumesIn, Timely;
    ResumesArePlanned(start, callbacks, config, child, lo, hi);
    RequestsAreTimely(start, callbacks, config, child, window, UINT64_MAX);
    PlanKeepsWindow(RequestsOf(start, callbacks, config, child), window, lo, hi);
  }

  lemma {:induction false} AllResumes(requests: seq<RestartPlan.Request>)
    ensures ResumesIn(requests, 0, UINT64_MAX) == RestartPlan.Resumed(requests)
  {
    hide PlanFor;
    if requests != [] {
      AllResumes(requests[..|requests| - 1]);
    }
  }

  lemma {:induction false} LimitsAreFixed(start: RootState, callbacks: seq<Callback>, config: Config, child: Child)
    ensures Run(RequestsOf(start, callbacks, config, child), config.limits[child])
  {
    hide Handled, DecidesIn, Refreshed;
    if callbacks != [] {
      LimitsAreFixed(start, callbacks[..|callbacks| - 1], config, child);
    }
  }

  /**
   * Whatever callbacks Root handles, whatever specs are applied and whether the clock stands or not: a
   * child is resumed as often as its record counts, and never more often than its hard maximum.
   */
  lemma RootKeepsBudget(start: RootState, callbacks: seq<Callback>, config: Config, child: Child)
    requires start.records[child] == FRESH
    ensures ResumedBetween(start, callbacks, config, child, 0, UINT64_MAX) ==
            RootRuns.After(start, callbacks, config).state.records[child].lifetimeCount <= config.limits[child].hardMax
  {
    hide ResumedBetween, RequestsOf, ResumesIn, RestartPlan.Resumed, GiveUps, RootRuns.After, RecordAfter;
    ResumesArePlanned(start, callbacks, config, child, 0, UINT64_MAX);
    RecordsArePlanned(start, callbacks, config, child);
    LimitsAreFixed(start, callbacks, config, child);
    AllResumes(RequestsOf(start, callbacks, config, child));
    BudgetHoldsOverRuns(RequestsOf(start, callbacks, config, child), config.limits[child]);
  }

  // ----- when the clock is given up -----

  /**
   * A restart path that found the clock standing leaves it standing unless a live child was to be decided
   * by it under a policy, a record or a tick that makes no sense.
   */
  lemma ClockEndsExactly(s: RootState, child: Child, config: Config, sample: Sample)
    ensures var d := Decides(child, s, sample);
            var inputs, record, p := RequestIn(d, config).inputs, s.records[child], config.timed.policy;
            var budget := Budget(RequestIn(d, config).retained, inputs);
            RestartChild(s, child, config, sample).clockValid <==>
            && sample.available
            && !(&& config.timed.enabled && p.capacity > 0 && record.state == Live
                 && (p.leakInterval > 0 && p.lifetimeLimit > 0 && budget > 0 ==>
                       || record.windowCount > p.capacity
                       || (record.lastChargeValid <==> record.windowCount == 0)
                       || (record.windowCount > 0 && sample.clockTicks < record.lastChargeTicks)))
  {
    hide Refreshed, PlanFor, Budget, CarriedOut;
    RefreshKeepsSequence(s, config, sample);
    var request := RequestIn(Decides(child, s, sample), config);
    PolicyInvalidExactly(request.retained, s.records[child], request.inputs);
  }
}
