/** The decision half of Root's restart path (src/pd/root/restart_plan.c), over whole runs. */
module RestartPlan {
  import opened Words
  import opened RootPolicy
  import opened SpecPage

  /** The time-based selector. A zero capacity means no clock interval was available at init. */
  datatype Timed = Timed(enabled: bool, policy: BudgetPolicy, lifetimeLimit: uint32)

  /** A compiled budget above the hard maximum does not build. */
  datatype BudgetLimits = BudgetLimits(compiled: uint32, hardMax: uint32)

  type Limits = l: BudgetLimits | l.compiled <= l.hardMax witness BudgetLimits(0, 0)

  datatype Inputs = Inputs(
    child: uint32,
    limits: Limits,
    entry: uint64,
    timed: Timed,
    clockAvailable: bool,
    now: uint64)

  datatype Outcome = NoEffect | Charge | Stop

  /** The child machine. */
  function ChildNext(from: ChildState, effect: Outcome): ChildState {
    match (from, effect)
    case (Live, NoEffect) => Live
    case (Live, Charge) => Live
    case (Live, Stop) => Gone
    case (Gone, NoEffect) => Gone
    case (Gone, Charge) => Gone
    case (Gone, Stop) => Gone
  }

  function OutcomeOf(action: Action): Outcome {
    match action
    case Resume => Charge
    case BudgetExhausted => Stop
    case WindowExhausted => Stop
    case LifetimeExhausted => Stop
    case NoEntry => Stop
    case IgnoreGone => NoEffect
  }

  datatype Selector = ByLifetime | ByTime | ByLifetimeFallback

  function SelectOf(inputs: Inputs): Selector {
    if !inputs.timed.enabled then ByLifetime
    else if inputs.clockAvailable && inputs.timed.policy.capacity != 0 then ByTime
    else ByLifetimeFallback
  }

  function Min(a: uint32, b: uint32): uint32 {
    if a < b then a else b
  }

  function Budget(retained: Retained, inputs: Inputs): uint32 {
    SpecBudget(retained, inputs.child, inputs.limits.compiled, inputs.limits.hardMax)
  }

  /** root_restart_ceiling, the ceiling the status page reports. */
  function Ceiling(retained: Retained, inputs: Inputs): uint32 {
    var budget := Budget(retained, inputs);
    if !inputs.timed.enabled then budget
    else Min(budget, if inputs.timed.policy.capacity != 0 then inputs.timed.policy.lifetimeLimit
        else inputs.timed.lifetimeLimit)
  }

  datatype Plan = Plan(action: Action, next: ChildRecord, policyInvalid: bool)

  /** root_restart_plan. */
  function PlanFor(retained: Retained, record: ChildRecord, inputs: Inputs): Plan {
    var budget := Budget(retained, inputs);
    match SelectOf(inputs)
    case ByLifetime => Untimed(record, Decide(record, budget, inputs.entry))
    case ByLifetimeFallback =>
      Untimed(record, Decide(record, Min(budget, inputs.timed.lifetimeLimit), inputs.entry))
    case ByTime =>
      var policy := inputs.timed.policy.(lifetimeLimit := Min(inputs.timed.policy.lifetimeLimit, budget));
      var d := DecideAt(record, policy, inputs.entry, inputs.now);
      if d.error != TimedValid then Plan(BudgetExhausted, Ended(record, record, BudgetExhausted), true)
      else Plan(d.action, Ended(record, if d.action.Resume? then d.next else record, d.action), false)
  }

  function Untimed(record: ChildRecord, action: Action): Plan
    requires action.Resume? ==> record.lifetimeCount < UINT32_MAX
  {
    var next := if action.Resume? then record.(lifetimeCount := record.lifetimeCount + 1) else record;
    Plan(action, Ended(record, next, action), false)
  }

  /** The record to commit, in the state the child machine gives it. */
  function Ended(record: ChildRecord, next: ChildRecord, action: Action): ChildRecord {
    next.(state := ChildNext(record.state, OutcomeOf(action)))
  }

  // ----- one request -----

  /** What the restart path of main.c commits: nothing, gone, or the charged record. */
  function Committed(record: ChildRecord, plan: Plan): ChildRecord {
    if plan.action.IgnoreGone? then record
    else if plan.action.Resume? then plan.next
    else record.(state := Gone)
  }

  /** The adapter's effect is exactly the record the plan names, whatever the inputs. */
  lemma CommitsThePlan(retained: Retained, record: ChildRecord, inputs: Inputs)
    ensures var plan := PlanFor(retained, record, inputs);
            && Committed(record, plan) == plan.next
            && (plan.action.IgnoreGone? <==> record.state == Gone)
            && (plan.action.IgnoreGone? ==> plan.next == record && !plan.policyInvalid)
  {
  }

  /**
   * Timed decisions end exactly when a live child is decided by the clock under a policy, a record or a
   * tick that makes no sense, and then the child is given up for its budget.
   */
  lemma PolicyInvalidExactly(retained: Retained, record: ChildRecord, inputs: Inputs)
    ensures var plan, p := PlanFor(retained, record, inputs), inputs.timed.policy;
            && (plan.policyInvalid <==>
                  && inputs.timed.enabled && inputs.clockAvailable && p.capacity > 0 && record.state == Live
                  && (p.leakInterval > 0 && p.lifetimeLimit > 0 && Budget(retained, inputs) > 0 ==>
                        || record.windowCount > p.capacity
                        || (record.lastChargeValid <==> record.windowCount == 0)
                        || (record.windowCount > 0 && inputs.now < record.lastChargeTicks)))
            && (plan.policyInvalid ==> plan.action == BudgetExhausted && plan.next == record.(state := Gone))
  {
    var p := inputs.timed.policy;
    var limited := p.(lifetimeLimit := Min(p.lifetimeLimit, Budget(retained, inputs)));
    ErrorsExactly(record, limited, inputs.entry, inputs.now);
    hide DecideAt, SpecBudget;
  }

  /** The ceiling the plan holds the lifetime count against. */
  function AppliedCeiling(retained: Retained, inputs: Inputs): uint32 {
    var budget := Budget(retained, inputs);
    match SelectOf(inputs)
    case ByLifetime => budget
    case ByTime => Min(inputs.timed.policy.lifetimeLimit, budget)
    case ByLifetimeFallback => Min(budget, inputs.timed.lifetimeLimit)
  }

  /**
   * A live child at or over its ceiling is never resumed; one below it, without the
   * clock, gives up only for want of an entry.
   */
  lemma CeilingHolds(retained: Retained, record: ChildRecord, inputs: Inputs)
    ensures var plan := PlanFor(retained, record, inputs);
            var ceiling := AppliedCeiling(retained, inputs);
            && ceiling <= inputs.limits.hardMax
            && (record.state == Live && record.lifetimeCount >= ceiling ==> plan.action.GiveUp())
            && (plan.action.Resume? ==>
                  && record.state == Live && inputs.entry != 0 && record.lifetimeCount < ceiling
                  && plan.next.lifetimeCount == record.lifetimeCount + 1 && plan.next.state == Live)
            && (!(inputs.timed.enabled && inputs.clockAvailable && inputs.timed.policy.capacity != 0) ==>
                  && !plan.policyInvalid
                  && (plan.action.BudgetExhausted? <==> record.state == Live && record.lifetimeCount >= ceiling)
                  && (plan.action.NoEntry? <==>
                        record.state == Live && record.lifetimeCount < ceiling && inputs.entry == 0)
                  && (plan.action.Resume? <==>
                        record.state == Live && record.lifetimeCount < ceiling && inputs.entry != 0)
                  && (plan.action.Resume? ==> plan.next == record.(lifetimeCount := record.lifetimeCount + 1)))
  {
  }

  /**
   * For a caller whose timed policy carries another lifetime limit than its fallback: the reported
   * ceiling differs from the applied one if and only if the clock is lost under a timed policy and the
   * smaller of the two limits is below the budget.
   */
  lemma ReportedCeilingDiffers(retained: Retained, inputs: Inputs)
    ensures var timed := inputs.timed;
            Ceiling(retained, inputs) != AppliedCeiling(retained, inputs) <==>
            && timed.enabled && timed.policy.capacity != 0 && !inputs.clockAvailable
            && timed.policy.lifetimeLimit != timed.lifetimeLimit
            && Min(timed.policy.lifetimeLimit, timed.lifetimeLimit) < Budget(retained, inputs)
  {
  }

  /** One such input: a budget of five, a timed limit of three, a fallback limit of four, no clock. */
  lemma DifferingCeilings()
    ensures var inputs := Inputs(0, BudgetLimits(5, 5), 1, Timed(true, BudgetPolicy(1, 3, 1), 4), false, 0);
            Ceiling(COMPILED, inputs) == 3 && AppliedCeiling(COMPILED, inputs) == 4
  {
    assert Budget(COMPILED, Inputs(0, BudgetLimits(5, 5), 1, Timed(true, BudgetPolicy(1, 3, 1), 4), false, 0)) == 5;
  }

  // ----- whole runs -----

  /** One request under whatever policy Root then retains; limits are fixed for the run. */
  datatype Request = Request(retained: Retained, inputs: Inputs)

  ghost predicate Run(requests: seq<Request>, limits: Limits) {
    forall r :: r in requests ==> r.inputs.limits == limits
  }

  /** The child's record after a run, from the zero-initialised one. */
  function RecordAfter(requests: seq<Request>): ChildRecord {
    if requests == [] then FRESH
    else
      var n := |requests| - 1;
      PlanFor(requests[n].retained, RecordAfter(requests[..n]), requests[n].inputs).next
  }

  function ActionOf(requests: seq<Request>, i: nat): Action
    requires i < |requests|
  {
    PlanFor(requests[i].retained, RecordAfter(requests[..i]), requests[i].inputs).action
  }

  function CountActions(requests: seq<Request>, counts: Action -> bool): nat {
    if requests == [] then 0
    else
      var n := |requests| - 1;
      CountActions(requests[..n], counts) + (if counts(ActionOf(requests, n)) then 1 else 0)
  }

  function Resumed(requests: seq<Request>): nat { CountActions(requests, (a: Action) => a.Resume?) }

  function GiveUps(requests: seq<Request>): nat { CountActions(requests, (a: Action) => a.GiveUp()) }

  /**
   * Whatever is requested, whatever specs are applied and whenever the clock is lost: a child is
   * resumed at most hardMax times, its lifetime count is the number of resumes, and it gives up at
   * most once, exactly when it is gone.
   */
  lemma {:induction false} BudgetHoldsOverRuns(requests: seq<Request>, limits: Limits)
    requires Run(requests, limits)
    ensures Resumed(requests) == RecordAfter(requests).lifetimeCount <= limits.hardMax
    ensures GiveUps(requests) == if RecordAfter(requests).state == Gone then 1 else 0
  {
    hide PlanFor;
    if requests != [] {
      var n := |requests| - 1;
      BudgetHoldsOverRuns(requests[..n], limits);
      var record, last := RecordAfter(requests[..n]), requests[n];
      assert last in requests;
      CommitsThePlan(last.retained, record, last.inputs);
      CeilingHolds(last.retained, record, last.inputs);
    }
  }

  /** The lifetime count never decreases, and a child that gave up is never resumed or stopped again. */
  lemma {:induction false} GoneForGood(requests: seq<Request>, i: nat, j: nat)
    requires i < j < |requests|
    ensures RecordAfter(requests[..i]).lifetimeCount <= RecordAfter(requests[..j]).lifetimeCount
    ensures ActionOf(requests, i).GiveUp() ==> ActionOf(requests, j).IgnoreGone?
    decreases j
  {
    hide PlanFor;
    var k := j - 1;
    assert requests[..j][..k] == requests[..k] && requests[..j][k] == requests[k];
    CommitsThePlan(requests[k].retained, RecordAfter(requests[..k]), requests[k].inputs);
    CeilingHolds(requests[k].retained, RecordAfter(requests[..k]), requests[k].inputs);
    CommitsThePlan(requests[j].retained, RecordAfter(requests[..j]), requests[j].inputs);
    if i < k {
      GoneForGood(requests, i, k);
    }
  }
}
