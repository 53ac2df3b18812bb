/** Root's callbacks: the order of their effects, and at-most-once commands (src/pd/root/main.c). */
module RootMain {
  import opened Words
  import opened SpecPage
  import opened RootPolicy
  import opened RestartPlan
  import opened StatusPage
  import opened Status
  import opened Command
  import SpecConsumer

  const CONTROL_FAULT_INJECT: uint32 := 1
  const CONTROL_RESTART_CHILD: uint32 := 2

  /** What the image fixes: per-child budgets and entries, the selector, the drivers and the BEAM. */
  datatype ImageConfig = ImageConfig(limits: seq<Limits>, entries: seq<uint64>, timed: Timed, drivers: set<nat>,
      beam: nat)

  /** A timed policy in force carries the very limit its fallback uses: one constant serves both. */
  type Config = c: ImageConfig |
    && |c.limits| == CHILD_COUNT && |c.entries| == CHILD_COUNT
    && (c.timed.policy.capacity != 0 ==> c.timed.policy.lifetimeLimit == c.timed.lifetimeLimit)
    witness ImageConfig(Copies(CHILD_COUNT, BudgetLimits(0, 0)), Copies(CHILD_COUNT, 0),
                        Timed(false, BudgetPolicy(0, 0, 0), 0), {}, 0)

  /**
   * What one callback samples: the spec page as copied, whether the clock stood at entry and after the
   * restart path checked it, that check's ticks, and the raw counter reads in the order they are made.
   */
  datatype Sample = Sample(
    copy: SpecConsumer.Copy,
    before: bool,
    available: bool,
    clockTicks: uint64,
    entryTicks: uint64,
    controlTicks: uint64,
    noteTicks: uint64,
    eventTicks: uint64,
    publishTicks: uint64)

  datatype RootFields = RootFields(
    records: seq<ChildRecord>,
    spec: SpecConsumer.State,
    publisher: PublisherState,
    page: Option<StatusPage>,
    command: CommandState)

  type RootState = s: RootFields | |s.records| == CHILD_COUNT
    witness RootFields(Copies(CHILD_COUNT, FRESH), SpecConsumer.INITIAL, BLANK, None,
                       CommandFields(Off, 0, 0, 0, 0, None, Tallies(0, 0, 0)))

  type Child = c: nat | c < CHILD_COUNT witness 0

  predicate Publishing(s: RootState) {
    s.page.Some? && s.publisher.enabled
  }

  // ----- the restart path -----

  function InputsFor(config: Config, child: Child, sample: Sample): Inputs {
    Inputs(child, config.limits[child], config.entries[child], config.timed, sample.available, sample.clockTicks)
  }

  /** The ceiling the status page reports is the one the plan applies, clock or none. */
  lemma ReportsAppliedCeiling(retained: Retained, config: Config, child: Child, sample: Sample)
    ensures var inputs := InputsFor(config, child, sample);
            Ceiling(retained, inputs) == AppliedCeiling(retained, inputs)
  {
    ReportedCeilingDiffers(retained, InputsFor(config, child, sample));
  }

  /** root_status_policy: the ceiling of every child. */
  function Budgets(retained: Retained, config: Config, sample: Sample): (budget: seq<uint32>)
    ensures |budget| == CHILD_COUNT
  {
    seq(CHILD_COUNT, i requires 0 <= i < CHILD_COUNT => Ceiling(retained, InputsFor(config, i, sample)))
  }

  /** root_spec_desired: nothing but running is reported until slots exist. */
  function PolicyNoted(publisher: PublisherState, spec: SpecConsumer.State, config: Config,
      sample: Sample): PublisherState {
    NotedPolicy(publisher, spec.retained.generation, spec.retained.bank, Budgets(spec.retained, config, sample),
                Copies(CHILD_COUNT, DESIRED_RUNNING))
  }

  /** root_spec_refresh: consume the page, and note the policy when one was applied. */
  ghost function Refreshed(s: RootState, config: Config, sample: Sample): (RootState, SpecConsumer.Result) {
    var step := SpecConsumer.Consumed(s.spec, sample.copy, s.publisher.present);
    var publisher := if step.result.outcome == SpecConsumer.Applied
        then PolicyNoted(s.publisher, step.state, config, sample)
                     else s.publisher;
    (s.(spec := step.state, publisher := publisher), step.result)
  }

  /** The clock as it stands once the plan has been made: an invalid policy turns it off. */
  function ClockValid(sample: Sample, plan: Plan): bool {
    sample.available && !plan.policyInvalid
  }

  function Ticks(ticks: uint64, valid: bool): uint64 {
    if valid then ticks else 0
  }

  /** root_giveup: the record is marked before the stop and the note. */
  function GivenUp(s: RootState, child: Child, ticks: uint64, valid: bool): RootState {
    s.(records := s.records[child := s.records[child].(state := Gone)],
       publisher := NotedGone(s.publisher, child, ticks, valid))
  }

  /** The charged record is committed before the child is restarted. */
  function Resumed(s: RootState, child: Child, next: ChildRecord, ticks: uint64, valid: bool, beam: bool): RootState {
    s.(records := s.records[child := next],
       publisher := NotedRestart(s.publisher, child, ticks, valid, beam))
  }

  /** An ignored child is left alone. */
  function CarriedOut(s: RootState, child: Child, plan: Plan, ticks: uint64, valid: bool, beam: bool): RootState {
    if plan.action.IgnoreGone? then s
    else if plan.action.Resume? then Resumed(s, child, plan.next, ticks, valid, beam)
    else GivenUp(s, child, ticks, valid)
  }

  datatype Restarted = Restarted(state: RootState, action: Action, spec: SpecConsumer.Result, clockValid: bool)

  /** root_restart_child. */
  ghost function RestartChild(s: RootState, child: Child, config: Config, sample: Sample): Restarted {
    var (seen, spec) := Refreshed(s, config, sample);
    var plan := PlanFor(seen.spec.retained, seen.records[child], InputsFor(config, child, sample));
    var valid := ClockValid(sample, plan);
    var ticks := Ticks(sample.noteTicks, valid);
    var state := CarriedOut(seen, child, plan, ticks, valid, child == config.beam);
    Restarted(state, plan.action, spec, valid)
  }

  // ----- publication -----

  /** root_publish: the flags are reported once and cleared. */
  function PublishedBy(s: RootState, child: Child, events: seq<Event>, ticks: uint64, valid: bool): RootState {
    var t := if !Publishing(s) then s
             else
               var p := Published(s.publisher, s.page.value, child, Some(s.records[child]), ticks, valid,
                   Events(events));
               s.(publisher := p.state, page := Some(p.page));
    t.(publisher := t.publisher.(exhausted := false, misused := false))
  }

  function GiveupReason(action: Action): uint32 {
    match action
    case BudgetExhausted => 1
    case WindowExhausted => 2
    case LifetimeExhausted => 3
    case NoEntry => 4
    case Resume => 0
    case IgnoreGone => 0
  }

  function SpecEvents(spec: SpecConsumer.Result, ticks: uint64): seq<Event> {
    if !spec.record then []
    else [Event(ticks, EVENT_SPEC_REJECT, EVENT_NO_CHILD, 0, RejectCode(spec.reason), spec.generation, spec.bank)]
  }

  function RejectCode(reason: SpecConsumer.Reject): uint32 {
    match reason
    case Unset => 0
    case BadHeader => 1
    case Torn => 2
    case Checksum => 3
    case Malformed => 4
    case UndeclaredChild => 5
    case Regressed => 6
    case Conflict => 7
    case UnstableCopy => 8
  }

  function OutcomeEvent(s: RootState, child: Child, action: Action, ticks: uint64): Event {
    var record := s.records[child];
    Event(ticks, if action.Resume? then EVENT_RESTART else EVENT_GIVEUP, child, 0, GiveupReason(action),
          record.lifetimeCount, record.windowCount)
  }

  function OutcomeEvents(r: Restarted, child: Child, sample: Sample): seq<Event> {
    if r.action.IgnoreGone? then []
    else [OutcomeEvent(r.state, child, r.action, Ticks(sample.clockTicks, r.clockValid))]
  }

  /** The tail of a callback that decided about a child: what leads, any spec rejection, the outcome. */
  function ConcludingEvents(r: Restarted, child: Child, leading: seq<Event>, sample: Sample): seq<Event> {
    leading + SpecEvents(r.spec, Ticks(sample.eventTicks, r.clockValid)) + OutcomeEvents(r, child, sample)
  }

  /** They are published together. */
  function Concluded(r: Restarted, child: Child, leading: seq<Event>, sample: Sample): RootState {
    PublishedBy(r.state, child, ConcludingEvents(r, child, leading, sample), Ticks(sample.publishTicks, r.clockValid),
                r.clockValid)
  }

  // ----- the callbacks -----

  function ViewOf(s: RootState, config: Config): RootView {
    RootView(ABI_VERSION, s.publisher.rootGeneration, s.publisher.beamIncarnation, s.publisher.frequency,
             s.publisher.seqWord, Publishing(s), s.publisher.present, config.drivers, s.records)
  }

  /** What the caller of a command sees, and the sequence observed by a restart that was performed. */
  datatype Replied = Replied(state: RootState, result: CtlResult, values: FourWords, performed: Option<uint64>)

  /** What a performed restart answers: the outcome and its reason, the child's count, the sequence that shows it. */
  function ReplyValues(s: RootState, child: Child, action: Action): FourWords {
    [if action.Resume? then EVENT_RESTART else EVENT_GIVEUP, GiveupReason(action), s.records[child].lifetimeCount,
     s.publisher.seqWord]
  }

  function ControlEvent(d: Decision, sample: Sample): Event
    requires d.child < CHILD_COUNT
  {
    Event(Ticks(sample.controlTicks, sample.before), EVENT_CONTROL, d.child, 0, CONTROL_RESTART_CHILD, d.args[2], 0)
  }

  /** The tail of root_command_restart_child: publish, fill the reply, and only then complete. */
  function Answered(r: Restarted, d: Decision, sample: Sample): Replied
    requires d.child < CHILD_COUNT
  {
    var t := Concluded(r, d.child, [ControlEvent(d, sample)], sample);
    var values := ReplyValues(t, d.child, r.action);
    Replied(t.(command := Completed(t.command, d.(values := values))), d.result, values, Some(d.args[2]))
  }

  /** root_command_restart_child: the refusal of a child that is gone is never reached from a decision. */
  ghost function PerformRestart(s: RootState, d: Decision, config: Config, sample: Sample): Replied
    requires d.child < CHILD_COUNT
  {
    var r := RestartChild(s, d.child, config, sample);
    if r.action.IgnoreGone? then Replied(r.state, Refused, d.values, None) else Answered(r, d, sample)
  }

  /** protected(). */
  ghost function Protected(s: RootState, channel: uint32, ppChannel: uint32, tag: uint64, count: uint64,
                           args: FourWords, config: Config, sample: Sample): Replied
  {
    var framed := FrameResult(channel, ppChannel, tag, count);
    if framed != Ok then Replied(s.(command := Framed(s.command, framed)), framed, NO_VALUES, None)
    else
      var step := Decided(s.command, ViewOf(s, config), tag, args, Ticks(sample.entryTicks, sample.before),
          sample.before);
      var t := s.(command := step.state);
      if !step.decision.restart then Replied(t, step.decision.result, step.decision.values, None)
      else
        RestartNamesChild(s.command, ViewOf(s, config), tag, args, Ticks(sample.entryTicks, sample.before),
            sample.before);
        PerformRestart(t, step.decision, config, sample)
  }

  lemma RestartNamesChild(s: CommandState, view: RootView, opcode: Opcode, args: FourWords, now: uint64, nowValid: bool)
    requires |view.records| == CHILD_COUNT && Decided(s, view, opcode, args, now, nowValid).decision.restart
    ensures var d := Decided(s, view, opcode, args, now, nowValid).decision;
            && d.child < CHILD_COUNT && d.args == args && d.opcode == opcode == RESTART_CHILD
            && d.result == Ok && args[2] == view.seqWord && view.publishing && view.records[d.child].state == Live
            && d.child in view.present && d.child == args[0]
  {
    hide Refilled, Malformed;
  }

  /** The event of a fault: its first two words, as far as they were sent. */
  function FaultEvent(child: Child, tag: uint64, count: nat, mr0: uint64, mr1: uint64, stamp: uint64): Event {
    Event(stamp, EVENT_FAULT, child, FaultWordFlags(count), if tag <= UINT32_MAX then tag else 0,
          if count >= 1 then mr0 else 0, if count >= 2 then mr1 else 0)
  }

  function FaultTaken(s: RootState, child: Child, tag: uint64, count: nat, mr0: uint64, mr1: uint64, stamp: uint64,
      valid: bool): RootState {
    s.(publisher := NotedFault(s.publisher, child, tag, count, if count >= 1 then mr0 else 0,
                               if count >= 2 then mr1 else 0, stamp, valid))
  }

  /** fault(): a child outside the known mask is left alone. */
  ghost function FaultOf(s: RootState, raw: nat, tag: uint64, count: nat, mr0: uint64, mr1: uint64,
                         config: Config, sample: Sample): RootState
  {
    if raw >= CHILD_COUNT || raw !in s.publisher.present then s
    else
      var child: Child := raw;
      var stamp := Ticks(sample.entryTicks, sample.before);
      var noted := FaultTaken(s, child, tag, count, mr0, mr1, stamp, sample.before);
      Concluded(RestartChild(noted, child, config, sample), child, [FaultEvent(child, tag, count, mr0, mr1, stamp)],
                sample)
  }

  /** notified() on a debug-restart channel: same budget path, no fault event. */
  ghost function DebugRestart(s: RootState, child: Child, config: Config, sample: Sample): RootState {
    Concluded(RestartChild(s, child, config, sample), child, [], sample)
  }

  function InjectEvent(child: Child, sample: Sample): Event {
    Event(Ticks(sample.eventTicks, sample.before), EVENT_CONTROL, child, 0, CONTROL_FAULT_INJECT, 0, 0)
  }

  /** notified() on a fault-injection channel: a gone child is refused, otherwise only the event. */
  function FaultInject(s: RootState, child: Child, sample: Sample): RootState {
    if s.records[child].state == Gone then s
    else PublishedBy(s, child, [InjectEvent(child, sample)], Ticks(sample.publishTicks, sample.before), sample.before)
  }
}
