/** What each callback adds to the event log (interfaces/orchestrator_abi.zig, src/pd/root/main.c). */
module RootLog {
  import opened Words
  import opened SpecPage
  import opened RootPolicy
  import opened StatusPage
  import opened Status
  import opened Command
  import opened RootMain
  import opened RootRuns
  import CommandReplies
  import SpecConsumer
  import StatusRuns

  // ----- the events of the interface -----

  /** A fault: its label when it fits, its first two words and which of them were sent. */
  ghost predicate SaysFault(e: Event, ticks: uint64, child: nat, tag: uint64, count: nat, mr0: uint64, mr1: uint64) {
    && e.ticks == ticks && e.kind == 2 && (e.child as nat) == child
    && e.flags == (if count == 0 then 0 else if count == 1 then 1 else 3)
    && e.detail == (if tag < 0x1_0000_0000 then tag else 0)
    && e.a == (if count >= 1 then mr0 else 0) && e.b == (if count >= 2 then mr1 else 0)
  }

  /** A restart, or a give-up with its reason, with the record's counts as they then are. */
  ghost predicate SaysOutcome(e: Event, ticks: uint64, child: nat, action: Action, record: ChildRecord) {
    && e.ticks == ticks && (e.child as nat) == child && e.flags == 0
    && e.a == record.lifetimeCount && e.b == record.windowCount
    && match action
       case Resume => record.state == Live && e.kind == 3 && e.detail == 0
       case BudgetExhausted => record.state == Gone && e.kind == 5 && e.detail == 1
       case WindowExhausted => record.state == Gone && e.kind == 5 && e.detail == 2
       case LifetimeExhausted => record.state == Gone && e.kind == 5 && e.detail == 3
       case NoEntry => record.state == Gone && e.kind == 5 && e.detail == 4
       case IgnoreGone => false
  }

  /** A rejected spec: why, and the generation and bank it concerns. */
  ghost predicate SaysRejection(e: Event, ticks: uint64, spec: SpecConsumer.Result) {
    && e.ticks == ticks && e.kind == 9 && e.child == 255 && e.flags == 0 && e.a == spec.generation && e.b == spec.bank
    && match spec.reason
       case Unset => false
       case BadHeader => e.detail == 1
       case Torn => e.detail == 2
       case Checksum => e.detail == 3
       case Malformed => e.detail == 4
       case UndeclaredChild => e.detail == 5
       case Regressed => e.detail == 6
       case Conflict => e.detail == 7
       case UnstableCopy => e.detail == 8
  }

  ghost predicate SaysControl(e: Event, ticks: uint64, child: nat, request: nat, observed: uint64) {
    && e.ticks == ticks && e.kind == 8 && (e.child as nat) == child && e.flags == 0
    && e.detail == request && e.a == observed && e.b == 0
  }

  /**
   * What a decision about a child adds after the events that lead: a recorded rejection, at its own tick,
   * then the outcome, at the tick that decided it; no ticks once the clock is gone.
   */
  ghost predicate SaysDecision(events: seq<Event>, leading: seq<Event>, child: nat, action: Action,
                               spec: SpecConsumer.Result, record: ChildRecord, sample: Sample, clock: bool) {
    var rejections, outcomes := if spec.record then 1 else 0, if action.IgnoreGone? then 0 else 1;
    && |events| == |leading| + rejections + outcomes && events[..|leading|] == leading
    && (spec.record ==> SaysRejection(events[|leading|], if clock then sample.eventTicks else 0, spec))
    && (!action.IgnoreGone? ==>
          SaysOutcome(events[|events| - 1], if clock then sample.clockTicks else 0, child, action, record))
  }

  lemma RecordedHasReason(state: SpecConsumer.State, copy: SpecConsumer.Copy, mask: SpecConsumer.Mask)
    ensures var result := SpecConsumer.Consumed(state, copy, mask).result;
            result.record ==> result.reason != SpecConsumer.Unset
  {
    hide CheckBank, ContentOf, SpecConsumer.Declared, HeaderOk, AllZero, Header, SpecConsumer.Evaluated;
  }

  /** The outcome's record is the plan's, live exactly when it resumed. */
  lemma OutcomeState(s: RootState, child: Child, config: Config, sample: Sample)
    ensures var r := RestartChild(s, child, config, sample);
            && (r.spec.record ==> r.spec.reason != SpecConsumer.Unset)
            && (r.action.Resume? ==> r.state.records[child].state == Live)
            && (r.action.GiveUp() ==> r.state.records[child].state == Gone)
  {
    hide SpecConsumer.Consumed, PolicyNoted, RestartPlan.PlanFor, NotedRestart, NotedGone;
    RecordedHasReason(s.spec, sample.copy, s.publisher.present);
    var seen := Refreshed(s, config, sample).0;
    RestartPlan.CeilingHolds(seen.spec.retained, seen.records[child], InputsFor(config, child, sample));
  }

  lemma DecisionSaid(s: RootState, child: Child, leading: seq<Event>, config: Config, sample: Sample)
    ensures var r := RestartChild(s, child, config, sample);
            SaysDecision(ConcludingEvents(r, child, leading, sample), leading, child, r.action, r.spec,
                         r.state.records[child], sample, r.clockValid)
  {
    hide RestartChild;
    OutcomeState(s, child, config, sample);
    var r := RestartChild(s, child, config, sample);
    var events := ConcludingEvents(r, child, leading, sample);
    assert events[..|leading|] == leading;
  }

  // ----- what reaches the ring -----

  /** While publication goes on, a decision's events join the log together, in order. */
  lemma DecisionIsLogged(s: RootState, child: Child, leading: seq<Event>, config: Config, sample: Sample,
                         log: seq<Event>)
    requires s.page.Some? && StatusRuns.RingOf(s.page.value.events, log) && s.publisher.eventHead == |log|
    ensures var r := RestartChild(s, child, config, sample);
            var t := Concluded(r, child, leading, sample);
            Publishing(t) ==>
              exists events: seq<Event> ::
                && StatusRuns.RingOf(t.page.value.events, log + events) && t.publisher.eventHead == |log + events|
                && SaysDecision(events, leading, child, r.action, r.spec, t.records[child], sample, r.clockValid)
  {
    hide RestartChild, PublishedBy, StatusRuns.RingOf, ConcludingEvents, SaysDecision;
    RestartIsOnward(s, child, config, sample);
    var r := RestartChild(s, child, config, sample);
    var events, ticks := ConcludingEvents(r, child, leading, sample), Ticks(sample.publishTicks, r.clockValid);
    ConcludedIsOnward(r, child, leading, sample);
    DecisionSaid(s, child, leading, config, sample);
    if Publishing(Concluded(r, child, leading, sample)) {
      PublishedEventsJoin(r.state, child, events, ticks, r.clockValid, log);
    }
  }

  /** A fault callback logs the fault as it was sent, then what was decided. */
  lemma FaultIsLogged(s: RootState, raw: nat, tag: uint64, count: nat, mr0: uint64, mr1: uint64, config: Config,
                      sample: Sample, log: seq<Event>)
    requires raw < CHILD_COUNT && raw in s.publisher.present
    requires s.page.Some? && StatusRuns.RingOf(s.page.value.events, log) && s.publisher.eventHead == |log|
    ensures var t := FaultOf(s, raw, tag, count, mr0, mr1, config, sample);
            Publishing(t) ==>
              exists fault: Event, events: seq<Event>, action: Action, spec: SpecConsumer.Result, clock: bool ::
                && StatusRuns.RingOf(t.page.value.events, log + events) && t.publisher.eventHead == |log + events|
                && SaysFault(fault, if sample.before then sample.entryTicks else 0, raw, tag, count, mr0, mr1)
                && SaysDecision(events, [fault], raw, action, spec, t.records[raw], sample, clock)
                && (action.IgnoreGone? <==> s.records[raw].state == Gone)
  {
    hide RestartChild, StatusRuns.RingOf, Concluded, SaysDecision, NotedFault;
    var stamp := Ticks(sample.entryTicks, sample.before);
    var noted := FaultTaken(s, raw, tag, count, mr0, mr1, stamp, sample.before);
    var fault := FaultEvent(raw, tag, count, mr0, mr1, stamp);
    FaultKeepsHead(s.publisher, raw, tag, count, mr0, mr1, stamp, sample.before);
    RestartIsOnward(noted, raw, config, sample);
    DecisionIsLogged(noted, raw, [fault], config, sample, log);
    assert SaysFault(fault, stamp, raw, tag, count, mr0, mr1);
  }

  lemma FaultKeepsHead(p: PublisherState, child: nat, tag: uint64, count: nat, mr0: uint64, mr1: uint64, now: uint64,
                       valid: bool)
    ensures forall w0: uint64, w1: uint64 ::
              NotedFault(p, child, tag, count, w0, w1, now, valid).eventHead == p.eventHead
  {
    hide Faulted;
  }

  /** A performed command logs its request with the sequence it observed, then what was decided. */
  lemma CommandIsLogged(s: RootState, d: Decision, config: Config, sample: Sample, log: seq<Event>)
    requires d.child < CHILD_COUNT && s.records[d.child].state == Live
    requires s.page.Some? && StatusRuns.RingOf(s.page.value.events, log) && s.publisher.eventHead == |log|
    ensures var t := PerformRestart(s, d, config, sample).state;
            Publishing(t) ==>
              exists control: Event, events: seq<Event>, action: Action, spec: SpecConsumer.Result, clock: bool ::
                && StatusRuns.RingOf(t.page.value.events, log + events) && t.publisher.eventHead == |log + events|
                && SaysControl(control, if sample.before then sample.controlTicks else 0, d.child, 2, d.args[2])
                && SaysDecision(events, [control], d.child, action, spec, t.records[d.child], sample, clock)
  {
    hide RestartChild, StatusRuns.RingOf, Concluded, SaysDecision, ReplyValues;
    RestartIsOnward(s, d.child, config, sample);
    DecisionIsLogged(s, d.child, [ControlEvent(d, sample)], config, sample, log);
    assert SaysControl(ControlEvent(d, sample), Ticks(sample.controlTicks, sample.before), d.child, 2, d.args[2]);
  }

  /** An injected fault logs the request and nothing else; a gone child logs nothing. */
  lemma InjectionIsLogged(s: RootState, child: Child, sample: Sample, log: seq<Event>)
    requires s.page.Some? && StatusRuns.RingOf(s.page.value.events, log) && s.publisher.eventHead == |log|
    ensures var t := FaultInject(s, child, sample);
            && t.records == s.records
            && (s.records[child].state == Gone ==> t == s)
            && (s.records[child].state == Live && Publishing(t) ==>
                  exists control: Event ::
                    && StatusRuns.RingOf(t.page.value.events, log + [control])
                    && SaysControl(control, if sample.before then sample.eventTicks else 0, child, 1, 0))
  {
    hide StatusRuns.RingOf, PublishedBy;
    var control, ticks := InjectEvent(child, sample), Ticks(sample.publishTicks, sample.before);
    PublishIsOnward(s, child, [control], ticks, sample.before);
    if s.records[child].state == Live && Publishing(PublishedBy(s, child, [control], ticks, sample.before)) {
      PublishedEventsJoin(s, child, [control], ticks, sample.before, log);
      assert SaysControl(control, Ticks(sample.eventTicks, sample.before), child, 1, 0);
    }
  }

  // ----- when a command is performed -----

  /**
   * A call performs a restart if and only if it is framed as one on the command channel, has a token, is
   * not the last command again, and names a live driver of this image with the generation, sequence and
   * count Root holds, while Root publishes.
   */
  lemma PerformedExactly(s: RootState, channel: uint32, ppChannel: uint32, tag: uint64, count: uint64, args: FourWords,
                         config: Config, sample: Sample)
    ensures var c, now := s.command, if sample.before then sample.entryTicks else 0;
            Protected(s, channel, ppChannel, tag, count, args, config, sample).performed.Some? <==>
            && channel == ppChannel && count == 4 && tag == 2
            && CommandReplies.Funded(c, now, sample.before) && !CommandReplies.IsLast(c, 2, args)
            && args[0] < CHILD_COUNT && (args[0] as nat) in s.publisher.present && (args[0] as nat) in config.drivers
            && s.records[args[0]].state == Live && s.page.Some? && s.publisher.enabled
            && args[1] == s.publisher.rootGeneration && args[2] == s.publisher.seqWord
            && args[3] == s.records[args[0]].lifetimeCount
  {
    hide PerformRestart, Decided, Refilled;
    if FrameResult(channel, ppChannel, tag, count) == Ok {
      var ticks := Ticks(sample.entryTicks, sample.before);
      var step := Decided(s.command, ViewOf(s, config), tag, args, ticks, sample.before);
      CommandReplies.ResultsExactly(s.command, ViewOf(s, config), tag, args, ticks, sample.before);
      CommandReplies.WordsExactly(s.command, ViewOf(s, config), tag, args, ticks, sample.before);
      if step.decision.restart {
        RestartNamesChild(s.command, ViewOf(s, config), tag, args, ticks, sample.before);
        DecidedIsPerformed(s.(command := step.state), step.decision, config, sample);
      }
    }
  }
}
