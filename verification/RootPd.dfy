/** Root's callbacks as they run, over its live records, spec, publisher, clock and commands (src/pd/root/main.c). */
module RootPd {
  import opened Words
  import opened SpecPage
  import opened RootPolicy
  import opened RestartPlan
  import opened StatusPage
  import opened Status
  import opened Command
  import opened RootMain
  import SpecConsumer

  /** The raw counter reads of one callback, in order. */
  datatype Counter = Counter(entry: uint64, control: uint64, observe: uint64, note: uint64, event: uint64,
      publish: uint64)

  /** A call that starts or stops a child, with that child's record as it stood when the call was made. */
  datatype KernelCall =
    | Restarts(child: nat, entry: uint64, record: ChildRecord)
    | Stops(child: nat, record: ChildRecord)

  /** The one call an action makes, if any. */
  function CallsFor(action: Action, child: Child, entry: uint64, record: ChildRecord): seq<KernelCall> {
    if action.IgnoreGone? then []
    else if action.Resume? then [Restarts(child, entry, record)]
    else [Stops(child, record)]
  }

  /** A decided child is started if its record still lives, and stopped if not. */
  function Carried(child: Child, entry: uint64, record: ChildRecord): KernelCall {
    if record.state == Live then Restarts(child, entry, record) else Stops(child, record)
  }

  /** A child that was gone gets no call, any other exactly one, by the record it is left with. */
  lemma OneCall(s: RootState, child: Child, config: Config, sample: Sample)
    ensures var r := RestartChild(s, child, config, sample);
            CallsFor(r.action, child, config.entries[child], r.state.records[child]) ==
            if s.records[child].state == Gone then []
            else [Carried(child, config.entries[child], r.state.records[child])]
  {
    hide SpecConsumer.Consumed, PolicyNoted, PlanFor, NotedRestart, NotedGone;
    var seen, inputs := Refreshed(s, config, sample).0, InputsFor(config, child, sample);
    CommitsThePlan(seen.spec.retained, seen.records[child], inputs);
    CeilingHolds(seen.spec.retained, seen.records[child], inputs);
  }

  /** Whether the clock still stands after a restart path depends only on the policy, the records and the sample. */
  lemma ClockIgnoresTheRest(s: RootState, t: RootState, child: Child, config: Config, sample: Sample)
    requires t.spec == s.spec && t.records == s.records && t.publisher.present == s.publisher.present
    ensures RestartChild(t, child, config, sample).clockValid == RestartChild(s, child, config, sample).clockValid
  {
    hide SpecConsumer.Consumed, PlanFor, NotedRestart, NotedGone, Budgets;
  }

  class Root {
    ghost var calls: seq<KernelCall>
    const config: Config
    const records: array<ChildRecord>
    const spec: SpecConsumer.SpecState
    const publisher: Publisher
    const page: StatusMemory?
    const command: CommandPath
    const clock: Clock
    const specPage: array?<byte>
    const scratch: array<byte>

    ghost predicate Valid()
      reads this, command, page
    {
      && records.Length == CHILD_COUNT && scratch.Length == PAGE_BYTES && command.Valid()
      && (page != null ==> page.Valid())
      && (specPage != null ==> specPage.Length == PAGE_BYTES && specPage != scratch)
    }

    ghost function PageArrays(): set<object>
    {
      if page == null then {} else {page, page.children, page.events}
    }

    ghost function Value(): RootState
      requires Valid()
      reads this, records, spec, publisher, command, page, PageArrays()
    {
      RootFields(records[..], spec.Value(), publisher.state, if page == null then None else Some(page.Value()),
          command.Value())
    }

    /** What a consume now would obtain: nobody stores to the page while Root runs. */
    ghost function SpecCopy(): SpecConsumer.Copy
      requires Valid()
      reads this, command, page, specPage
    {
      if specPage == null then SpecConsumer.NoPage else SpecConsumer.Copied(specPage[..], specPage[..], specPage[..])
    }

    /** init(): fresh records beside the parts it has initialised. */
    constructor (image: Config, boot: Publisher, bootPage: StatusMemory?, path: CommandPath, sampled: Clock,
        specView: array?<byte>)
      requires path.Valid() && (bootPage != null ==> bootPage.Valid())
      requires specView != null ==> specView.Length == PAGE_BYTES
      ensures Valid() && Value().records == Copies(CHILD_COUNT, FRESH) && Value().spec == SpecConsumer.INITIAL
      ensures publisher == boot && page == bootPage && command == path && clock == sampled && specPage == specView
      ensures calls == []
    {
      config, publisher, page, command, clock, specPage := image, boot, bootPage, path, sampled, specView;
      calls := [];
      records := new ChildRecord[CHILD_COUNT](_ => FRESH);
      scratch := new byte[PAGE_BYTES](_ => 0);
      spec := new SpecConsumer.SpecState();
      new;
      assert records[..] == Copies(CHILD_COUNT, FRESH);
    }

    /** Whether the clock stands after it is checked against this counter read. */
    ghost predicate ClockStands(ticks: uint64)
      reads clock
    {
      clock.available && clock.ticksPerMs != 0 && (clock.seen ==> clock.lastTicks <= ticks)
    }

    /** The sample a callback amounts to, given the clock before and after its check. */
    ghost function Sampled(copy: SpecConsumer.Copy, counter: Counter, before: bool, available: bool,
        ticks: uint64): Sample {
      Sample(copy, before, available, ticks, counter.entry, counter.control, counter.note, counter.event,
          counter.publish)
    }

    /** root_spec_refresh. */
    method SpecRefresh(ghost sample: Sample) returns (result: SpecConsumer.Result)
      requires Valid() && sample.copy == SpecCopy()
      modifies spec, publisher, scratch
      ensures Valid() && (Value(), result) == Refreshed(old(Value()), config, sample)
    {
      hide SpecConsumer.Consumed, NotedPolicy, Budgets, SpecConsumer.Copied;
      result := spec.Consume(specPage, scratch, publisher.state.present);
      if result.outcome == SpecConsumer.Applied {
        var budget := CeilingTable(spec.retained, sample);
        publisher.NotePolicy(spec.retained.generation, spec.retained.bank, budget,
            Copies(CHILD_COUNT, DESIRED_RUNNING));
      }
    }

    /** root_status_policy; the clock plays no part in a ceiling. */
    method CeilingTable(retained: Retained, ghost sample: Sample) returns (budget: seq<uint32>)
      ensures budget == Budgets(retained, config, sample)
    {
      hide Ceiling;
      budget := [];
      for i := 0 to CHILD_COUNT
        invariant |budget| == i
        invariant forall k :: 0 <= k < i ==> budget[k] == Ceiling(retained, InputsFor(config, k, sample))
      {
        CeilingIgnoresClock(retained, InputsFor(config, i, sample), false, 0);
        budget := budget + [Ceiling(retained, Inputs(i, config.limits[i], config.entries[i], config.timed, false, 0))];
      }
    }

    /** root_giveup: gone before anything else, then the stop, then the note. */
    method GiveUp(child: Child, ticks: uint64)
      requires Valid()
      modifies records, publisher, `calls
      ensures Valid() && Value() == GivenUp(old(Value()), child, ticks, clock.available)
      ensures calls == old(calls) + [Stops(child, records[child])]
    {
      hide NotedGone;
      records[child] := records[child].(state := Gone);
      calls := calls + [Stops(child, records[child])];
      publisher.NoteGone(child, ticks, clock.available);
    }

    /** The clock check of root_restart_child: a regressed sample ends timed decisions for good. */
    method CheckClock(ticks: uint64)
      modifies clock
      ensures clock.available == old(ClockStands(ticks)) && (clock.available ==> clock.lastTicks == ticks)
    {
      if clock.available {
        var _ := clock.Observe(ticks);
      }
    }

    /** The first half of root_restart_child: refresh, clock, plan; an invalid policy ends timed decisions. */
    method PlanRestart(child: Child, counter: Counter, ghost before: bool)
      returns (plan: Plan, seen: SpecConsumer.Result, ghost sample: Sample)
      requires Valid()
      modifies spec, publisher, clock, scratch
      ensures Valid()
      ensures sample == Sampled(old(SpecCopy()), counter, before, old(ClockStands(counter.observe)), clock.lastTicks)
      ensures sample.available ==> clock.lastTicks == counter.observe
      ensures (Value(), seen) == Refreshed(old(Value()), config, sample)
      ensures plan == PlanFor(Value().spec.retained, Value().records[child], InputsFor(config, child, sample))
      ensures clock.available == ClockValid(sample, plan)
    {
      hide Refreshed, PlanFor;
      ghost var copy, was := SpecCopy(), Value();
      ghost var blind := Sampled(copy, counter, before, false, 0);
      seen := SpecRefresh(blind);
      CheckClock(counter.observe);
      sample := Sampled(copy, counter, before, clock.available, clock.lastTicks);
      RefreshIgnoresClock(was, config, blind, sample);
      var inputs := Inputs(child, config.limits[child], config.entries[child], config.timed, clock.available,
          clock.lastTicks);
      plan := PlanFor(spec.retained, records[child], inputs);
      if plan.policyInvalid {
        clock.available := false;
      }
    }

    /** The second half: the record is committed before the child is started or stopped. */
    method CarryOut(child: Child, plan: Plan, ticks: uint64)
      requires Valid()
      modifies records, publisher, `calls
      ensures Valid()
      ensures Value() == CarriedOut(old(Value()), child, plan, ticks, clock.available, child == config.beam)
      ensures calls == old(calls) + CallsFor(plan.action, child, config.entries[child], records[child])
    {
      hide NotedGone, NotedRestart;
      if plan.action.IgnoreGone? {
        return;
      }
      if !plan.action.Resume? {
        GiveUp(child, ticks);
        return;
      }
      records[child] := plan.next;
      calls := calls + [Restarts(child, config.entries[child], records[child])];
      publisher.NoteRestart(child, ticks, clock.available, child == config.beam);
    }

    /**
     * root_restart_child. The child is started or stopped once, with the record it will have when the
     * method returns already committed; an ignored child is neither.
     */
    method RestartChildNow(child: Child, counter: Counter, ghost before: bool)
      returns (action: Action, seen: SpecConsumer.Result, ghost sample: Sample)
      requires Valid()
      modifies records, spec, publisher, clock, scratch, `calls
      ensures Valid()
      ensures sample == Sampled(old(SpecCopy()), counter, before, old(ClockStands(counter.observe)), clock.lastTicks)
      ensures sample.available ==> clock.lastTicks == counter.observe
      ensures Restarted(Value(), action, seen, clock.available) == RestartChild(old(Value()), child, config, sample)
      ensures calls == old(calls) + if old(records[child]).state == Gone then []
                                    else [Carried(child, config.entries[child], records[child])]
    {
      hide Refreshed, PlanFor, CarriedOut, CallsFor;
      ghost var was := Value();
      var plan;
      plan, seen, sample := PlanRestart(child, counter, before);
      action := plan.action;
      CarryOut(child, plan, Ticks(counter.note, clock.available));
      OneCall(was, child, config, sample);
    }

    /** root_publish. */
    method PublishNow(child: Child, events: seq<Event>, counter: Counter)
      requires Valid()
      modifies publisher, PageArrays()
      ensures Valid()
      ensures Value() == PublishedBy(old(Value()), child, events, Ticks(counter.publish, clock.available),
          clock.available)
    {
      hide Published;
      if page != null && publisher.state.enabled {
        var ticks := Ticks(counter.publish, clock.available);
        var _ := publisher.Publish(page, child, Some(records[child]), ticks, clock.available,
                                   Events(events));
      }
      publisher.state := publisher.state.(exhausted := false, misused := false);
    }

    /** root_status_outcome, for an action that was not ignored. */
    method Outcome(child: Child, action: Action) returns (events: seq<Event>)
      requires Valid()
      ensures events == if action.IgnoreGone? then []
                        else [OutcomeEvent(Value(), child, action, Ticks(clock.lastTicks, clock.available))]
    {
      if action.IgnoreGone? {
        return [];
      }
      var record, ticks := records[child], Ticks(clock.lastTicks, clock.available);
      return [Event(ticks, if action.Resume? then EVENT_RESTART else EVENT_GIVEUP, child, 0, GiveupReason(action),
                    record.lifetimeCount, record.windowCount)];
    }

    /** The tail of a callback: the events it leads with, any spec rejection, the outcome, published together. */
    method Conclude(
        child: Child, leading: seq<Event>, action: Action, seen: SpecConsumer.Result, counter: Counter,
        ghost sample: Sample)
      requires Valid() && sample.clockTicks == clock.lastTicks
      requires sample.eventTicks == counter.event && sample.publishTicks == counter.publish
      modifies publisher, PageArrays()
      ensures Valid()
      ensures Value() == Concluded(Restarted(old(Value()), action, seen, clock.available), child, leading, sample)
    {
      hide PublishedBy, OutcomeEvent, SpecEvents;
      var outcome := Outcome(child, action);
      PublishNow(child, leading + SpecEvents(seen, Ticks(counter.event, clock.available)) + outcome, counter);
    }

    /** The reply words, read after the publish, and the completion that makes a retry repeat them. */
    method FillReply(d: Decision, action: Action) returns (values: FourWords)
      requires Valid() && d.child < CHILD_COUNT
      modifies command
      ensures Valid()
      ensures values == ReplyValues(old(Value()), d.child, action)
      ensures Value() == old(Value()).(command := Completed(old(command.Value()), d.(values := values)))
    {
      values := [if action.Resume? then EVENT_RESTART else EVENT_GIVEUP, GiveupReason(action),
                 records[d.child].lifetimeCount, publisher.state.seqWord];
      command.Complete(d.(values := values));
    }

    /** Publish, then the reply, then the completion. */
    method PublishAndReply(d: Decision, control: Event, action: Action, seen: SpecConsumer.Result, counter: Counter,
                           ghost sample: Sample)
      returns (values: FourWords)
      requires Valid() && d.child < CHILD_COUNT && control == ControlEvent(d, sample)
      requires sample.clockTicks == clock.lastTicks && sample.eventTicks == counter.event &&
               sample.publishTicks == counter.publish
      modifies publisher, PageArrays(), command
      ensures Valid()
      ensures Replied(Value(), d.result, values, Some(d.args[2])) ==
              Answered(Restarted(old(Value()), action, seen, clock.available), d, sample)
    {
      hide Concluded, ReplyValues, Completed, ControlEvent;
      Conclude(d.child, [control], action, seen, counter, sample);
      values := FillReply(d, action);
    }

    /** root_command_restart_child. */
    method CommandRestart(d: Decision, counter: Counter, ghost before: bool, controlTicks: uint64)
      returns (result: CtlResult, values: FourWords, ghost sample: Sample, ghost performed: Option<uint64>)
      requires Valid() && d.child < CHILD_COUNT && controlTicks == Ticks(counter.control, before)
      modifies records, spec, publisher, clock, scratch, command, PageArrays(), `calls
      ensures Valid()
      ensures sample == Sampled(old(SpecCopy()), counter, before, old(ClockStands(counter.observe)), clock.lastTicks)
      ensures sample.available ==> clock.lastTicks == counter.observe
      ensures Replied(Value(), result, values, performed) == PerformRestart(old(Value()), d, config, sample)
      ensures calls == old(calls) + if old(records[d.child]).state == Gone then []
                                    else [Carried(d.child, config.entries[d.child], records[d.child])]
      ensures clock.available == RestartChild(old(Value()), d.child, config, sample).clockValid
    {
      hide RestartChild, Answered, Carried;
      var control := Event(controlTicks, EVENT_CONTROL, d.child, 0, CONTROL_RESTART_CHILD, d.args[2], 0);
      var action, seen;
      action, seen, sample := RestartChildNow(d.child, counter, before);
      if action.IgnoreGone? {
        return Refused, d.values, sample, None;
      }
      values := PublishAndReply(d, control, action, seen, counter, sample);
      return d.result, values, sample, Some(d.args[2]);
    }

    /** protected(): the frame before any word, the decision, and only then the restart path. */
    method ProtectedCall(channel: uint32, ppChannel: uint32, tag: uint64, count: uint64, args: FourWords,
        counter: Counter)
      returns (result: CtlResult, values: FourWords, ghost sample: Sample, ghost performed: Option<uint64>)
      requires Valid()
      modifies records, spec, publisher, clock, scratch, command, PageArrays(), `calls
      ensures Valid()
      ensures sample == Sampled(old(SpecCopy()), counter, old(clock.available), sample.available, clock.lastTicks)
      ensures performed.Some? ==> sample.available == old(ClockStands(counter.observe))
      ensures Replied(Value(), result, values, performed) ==
              Protected(old(Value()), channel, ppChannel, tag, count, args, config, sample)
      ensures performed.None? ==> calls == old(calls) && clock.available == old(clock.available)
      ensures performed.Some? ==>
                && args[0] < CHILD_COUNT
                && calls == old(calls) + [Carried(args[0], config.entries[args[0]], records[args[0]])]
                && clock.available == RestartChild(old(Value()), args[0], config, sample).clockValid
    {
      hide PerformRestart, Decided, FrameResult, RestartChild, Carried;
      ghost var before := clock.available;
      sample := Sampled(SpecCopy(), counter, before, before, clock.lastTicks);
      var framed := command.Frame(channel, ppChannel, tag, count);
      if framed != Ok {
        return framed, NO_VALUES, sample, None;
      }
      var view := RootView(ABI_VERSION, publisher.state.rootGeneration, publisher.state.beamIncarnation,
                           publisher.state.frequency, publisher.state.seqWord, page != null && publisher.state.enabled,
                           publisher.state.present, config.drivers, records[..]);
      var d := command.Decide(view, tag, args, Ticks(counter.entry, clock.available), clock.available);
      if !d.restart {
        return d.result, d.values, sample, None;
      }
      RestartNamesChild(old(command.Value()), view, tag, args, Ticks(counter.entry, before), before);
      ghost var decided := Value();
      result, values, sample, performed := CommandRestart(d, counter, before, Ticks(counter.control, clock.available));
      ClockIgnoresTheRest(old(Value()), decided, d.child, config, sample);
      PerformsLive(decided, d, config, sample);
    }

    /** The fault's note and its event. */
    method TakeFault(child: Child, tag: uint64, count: nat, mr0: uint64, mr1: uint64, stamp: uint64)
      returns (fault: Event)
      requires Valid()
      modifies publisher
      ensures Valid()
      ensures fault == FaultEvent(child, tag, count, mr0, mr1, stamp)
      ensures Value() == FaultTaken(old(Value()), child, tag, count, mr0, mr1, stamp, clock.available)
      ensures Value().publisher.present == old(Value()).publisher.present
    {
      hide Faulted;
      publisher.NoteFault(child, tag, count, if count >= 1 then mr0 else 0, if count >= 2 then mr1 else 0, stamp,
          clock.available);
      return FaultEvent(child, tag, count, mr0, mr1, stamp);
    }

    /** fault(): note, decide, then publish the fault, any spec rejection and the outcome in that order. */
    method FaultCall(raw: nat, tag: uint64, count: nat, mr0: uint64, mr1: uint64, counter: Counter)
      returns (ghost sample: Sample)
      requires Valid()
      modifies records, spec, publisher, clock, scratch, PageArrays(), `calls
      ensures Valid()
      ensures sample == Sampled(old(SpecCopy()), counter, old(clock.available), sample.available, clock.lastTicks)
      ensures raw < CHILD_COUNT && raw in old(publisher.state.present) ==>
        sample.available == old(ClockStands(counter.observe))
      ensures Value() == FaultOf(old(Value()), raw, tag, count, mr0, mr1, config, sample)
      ensures var known := raw < CHILD_COUNT && raw in old(publisher.state.present);
              && calls == old(calls) + (if !known || old(records[raw]).state == Gone then []
                                        else [Carried(raw, config.entries[raw], records[raw])])
              && clock.available == if known then RestartChild(old(Value()), raw, config, sample).clockValid
                                    else old(clock.available)
    {
      hide RestartChild, Concluded, FaultTaken, Carried;
      sample := Sampled(SpecCopy(), counter, clock.available, clock.available, clock.lastTicks);
      if raw >= CHILD_COUNT || raw !in publisher.state.present {
        return;
      }
      sample := KnownFault(raw, tag, count, mr0, mr1, counter);
    }

    /** The fault of a child of this image. */
    method KnownFault(child: Child, tag: uint64, count: nat, mr0: uint64, mr1: uint64, counter: Counter)
      returns (ghost sample: Sample)
      requires Valid()
      modifies records, spec, publisher, clock, scratch, PageArrays(), `calls
      ensures Valid()
      ensures sample == Sampled(old(SpecCopy()), counter, old(clock.available), old(ClockStands(counter.observe)),
                                clock.lastTicks)
      ensures var stamp := Ticks(counter.entry, old(clock.available));
              var noted := FaultTaken(old(Value()), child, tag, count, mr0, mr1, stamp, old(clock.available));
              Value() == Concluded(RestartChild(noted, child, config, sample), child,
                                   [FaultEvent(child, tag, count, mr0, mr1, stamp)], sample)
      ensures calls == old(calls) + if old(records[child]).state == Gone then []
                                    else [Carried(child, config.entries[child], records[child])]
      ensures clock.available == RestartChild(old(Value()), child, config, sample).clockValid
    {
      hide RestartChild, Concluded, FaultTaken, Carried;
      ghost var was := Value();
      var fault := TakeFault(child, tag, count, mr0, mr1, Ticks(counter.entry, clock.available));
      ghost var noted := Value();
      assert noted.spec == was.spec && noted.records == was.records;
      sample := RestartAndPublish(child, [fault], counter);
      ClockIgnoresTheRest(was, noted, child, config, sample);
    }

    /** The restart path and its publish, behind the events that lead. */
    method RestartAndPublish(child: Child, leading: seq<Event>, counter: Counter) returns (ghost sample: Sample)
      requires Valid()
      modifies records, spec, publisher, clock, scratch, PageArrays(), `calls
      ensures Valid()
      ensures sample == Sampled(old(SpecCopy()), counter, old(clock.available), old(ClockStands(counter.observe)),
                                clock.lastTicks)
      ensures Value() == Concluded(RestartChild(old(Value()), child, config, sample), child, leading, sample)
      ensures calls == old(calls) + if old(records[child]).state == Gone then []
                                    else [Carried(child, config.entries[child], records[child])]
      ensures clock.available == RestartChild(old(Value()), child, config, sample).clockValid
    {
      hide RestartChild, Concluded, Carried;
      var action, seen;
      action, seen, sample := RestartChildNow(child, counter, clock.available);
      Conclude(child, leading, action, seen, counter, sample);
    }

    /** notified() on a debug-restart channel. */
    method DebugRestartCall(child: Child, counter: Counter) returns (ghost sample: Sample)
      requires Valid()
      modifies records, spec, publisher, clock, scratch, PageArrays(), `calls
      ensures Valid()
      ensures sample == Sampled(old(SpecCopy()), counter, old(clock.available), old(ClockStands(counter.observe)),
                                clock.lastTicks)
      ensures Value() == DebugRestart(old(Value()), child, config, sample)
      ensures calls == old(calls) + if old(records[child]).state == Gone then []
                                    else [Carried(child, config.entries[child], records[child])]
      ensures clock.available == RestartChild(old(Value()), child, config, sample).clockValid
    {
      hide RestartChild, Concluded, Carried;
      sample := RestartAndPublish(child, [], counter);
    }

    /** notified() on a fault-injection channel: a live child is started at address zero, whatever its record. */
    method FaultInjectCall(child: Child, counter: Counter) returns (ghost sample: Sample)
      requires Valid()
      modifies publisher, PageArrays(), `calls
      ensures Valid()
      ensures sample == Sampled(old(SpecCopy()), counter, clock.available, clock.available, clock.lastTicks)
      ensures Value() == FaultInject(old(Value()), child, sample)
      ensures calls == old(calls) + if records[child].state == Gone then [] else [Restarts(child, 0, records[child])]
    {
      hide PublishedBy;
      sample := Sampled(SpecCopy(), counter, clock.available, clock.available, clock.lastTicks);
      if records[child].state == Gone {
        return;
      }
      calls := calls + [Restarts(child, 0, records[child])];
      var event := Event(Ticks(counter.event, clock.available), EVENT_CONTROL, child, 0, CONTROL_FAULT_INJECT, 0, 0);
      PublishNow(child, [event], counter);
    }
  }

  lemma PerformsLive(s: RootState, d: Decision, config: Config, sample: Sample)
    requires d.child < CHILD_COUNT && s.records[d.child].state == Live
    ensures PerformRestart(s, d, config, sample).performed == Some(d.args[2])
  {
    hide SpecConsumer.Consumed, PolicyNoted, PlanFor, CarriedOut, Concluded;
    var seen, inputs := Refreshed(s, config, sample).0, InputsFor(config, d.child, sample);
    CommitsThePlan(seen.spec.retained, seen.records[d.child], inputs);
  }

  lemma CeilingIgnoresClock(retained: Retained, inputs: Inputs, available: bool, now: uint64)
    ensures Ceiling(retained, inputs.(clockAvailable := available, now := now)) == Ceiling(retained, inputs)
  {
  }

  lemma RefreshIgnoresClock(s: RootState, config: Config, a: Sample, b: Sample)
    requires a.copy == b.copy
    ensures Refreshed(s, config, a) == Refreshed(s, config, b)
  {
    hide SpecConsumer.Consumed, Ceiling;
    var step := SpecConsumer.Consumed(s.spec, a.copy, s.publisher.present);
    forall i: nat | i < CHILD_COUNT
      ensures Ceiling(step.state.retained, InputsFor(config, i, a)) ==
          Ceiling(step.state.retained, InputsFor(config, i, b))
    {
      CeilingIgnoresClock(step.state.retained, InputsFor(config, i, a), b.available, b.clockTicks);
    }
    assert seq(CHILD_COUNT, i requires 0 <= i < CHILD_COUNT => Ceiling(step.state.retained, InputsFor(config, i, a))) ==
           seq(CHILD_COUNT, i requires 0 <= i < CHILD_COUNT => Ceiling(step.state.retained, InputsFor(config, i, b)));
  }
}
