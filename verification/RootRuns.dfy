/** At-most-once commands and honest publication over whole runs of Root's callbacks (src/pd/root/main.c). */
module RootRuns {
  import opened Words
  import opened SpecPage
  import opened RootPolicy
  import opened RestartPlan
  import opened StatusPage
  import opened Status
  import opened Command
  import opened CommandRuns
  import opened RootMain
  import StatusRuns
  import SpecConsumer

  datatype Callback =
    | OnCommand(channel: uint32, ppChannel: uint32, tag: uint64, count: uint64, args: FourWords, sample: Sample)
    | OnFault(raw: nat, tag: uint64, words: nat, mr0: uint64, mr1: uint64, sample: Sample)
    | OnDebugRestart(child: Child, sample: Sample)
    | OnFaultInject(child: Child, sample: Sample)

  ghost function Handled(s: RootState, cb: Callback, config: Config): Replied {
    match cb
    case OnCommand(channel, ppChannel, tag, count, args, sample) =>
      Protected(s, channel, ppChannel, tag, count, args, config, sample)
    case OnFault(raw, tag, count, mr0, mr1, sample) =>
      Replied(FaultOf(s, raw, tag, count, mr0, mr1, config, sample), Ok, NO_VALUES, None)
    case OnDebugRestart(child, sample) => Replied(DebugRestart(s, child, config, sample), Ok, NO_VALUES, None)
    case OnFaultInject(child, sample) => Replied(FaultInject(s, child, sample), Ok, NO_VALUES, None)
  }

  /** Root after a run, and the sequence each performed command restart had observed, in order. */
  datatype Ran = Ran(state: RootState, performed: seq<uint64>)

  ghost function After(start: RootState, callbacks: seq<Callback>, config: Config): Ran {
    if callbacks == [] then Ran(start, [])
    else
      var n := |callbacks| - 1;
      var before := After(start, callbacks[..n], config);
      var r := Handled(before.state, callbacks[n], config);
      Ran(r.state, before.performed + if r.performed.Some? then [r.performed.value] else [])
  }

  // ----- what every callback does to the sequence -----

  /** The sequence never goes back, and publication never starts again once it has stopped. */
  ghost predicate Onward(s: RootState, t: RootState) {
    s.publisher.seqWord <= t.publisher.seqWord && (Publishing(t) ==> Publishing(s))
  }

  /** Notes change neither the sequence nor the presence mask, and can only stop publication. */
  lemma NotesKeepSequence(p: PublisherState, child: nat, ticks: uint64, valid: bool, beam: bool)
    ensures var g, r := NotedGone(p, child, ticks, valid), NotedRestart(p, child, ticks, valid, beam);
            && g.seqWord == r.seqWord == p.seqWord && g.eventHead == r.eventHead == p.eventHead
                && g.present == r.present == p.present
            && g.enabled == p.enabled && (r.enabled ==> p.enabled)
  {
    hide Opened, Status.Restarted;
  }

  lemma RefreshKeepsSequence(s: RootState, config: Config, sample: Sample)
    ensures var t := Refreshed(s, config, sample).0;
            && t == s.(spec := t.spec, publisher := t.publisher)
            && t.publisher.seqWord == s.publisher.seqWord && t.publisher.present == s.publisher.present
            && t.publisher.enabled == s.publisher.enabled && t.publisher.eventHead == s.publisher.eventHead
  {
    hide SpecConsumer.Consumed, Ceiling;
  }

  lemma RestartIsOnward(s: RootState, child: Child, config: Config, sample: Sample)
    ensures var r := RestartChild(s, child, config, sample);
            && Onward(s, r.state) && r.state.publisher.seqWord == s.publisher.seqWord && r.state.command == s.command
            && r.state.publisher.eventHead == s.publisher.eventHead
            && (r.action.IgnoreGone? <==> s.records[child].state == Gone)
            && r.state.page == s.page && r.state.publisher.present == s.publisher.present
            && (forall i :: 0 <= i < CHILD_COUNT ==> s.records[i].lifetimeCount <= r.state.records[i].lifetimeCount)
  {
    hide Refreshed, PlanFor, NotedGone, NotedRestart;
    RefreshKeepsSequence(s, config, sample);
    var (t, _) := Refreshed(s, config, sample);
    CommitsThePlan(t.spec.retained, s.records[child], InputsFor(config, child, sample));
    CeilingHolds(t.spec.retained, s.records[child], InputsFor(config, child, sample));
    var plan := PlanFor(t.spec.retained, s.records[child], InputsFor(config, child, sample));
    var valid := ClockValid(sample, plan);
    NotesKeepSequence(t.publisher, child, Ticks(sample.noteTicks, valid), valid, child == config.beam);
  }

  /** A publish moves the sequence on or ends publication for good. */
  lemma PublishIsOnward(s: RootState, child: Child, events: seq<Event>, ticks: uint64, valid: bool)
    ensures var t := PublishedBy(s, child, events, ticks, valid);
            && Onward(s, t) && t.command == s.command && t.records == s.records
            && (Publishing(t) ==> t.publisher.seqWord == s.publisher.seqWord + 2)
  {
    hide RowsAfter, Pushed, HeaderAfter;
  }

  lemma ConcludedIsOnward(r: RootMain.Restarted, child: Child, leading: seq<Event>, sample: Sample)
    ensures var t := Concluded(r, child, leading, sample);
            && Onward(r.state, t) && t.command == r.state.command && t.records == r.state.records
            && (Publishing(t) ==> t.publisher.seqWord == r.state.publisher.seqWord + 2)
  {
    hide PublishedBy;
    PublishIsOnward(r.state, child, ConcludingEvents(r, child, leading, sample),
                    Ticks(sample.publishTicks, r.clockValid), r.clockValid);
  }

  /** With a batch of at most three events, publication ends exactly for an absent child or a would-be wrap. */
  lemma PublishEndsExactly(s: RootState, child: Child, events: seq<Event>, ticks: uint64, valid: bool)
    requires Publishing(s) && |events| <= EVENTS_PER_PUBLISH
    ensures Publishing(PublishedBy(s, child, events, ticks, valid)) <==>
            && child in s.publisher.present && s.publisher.seqWord <= UINT64_MAX - 2
            && |events| <= UINT64_MAX - s.publisher.eventHead
  {
    hide RowsAfter, Pushed, HeaderAfter;
  }

  /** A decided restart is always performed: the child it names is live, so it is never ignored. */
  lemma DecidedIsPerformed(s: RootState, d: Decision, config: Config, sample: Sample)
    requires d.child < CHILD_COUNT && s.records[d.child].state == Live
    ensures var r := PerformRestart(s, d, config, sample);
            && r.performed == Some(d.args[2]) && Onward(s, r.state)
            && (Publishing(r.state) ==> r.state.publisher.seqWord > s.publisher.seqWord)
            && r.state.command == Completed(s.command, d.(values := r.values)) && r.result == d.result
  {
    hide RestartChild, Concluded;
    RestartIsOnward(s, d.child, config, sample);
    ConcludedIsOnward(RestartChild(s, d.child, config, sample), d.child, [ControlEvent(d, sample)], sample);
  }

  /**
   * A command is performed only while publishing, on the sequence then published, and afterwards the
   * sequence is higher or publication is over.
   */
  lemma CommandIsOnward(s: RootState, channel: uint32, ppChannel: uint32, tag: uint64, count: uint64, args: FourWords,
                        config: Config, sample: Sample)
    ensures var r := Protected(s, channel, ppChannel, tag, count, args, config, sample);
            && Onward(s, r.state)
            && (r.performed.Some? ==>
                  && Publishing(s) && r.performed.value == s.publisher.seqWord == args[2]
                  && (Publishing(r.state) ==> r.performed.value < r.state.publisher.seqWord)
                  && r.result == Ok && r.state.command.fence == Some(Memo(RESTART_CHILD, args, r.values)))
            && (r.performed.None? ==>
                  r.state == s.(command := r.state.command) && r.state.command.fence == s.command.fence)
  {
    hide PerformRestart, Decided;
    if FrameResult(channel, ppChannel, tag, count) == Ok {
      var ticks := Ticks(sample.entryTicks, sample.before);
      var step := Decided(s.command, ViewOf(s, config), tag, args, ticks, sample.before);
      FenceKeptByDecision(s.command, ViewOf(s, config), tag, args, ticks, sample.before);
      if step.decision.restart {
        RestartNamesChild(s.command, ViewOf(s, config), tag, args, ticks, sample.before);
        DecidedIsPerformed(s.(command := step.state), step.decision, config, sample);
      }
    }
  }

  lemma FenceKeptByDecision(s: CommandState, view: RootView, opcode: Opcode, args: FourWords, now: uint64,
      nowValid: bool)
    ensures Decided(s, view, opcode, args, now, nowValid).state.fence == s.fence
  {
    DecisionSpends(s, view, opcode, args, now, nowValid);
    RefillKeepsTallies(s, now, nowValid);
    hide Refilled, Malformed, Decided;
  }

  lemma HandledIsOnward(s: RootState, cb: Callback, config: Config)
    ensures var r := Handled(s, cb, config);
            && Onward(s, r.state)
            && (r.performed.Some? ==>
                  && Publishing(s) && r.performed.value == s.publisher.seqWord
                  && (Publishing(r.state) ==> r.performed.value < r.state.publisher.seqWord))
            && (r.performed.None? ==> r.state.command.fence == s.command.fence)
  {
    hide Protected, RestartChild, PublishedBy, NotedFault;
    match cb
    case OnCommand(channel, ppChannel, tag, count, args, sample) =>
      CommandIsOnward(s, channel, ppChannel, tag, count, args, config, sample);
    case OnFault(raw, tag, count, mr0, mr1, sample) => FaultIsOnward(s, raw, tag, count, mr0, mr1, config, sample);
    case OnDebugRestart(child, sample) =>
      RestartIsOnward(s, child, config, sample);
      ConcludedIsOnward(RestartChild(s, child, config, sample), child, [], sample);
    case OnFaultInject(child, sample) =>
      PublishIsOnward(s, child, [InjectEvent(child, sample)], Ticks(sample.publishTicks, sample.before), sample.before);
  }

  lemma FaultIsOnward(s: RootState, raw: nat, tag: uint64, count: nat, mr0: uint64, mr1: uint64, config: Config,
      sample: Sample)
    ensures var t := FaultOf(s, raw, tag, count, mr0, mr1, config, sample); Onward(s, t) && t.command == s.command
  {
    hide RestartChild, PublishedBy, Faulted;
    if raw < CHILD_COUNT && raw in s.publisher.present {
      var stamp := Ticks(sample.entryTicks, sample.before);
      var noted := FaultTaken(s, raw, tag, count, mr0, mr1, stamp, sample.before);
      RestartIsOnward(noted, raw, config, sample);
      ConcludedIsOnward(RestartChild(noted, raw, config, sample), raw,
                        [FaultEvent(raw, tag, count, mr0, mr1, stamp)], sample);
    }
  }

  // ----- at most once -----

  /** Performed sequences rise, and none can be observed again. */
  ghost predicate OnceEach(r: Ran) {
    && (forall i, j :: 0 <= i < j < |r.performed| ==> r.performed[i] < r.performed[j])
    && (Publishing(r.state) ==> forall i :: 0 <= i < |r.performed| ==> r.performed[i] < r.state.publisher.seqWord)
  }

  /**
   * At most once: over any mix of commands, verbatim replays, faults, debug requests and publications,
   * failed ones included, no two performed restarts observed the same sequence.
   */
  lemma {:induction false} AtMostOnce(start: RootState, callbacks: seq<Callback>, config: Config)
    ensures OnceEach(After(start, callbacks, config))
  {
    hide Handled;
    if callbacks != [] {
      var n := |callbacks| - 1;
      AtMostOnce(start, callbacks[..n], config);
      HandledIsOnward(After(start, callbacks[..n], config).state, callbacks[n], config);
    }
  }

  lemma {:induction false} FenceStands(start: RootState, callbacks: seq<Callback>, config: Config)
    requires After(start, callbacks, config).performed == []
    ensures After(start, callbacks, config).state.command.fence == start.command.fence
  {
    hide Handled;
    if callbacks != [] {
      var n := |callbacks| - 1;
      FenceStands(start, callbacks[..n], config);
      HandledIsOnward(After(start, callbacks[..n], config).state, callbacks[n], config);
    }
  }

  /**
   * A verbatim retry of a performed command, after any callbacks that performed no other, is answered
   * already_done with the identical words if it gets a token, and in no case performs anything.
   */
  lemma RetryRepeatsReply(
    s: RootState, ppChannel: uint32, args: FourWords, config: Config, sample: Sample,
    callbacks: seq<Callback>, later: Sample)
    ensures var first := Protected(s, ppChannel, ppChannel, RESTART_CHILD, COMMAND_WORDS, args, config, sample);
            var between := After(first.state, callbacks, config);
            var t := between.state;
            var retry := Protected(t, ppChannel, ppChannel, RESTART_CHILD, COMMAND_WORDS, args, config, later);
            first.performed.Some? && between.performed == [] ==>
              && retry.performed.None? && retry.state == t.(command := retry.state.command)
              && (retry.result == RateLimited || (retry.result == AlreadyDone && retry.values == first.values))
              && (retry.result == RateLimited <==>
                    Refilled(t.command, Ticks(later.entryTicks, later.before), later.before).tokens == 0)
  {
    hide PerformRestart, Refilled, After;
    CommandIsOnward(s, ppChannel, ppChannel, RESTART_CHILD, COMMAND_WORDS, args, config, sample);
    var first := Protected(s, ppChannel, ppChannel, RESTART_CHILD, COMMAND_WORDS, args, config, sample);
    var t := After(first.state, callbacks, config).state;
    if After(first.state, callbacks, config).performed == [] {
      FenceStands(first.state, callbacks, config);
    }
    RefillKeepsTallies(t.command, Ticks(later.entryTicks, later.before), later.before);
    CommandIsOnward(t, ppChannel, ppChannel, RESTART_CHILD, COMMAND_WORDS, args, config, later);
  }

  // ----- the reply and the log agree -----

  /** Events published together join the ring together. */
  lemma PublishedEventsJoin(s: RootState, child: Child, events: seq<Event>, ticks: uint64, valid: bool, log: seq<Event>)
    requires Publishing(s) && StatusRuns.RingOf(s.page.value.events, log) && s.publisher.eventHead == |log|
    ensures var t := PublishedBy(s, child, events, ticks, valid);
            Publishing(t) ==>
              && StatusRuns.RingOf(t.page.value.events, log + events) && t.publisher.eventHead == |log + events|
              && t.page.value.header.seqWord == t.publisher.seqWord
  {
    hide RowsAfter, StatusRuns.RingOf, Pushed;
    StatusRuns.PushAll(s.page.value.events, log, events);
  }

  /** What a reply says of a restart, beside the event that records its outcome. */
  ghost predicate ReplyTells(r: Replied, control: Event, outcome: Event, d: Decision) {
    && control.kind == EVENT_CONTROL && control.child == d.child && control.detail == CONTROL_RESTART_CHILD
        && control.a == d.args[2]
    && outcome.child == d.child && r.values[0] == outcome.kind && r.values[1] == outcome.detail
        && r.values[2] == outcome.a
    && r.state.page.Some? && r.values[3] == r.state.page.value.header.seqWord
  }

  /**
   * While publication goes on, a performed command leaves in the ring its control event, at most one
   * spec rejection, and the outcome its reply reports, and the reply quotes the sequence that shows them.
   */
  lemma ReplyMatchesLog(s: RootState, d: Decision, config: Config, sample: Sample, log: seq<Event>)
    requires d.child < CHILD_COUNT && s.records[d.child].state == Live
    requires Publishing(s) && StatusRuns.RingOf(s.page.value.events, log) && s.publisher.eventHead == |log|
    ensures var r := PerformRestart(s, d, config, sample);
            Publishing(r.state) ==>
              exists control: Event, rejection: seq<Event>, outcome: Event ::
                && |rejection| <= 1 && ReplyTells(r, control, outcome, d)
                && StatusRuns.RingOf(r.state.page.value.events, log + ([control] + rejection + [outcome]))
  {
    hide RestartChild, PublishedBy, StatusRuns.RingOf;
    RestartIsOnward(s, d.child, config, sample);
    var r := RestartChild(s, d.child, config, sample);
    var control := ControlEvent(d, sample);
    var rejection := SpecEvents(r.spec, Ticks(sample.eventTicks, r.clockValid));
    var outcome := OutcomeEvent(r.state, d.child, r.action, Ticks(sample.clockTicks, r.clockValid));
    var events := [control] + rejection + [outcome];
    var ticks := Ticks(sample.publishTicks, r.clockValid);
    PublishIsOnward(r.state, d.child, events, ticks, r.clockValid);
    if Publishing(PublishedBy(r.state, d.child, events, ticks, r.clockValid)) {
      PublishedEventsJoin(r.state, d.child, events, ticks, r.clockValid, log);
      assert ReplyTells(PerformRestart(s, d, config, sample), control, outcome, d);
    }
  }

  // ----- published counts are never behind -----

  /** No row shows more restarts than its record has: what the reader's regression check relies on. */
  ghost predicate RowsBehindRecords(s: RootState) {
    s.page.Some? ==>
      forall i :: 0 <= i < CHILD_COUNT ==>
        s.page.value.children[i].lifetimeCount <= s.records[i].lifetimeCount
  }

  lemma PublishKeepsRows(s: RootState, child: Child, events: seq<Event>, ticks: uint64, valid: bool)
    requires RowsBehindRecords(s)
    ensures RowsBehindRecords(PublishedBy(s, child, events, ticks, valid))
  {
    hide Pushed, HeaderAfter;
  }

  lemma RestartKeepsRows(s: RootState, child: Child, config: Config, sample: Sample)
    requires RowsBehindRecords(s)
    ensures RowsBehindRecords(RestartChild(s, child, config, sample).state)
  {
    hide RestartChild;
    RestartIsOnward(s, child, config, sample);
  }

  lemma HandledKeepsRows(s: RootState, cb: Callback, config: Config)
    requires RowsBehindRecords(s)
    ensures RowsBehindRecords(Handled(s, cb, config).state)
  {
    hide RestartChild, PublishedBy, Faulted, Decided, RowsBehindRecords;
    match cb
    case OnCommand(channel, ppChannel, tag, count, args, sample) =>
      CommandKeepsRows(s, channel, ppChannel, tag, count, args, config, sample);
    case OnFault(raw, tag, count, mr0, mr1, sample) =>
      if raw < CHILD_COUNT && raw in s.publisher.present {
        var stamp := Ticks(sample.entryTicks, sample.before);
        var noted := FaultTaken(s, raw, tag, count, mr0, mr1, stamp, sample.before);
        SameRows(s, noted);
        RestartKeepsRows(noted, raw, config, sample);
        PublishesKeepRows(RestartChild(noted, raw, config, sample).state, raw);
      }
    case OnDebugRestart(child, sample) =>
      RestartKeepsRows(s, child, config, sample);
      PublishesKeepRows(RestartChild(s, child, config, sample).state, child);
    case OnFaultInject(child, sample) => PublishesKeepRows(s, child);
  }

  lemma PublishesKeepRows(s: RootState, child: Child)
    requires RowsBehindRecords(s)
    ensures forall events: seq<Event>, ticks: uint64, valid: bool ::
              RowsBehindRecords(PublishedBy(s, child, events, ticks, valid))
  {
    hide PublishedBy, RowsBehindRecords;
    forall events: seq<Event>, ticks: uint64, valid: bool
      ensures RowsBehindRecords(PublishedBy(s, child, events, ticks, valid))
    {
      PublishKeepsRows(s, child, events, ticks, valid);
    }
  }

  lemma SameRows(s: RootState, t: RootState)
    requires RowsBehindRecords(s) && t.page == s.page && t.records == s.records
    ensures RowsBehindRecords(t)
  {
  }

  lemma CommandKeepsRows(s: RootState, channel: uint32, ppChannel: uint32, tag: uint64, count: uint64, args: FourWords,
                         config: Config, sample: Sample)
    requires RowsBehindRecords(s)
    ensures RowsBehindRecords(Protected(s, channel, ppChannel, tag, count, args, config, sample).state)
  {
    hide RestartChild, PublishedBy, Decided, RowsBehindRecords;
    var r := Protected(s, channel, ppChannel, tag, count, args, config, sample);
    if FrameResult(channel, ppChannel, tag, count) != Ok {
      SameRows(s, r.state);
    } else {
      var ticks := Ticks(sample.entryTicks, sample.before);
      var step := Decided(s.command, ViewOf(s, config), tag, args, ticks, sample.before);
      var t := s.(command := step.state);
      SameRows(s, t);
      if step.decision.restart {
        RestartNamesChild(s.command, ViewOf(s, config), tag, args, ticks, sample.before);
        PerformKeepsRows(t, step.decision, config, sample);
      }
    }
  }

  lemma PerformKeepsRows(s: RootState, d: Decision, config: Config, sample: Sample)
    requires d.child < CHILD_COUNT && RowsBehindRecords(s)
    ensures RowsBehindRecords(PerformRestart(s, d, config, sample).state)
  {
    hide RestartChild, PublishedBy, RowsBehindRecords;
    RestartKeepsRows(s, d.child, config, sample);
    var r := RestartChild(s, d.child, config, sample);
    PublishesKeepRows(r.state, d.child);
    if !r.action.IgnoreGone? {
      SameRows(Concluded(r, d.child, [ControlEvent(d, sample)], sample), PerformRestart(s, d, config, sample).state);
    }
  }

  /** From boot on, every record a callback publishes counts at least what its row already shows. */
  lemma {:induction false} PublishedCountsNeverFall(start: RootState, callbacks: seq<Callback>, config: Config)
    requires RowsBehindRecords(start)
    ensures RowsBehindRecords(After(start, callbacks, config).state)
  {
    hide Handled, RowsBehindRecords;
    if callbacks != [] {
      var n := |callbacks| - 1;
      PublishedCountsNeverFall(start, callbacks[..n], config);
      HandledKeepsRows(After(start, callbacks[..n], config).state, callbacks[n], config);
    }
  }
}
