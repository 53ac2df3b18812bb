/** Between callbacks the status page is Root's own state, and its log says what happened (src/pd/root/main.c). */
module RootPage {
  import opened Words
  import opened SpecPage
  import opened RootPolicy
  import opened StatusPage
  import opened Status
  import opened StatusShows
  import opened Command
  import opened RootMain
  import opened RootRuns
  import opened RootLive
  import CommandReplies
  import RestartPlan
  import RootActs
  import SpecConsumer
  import StatusRuns

  /** The row of a child tells what Root holds about it. */
  ghost predicate ChildShown(s: RootState, child: nat)
    requires s.page.Some? && child < CHILD_COUNT
  {
    Tells(s.page.value.children[child], s.publisher.observations[child], s.records[child])
  }

  ghost predicate PolicyKept(s: RootState)
    requires s.page.Some?
  {
    && HeaderTells(s.page.value.header, s.publisher)
    && (!s.publisher.policyDirty ==>
          forall i :: 0 <= i < CHILD_COUNT && s.publisher.Present(i) ==>
            TellsPolicy(s.page.value.children[i], s.publisher, i))
  }

  /** All that Root holds shows, but for one child and a policy still to be shown. */
  ghost predicate ShownBut(s: RootState, child: nat) {
    && s.page.Some? && PolicyKept(s)
    && forall i :: 0 <= i < CHILD_COUNT && s.publisher.Present(i) && i != child ==> ChildShown(s, i)
  }

  /** While Root publishes: every present child, the policy in force and the BEAM's incarnation show. */
  ghost predicate PageIsRoot(s: RootState) {
    Publishing(s) ==>
      && PolicyKept(s) && !s.publisher.policyDirty
      && s.page.value.header.beamIncarnation == s.publisher.beamIncarnation
      && forall i :: 0 <= i < CHILD_COUNT && s.publisher.Present(i) ==> ChildShown(s, i)
  }

  lemma BootShows(boot: Boot)
    requires boot.Valid()
    ensures PageIsRoot(BootRoot(boot))
  {
    var s := BootRoot(boot);
    var stamp := if boot.frequency != 0 then boot.now else 0;
    forall i | 0 <= i < CHILD_COUNT && s.publisher.Present(i)
      ensures ChildShown(s, i) && TellsPolicy(s.page.value.children[i], s.publisher, i)
    {
      assert s.page.value.children[i] == BootRow(Unmapped(boot.present, boot.frequency, boot.budget), i, stamp);
    }
  }

  // ----- the restart path touches one child -----

  /** Nothing but one child's record and observation differs, save for a policy that is then still to be shown. */
  ghost predicate TouchesOne(s: RootState, t: RootState, child: nat) {
    var p, q := s.publisher, t.publisher;
    && t.page == s.page && q.present == p.present && q.seqWord == p.seqWord && q.eventHead == p.eventHead
    && q.rootGeneration == p.rootGeneration
    && (!q.policyDirty ==>
          && !p.policyDirty && q.effectiveBudget == p.effectiveBudget && q.desired == p.desired
          && q.appliedGeneration == p.appliedGeneration && q.appliedBank == p.appliedBank)
    && forall i :: 0 <= i < CHILD_COUNT && i != child ==>
         t.records[i] == s.records[i] && q.observations[i] == p.observations[i]
  }

  lemma TouchedShows(s: RootState, t: RootState, child: nat)
    requires ShownBut(s, child) && TouchesOne(s, t, child)
    ensures ShownBut(t, child)
  {
    hide Tells;
    forall i | 0 <= i < CHILD_COUNT && t.publisher.Present(i)
      ensures i != child ==> ChildShown(t, i)
      ensures !t.publisher.policyDirty ==> TellsPolicy(t.page.value.children[i], t.publisher, i)
    {
      assert s.publisher.Present(i);
      assert i != child ==> ChildShown(s, i);
    }
  }

  lemma RefreshTouchesNone(s: RootState, child: nat, config: Config, sample: Sample)
    ensures TouchesOne(s, Refreshed(s, config, sample).0, child)
  {
    hide SpecConsumer.Consumed, Budgets;
  }

  /** A note changes one observation, and at most the incarnation and whether publication goes on. */
  ghost predicate NotesOne(p: PublisherState, q: PublisherState, child: nat) {
    && q == p.(observations := q.observations, beamIncarnation := q.beamIncarnation, enabled := q.enabled,
               exhausted := q.exhausted)
    && forall i :: 0 <= i < CHILD_COUNT && i != child ==> q.observations[i] == p.observations[i]
  }

  lemma NotedTouchesOne(s: RootState, child: Child, record: ChildRecord, q: PublisherState)
    requires NotesOne(s.publisher, q, child)
    ensures TouchesOne(s, s.(records := s.records[child := record], publisher := q), child)
  {
  }

  lemma NotesTouchOne(p: PublisherState, child: nat, ticks: uint64, valid: bool, beam: bool)
    ensures NotesOne(p, NotedRestart(p, child, ticks, valid, beam), child)
    ensures NotesOne(p, NotedGone(p, child, ticks, valid), child)
  {
    hide Opened, Status.Restarted;
  }

  lemma CarryTouchesOne(s: RootState, child: Child, plan: RestartPlan.Plan, ticks: uint64, valid: bool, beam: bool)
    ensures TouchesOne(s, CarriedOut(s, child, plan, ticks, valid, beam), child)
  {
    hide NotedRestart, NotedGone, NotesOne, TouchesOne;
    NotesTouchOne(s.publisher, child, ticks, valid, beam);
    if plan.action.IgnoreGone? {
      TouchesNothing(s, child);
    } else if plan.action.Resume? {
      NotedTouchesOne(s, child, plan.next, NotedRestart(s.publisher, child, ticks, valid, beam));
    } else {
      NotedTouchesOne(s, child, s.records[child].(state := Gone), NotedGone(s.publisher, child, ticks, valid));
    }
  }

  lemma TouchesNothing(s: RootState, child: nat)
    ensures TouchesOne(s, s, child)
  {
  }

  lemma TouchesTransitive(s: RootState, t: RootState, u: RootState, child: nat)
    requires TouchesOne(s, t, child) && TouchesOne(t, u, child)
    ensures TouchesOne(s, u, child)
  {
  }

  lemma RestartTouchesOne(s: RootState, child: Child, config: Config, sample: Sample)
    ensures TouchesOne(s, RestartChild(s, child, config, sample).state, child)
  {
    hide Refreshed, RestartPlan.PlanFor, CarriedOut, TouchesOne;
    RefreshTouchesNone(s, child, config, sample);
    var seen := Refreshed(s, config, sample).0;
    var plan := RestartPlan.PlanFor(seen.spec.retained, seen.records[child], InputsFor(config, child, sample));
    var valid := ClockValid(sample, plan);
    CarryTouchesOne(seen, child, plan, Ticks(sample.noteTicks, valid), valid, child == config.beam);
    TouchesTransitive(s, seen, RestartChild(s, child, config, sample).state, child);
  }

  /** A publish that goes through shows the child, and the policy with it. */
  lemma PublishShowsAll(s: RootState, child: Child, events: seq<Event>, ticks: uint64, valid: bool)
    requires ShownBut(s, child)
    ensures PageIsRoot(PublishedBy(s, child, events, ticks, valid))
  {
    hide Tells, RowsAfter, Pushed, HeaderAfter;
    var t := PublishedBy(s, child, events, ticks, valid);
    if Publishing(t) {
      var publish := StatusRuns.Publish(child, Some(s.records[child]), ticks, valid, Events(events));
      var r := StatusRuns.Run(s.publisher, s.page.value, []);
      forall i | 0 <= i < CHILD_COUNT && s.publisher.Present(i)
        ensures ChildShown(t, i) && TellsPolicy(t.page.value.children[i], t.publisher, i)
      {
        assert ShownBefore(s, child, i);
        PublishShows(r, publish, i);
        KeptTells(s.page.value.children[i], t.page.value.children[i], s.publisher.observations[i], s.records[i]);
      }
      PublishShows(r, publish, child);
    }
  }

  ghost predicate ShownBefore(s: RootState, child: nat, i: nat)
    requires s.page.Some? && i < CHILD_COUNT
  {
    && (i != child ==> ChildShown(s, i))
    && (!s.publisher.policyDirty ==> TellsPolicy(s.page.value.children[i], s.publisher, i))
  }

  lemma KeptTells(was: ChildRow, row: ChildRow, o: Observed, record: ChildRecord)
    requires row == was.(effectiveBudget := row.effectiveBudget, desired := row.desired) || Tells(row, o, record)
    ensures Tells(was, o, record) ==> Tells(row, o, record)
  {
  }

  lemma ShownPart(s: RootState, child: nat)
    requires PageIsRoot(s) && Publishing(s)
    ensures ShownBut(s, child)
  {
  }

  // ----- every callback -----

  lemma ConcludeShows(s: RootState, child: Child, leading: seq<Event>, config: Config, sample: Sample)
    requires PageIsRoot(s)
    ensures PageIsRoot(Concluded(RestartChild(s, child, config, sample), child, leading, sample))
  {
    hide PageIsRoot, ShownBut, TouchesOne, RestartChild, PublishedBy, ConcludingEvents;
    var r := RestartChild(s, child, config, sample);
    RestartIsOnward(s, child, config, sample);
    ConcludedIsOnward(r, child, leading, sample);
    if Publishing(s) {
      ShownPart(s, child);
      RestartTouchesOne(s, child, config, sample);
      TouchedShows(s, r.state, child);
      PublishShowsAll(r.state, child, ConcludingEvents(r, child, leading, sample),
                      Ticks(sample.publishTicks, r.clockValid), r.clockValid);
    } else {
      SilentShows(Concluded(r, child, leading, sample));
    }
  }

  /** Once publication has ended nothing is claimed. */
  lemma SilentShows(s: RootState)
    requires !Publishing(s)
    ensures PageIsRoot(s)
  {
  }

  /** A fault is noted before the restart path: the child is then the one that does not show. */
  lemma FaultShowsPage(s: RootState, raw: nat, tag: uint64, count: nat, mr0: uint64, mr1: uint64, config: Config,
                       sample: Sample)
    requires PageIsRoot(s)
    ensures PageIsRoot(FaultOf(s, raw, tag, count, mr0, mr1, config, sample))
  {
    hide PageIsRoot, ShownBut, TouchesOne, RestartChild, PublishedBy, ConcludingEvents, FaultTaken;
    if raw < CHILD_COUNT && raw in s.publisher.present {
      var stamp := Ticks(sample.entryTicks, sample.before);
      var noted := FaultTaken(s, raw, tag, count, mr0, mr1, stamp, sample.before);
      var leading := [FaultEvent(raw, tag, count, mr0, mr1, stamp)];
      var r := RestartChild(noted, raw, config, sample);
      TakingTouchesOne(s, raw, tag, count, mr0, mr1, stamp, sample.before);
      RestartIsOnward(noted, raw, config, sample);
      ConcludedIsOnward(r, raw, leading, sample);
      if Publishing(s) {
        ShownPart(s, raw);
        TouchedShows(s, noted, raw);
        RestartTouchesOne(noted, raw, config, sample);
        TouchedShows(noted, r.state, raw);
        PublishShowsAll(r.state, raw, ConcludingEvents(r, raw, leading, sample),
                        Ticks(sample.publishTicks, r.clockValid), r.clockValid);
      } else {
        SilentShows(Concluded(r, raw, leading, sample));
      }
    }
  }

  lemma TakingTouchesOne(s: RootState, child: Child, tag: uint64, count: nat, mr0: uint64, mr1: uint64, stamp: uint64,
                         valid: bool)
    ensures var t := FaultTaken(s, child, tag, count, mr0, mr1, stamp, valid);
            TouchesOne(s, t, child) && (Publishing(t) <==> Publishing(s))
  {
    hide Faulted;
  }

  lemma CommandShowsPage(s: RootState, channel: uint32, ppChannel: uint32, tag: uint64, count: uint64, args: FourWords,
                         config: Config, sample: Sample)
    requires PageIsRoot(s)
    ensures PageIsRoot(Protected(s, channel, ppChannel, tag, count, args, config, sample).state)
  {
    hide PageIsRoot, Decided, RestartChild, Concluded, ReplyValues;
    var t := Protected(s, channel, ppChannel, tag, count, args, config, sample).state;
    if FrameResult(channel, ppChannel, tag, count) == Ok {
      var ticks := Ticks(sample.entryTicks, sample.before);
      var step := Decided(s.command, ViewOf(s, config), tag, args, ticks, sample.before);
      var u := s.(command := step.state);
      CommandPlaysNoPart(s, u);
      if step.decision.restart {
        RestartNamesChild(s.command, ViewOf(s, config), tag, args, ticks, sample.before);
        RestartIsOnward(u, step.decision.child, config, sample);
        var r := RestartChild(u, step.decision.child, config, sample);
        var leading := [ControlEvent(step.decision, sample)];
        ConcludeShows(u, step.decision.child, leading, config, sample);
        CommandPlaysNoPart(Concluded(r, step.decision.child, leading, sample), t);
      }
    } else {
      CommandPlaysNoPart(s, t);
    }
  }

  lemma CommandPlaysNoPart(s: RootState, t: RootState)
    requires PageIsRoot(s) && t == s.(command := t.command)
    ensures PageIsRoot(t)
  {
    assert forall i :: 0 <= i < CHILD_COUNT && t.page.Some? && s.page.Some? && ChildShown(s, i) ==> ChildShown(t, i);
  }

  lemma CallbackShowsPage(s: RootState, cb: Callback, config: Config)
    requires PageIsRoot(s)
    ensures PageIsRoot(Handled(s, cb, config).state)
  {
    hide PageIsRoot, ShownBut, RestartChild, Concluded, PublishedBy, Protected, FaultOf;
    match cb
    case OnCommand(channel, ppChannel, tag, count, args, sample) =>
      CommandShowsPage(s, channel, ppChannel, tag, count, args, config, sample);
    case OnFault(raw, tag, count, mr0, mr1, sample) =>
      FaultShowsPage(s, raw, tag, count, mr0, mr1, config, sample);
    case OnDebugRestart(child, sample) => ConcludeShows(s, child, [], config, sample);
    case OnFaultInject(child, sample) =>
      if s.records[child].state != Gone {
        var ticks := Ticks(sample.publishTicks, sample.before);
        PublishIsOnward(s, child, [InjectEvent(child, sample)], ticks, sample.before);
        if Publishing(s) {
          ShownPart(s, child);
          PublishShowsAll(s, child, [InjectEvent(child, sample)], ticks, sample.before);
        } else {
          SilentShows(PublishedBy(s, child, [InjectEvent(child, sample)], ticks, sample.before));
        }
      }
  }

  /**
   * Whatever callbacks Root has handled since boot, while it publishes its page shows exactly its state:
   * every present child's record and observation field by field, the policy in force, the incarnation
   * and the sequence.
   */
  lemma {:induction false} PageShowsRoot(boot: Boot, callbacks: seq<Callback>)
    requires boot.Valid()
    ensures PageIsRoot(RootAfter(boot, callbacks))
  {
    hide PageIsRoot, Handled, BootRoot;
    if callbacks == [] {
      BootShows(boot);
    } else {
      var n := |callbacks| - 1;
      PageShowsRoot(boot, callbacks[..n]);
      CallbackShowsPage(RootAfter(boot, callbacks[..n]), callbacks[n], boot.config);
    }
  }

  // ----- the policy that shows is the one that is applied -----

  /** The ceiling the plan holds a child to under the policy Root retains, clock or none. */
  function CeilingNow(s: RootState, config: Config, child: Child): uint32 {
    RestartPlan.AppliedCeiling(s.spec.retained,
                               RestartPlan.Inputs(child, config.limits[child], config.entries[child], config.timed,
                                                  false, 0))
  }

  /** The publisher holds every present child to that, as running, under the generation and bank retained. */
  ghost predicate PolicyIsApplied(s: RootState, config: Config) {
    && s.publisher.appliedGeneration == s.spec.retained.generation && s.publisher.appliedBank == s.spec.retained.bank
    && forall i: nat :: i < CHILD_COUNT && s.publisher.Present(i) ==> ChildIsHeld(s, config, i)
  }

  ghost predicate ChildIsHeld(s: RootState, config: Config, child: Child) {
    s.publisher.effectiveBudget[child] == CeilingNow(s, config, child) && s.publisher.desired[child] == 1
  }

  lemma CeilingIsApplied(s: RootState, config: Config, child: Child, sample: Sample)
    ensures RestartPlan.Ceiling(s.spec.retained, InputsFor(config, child, sample)) == CeilingNow(s, config, child)
  {
    ReportsAppliedCeiling(s.spec.retained, config, child, sample.(available := false, clockTicks := 0));
  }

  lemma RefreshApplies(s: RootState, config: Config, sample: Sample)
    requires PolicyIsApplied(s, config)
    ensures PolicyIsApplied(Refreshed(s, config, sample).0, config)
  {
    hide SpecConsumer.Consumed, RestartPlan.Ceiling, RestartPlan.AppliedCeiling;
    var t := Refreshed(s, config, sample).0;
    PolicyChangesOnApplied(s, sample);
    forall i: nat | i < CHILD_COUNT && t.publisher.Present(i)
      ensures ChildIsHeld(t, config, i)
    {
      CeilingIsApplied(t, config, i, sample);
      assert s.publisher.Present(i) && ChildIsHeld(s, config, i);
    }
  }

  lemma PolicyChangesOnApplied(s: RootState, sample: Sample)
    ensures var step := SpecConsumer.Consumed(s.spec, sample.copy, s.publisher.present);
            step.result.outcome != SpecConsumer.Applied ==> step.state.retained == s.spec.retained
  {
    SpecConsumer.AppliesOneWholeBank(s.spec, sample.copy, s.publisher.present);
    hide SpecConsumer.Consumed, SpecConsumer.Acceptable;
  }

  /** Whatever else a callback does, it leaves the policy fields alone. */
  lemma SamePolicy(s: RootState, t: RootState, config: Config)
    requires PolicyIsApplied(s, config) && t.spec == s.spec && t.publisher.present == s.publisher.present
    requires t.publisher.effectiveBudget == s.publisher.effectiveBudget && t.publisher.desired == s.publisher.desired
    requires t.publisher.appliedGeneration == s.publisher.appliedGeneration
    requires t.publisher.appliedBank == s.publisher.appliedBank
    ensures PolicyIsApplied(t, config)
  {
    hide RestartPlan.AppliedCeiling;
    assert forall i: nat :: i < CHILD_COUNT && ChildIsHeld(s, config, i) ==> ChildIsHeld(t, config, i);
  }

  lemma CarryKeepsPolicy(s: RootState, child: Child, plan: RestartPlan.Plan, ticks: uint64, valid: bool, beam: bool,
                         config: Config)
    requires PolicyIsApplied(s, config)
    ensures PolicyIsApplied(CarriedOut(s, child, plan, ticks, valid, beam), config)
  {
    NotesTouchOne(s.publisher, child, ticks, valid, beam);
    SamePolicy(s, CarriedOut(s, child, plan, ticks, valid, beam), config);
    hide PolicyIsApplied, NotedRestart, NotedGone;
  }

  lemma RestartApplies(s: RootState, child: Child, config: Config, sample: Sample)
    requires PolicyIsApplied(s, config)
    ensures PolicyIsApplied(RestartChild(s, child, config, sample).state, config)
  {
    hide Refreshed, RestartPlan.PlanFor, CarriedOut, PolicyIsApplied;
    RefreshApplies(s, config, sample);
    var seen := Refreshed(s, config, sample).0;
    var plan := RestartPlan.PlanFor(seen.spec.retained, seen.records[child], InputsFor(config, child, sample));
    var valid := ClockValid(sample, plan);
    CarryKeepsPolicy(seen, child, plan, Ticks(sample.noteTicks, valid), valid, child == config.beam, config);
  }

  lemma PublishKeepsPolicy(s: RootState, child: Child, events: seq<Event>, ticks: uint64, valid: bool, config: Config)
    requires PolicyIsApplied(s, config)
    ensures PolicyIsApplied(PublishedBy(s, child, events, ticks, valid), config)
  {
    PublisherKeepsPolicy(s, child, events, ticks, valid);
    SamePolicy(s, PublishedBy(s, child, events, ticks, valid), config);
    hide PolicyIsApplied, PublishedBy;
  }

  lemma PublisherKeepsPolicy(s: RootState, child: Child, events: seq<Event>, ticks: uint64, valid: bool)
    ensures var t := PublishedBy(s, child, events, ticks, valid);
            && t.spec == s.spec && t.publisher.present == s.publisher.present
            && t.publisher.effectiveBudget == s.publisher.effectiveBudget && t.publisher.desired == s.publisher.desired
            && t.publisher.appliedGeneration == s.publisher.appliedGeneration
            && t.publisher.appliedBank == s.publisher.appliedBank
  {
    hide RowsAfter, Pushed, HeaderAfter;
  }

  lemma ConcludeApplies(s: RootState, child: Child, leading: seq<Event>, config: Config, sample: Sample)
    requires PolicyIsApplied(s, config)
    ensures PolicyIsApplied(Concluded(RestartChild(s, child, config, sample), child, leading, sample), config)
  {
    hide PolicyIsApplied, RestartChild, PublishedBy, ConcludingEvents;
    var r := RestartChild(s, child, config, sample);
    RestartApplies(s, child, config, sample);
    PublishKeepsPolicy(r.state, child, ConcludingEvents(r, child, leading, sample),
                       Ticks(sample.publishTicks, r.clockValid), r.clockValid, config);
  }

  lemma TakingKeepsPolicy(s: RootState, child: Child, tag: uint64, count: nat, mr0: uint64, mr1: uint64, stamp: uint64,
                          valid: bool, config: Config)
    requires PolicyIsApplied(s, config)
    ensures PolicyIsApplied(FaultTaken(s, child, tag, count, mr0, mr1, stamp, valid), config)
  {
    var w0, w1 := if count >= 1 then mr0 else 0, if count >= 2 then mr1 else 0;
    FaultNotesOne(s.publisher, child, tag, count, w0, w1, stamp, valid);
    SamePolicy(s, FaultTaken(s, child, tag, count, mr0, mr1, stamp, valid), config);
    hide PolicyIsApplied, NotedFault;
  }

  lemma FaultNotesOne(p: PublisherState, child: nat, tag: uint64, count: nat, w0: uint64, w1: uint64, now: uint64,
                      valid: bool)
    ensures NotesOne(p, NotedFault(p, child, tag, count, w0, w1, now, valid), child)
  {
    hide Faulted;
  }

  lemma CallbackApplies(s: RootState, cb: Callback, config: Config)
    requires PolicyIsApplied(s, config)
    ensures PolicyIsApplied(Handled(s, cb, config).state, config)
  {
    hide PolicyIsApplied, RestartChild, Concluded, PublishedBy, Decided, FaultTaken, ReplyValues;
    match cb
    case OnCommand(channel, ppChannel, tag, count, args, sample) =>
      var t := Handled(s, cb, config).state;
      if FrameResult(channel, ppChannel, tag, count) != Ok {
        SamePolicy(s, t, config);
      } else {
        var ticks := Ticks(sample.entryTicks, sample.before);
        var step := Decided(s.command, ViewOf(s, config), tag, args, ticks, sample.before);
        var u := s.(command := step.state);
        SamePolicy(s, u, config);
        if step.decision.restart {
          RestartNamesChild(s.command, ViewOf(s, config), tag, args, ticks, sample.before);
          var d, r := step.decision, RestartChild(u, step.decision.child, config, sample);
          RestartIsOnward(u, d.child, config, sample);
          ConcludeApplies(u, d.child, [ControlEvent(d, sample)], config, sample);
          SamePolicy(Concluded(r, d.child, [ControlEvent(d, sample)], sample), t, config);
        }
      }
    case OnFault(raw, tag, count, mr0, mr1, sample) =>
      if raw < CHILD_COUNT && raw in s.publisher.present {
        var stamp := Ticks(sample.entryTicks, sample.before);
        TakingKeepsPolicy(s, raw, tag, count, mr0, mr1, stamp, sample.before, config);
        ConcludeApplies(FaultTaken(s, raw, tag, count, mr0, mr1, stamp, sample.before), raw,
                        [FaultEvent(raw, tag, count, mr0, mr1, stamp)], config, sample);
      }
    case OnDebugRestart(child, sample) => ConcludeApplies(s, child, [], config, sample);
    case OnFaultInject(child, sample) =>
      PublishKeepsPolicy(s, child, [InjectEvent(child, sample)], Ticks(sample.publishTicks, sample.before),
                         sample.before, config);
  }

  /** Init computes the boot budgets from the compiled policy. */
  ghost predicate BootBudgets(boot: Boot) {
    && boot.Valid()
    && forall i: nat :: i < CHILD_COUNT ==>
         boot.budget[i] == RestartPlan.Ceiling(COMPILED, RestartPlan.Inputs(i, boot.config.limits[i],
             boot.config.entries[i], boot.config.timed, false, 0))
  }

  lemma BootApplies(boot: Boot)
    requires BootBudgets(boot)
    ensures PolicyIsApplied(BootRoot(boot), boot.config)
  {
    hide RestartPlan.Ceiling, RestartPlan.AppliedCeiling;
    var s := BootRoot(boot);
    forall i: nat | i < CHILD_COUNT && s.publisher.Present(i)
      ensures ChildIsHeld(s, boot.config, i)
    {
      RestartPlan.ReportedCeilingDiffers(COMPILED, RestartPlan.Inputs(i, boot.config.limits[i], boot.config.entries[i],
                                                                      boot.config.timed, false, 0));
    }
  }

  lemma {:induction false} RunsApply(boot: Boot, callbacks: seq<Callback>)
    requires BootBudgets(boot)
    ensures PolicyIsApplied(RootAfter(boot, callbacks), boot.config)
  {
    hide PolicyIsApplied, Handled, BootRoot, BootBudgets;
    BootIsValid(boot);
    if callbacks == [] {
      BootApplies(boot);
    } else {
      var n := |callbacks| - 1;
      RunsApply(boot, callbacks[..n]);
      CallbackApplies(RootAfter(boot, callbacks[..n]), callbacks[n], boot.config);
    }
  }

  lemma BootIsValid(boot: Boot)
    requires BootBudgets(boot)
    ensures boot.Valid()
  {
  }

  /**
   * While Root publishes, the ceiling each present child's row shows is the one the restart plan holds
   * it to under the policy Root then retains, and the header names that policy's generation and bank.
   */
  lemma PageShowsCeilings(boot: Boot, callbacks: seq<Callback>, child: Child)
    requires BootBudgets(boot) && child in boot.present
    ensures var s := RootAfter(boot, callbacks);
            Publishing(s) ==>
              && s.page.value.children[child].effectiveBudget == CeilingNow(s, boot.config, child)
              && s.page.value.children[child].desired == 1
              && s.page.value.header.appliedGeneration == s.spec.retained.generation
              && s.page.value.header.appliedBank == s.spec.retained.bank
  {
    hide RootAfter, CeilingNow, ChildShown;
    RunsApply(boot, callbacks);
    PageShowsRoot(boot, callbacks);
    PresenceStays(boot, callbacks);
    assert RootAfter(boot, callbacks).publisher.Present(child);
    assert ChildIsHeld(RootAfter(boot, callbacks), boot.config, child);
  }

  lemma PresenceStays(boot: Boot, callbacks: seq<Callback>)
    requires boot.Valid()
    ensures RootAfter(boot, callbacks).publisher.present == boot.present
  {
    hide RootAfter, RootActs.Kept, RowsBehindRecords;
    var log := CallbacksKeep(boot, callbacks);
  }

  // ----- what a command is told is what the page shows -----

  /** HELLO and SYNC answer with the words a reader finds in the header. */
  lemma RepliesMatchPage(boot: Boot, callbacks: seq<Callback>, ppChannel: uint32, opcode: Opcode, args: FourWords,
                         sample: Sample)
    requires boot.Valid() && Publishing(RootAfter(boot, callbacks)) && (opcode == HELLO || opcode == SYNC)
    ensures var s := RootAfter(boot, callbacks);
            var h, r := s.page.value.header, Protected(s, ppChannel, ppChannel, opcode, 4, args, boot.config, sample);
            && (opcode == HELLO && r.result == Ok ==>
                  r.values == [1, h.rootGeneration, h.beamIncarnation, s.publisher.frequency] && args[0] == 1)
            && (opcode == SYNC && r.result == Ok ==> r.values[0] == h.seqWord)
            && r.performed == None
  {
    hide RootAfter, Refilled, Malformed, ChildShown;
    PageShowsRoot(boot, callbacks);
    var s := RootAfter(boot, callbacks);
    var ticks := Ticks(sample.entryTicks, sample.before);
    CommandReplies.WordsExactly(s.command, ViewOf(s, boot.config), opcode, args, ticks, sample.before);
    CommandReplies.ResultsExactly(s.command, ViewOf(s, boot.config), opcode, args, ticks, sample.before);
    hide Decided;
  }
}
