/** Root's callbacks as the calls they make on its status publisher (src/pd/root/main.c). */
module RootActs {
  import opened Words
  import opened SpecPage
  import opened RootPolicy
  import opened RestartPlan
  import opened StatusPage
  import opened Status
  import opened StatusAccepted
  import opened Command
  import opened RootMain
  import opened RootRuns
  import SpecConsumer
  import StatusRuns

  type Act = StatusRuns.Act
  type Run = StatusRuns.Run

  // ----- the calls of one callback -----

  ghost function RefreshActs(s: RootState, config: Config, sample: Sample): seq<Act> {
    var step := SpecConsumer.Consumed(s.spec, sample.copy, s.publisher.present);
    var policy := step.state.retained;
    if step.result.outcome != SpecConsumer.Applied then []
    else [StatusRuns.Policy(policy.generation, policy.bank, Budgets(policy, config, sample),
                            Copies(CHILD_COUNT, DESIRED_RUNNING))]
  }

  /** What follows the plan: nothing for an ignored child, otherwise one note. */
  function OutcomeActs(r: RootMain.Restarted, child: Child, config: Config, sample: Sample): seq<Act> {
    var ticks := Ticks(sample.noteTicks, r.clockValid);
    if r.action.IgnoreGone? then []
    else if r.action.Resume? then [StatusRuns.Restart(child, ticks, r.clockValid, child == config.beam)]
    else [StatusRuns.Stop(child, ticks, r.clockValid)]
  }

  ghost function RestartActs(s: RootState, child: Child, config: Config, sample: Sample): seq<Act> {
    RefreshActs(s, config, sample) + OutcomeActs(RestartChild(s, child, config, sample), child, config, sample)
  }

  /** root_publish: the publisher is called only while it is enabled; the flags are cleared in any case. */
  function PublishActs(s: RootState, child: Child, events: seq<Event>, ticks: uint64, valid: bool): seq<Act> {
    (if Publishing(s) then [StatusRuns.Publish(child, Some(s.records[child]), ticks, valid, Events(events))] else [])
    + [StatusRuns.Clear]
  }

  /** The tail of a callback that decided about a child. */
  function ConcludeActs(r: RootMain.Restarted, child: Child, leading: seq<Event>, sample: Sample): seq<Act> {
    PublishActs(r.state, child, ConcludingEvents(r, child, leading, sample), Ticks(sample.publishTicks, r.clockValid),
                r.clockValid)
  }

  ghost function FaultActs(s: RootState, raw: nat, tag: uint64, count: nat, mr0: uint64, mr1: uint64, config: Config,
                           sample: Sample): seq<Act> {
    if raw >= CHILD_COUNT || raw !in s.publisher.present then []
    else
      var child: Child := raw;
      var stamp := Ticks(sample.entryTicks, sample.before);
      var noted := FaultTaken(s, child, tag, count, mr0, mr1, stamp, sample.before);
      [StatusRuns.Fault(child, tag, count, if count >= 1 then mr0 else 0, if count >= 2 then mr1 else 0, stamp,
                        sample.before)]
      + RestartActs(noted, child, config, sample)
      + ConcludeActs(RestartChild(noted, child, config, sample), child,
                     [FaultEvent(child, tag, count, mr0, mr1, stamp)], sample)
  }

  ghost function PerformActs(s: RootState, d: Decision, config: Config, sample: Sample): seq<Act>
    requires d.child < CHILD_COUNT
  {
    var r := RestartChild(s, d.child, config, sample);
    RestartActs(s, d.child, config, sample)
    + if r.action.IgnoreGone? then [] else ConcludeActs(r, d.child, [ControlEvent(d, sample)], sample)
  }

  ghost function CommandActs(s: RootState, channel: uint32, ppChannel: uint32, tag: uint64, count: uint64,
                             args: FourWords, config: Config, sample: Sample): seq<Act> {
    if FrameResult(channel, ppChannel, tag, count) != Ok then []
    else
      var ticks := Ticks(sample.entryTicks, sample.before);
      var step := Decided(s.command, ViewOf(s, config), tag, args, ticks, sample.before);
      if !step.decision.restart then []
      else
        RestartNamesChild(s.command, ViewOf(s, config), tag, args, ticks, sample.before);
        PerformActs(s.(command := step.state), step.decision, config, sample)
  }

  ghost function DebugActs(s: RootState, child: Child, config: Config, sample: Sample): seq<Act> {
    RestartActs(s, child, config, sample) + ConcludeActs(RestartChild(s, child, config, sample), child, [], sample)
  }

  function InjectActs(s: RootState, child: Child, sample: Sample): seq<Act> {
    if s.records[child].state == Gone then []
    else PublishActs(s, child, [InjectEvent(child, sample)], Ticks(sample.publishTicks, sample.before), sample.before)
  }

  /** Every call a callback makes on the publisher, in order. */
  ghost function ActsOf(s: RootState, cb: Callback, config: Config): seq<Act> {
    match cb
    case OnCommand(channel, ppChannel, tag, count, args, sample) =>
      CommandActs(s, channel, ppChannel, tag, count, args, config, sample)
    case OnFault(raw, tag, count, mr0, mr1, sample) => FaultActs(s, raw, tag, count, mr0, mr1, config, sample)
    case OnDebugRestart(child, sample) => DebugActs(s, child, config, sample)
    case OnFaultInject(child, sample) => InjectActs(s, child, sample)
  }

  // ----- series of fit acts -----

  /** Acts the publisher's theorems apply to, one after the other. */
  ghost predicate Fit(r: Run, acts: seq<Act>, present: set<nat>)
    decreases |acts|
  {
    acts == [] ||
    (acts[0].Whole() && Proper(acts[0], present) && StatusRuns.Honest(r, acts[0])
     && Fit(StatusRuns.Acted(r, acts[0]), acts[1..], present))
  }

  ghost function Through(r: Run, acts: seq<Act>, present: set<nat>): Run
    requires Fit(r, acts, present)
    decreases |acts|
  {
    if acts == [] then r else Through(StatusRuns.Acted(r, acts[0]), acts[1..], present)
  }

  lemma {:induction false} FitConcat(r: Run, a: seq<Act>, b: seq<Act>, present: set<nat>)
    requires Fit(r, a, present) && Fit(Through(r, a, present), b, present)
    ensures Fit(r, a + b, present) && Through(r, a + b, present) == Through(Through(r, a, present), b, present)
    decreases |a|
  {
    hide StatusRuns.Acted, Proper, StatusRuns.Honest;
    if a == [] {
      assert a + b == b;
    } else {
      assert (a + b)[0] == a[0] && (a + b)[1..] == a[1..] + b;
      FitConcat(StatusRuns.Acted(r, a[0]), a[1..], b, present);
    }
  }

  lemma FitOne(r: Run, act: Act, present: set<nat>)
    requires act.Whole() && Proper(act, present) && StatusRuns.Honest(r, act)
    ensures Fit(r, [act], present) && Through(r, [act], present) == StatusRuns.Acted(r, act)
  {
    hide StatusRuns.Acted, Proper, StatusRuns.Honest;
    assert [act][1..] == [];
  }

  lemma FitNone(r: Run, present: set<nat>)
    ensures Fit(r, [], present) && Through(r, [], present) == r
  {
  }

  /** What the publisher and its page keep. */
  ghost predicate Kept(r: Run, present: set<nat>) {
    Sane(r) && StatusRuns.RingKept(r) && StatusRuns.Ahead(r) && r.state.present == present
  }

  /** Fit acts keep it, and the page they leave follows the one before. */
  lemma {:induction false} FitActsKeep(r: Run, acts: seq<Act>, present: set<nat>)
    requires Fit(r, acts, present) && Kept(r, present)
    ensures Kept(Through(r, acts, present), present)
    ensures StatusRuns.Follows(r.page, Through(r, acts, present).page)
    decreases |acts|
  {
    hide Sane, StatusRuns.RingKept, StatusRuns.Ahead, StatusRuns.Acted, StatusRuns.Follows, Proper, StatusRuns.Honest;
    if acts == [] {
      StatusRuns.FollowsItself(r.page);
    } else {
      var next := StatusRuns.Acted(r, acts[0]);
      OneFitActKeeps(r, acts[0], present);
      FitActsKeep(next, acts[1..], present);
      StatusRuns.FollowsTransitive(r.page, next.page, Through(next, acts[1..], present).page);
    }
  }

  lemma OneFitActKeeps(r: Run, act: Act, present: set<nat>)
    requires act.Whole() && Proper(act, present) && StatusRuns.Honest(r, act) && Kept(r, present)
    ensures Kept(StatusRuns.Acted(r, act), present) && StatusRuns.Follows(r.page, StatusRuns.Acted(r, act).page)
  {
    hide Sane, StatusRuns.RingKept, StatusRuns.Ahead, StatusRuns.Acted, StatusRuns.Follows, Proper, StatusRuns.Honest;
    ActStaysSane(r, act);
    StatusRuns.ActKeepsRing(r, act);
    StatusRuns.ActFollows(r, act);
  }

  // ----- a callback is its acts -----

  function RunOf(s: RootState, log: seq<Event>): Run
    requires s.page.Some?
  {
    StatusRuns.Run(s.publisher, s.page.value, log)
  }

  /** These acts are fit and take the publisher and its page from the first state to the second. */
  ghost predicate Amounts(s: RootState, log: seq<Event>, acts: seq<Act>, t: RootState) {
    && s.page.Some? && t.page.Some?
    && Fit(RunOf(s, log), acts, s.publisher.present)
    && var r := Through(RunOf(s, log), acts, s.publisher.present);
       r == RunOf(t, r.log) && t.publisher.present == s.publisher.present
  }

  lemma AmountsConcat(s: RootState, log: seq<Event>, a: seq<Act>, t: RootState, b: seq<Act>, u: RootState)
    requires Amounts(s, log, a, t)
    requires Amounts(t, Through(RunOf(s, log), a, s.publisher.present).log, b, u)
    ensures Amounts(s, log, a + b, u)
  {
    hide Fit, Through;
    FitConcat(RunOf(s, log), a, b, s.publisher.present);
  }

  lemma AmountsToNothing(s: RootState, log: seq<Event>)
    requires s.page.Some?
    ensures Amounts(s, log, [], s)
  {
  }

  lemma AmountsOne(s: RootState, log: seq<Event>, act: Act, t: RootState)
    requires s.page.Some? && t.page.Some? && act.Whole() && Proper(act, s.publisher.present)
    requires StatusRuns.Honest(RunOf(s, log), act) && t.publisher.present == s.publisher.present
    requires var r := StatusRuns.Acted(RunOf(s, log), act); r.state == t.publisher && r.page == t.page.value
    ensures Amounts(s, log, [act], t)
  {
    hide Proper, StatusRuns.Honest, StatusRuns.Acted, Fit, Through;
    FitOne(RunOf(s, log), act, s.publisher.present);
  }

  /** An applied policy comes from one of the two banks, and a recorded rejection has a reason. */
  lemma ConsumedIsProper(state: SpecConsumer.State, copy: SpecConsumer.Copy, mask: SpecConsumer.Mask)
    ensures var step := SpecConsumer.Consumed(state, copy, mask);
            && (step.result.outcome == SpecConsumer.Applied ==> step.state.retained.bank <= 1)
            && (step.result.record ==> step.result.reason != SpecConsumer.Unset)
  {
    hide SpecPage.CheckBank, SpecPage.ContentOf, SpecConsumer.Declared, SpecPage.HeaderOk, AllZero, Header;
    if copy.Stable? && HeaderOk(Header(copy.page)) {
      SpecConsumer.HeaderBoundsActive(copy.page);
    }
  }

  lemma RefreshAmounts(s: RootState, config: Config, sample: Sample, log: seq<Event>)
    requires s.page.Some?
    ensures Amounts(s, log, RefreshActs(s, config, sample), Refreshed(s, config, sample).0)
  {
    hide Budgets, SpecConsumer.Consumed, NotedPolicy;
    ConsumedIsProper(s.spec, sample.copy, s.publisher.present);
    RefreshKeepsSequence(s, config, sample);
    var t, acts := Refreshed(s, config, sample).0, RefreshActs(s, config, sample);
    if acts == [] {
      AmountsToNothing(s, log);
    } else {
      AmountsOne(s, log, acts[0], t);
    }
  }

  lemma OutcomeAmounts(s: RootState, child: Child, config: Config, sample: Sample, log: seq<Event>)
    requires s.page.Some?
    ensures var r := RestartChild(s, child, config, sample);
            Amounts(Refreshed(s, config, sample).0, log, OutcomeActs(r, child, config, sample), r.state)
  {
    hide Refreshed, PlanFor, NotedRestart, NotedGone;
    RefreshKeepsSequence(s, config, sample);
    var t, r := Refreshed(s, config, sample).0, RestartChild(s, child, config, sample);
    RestartIsOnward(s, child, config, sample);
    var acts := OutcomeActs(r, child, config, sample);
    if acts == [] {
      AmountsToNothing(t, log);
    } else {
      AmountsOne(t, log, acts[0], r.state);
    }
  }

  lemma RestartAmounts(s: RootState, child: Child, config: Config, sample: Sample, log: seq<Event>)
    requires s.page.Some?
    ensures Amounts(s, log, RestartActs(s, child, config, sample), RestartChild(s, child, config, sample).state)
  {
    hide Amounts, Fit, Through, RefreshActs, OutcomeActs, RestartChild, Refreshed;
    RefreshAmounts(s, config, sample, log);
    AmountsFits(s, log, RefreshActs(s, config, sample), Refreshed(s, config, sample).0);
    var r := RestartChild(s, child, config, sample);
    OutcomeAmounts(s, child, config, sample,
                   Through(RunOf(s, log), RefreshActs(s, config, sample), s.publisher.present).log);
    AmountsConcat(s, log, RefreshActs(s, config, sample), Refreshed(s, config, sample).0,
                  OutcomeActs(r, child, config, sample), r.state);
  }

  lemma AmountsFits(s: RootState, log: seq<Event>, acts: seq<Act>, t: RootState)
    requires Amounts(s, log, acts, t)
    ensures s.page.Some? && t.page.Some? && Fit(RunOf(s, log), acts, s.publisher.present)
    ensures t.publisher.present == s.publisher.present
  {
  }

  /** A publish of proper events, while no row is ahead of its record. */
  lemma PublishAmounts(s: RootState, child: Child, events: seq<Event>, ticks: uint64, valid: bool, log: seq<Event>)
    requires s.page.Some? && RowsBehindRecords(s)
    requires child in s.publisher.present ==> AllProper(events, s.publisher.present)
    ensures Amounts(s, log, PublishActs(s, child, events, ticks, valid), PublishedBy(s, child, events, ticks, valid))
  {
    hide AllProper, Published, Amounts, Fit, Through;
    var present := s.publisher.present;
    var publish := StatusRuns.Publish(child, Some(s.records[child]), ticks, valid, Events(events));
    var p := Published(s.publisher, s.page.value, child, Some(s.records[child]), ticks, valid, Events(events));
    PublishKeepsPresent(s.publisher, s.page.value, child, Some(s.records[child]), ticks, valid, Events(events));
    var t := if Publishing(s) then s.(publisher := p.state, page := Some(p.page)) else s;
    var acts := if Publishing(s) then [publish] else [];
    if Publishing(s) {
      AmountsOne(s, log, publish, t);
    } else {
      AmountsToNothing(s, log);
    }
    AmountsFits(s, log, acts, t);
    AmountsOne(t, Through(RunOf(s, log), acts, present).log, StatusRuns.Clear,
               PublishedBy(s, child, events, ticks, valid));
    AmountsConcat(s, log, acts, t, [StatusRuns.Clear], PublishedBy(s, child, events, ticks, valid));
  }

  lemma PublishKeepsPresent(s: PublisherState, page: StatusPage, child: nat, record: Option<ChildRecord>, now: uint64,
                            clockValid: bool, events: EventList)
    ensures Published(s, page, child, record, now, clockValid, events).state.present == s.present
  {
    hide RowsAfter, Pushed, HeaderAfter;
  }

  /** The events of a tail are proper for a present child, whatever proper event leads. */
  lemma ConcludingProper(s: RootState, child: Child, leading: seq<Event>, config: Config, sample: Sample,
                         present: set<nat>)
    requires child in present && AllProper(leading, present)
    ensures AllProper(ConcludingEvents(RestartChild(s, child, config, sample), child, leading, sample), present)
  {
    hide RestartChild;
    var r := RestartChild(s, child, config, sample);
    RejectionHasReason(s, child, config, sample);
  }

  lemma RejectionHasReason(s: RootState, child: Child, config: Config, sample: Sample)
    ensures var spec := RestartChild(s, child, config, sample).spec; spec.record ==> spec.reason != SpecConsumer.Unset
  {
    hide SpecConsumer.Consumed, PlanFor, PolicyNoted, CarriedOut;
    ConsumedIsProper(s.spec, sample.copy, s.publisher.present);
  }

  lemma ConcludeAmounts(s: RootState, child: Child, leading: seq<Event>, config: Config, sample: Sample,
                        log: seq<Event>)
    requires s.page.Some? && RowsBehindRecords(s)
    requires child in s.publisher.present ==> AllProper(leading, s.publisher.present)
    ensures var r := RestartChild(s, child, config, sample);
            Amounts(s, log, RestartActs(s, child, config, sample) + ConcludeActs(r, child, leading, sample),
                    Concluded(r, child, leading, sample))
  {
    hide Amounts, Fit, Through, RestartActs, PublishActs, RestartChild, PublishedBy, RowsBehindRecords, AllProper,
        ConcludingEvents;
    var r := RestartChild(s, child, config, sample);
    RestartAmounts(s, child, config, sample, log);
    AmountsFits(s, log, RestartActs(s, child, config, sample), r.state);
    RestartKeepsRows(s, child, config, sample);
    if child in s.publisher.present {
      ConcludingProper(s, child, leading, config, sample, s.publisher.present);
    }
    PublishAmounts(r.state, child, ConcludingEvents(r, child, leading, sample),
                   Ticks(sample.publishTicks, r.clockValid), r.clockValid,
                   Through(RunOf(s, log), RestartActs(s, child, config, sample), s.publisher.present).log);
    AmountsConcat(s, log, RestartActs(s, child, config, sample), r.state,
                  ConcludeActs(r, child, leading, sample), Concluded(r, child, leading, sample));
  }

  lemma FaultAmounts(s: RootState, raw: nat, tag: uint64, count: nat, mr0: uint64, mr1: uint64, config: Config,
                     sample: Sample, log: seq<Event>)
    requires s.page.Some? && RowsBehindRecords(s)
    ensures Amounts(s, log, FaultActs(s, raw, tag, count, mr0, mr1, config, sample),
                    FaultOf(s, raw, tag, count, mr0, mr1, config, sample))
  {
    hide Amounts, Fit, Through, RestartActs, ConcludeActs, RestartChild, Concluded, Faulted, RowsBehindRecords;
    if raw >= CHILD_COUNT || raw !in s.publisher.present {
      AmountsToNothing(s, log);
    } else {
      var stamp := Ticks(sample.entryTicks, sample.before);
      var noted := FaultTaken(s, raw, tag, count, mr0, mr1, stamp, sample.before);
      var fault := StatusRuns.Fault(raw, tag, count, if count >= 1 then mr0 else 0, if count >= 2 then mr1 else 0,
                                    stamp, sample.before);
      AmountsOne(s, log, fault, noted);
      AmountsFits(s, log, [fault], noted);
      SameRows(s, noted);
      var event := FaultEvent(raw, tag, count, mr0, mr1, stamp);
      assert EventProper(event, s.publisher.present);
      ConcludeAmounts(noted, raw, [event], config, sample, Through(RunOf(s, log), [fault], s.publisher.present).log);
      var rest := RestartActs(noted, raw, config, sample)
                  + ConcludeActs(RestartChild(noted, raw, config, sample), raw, [event], sample);
      AmountsConcat(s, log, [fault], noted, rest, FaultOf(s, raw, tag, count, mr0, mr1, config, sample));
      assert [fault] + rest == FaultActs(s, raw, tag, count, mr0, mr1, config, sample);
    }
  }

  lemma PerformAmounts(s: RootState, d: Decision, config: Config, sample: Sample, log: seq<Event>)
    requires d.child < CHILD_COUNT && s.page.Some? && RowsBehindRecords(s)
    ensures Amounts(s, log, PerformActs(s, d, config, sample), PerformRestart(s, d, config, sample).state)
  {
    hide Amounts, Fit, Through, RestartActs, ConcludeActs, RestartChild, Concluded, RowsBehindRecords, ReplyValues;
    var r := RestartChild(s, d.child, config, sample);
    if r.action.IgnoreGone? {
      RestartAmounts(s, d.child, config, sample, log);
      assert RestartActs(s, d.child, config, sample) + [] == RestartActs(s, d.child, config, sample);
    } else {
      assert d.child in s.publisher.present ==> EventProper(ControlEvent(d, sample), s.publisher.present);
      ConcludeAmounts(s, d.child, [ControlEvent(d, sample)], config, sample, log);
      CommandPlaysNoPart(s, log, PerformActs(s, d, config, sample), Concluded(r, d.child, [ControlEvent(d, sample)],
          sample), PerformRestart(s, d, config, sample).state);
    }
  }

  lemma CommandPlaysNoPart(s: RootState, log: seq<Event>, acts: seq<Act>, t: RootState, u: RootState)
    requires Amounts(s, log, acts, t) && u.page == t.page && u.publisher == t.publisher
    ensures Amounts(s, log, acts, u)
  {
  }

  lemma CommandAmounts(s: RootState, channel: uint32, ppChannel: uint32, tag: uint64, count: uint64, args: FourWords,
                       config: Config, sample: Sample, log: seq<Event>)
    requires s.page.Some? && RowsBehindRecords(s)
    ensures Amounts(s, log, CommandActs(s, channel, ppChannel, tag, count, args, config, sample),
                    Protected(s, channel, ppChannel, tag, count, args, config, sample).state)
  {
    hide Amounts, Fit, Through, PerformActs, PerformRestart, Decided, RowsBehindRecords;
    AmountsToNothing(s, log);
    if FrameResult(channel, ppChannel, tag, count) != Ok {
      CommandPlaysNoPart(s, log, [], s, Protected(s, channel, ppChannel, tag, count, args, config, sample).state);
      return;
    }
    var ticks := Ticks(sample.entryTicks, sample.before);
    var step := Decided(s.command, ViewOf(s, config), tag, args, ticks, sample.before);
    var t := s.(command := step.state);
    if !step.decision.restart {
      CommandPlaysNoPart(s, log, [], s, t);
    } else {
      RestartNamesChild(s.command, ViewOf(s, config), tag, args, ticks, sample.before);
      SameRows(s, t);
      PerformAmounts(t, step.decision, config, sample, log);
      SameStart(s, t, log, PerformActs(t, step.decision, config, sample),
                PerformRestart(t, step.decision, config, sample).state);
    }
  }

  lemma SameStart(s: RootState, t: RootState, log: seq<Event>, acts: seq<Act>, u: RootState)
    requires Amounts(t, log, acts, u) && s.page == t.page && s.publisher == t.publisher
    ensures Amounts(s, log, acts, u)
  {
  }

  /**
   * Every callback does to the publisher and its page exactly what its calls do in order, and every
   * one of them is whole, proper, and publishes no count below its row's.
   */
  lemma CallbackAmounts(s: RootState, cb: Callback, config: Config, log: seq<Event>)
    requires s.page.Some? && RowsBehindRecords(s)
    ensures Amounts(s, log, ActsOf(s, cb, config), Handled(s, cb, config).state)
  {
    hide Amounts, CommandActs, FaultActs, RestartActs, ConcludeActs, PublishActs, RestartChild, Concluded, Protected,
        FaultOf, PublishedBy, RowsBehindRecords;
    match cb
    case OnCommand(channel, ppChannel, tag, count, args, sample) =>
      CommandAmounts(s, channel, ppChannel, tag, count, args, config, sample, log);
    case OnFault(raw, tag, count, mr0, mr1, sample) =>
      FaultAmounts(s, raw, tag, count, mr0, mr1, config, sample, log);
    case OnDebugRestart(child, sample) => ConcludeAmounts(s, child, [], config, sample, log);
    case OnFaultInject(child, sample) =>
      if s.records[child].state == Gone {
        AmountsToNothing(s, log);
      } else {
        assert child in s.publisher.present ==> EventProper(InjectEvent(child, sample), s.publisher.present);
        PublishAmounts(s, child, [InjectEvent(child, sample)], Ticks(sample.publishTicks, sample.before), sample.before,
                       log);
      }
  }
}
