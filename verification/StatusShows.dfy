/** What the status page shows of the publisher and its records, field by field (src/pd/root/status.c). */
module StatusShows {
  import opened Words
  import opened SpecPage
  import opened StatusPage
  import opened RootPolicy
  import opened Status
  import opened StatusRuns

  // ----- what a row shows -----

  /** The row tells this observation and this record. */
  ghost predicate Tells(row: ChildRow, o: Observed, record: ChildRecord) {
    && row.state == (if record.state == Gone then 3 else 1)
    && row.lifetimeCount == record.lifetimeCount && row.windowCount == record.windowCount
    && row.flags % 4 == o.faultFlags && (row.flags >= 4 <==> o.downOpen) && row.flags < 8
    && row.faultLabel == o.faultLabel && row.faultMr0 == o.faultMr0 && row.faultMr1 == o.faultMr1
    && row.lastFaultTicks == o.lastFaultTicks && row.lastRestartTicks == o.lastRestartTicks
    && row.cumulativeDownTicks == o.cumulativeDownTicks
  }

  /** The row tells the policy now in force. */
  ghost predicate TellsPolicy(row: ChildRow, s: PublisherState, child: nat)
    requires child < CHILD_COUNT
  {
    row.effectiveBudget == s.effectiveBudget[child] && row.desired == s.desired[child]
  }

  /** The header tells the publisher's identity and, once it has been shown, its policy. */
  ghost predicate HeaderTells(h: StatusHeader, s: PublisherState) {
    && h.seqWord == s.seqWord && h.eventHead == s.eventHead && h.rootGeneration == s.rootGeneration
    && (!s.policyDirty ==> h.appliedGeneration == s.appliedGeneration && h.appliedBank == s.appliedBank)
  }

  /**
   * A publish that succeeds shows its child's observation and record field by field, the policy in
   * force on every present row, and in the header the new sequence, head, incarnation and clock; it
   * leaves boot ticks and slot generations, and every row of an absent child, as they were.
   */
  lemma PublishShows(r: Run, act: Act, child: nat)
    requires act.Publish? && Publishing(r, act).ok && child < CHILD_COUNT && HeaderTells(r.page.header, r.state)
    requires !r.state.policyDirty && r.state.Present(child) ==> TellsPolicy(r.page.children[child], r.state, child)
    ensures var t := Acted(r, act);
            var row, was, h := t.page.children[child], r.page.children[child], t.page.header;
            && (act.record.Some? && act.child == child ==>
                  Tells(row, r.state.observations[child], act.record.value))
            && (r.state.Present(child) ==> TellsPolicy(row, t.state, child))
            && (!r.state.Present(child) ==> row == was)
            && (!act.record.Some? || act.child != child ==>
                  row == was.(effectiveBudget := row.effectiveBudget, desired := row.desired))
            && row.bootTicks == was.bootTicks && row.slotGeneration == was.slotGeneration
            && HeaderTells(h, t.state) && !t.state.policyDirty
            && t.state.seqWord == r.state.seqWord + 2 && t.state.eventHead == r.state.eventHead + |act.events.List()|
            && h.beamIncarnation == t.state.beamIncarnation
            && h.nowTicks == (if act.clockValid then act.now else 0)
            && h.cntfrq == (if act.clockValid then r.state.frequency else 0)
  {
    hide Pushed;
  }

  /** When a publish is refused, and what for; a refusal leaves the page alone and ends publication. */
  lemma RefusesExactly(r: Run, act: Act)
    requires act.Publish?
    ensures var p, s := Publishing(r, act), r.state;
            var usable := act.events.Count() <= 3 && (act.events.Missing? ==> act.events.count == 0)
                          && (act.record.Some? ==> act.child < CHILD_COUNT && act.child in s.present);
            var room := s.seqWord < UINT64_MAX - 1 && s.eventHead + act.events.Count() <= UINT64_MAX;
            && (p.ok <==> s.enabled && usable && room)
            && (!p.ok ==>
                  && p.page == r.page && !p.state.enabled
                  && (p.state.misused <==> s.misused || (s.enabled && !usable))
                  && (p.state.exhausted <==> s.exhausted || (s.enabled && usable && !room)))
  {
    hide RowsAfter, Pushed, HeaderAfter;
  }

  /** The page and the publisher as boot leaves them. */
  lemma BootMeaning(present: set<nat>, now: uint64, frequency: uint64, budget: seq<uint32>, child: nat, slot: nat)
    requires |budget| == CHILD_COUNT && child < CHILD_COUNT && 0 < slot < EVENT_COUNT
    ensures var r := Booted(present, now, frequency, budget);
            var p, stamp := r.page, if frequency == 0 then 0 else now;
            && p.header == StatusHeader(0x3141_5453_5952_4843, 1, CHILD_COUNT, 2, 1, 1, stamp, frequency, 1, 0, 0, 0)
            && p.children[child] ==
               (if child in present then ChildRow(1, 1, 0, 0, budget[child], 0, 0, 0, 0, 0, stamp, 0, 0, 0)
                else ChildRow(0, 0, 0, 0, 0, 0, 0, 0, 0, 0, 0, 0, 0, 0))
            && p.events[0] == Event(stamp, 1, 255, 0, 0, 1, 1) && p.events[slot] == Event(0, 0, 0, 0, 0, 0, 0)
            && r.state.seqWord == 2 && r.state.eventHead == 1 && r.state.enabled && r.state.frequency == frequency
            && r.state.rootGeneration == 1 && r.state.beamIncarnation == 1 && r.state.present == present
            && !r.state.observations[child].downOpen && r.state.observations[child].cumulativeDownTicks == 0
  {
    var stamp := if frequency == 0 then 0 else now;
    assert BootPage(present, now, frequency, budget).children[child] ==
           BootRow(Unmapped(present, frequency, budget), child, stamp);
  }

  // ----- the last thing shown, over every run -----

  /** What was published about a child last: its observation and its record then. */
  datatype Shown = Shown(observation: Observed, record: ChildRecord)

  /** A publish of this child's row that is not refused. */
  ghost predicate Shows(r: Run, act: Act, child: nat) {
    act.Publish? && act.record.Some? && act.child == child && Publishing(r, act).ok
  }

  ghost function LastShown(start: Run, acts: seq<Act>, child: nat): Option<Shown>
    requires child < CHILD_COUNT && forall a :: a in acts ==> a.Whole()
  {
    if acts == [] then None
    else
      var n := |acts| - 1;
      assert forall a :: a in acts[..n] ==> a in acts;
      var before := AfterActs(start, acts[..n]);
      if Shows(before, acts[n], child) then Some(Shown(before.state.observations[child], acts[n].record.value))
      else LastShown(start, acts[..n], child)
  }

  /** The row of a present child that has not been published since boot. */
  ghost predicate Untouched(row: ChildRow) {
    row == ZERO_ROW.(state := 1, bootTicks := row.bootTicks, effectiveBudget := row.effectiveBudget,
                     desired := row.desired)
  }

  ghost predicate RowIsCurrent(r: Run, child: nat, last: Option<Shown>, stamp: uint64)
    requires child < CHILD_COUNT
  {
    var row := r.page.children[child];
    && HeaderTells(r.page.header, r.state)
    && (r.state.Present(child) ==>
          && row.bootTicks == stamp && row.slotGeneration == 0
          && (!r.state.policyDirty ==> TellsPolicy(row, r.state, child))
          && if last.Some? then Tells(row, last.value.observation, last.value.record) else Untouched(row))
  }

  /** Only observations, the incarnation and the flags that stop publication differ. */
  ghost predicate ObservedOnly(s: PublisherState, t: PublisherState) {
    t == s.(observations := t.observations, beamIncarnation := t.beamIncarnation, enabled := t.enabled,
            exhausted := t.exhausted, misused := t.misused)
  }

  lemma FaultObserves(s: PublisherState, child: nat, tag: uint64, count: nat, w0: uint64, w1: uint64, now: uint64,
                      valid: bool)
    ensures ObservedOnly(s, NotedFault(s, child, tag, count, w0, w1, now, valid))
  {
    hide Faulted;
  }

  lemma RestartObserves(s: PublisherState, child: nat, now: uint64, valid: bool, beam: bool)
    ensures ObservedOnly(s, NotedRestart(s, child, now, valid, beam))
  {
    hide Status.Restarted;
  }

  lemma GoneObserves(s: PublisherState, child: nat, now: uint64, valid: bool)
    ensures ObservedOnly(s, NotedGone(s, child, now, valid))
  {
    hide Opened;
  }

  /** So it is for every note but a policy's. */
  lemma NoteKeeps(r: Run, act: Act)
    requires act.Whole() && !act.Publish? && !act.Policy?
    ensures Acted(r, act).page == r.page && ObservedOnly(r.state, Acted(r, act).state)
  {
    hide NotedFault, NotedRestart, NotedGone;
    match act
    case Fault(child, tag, count, w0, w1, now, valid) => FaultObserves(r.state, child, tag, count, w0, w1, now, valid);
    case Restart(child, now, valid, beam) => RestartObserves(r.state, child, now, valid, beam);
    case Stop(child, now, valid) => GoneObserves(r.state, child, now, valid);
    case Clear =>
  }

  lemma NoteLeavesRows(r: Run, act: Act, child: nat, last: Option<Shown>, stamp: uint64)
    requires child < CHILD_COUNT && act.Whole() && !act.Publish? && RowIsCurrent(r, child, last, stamp)
    ensures RowIsCurrent(Acted(r, act), child, last, stamp) && Acted(r, act).state.present == r.state.present
  {
    if !act.Policy? {
      NoteKeeps(r, act);
    }
    hide NotedFault, NotedRestart, NotedGone, Tells, Untouched;
  }

  lemma PublishLeavesCurrent(r: Run, act: Act, child: nat, last: Option<Shown>, stamp: uint64)
    requires child < CHILD_COUNT && act.Publish? && RowIsCurrent(r, child, last, stamp)
    ensures var o := r.state.observations[child];
            var now := if Shows(r, act, child) then Some(Shown(o, act.record.value)) else last;
            RowIsCurrent(Acted(r, act), child, now, stamp)
    ensures Acted(r, act).state.present == r.state.present
  {
    hide Pushed, RowsAfter, HeaderAfter, Untouched;
    if Publishing(r, act).ok {
      PublishShows(r, act, child);
      if !Shows(r, act, child) {
        RestUntouched(r.page.children[child], Acted(r, act).page.children[child]);
      }
    }
  }

  lemma RestUntouched(was: ChildRow, row: ChildRow)
    requires row == was.(effectiveBudget := row.effectiveBudget, desired := row.desired)
    ensures Untouched(was) ==> Untouched(row)
  {
  }

  /**
   * After every run from boot the row of a present child shows, field by field, its observation and
   * record as last published, its boot tick, and the policy in force unless one is still to be shown.
   */
  lemma {:induction false} RowsAreLastShown(
    present: set<nat>, now: uint64, frequency: uint64, budget: seq<uint32>, acts: seq<Act>, child: nat)
    requires |budget| == CHILD_COUNT && child < CHILD_COUNT && forall a :: a in acts ==> a.Whole()
    ensures var start := Booted(present, now, frequency, budget);
            RowIsCurrent(AfterActs(start, acts), child, LastShown(start, acts, child),
                         if frequency != 0 then now else 0)
  {
    hide RowIsCurrent, Acted, Booted, Shows;
    var start := Booted(present, now, frequency, budget);
    if acts == [] {
      BootIsCurrent(present, now, frequency, budget, child);
    } else {
      var n := |acts| - 1;
      assert acts[n] in acts && forall a :: a in acts[..n] ==> a in acts;
      RowsAreLastShown(present, now, frequency, budget, acts[..n], child);
      var before, last := AfterActs(start, acts[..n]), LastShown(start, acts[..n], child);
      var stamp := if frequency != 0 then now else 0;
      if acts[n].Publish? {
        PublishLeavesCurrent(before, acts[n], child, last, stamp);
      } else {
        NoteLeavesRows(before, acts[n], child, last, stamp);
        NotesShowNothing(before, acts[n], child);
      }
    }
  }

  lemma NotesShowNothing(r: Run, act: Act, child: nat)
    requires !act.Publish?
    ensures !Shows(r, act, child)
  {
  }

  lemma BootIsCurrent(present: set<nat>, now: uint64, frequency: uint64, budget: seq<uint32>, child: nat)
    requires |budget| == CHILD_COUNT && child < CHILD_COUNT
    ensures RowIsCurrent(Booted(present, now, frequency, budget), child, None, if frequency != 0 then now else 0)
  {
    var r := Booted(present, now, frequency, budget);
    var stamp := if frequency != 0 then now else 0;
    assert r.page.children[child] == BootRow(Unmapped(present, frequency, budget), child, stamp);
  }

  // ----- faults, a restart, a publish -----

  /** The state after noting faults of one child. */
  function Down(s: PublisherState, child: nat, faults: seq<FaultSeen>): PublisherState {
    if faults == [] then s
    else
      var n := |faults| - 1;
      var f := faults[n];
      NotedFault(Down(s, child, faults[..n]), child, f.tag, f.count, f.mr0, f.mr1, f.now, f.clockValid)
  }

  lemma {:induction false} DownIsObserved(s: PublisherState, child: nat, faults: seq<FaultSeen>)
    requires s.Present(child)
    ensures Down(s, child, faults) == WithObservation(s, child, AfterFaults(s.observations[child], faults))
  {
    hide Faulted;
    if faults == [] {
      assert s.observations[child := s.observations[child]] == s.observations;
    } else {
      DownIsObserved(s, child, faults[..|faults| - 1]);
    }
  }

  /**
   * A child that was up and shown faults, any number of times and whatever the clock, is restarted and
   * published: its row shows the restart's tick, a closed interval, the down ticks it showed before plus
   * the time since the first timed fault (saturating), the last fault, and the record's state and counts.
   */
  lemma RestartShows(r: Run, child: nat, faults: seq<FaultSeen>, restart: Act, publish: Act)
    requires r.state.Present(child) && !r.state.observations[child].downOpen
    requires r.page.children[child].cumulativeDownTicks == r.state.observations[child].cumulativeDownTicks
    requires restart.Restart? && restart.child == child
    requires publish.Publish? && publish.child == child && publish.record.Some? && faults != []
    requires Publishing(Acted(r.(state := Down(r.state, child, faults)), restart), publish).ok
    ensures var shown := Acted(Acted(r.(state := Down(r.state, child, faults)), restart), publish).page;
            var row, was, record := shown.children[child], r.page.children[child], publish.record.value;
            var last := faults[|faults| - 1];
            && row.lastRestartTicks == (if restart.clockValid then restart.now else 0)
            && row.flags == FaultWordFlags(last.count)
            && row.cumulativeDownTicks ==
               (if restart.clockValid && FirstTimed(faults).Some? then
                  Added(was.cumulativeDownTicks, FirstTimed(faults).value, restart.now)
                else was.cumulativeDownTicks)
            && row.faultLabel == (if last.tag <= UINT32_MAX then last.tag else 0)
            && row.faultMr0 == (if last.count >= 1 then last.mr0 else 0)
            && row.faultMr1 == (if last.count >= 2 then last.mr1 else 0)
            && row.lastFaultTicks == (if last.clockValid then last.now else 0)
            && row.state == (if record.state == Gone then 3 else 1)
            && row.lifetimeCount == record.lifetimeCount && row.windowCount == record.windowCount
            && shown.header.beamIncarnation == r.state.beamIncarnation + if restart.beam then 1 else 0
  {
    hide Down, FirstTimed, FaultWordFlags, AfterFaults, Added, Acted, Publishing, Status.Restarted;
    var o := r.state.observations[child];
    LastFaultSeen(o, faults);
    DownIsObserved(r.state, child, faults);
    DownTimeIsCountedOnce(o, faults, restart.now, restart.clockValid, 0);
    var down := r.(state := Down(r.state, child, faults));
    RestartNoted(down, restart, publish);
    RestartedRest(AfterFaults(o, faults), restart.now, restart.clockValid);
    ShownAfterPublish(Acted(down, restart), publish, child);
  }

  lemma RestartNoted(r: Run, restart: Act, publish: Act)
    requires restart.Restart? && r.state.Present(restart.child) && publish.Publish?
    requires Publishing(Acted(r, restart), publish).ok
    ensures var s := Acted(r, restart).state;
            && s.observations[restart.child] ==
               Status.Restarted(r.state.observations[restart.child], restart.now, restart.clockValid)
            && s.beamIncarnation == r.state.beamIncarnation + if restart.beam then 1 else 0
  {
    hide Status.Restarted, RowsAfter, Pushed, HeaderAfter;
  }

  /** A restart stamps its tick, closes the interval and leaves the last fault standing. */
  lemma RestartedRest(o: Observed, now: uint64, clockValid: bool)
    ensures var p := Status.Restarted(o, now, clockValid);
            && p.lastRestartTicks == (if clockValid then now else 0) && !p.downOpen
            && p == o.(lastRestartTicks := p.lastRestartTicks, cumulativeDownTicks := p.cumulativeDownTicks,
                       downOpen := false)
  {
  }

  lemma LastFaultSeen(o: Observed, faults: seq<FaultSeen>)
    requires faults != []
    ensures var p, last := AfterFaults(o, faults), faults[|faults| - 1];
            && p.faultFlags == FaultWordFlags(last.count)
            && p.faultLabel == (if last.tag <= UINT32_MAX then last.tag else 0)
            && p.faultMr0 == (if last.count >= 1 then last.mr0 else 0)
            && p.faultMr1 == (if last.count >= 2 then last.mr1 else 0)
            && p.lastFaultTicks == (if last.clockValid then last.now else 0)
  {
  }

  lemma ShownAfterPublish(r: Run, publish: Act, child: nat)
    requires child < CHILD_COUNT && publish.Publish? && publish.child == child && publish.record.Some?
    requires Publishing(r, publish).ok
    ensures var row, o := Acted(r, publish).page.children[child], r.state.observations[child];
            Tells(row, o, publish.record.value) && row.flags == o.faultFlags + if o.downOpen then 4 else 0
    ensures Acted(r, publish).page.header.beamIncarnation == r.state.beamIncarnation
  {
    hide Pushed;
  }

  /** Without a mapped page the publisher has its identity and never publishes. */
  lemma UnmappedMeaning(present: set<nat>, frequency: uint64, budget: seq<uint32>, child: nat, act: Act,
                        page: StatusPage)
    requires |budget| == CHILD_COUNT && child < CHILD_COUNT && act.Publish?
    ensures var s := Unmapped(present, frequency, budget);
            && s.rootGeneration == 1 && s.beamIncarnation == 1 && s.frequency == frequency && s.present == present
            && s.seqWord == 0 && s.eventHead == 0 && !s.enabled && !s.exhausted && !s.misused && !s.policyDirty
            && s.effectiveBudget[child] == (if child in present then budget[child] else 0)
            && s.desired[child] == (if child in present then 1 else 0)
            && Publishing(Run(s, page, []), act) == Publication(false, s, page)
  {
  }
}
