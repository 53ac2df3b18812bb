/** What Root's status page keeps over whole runs (src/pd/root/status.c). */
module StatusRuns {
  import opened Words
  import opened Regions
  import opened SpecPage
  import opened StatusPage
  import opened RootPolicy
  import opened Status
  import opened StatusReader

  /** One call into the publisher; Clear is the adapter reporting the two stop flags. */
  datatype Act =
    | Fault(child: nat, tag: uint64, count: nat, mr0: uint64, mr1: uint64, now: uint64, clockValid: bool)
    | Restart(child: nat, now: uint64, clockValid: bool, beam: bool)
    | Stop(child: nat, now: uint64, clockValid: bool)
    | Policy(generation: uint64, bank: uint32, budget: seq<uint32>, desired: seq<byte>)
    | Clear
    | Publish(child: nat, record: Option<ChildRecord>, now: uint64, clockValid: bool, events: EventList)
  {
    predicate Whole() { Policy? ==> |budget| == |desired| == CHILD_COUNT }
  }

  /** The publisher, its page, and every event ever published. */
  datatype Run = Run(state: PublisherState, page: StatusPage, log: seq<Event>)

  function Booted(present: set<nat>, now: uint64, frequency: uint64, budget: seq<uint32>): Run
    requires |budget| == CHILD_COUNT
  {
    Run(BootState(present, now, frequency, budget), BootPage(present, now, frequency, budget),
        [BootEvent(if frequency != 0 then now else 0)])
  }

  function Publishing(r: Run, act: Act): Publication
    requires act.Publish?
  {
    Published(r.state, r.page, act.child, act.record, act.now, act.clockValid, act.events)
  }

  function Acted(r: Run, act: Act): Run
    requires act.Whole()
  {
    match act
    case Fault(child, tag, count, mr0, mr1, now, valid) =>
      r.(state := NotedFault(r.state, child, tag, count, mr0, mr1, now, valid))
    case Restart(child, now, valid, beam) => r.(state := NotedRestart(r.state, child, now, valid, beam))
    case Stop(child, now, valid) => r.(state := NotedGone(r.state, child, now, valid))
    case Policy(generation, bank, budget, desired) =>
      r.(state := NotedPolicy(r.state, generation, bank, budget, desired))
    case Clear => r.(state := r.state.(exhausted := false, misused := false))
    case Publish(_, _, _, _, events) =>
      var p := Publishing(r, act);
      Run(p.state, p.page, if p.ok then r.log + events.List() else r.log)
  }

  function AfterActs(start: Run, acts: seq<Act>): Run
    requires forall a :: a in acts ==> a.Whole()
  {
    if acts == [] then start
    else
      var n := |acts| - 1;
      assert acts[n] in acts;
      assert forall a :: a in acts[..n] ==> a in acts;
      Acted(AfterActs(start, acts[..n]), acts[n])
  }

  // ----- the event ring -----

  function Dropped(total: nat): nat {
    if total > EVENT_COUNT then total - EVENT_COUNT else 0
  }

  /** The ring holds the last EVENT_COUNT events of the log, each at its index mod the ring size. */
  ghost predicate RingOf(ring: seq<Event>, log: seq<Event>) {
    && |ring| == EVENT_COUNT
    && forall i :: Dropped(|log|) <= i < |log| ==> ring[i % EVENT_COUNT] == log[i]
  }

  /** Two indices less than a ring apart lie in different slots. */
  lemma DifferentSlots(i: nat, j: nat, n: nat)
    requires i < j < i + n
    ensures i % n != j % n
  {
    assert i == i / n * n + i % n && j == j / n * n + j % n;
    var k := j / n - i / n;
    assert j - i == k * n + (j % n - i % n);
    if k >= 1 {
      AtLeast(n, k);
    } else {
      AtMostZero(k, n);
    }
  }

  lemma AtMostZero(k: int, n: nat)
    requires k <= 0
    ensures k * n <= 0
  {
  }

  lemma PushOne(ring: seq<Event>, log: seq<Event>, e: Event)
    requires RingOf(ring, log)
    ensures RingOf(ring[|log| % EVENT_COUNT := e], log + [e])
  {
    var head := |log|;
    forall i | Dropped(head + 1) <= i < head + 1
      ensures ring[head % EVENT_COUNT := e][i % EVENT_COUNT] == (log + [e])[i]
    {
      if i < head {
        DifferentSlots(i, head, EVENT_COUNT);
      }
    }
  }

  lemma {:induction false} PushAll(ring: seq<Event>, log: seq<Event>, events: seq<Event>)
    requires RingOf(ring, log)
    ensures RingOf(Pushed(ring, |log|, events), log + events)
    decreases |events|
  {
    hide RingOf;
    if events == [] {
      assert log + events == log;
    } else {
      RingSize(ring, log);
      PushOne(ring, log, events[0]);
      PushAll(ring[|log| % EVENT_COUNT := events[0]], log + [events[0]], events[1..]);
      assert log + [events[0]] + events[1..] == log + events;
    }
  }

  lemma RingSize(ring: seq<Event>, log: seq<Event>)
    requires RingOf(ring, log)
    ensures |ring| == EVENT_COUNT
  {
  }

  ghost predicate RingKept(r: Run) {
    && r.state.eventHead == |r.log| && r.page.header.eventHead == |r.log|
    && r.page.header.eventDropped == Dropped(|r.log|)
    && RingOf(r.page.events, r.log)
  }

  lemma BootRing(present: set<nat>, now: uint64, frequency: uint64, budget: seq<uint32>)
    requires |budget| == CHILD_COUNT
    ensures RingKept(Booted(present, now, frequency, budget))
  {
  }

  lemma ActKeepsRing(r: Run, act: Act)
    requires RingKept(r) && act.Whole()
    ensures RingKept(Acted(r, act))
  {
    hide RingOf, Pushed, RowsAfter, Faulted, Restarted, Opened;
    if act.Publish? && Publishing(r, act).ok {
      PushAll(r.page.events, r.log, act.events.List());
    }
  }

  /**
   * After every run of notes and publishes the page holds exactly the last events of the full log at
   * their index mod the ring size, its head is the length of the log and event_dropped the rest.
   */
  lemma {:induction false} RingHoldsTheTail(present: set<nat>, now: uint64, frequency: uint64, budget: seq<uint32>,
      acts: seq<Act>)
    requires |budget| == CHILD_COUNT && forall a :: a in acts ==> a.Whole()
    ensures RingKept(AfterActs(Booted(present, now, frequency, budget), acts))
  {
    hide RingKept, Acted;
    if acts == [] {
      BootRing(present, now, frequency, budget);
    } else {
      var n := |acts| - 1;
      assert acts[n] in acts;
      assert forall a :: a in acts[..n] ==> a in acts;
      RingHoldsTheTail(present, now, frequency, budget, acts[..n]);
      ActKeepsRing(AfterActs(Booted(present, now, frequency, budget), acts[..n]), acts[n]);
    }
  }

  // ----- what a publish shows -----

  /**
   * A fault noted and then published shows on its child's row word for word, beside the record's own
   * counts, and every other row stays as it was but for a policy that was still to be shown.
   */
  lemma FaultShows(r: Run, fault: Act, publish: Act, other: nat)
    requires fault.Fault? && publish.Publish? && publish.child == fault.child && publish.record.Some?
    requires r.state.Present(fault.child) && Publishing(Acted(r, fault), publish).ok
    requires other < CHILD_COUNT && other != fault.child
    ensures var page := Acted(Acted(r, fault), publish).page;
            var row, record := page.children[fault.child], publish.record.value;
            && row.faultLabel == (if fault.tag <= UINT32_MAX then fault.tag else 0)
            && row.flags == FaultWordFlags(fault.count) +
               (if fault.clockValid || r.state.observations[fault.child].downOpen then DOWN_INTERVAL_OPEN else 0)
            && row.faultMr0 == (if fault.count >= 1 then fault.mr0 else 0)
            && row.faultMr1 == (if fault.count >= 2 then fault.mr1 else 0)
            && row.lastFaultTicks == (if fault.clockValid then fault.now else 0)
            && row.lifetimeCount == record.lifetimeCount && row.windowCount == record.windowCount
            && (row.state == WIRE_GONE <==> record.state == Gone)
            && page.children[other].(effectiveBudget := r.page.children[other].effectiveBudget,
                                     desired := r.page.children[other].desired) == r.page.children[other]
            && (!r.state.policyDirty ==> page.children[other] == r.page.children[other])
  {
    hide Pushed, HeaderAfter;
  }

  /** A policy noted and then published shows on every present child's row and in the header, and nowhere else. */
  lemma PolicyShows(r: Run, policy: Act, publish: Act, child: nat)
    requires policy.Policy? && policy.Whole() && publish.Publish? && child < CHILD_COUNT
    requires Publishing(Acted(r, policy), publish).ok
    ensures var page := Acted(Acted(r, policy), publish).page;
            && page.header.appliedGeneration == policy.generation && page.header.appliedBank == policy.bank
            && page.header.nowTicks == (if publish.clockValid then publish.now else 0)
            && page.header.cntfrq == (if publish.clockValid then r.state.frequency else 0)
            && (r.state.Present(child) ==>
                  && page.children[child].effectiveBudget == policy.budget[child]
                  && page.children[child].desired == policy.desired[child])
            && (!r.state.Present(child) ==> page.children[child] == r.page.children[child])
  {
    hide Pushed;
  }

  datatype FaultSeen = FaultSeen(tag: uint64, count: nat, mr0: uint64, mr1: uint64, now: uint64, clockValid: bool)

  /** The observation after a series of faults, none of which was answered by a restart. */
  function AfterFaults(o: Observed, faults: seq<FaultSeen>): Observed {
    if faults == [] then o
    else
      var n := |faults| - 1;
      var f := faults[n];
      Faulted(AfterFaults(o, faults[..n]), f.tag, f.count, f.mr0, f.mr1, f.now, f.clockValid)
  }

  /** The tick of the first fault that was seen with a valid clock. */
  function FirstTimed(faults: seq<FaultSeen>): Option<uint64> {
    if faults == [] then None
    else
      var n := |faults| - 1;
      var earlier := FirstTimed(faults[..n]);
      if earlier.Some? then earlier else if faults[n].clockValid then Some(faults[n].now) else None
  }

  /** Faults of a child that was up open one interval, at the first that was timed. */
  lemma {:induction false} FaultsOpenOnce(o: Observed, faults: seq<FaultSeen>)
    requires !o.downOpen
    ensures var p := AfterFaults(o, faults);
            && p.cumulativeDownTicks == o.cumulativeDownTicks
            && p.downOpen == FirstTimed(faults).Some?
            && (p.downOpen ==> p.downSinceTicks == FirstTimed(faults).value)
  {
    if faults != [] {
      FaultsOpenOnce(o, faults[..|faults| - 1]);
    }
  }

  function Added(total: uint64, from: uint64, to: uint64): uint64 {
    if to < from then total
    else if to - from > UINT64_MAX - total then UINT64_MAX
    else total + (to - from)
  }

  /**
   * However often a child that was up faults, and whatever clock each fault was seen with, its restart
   * adds exactly the time since the first timed fault, saturating; with none, or without a clock at the
   * restart, it adds nothing. A second restart adds nothing more.
   */
  lemma DownTimeIsCountedOnce(o: Observed, faults: seq<FaultSeen>, now: uint64, clockValid: bool, later: uint64)
    requires !o.downOpen
    ensures var up := Status.Restarted(AfterFaults(o, faults), now, clockValid);
            && up.cumulativeDownTicks ==
               (if clockValid && FirstTimed(faults).Some? then
                  Added(o.cumulativeDownTicks, FirstTimed(faults).value, now)
                else o.cumulativeDownTicks)
            && Status.Restarted(up, later, true).cumulativeDownTicks == up.cumulativeDownTicks
  {
    FaultsOpenOnce(o, faults);
  }

  // ----- a polling reader -----

  /** The first event a reader that last saw previousHead can still read. */
  function FirstKept(previousHead: nat, head: nat): nat {
    if Dropped(head) > previousHead then Dropped(head) else previousHead
  }

  /** What one poll delivers: the events from there to the head, read from their slots. */
  function Delivered(p: StatusPage, previousHead: nat): seq<Event>
    requires previousHead <= p.header.eventHead
  {
    var from := FirstKept(previousHead, p.header.eventHead);
    seq(p.header.eventHead - from, k requires 0 <= k => p.events[(from + k) % EVENT_COUNT])
  }

  /** A poll delivers exactly the log from the first kept event on; the rest of the gap is missed. */
  lemma PollDelivers(r: Run, previousHead: nat)
    requires RingKept(r) && previousHead <= |r.log|
    ensures Delivered(r.page, previousHead) == r.log[FirstKept(previousHead, |r.log|)..]
    ensures previousHead + Missed(previousHead, r.page.header.eventHead) + |Delivered(r.page, previousHead)| == |r.log|
  {
    var from := FirstKept(previousHead, |r.log|);
    var d := Delivered(r.page, previousHead);
    forall k | 0 <= k < |d|
      ensures d[k] == r.log[from..][k]
    {
      assert d[k] == r.page.events[(from + k) % EVENT_COUNT];
    }
  }

  /** Successive states of one run, as a poller finds them. */
  ghost predicate Successive(runs: seq<Run>) {
    && (forall i :: 0 <= i < |runs| ==> RingKept(runs[i]))
    && forall i, j :: 0 <= i <= j < |runs| ==>
         runs[i].log <= runs[j].log && runs[i].page.header.rootGeneration == runs[j].page.header.rootGeneration
  }

  /** The states found at these positions of a run of acts. */
  ghost function Polled(start: Run, acts: seq<Act>, at: seq<nat>): (runs: seq<Run>)
    requires forall a :: a in acts ==> a.Whole()
    requires forall i :: 0 <= i < |at| ==> at[i] <= |acts|
    ensures |runs| == |at|
  {
    seq(|at|, i requires 0 <= i < |at| => AfterActs(start, acts[..at[i]]))
  }

  lemma ActKeepsGeneration(r: Run, act: Act)
    requires act.Whole()
    ensures r.log <= Acted(r, act).log
    ensures Acted(r, act).page.header.rootGeneration == r.page.header.rootGeneration
  {
    hide Pushed, RowsAfter, Faulted, Status.Restarted, Opened, NotedPolicy;
  }

  lemma {:induction false} RunOnlyGrows(start: Run, acts: seq<Act>, i: nat)
    requires i <= |acts| && forall a :: a in acts ==> a.Whole()
    ensures AfterActs(start, acts[..i]).log <= AfterActs(start, acts).log
    ensures AfterActs(start, acts[..i]).page.header.rootGeneration == AfterActs(start, acts).page.header.rootGeneration
    decreases |acts|
  {
    hide Acted;
    if i == |acts| {
      assert acts[..i] == acts;
    } else {
      var n := |acts| - 1;
      assert acts[n] in acts && forall a :: a in acts[..n] ==> a in acts;
      assert acts[..n][..i] == acts[..i];
      RunOnlyGrows(start, acts[..n], i);
      ActKeepsGeneration(AfterActs(start, acts[..n]), acts[n]);
    }
  }

  /** Polls of one run, at positions that never go back, find successive states. */
  lemma PolledIsSuccessive(
    present: set<nat>, now: uint64, frequency: uint64, budget: seq<uint32>, acts: seq<Act>, at: seq<nat>)
    requires |budget| == CHILD_COUNT && forall a :: a in acts ==> a.Whole()
    requires forall i, j :: 0 <= i <= j < |at| ==> at[i] <= at[j] <= |acts|
    ensures Successive(Polled(Booted(present, now, frequency, budget), acts, at))
  {
    hide RingKept, AfterActs, Booted;
    var start := Booted(present, now, frequency, budget);
    var runs := Polled(start, acts, at);
    forall i | 0 <= i < |at|
      ensures RingKept(runs[i])
    {
      RingHoldsTheTail(present, now, frequency, budget, acts[..at[i]]);
    }
    forall i, j | 0 <= i <= j < |at|
      ensures runs[i].log <= runs[j].log && runs[i].page.header.rootGeneration == runs[j].page.header.rootGeneration
    {
      assert acts[..at[j]][..at[i]] == acts[..at[i]];
      RunOnlyGrows(start, acts[..at[j]], at[i]);
    }
  }

  /** Every event the polls read from the pages, in order. */
  ghost function DeliveredOver(runs: seq<Run>, previousHead: nat): seq<Event>
    requires Successive(runs) && (runs != [] ==> previousHead <= |runs[0].log|)
    decreases |runs|
  {
    if runs == [] then []
    else
      TailIsSuccessive(runs);
      Delivered(runs[0].page, previousHead) + DeliveredOver(runs[1..], runs[0].page.header.eventHead)
  }

  lemma TailIsSuccessive(runs: seq<Run>)
    requires Successive(runs) && runs != []
    ensures Successive(runs[1..]) && runs[0].page.header.eventHead == |runs[0].log|
    ensures |runs| > 1 ==> |runs[0].log| <= |runs[1].log|
  {
    hide RingOf;
  }

  /** What root_status_missed says between each head and the one before. */
  ghost function MissedOver(runs: seq<Run>, previousHead: uint64): nat {
    if runs == [] then 0
    else Missed(previousHead, runs[0].page.header.eventHead) + MissedOver(runs[1..], runs[0].page.header.eventHead)
  }

  /** The reader's own clock at one poll. */
  datatype ReaderClock = ReaderClock(ticks: uint64, frequency: uint64)

  /** What root_status_observe reports over successive copies, the first compared with prior. */
  ghost function ReportedOver(prior: Option<StatusBytes>, runs: seq<Run>, clocks: seq<ReaderClock>): nat
    requires |runs| == |clocks|
    decreases |runs|
  {
    if runs == [] then 0
    else
      var copy := PageBytes(runs[0].page);
      FreshnessOf(prior, copy, clocks[0].ticks, clocks[0].frequency).missedEvents +
      ReportedOver(Some(copy), runs[1..], clocks[1..])
  }

  /** Delivered and missed events add up to the final head, however the polls fall. */
  lemma {:induction false} PollsAddUp(runs: seq<Run>, previousHead: uint64)
    requires Successive(runs) && runs != [] && previousHead as int <= |runs[0].log|
    ensures previousHead + |DeliveredOver(runs, previousHead)| + MissedOver(runs, previousHead) ==
            runs[|runs| - 1].page.header.eventHead
    decreases |runs|
  {
    hide RingOf, Delivered;
    TailIsSuccessive(runs);
    PollDelivers(runs[0], previousHead);
    if |runs| > 1 {
      PollsAddUp(runs[1..], runs[0].page.header.eventHead);
    }
  }

  /** root_status_observe reports the gap to the copy before it, and none on a reader's first poll. */
  lemma ObserveReports(prior: Option<StatusPage>, current: StatusPage, ticks: uint64, frequency: uint64)
    requires prior.Some? ==> prior.value.header.rootGeneration == current.header.rootGeneration
    ensures var bytes: Option<StatusBytes> := if prior.Some? then Some(PageBytes(prior.value)) else None;
            FreshnessOf(bytes, PageBytes(current), ticks, frequency).missedEvents ==
            if prior.None? then 0 else Missed(prior.value.header.eventHead, current.header.eventHead)
  {
    hide Load64, PageBytes;
    PageHeaderLoads(current);
    if prior.Some? {
      PageHeaderLoads(prior.value);
    }
  }

  lemma {:induction false} ReportsAreMisses(prior: StatusPage, runs: seq<Run>, clocks: seq<ReaderClock>)
    requires Successive(runs) && |runs| == |clocks|
    requires runs != [] ==> prior.header.rootGeneration == runs[0].page.header.rootGeneration
    ensures ReportedOver(Some(PageBytes(prior)), runs, clocks) == MissedOver(runs, prior.header.eventHead)
    decreases |runs|
  {
    hide RingKept, PageBytes, FreshnessOf;
    if runs != [] {
      ObserveReports(Some(prior), runs[0].page, clocks[0].ticks, clocks[0].frequency);
      assert Successive(runs[1..]);
      ReportsAreMisses(runs[0].page, runs[1..], clocks[1..]);
    }
  }

  /**
   * Over the copies a reader takes of one run, the events it reads and the misses root_status_observe
   * reports add up to the final head less what had been dropped before the first copy: they add up to
   * the head if and only if that was nothing.
   */
  lemma ObserveFallsShort(runs: seq<Run>, clocks: seq<ReaderClock>)
    requires Successive(runs) && runs != [] && |runs| == |clocks|
    ensures |DeliveredOver(runs, 0)| + ReportedOver(None, runs, clocks) ==
            runs[|runs| - 1].page.header.eventHead - Dropped(|runs[0].log|)
  {
    hide RingOf, Delivered, PageBytes, FreshnessOf, DeliveredOver;
    TailIsSuccessive(runs);
    PollsAddUp(runs, 0);
    ObserveReports(None, runs[0].page, clocks[0].ticks, clocks[0].frequency);
    ReportsAreMisses(runs[0].page, runs[1..], clocks[1..]);
  }

  /** The same for any polls of any run from boot. */
  lemma PollingARun(
    present: set<nat>, now: uint64, frequency: uint64, budget: seq<uint32>, acts: seq<Act>, at: seq<nat>,
    clocks: seq<ReaderClock>)
    requires |budget| == CHILD_COUNT && forall a :: a in acts ==> a.Whole()
    requires at != [] && |at| == |clocks| && forall i, j :: 0 <= i <= j < |at| ==> at[i] <= at[j] <= |acts|
    ensures var runs := Polled(Booted(present, now, frequency, budget), acts, at);
            && Successive(runs)
            && |DeliveredOver(runs, 0)| + MissedOver(runs, 0) == |runs[|runs| - 1].log|
            && |DeliveredOver(runs, 0)| + ReportedOver(None, runs, clocks) ==
               |runs[|runs| - 1].log| - Dropped(|runs[0].log|)
  {
    hide RingOf, AfterActs, DeliveredOver, MissedOver, ReportedOver, Booted;
    PolledIsSuccessive(present, now, frequency, budget, acts, at);
    var runs := Polled(Booted(present, now, frequency, budget), acts, at);
    PollsAddUp(runs, 0);
    ObserveFallsShort(runs, clocks);
  }

  // ----- nothing goes backwards -----

  /** A later page of one Root run never reads as older. */
  ghost predicate Follows(p: StatusPage, q: StatusPage) {
    && p.header.rootGeneration == q.header.rootGeneration
    && p.header.seqWord <= q.header.seqWord && (p.header.seqWord == q.header.seqWord ==> p == q)
    && p.header.eventHead <= q.header.eventHead
    && p.header.beamIncarnation <= q.header.beamIncarnation
    && forall i :: 0 <= i < CHILD_COUNT ==>
         && p.children[i].lifetimeCount <= q.children[i].lifetimeCount
         && p.children[i].cumulativeDownTicks <= q.children[i].cumulativeDownTicks
  }

  /** How the publisher's state stays ahead of what it has published. */
  ghost predicate Ahead(r: Run) {
    && r.page.header.seqWord == r.state.seqWord && IsPublished(r.state.seqWord)
    && r.page.header.eventHead == r.state.eventHead
    && r.page.header.beamIncarnation <= r.state.beamIncarnation
    && r.page.header.rootGeneration == 1
    && forall i :: 0 <= i < CHILD_COUNT ==>
         r.page.children[i].cumulativeDownTicks <= r.state.observations[i].cumulativeDownTicks
  }

  /** The records a caller publishes never count backwards. */
  ghost predicate Honest(r: Run, act: Act) {
    && act.Whole()
    && (act.Publish? && act.record.Some? && act.child < CHILD_COUNT ==>
          r.page.children[act.child].lifetimeCount <= act.record.value.lifetimeCount)
  }

  lemma BootIsAhead(present: set<nat>, now: uint64, frequency: uint64, budget: seq<uint32>)
    requires |budget| == CHILD_COUNT
    ensures Ahead(Booted(present, now, frequency, budget))
  {
    var r := Booted(present, now, frequency, budget);
    var s, stamp := Unmapped(present, frequency, budget), if frequency != 0 then now else 0;
    forall i | 0 <= i < CHILD_COUNT
      ensures r.page.children[i].cumulativeDownTicks == 0
    {
      assert r.page.children[i] == BootRow(s, i, stamp);
    }
  }

  /** One act keeps the state ahead, and its page follows the one before. */
  lemma ActFollows(r: Run, act: Act)
    requires Ahead(r) && Honest(r, act)
    ensures Ahead(Acted(r, act)) && Follows(r.page, Acted(r, act).page)
    ensures Acted(r, act).page != r.page ==> act.Publish? && Publishing(r, act).ok
  {
    hide Pushed, RowsAfter, Faulted, Restarted, Opened;
    if act.Publish? {
      if Publishing(r, act).ok {
        RowsKeepCounters(r, act);
      }
    } else {
      NotesOnlyAdd(r, act);
    }
  }

  /** A note changes nothing the page was published from, except to add to it. */
  ghost predicate OnlyAdds(s: PublisherState, s': PublisherState) {
    && s'.seqWord == s.seqWord && s'.eventHead == s.eventHead && s.beamIncarnation <= s'.beamIncarnation
    && forall i :: 0 <= i < CHILD_COUNT ==>
         s.observations[i].cumulativeDownTicks <= s'.observations[i].cumulativeDownTicks
  }

  lemma ObservationOnlyAdds(s: PublisherState, child: nat, o: Observed)
    requires child < CHILD_COUNT && s.observations[child].cumulativeDownTicks <= o.cumulativeDownTicks
    ensures OnlyAdds(s, WithObservation(s, child, o))
  {
  }

  lemma NotesOnlyAdd(r: Run, act: Act)
    requires act.Whole() && !act.Publish?
    ensures Acted(r, act).page == r.page && Acted(r, act).log == r.log && OnlyAdds(r.state, Acted(r, act).state)
  {
    hide Faulted, Restarted, Opened, WithObservation;
    match act
    case Fault(child, tag, count, mr0, mr1, now, valid) =>
      if r.state.Present(child) {
        ObservationOnlyAdds(r.state, child, Faulted(r.state.observations[child], tag, count, mr0, mr1, now, valid));
      }
    case Restart(child, now, valid, _) =>
      if r.state.Present(child) {
        ObservationOnlyAdds(r.state, child, Restarted(r.state.observations[child], now, valid));
      }
    case Stop(child, now, valid) =>
      if r.state.Present(child) {
        ObservationOnlyAdds(r.state, child, Opened(r.state.observations[child], now, valid));
      }
    case Policy(_, _, _, _) =>
    case Clear =>
  }

  lemma RowsKeepCounters(r: Run, act: Act)
    requires Ahead(r) && Honest(r, act) && act.Publish? && (act.record.Some? ==> r.state.Present(act.child))
    ensures var rows := RowsAfter(r.page.children, r.state, act.child, act.record);
            forall i :: 0 <= i < CHILD_COUNT ==>
              && r.page.children[i].lifetimeCount <= rows[i].lifetimeCount
              && r.page.children[i].cumulativeDownTicks <= rows[i].cumulativeDownTicks
              && rows[i].cumulativeDownTicks <= r.state.observations[i].cumulativeDownTicks
  {
  }

  lemma FollowsItself(p: StatusPage)
    ensures Follows(p, p)
  {
  }

  lemma FollowsTransitive(p: StatusPage, q: StatusPage, t: StatusPage)
    requires Follows(p, q) && Follows(q, t)
    ensures Follows(p, t)
  {
  }

  /** A page that follows another is never reported as a regression. */
  lemma FollowsIsNoRegression(p: StatusPage, q: StatusPage)
    requires Follows(p, q)
    ensures !WentBack(PageBytes(p), PageBytes(q))
  {
    hide PageBytes, Load64, Load32;
    PageHeaderLoads(p);
    PageHeaderLoads(q);
    var a, b := PageBytes(p), PageBytes(q);
    forall i | 0 <= i < CHILD_COUNT
      ensures Lifetime(a, i) <= Lifetime(b, i) && DownTicks(a, i) <= DownTicks(b, i)
    {
      PageRowLoads(p, i);
      PageRowLoads(q, i);
    }
  }

  /** Conversely the comparison does catch a page that went back in its sequence. */
  lemma StaleIsRegression(p: StatusPage, q: StatusPage)
    requires p.header.rootGeneration == q.header.rootGeneration && q.header.seqWord < p.header.seqWord
    ensures WentBack(PageBytes(p), PageBytes(q))
  {
    hide PageBytes, Load64, Load32;
    PageHeaderLoads(p);
    PageHeaderLoads(q);
  }
}
