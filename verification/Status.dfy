/** Root's status publisher (src/pd/root/status.c). */
module Status {
  import opened Words
  import opened SpecPage
  import opened StatusPage
  import opened RootPolicy

  const WIRE_LIVE: byte := 1
  const WIRE_GONE: byte := 3
  const DESIRED_UNSET: byte := 0
  const DESIRED_RUNNING: byte := 1
  const FAULT_MR0_VALID := 1
  const FAULT_MR1_VALID := 2
  const DOWN_INTERVAL_OPEN := 4
  const EVENTS_PER_PUBLISH := 3

  /** The fault flags are the two low bits, so adding the open-interval bit is setting it. */
  datatype Observation = Observation(
    faultLabel: uint32,
    faultFlags: uint16,
    faultMr0: uint64,
    faultMr1: uint64,
    lastFaultTicks: uint64,
    lastRestartTicks: uint64,
    bootTicks: uint64,
    cumulativeDownTicks: uint64,
    downSinceTicks: uint64,
    downOpen: bool)

  type Observed = o: Observation | o.faultFlags <= FAULT_MR0_VALID + FAULT_MR1_VALID witness NO_OBSERVATION

  const NO_OBSERVATION := Observation(0, 0, 0, 0, 0, 0, 0, 0, 0, false)

  datatype PublisherFields = PublisherFields(
    observations: seq<Observed>,
    present: set<nat>,
    seqWord: uint64,
    eventHead: uint64,
    rootGeneration: uint64,
    beamIncarnation: uint64,
    frequency: uint64,
    effectiveBudget: seq<uint32>,
    desired: seq<byte>,
    appliedGeneration: uint64,
    appliedBank: uint32,
    policyDirty: bool,
    enabled: bool,
    exhausted: bool,
    misused: bool)
  {
    predicate Present(child: nat) { child < CHILD_COUNT && child in present }
  }

  type PublisherState = s: PublisherFields |
    |s.observations| == CHILD_COUNT && |s.effectiveBudget| == CHILD_COUNT && |s.desired| == CHILD_COUNT
    witness BLANK

  const BLANK := PublisherFields(Copies(CHILD_COUNT, NO_OBSERVATION), {}, 0, 0, 0, 0, 0, Copies(CHILD_COUNT, 0),
                                 Copies(CHILD_COUNT, 0), 0, 0, false, false, false, false)

  // ----- observations -----

  function FaultWordFlags(count: nat): uint16 {
    (if count >= 1 then FAULT_MR0_VALID else 0) + (if count >= 2 then FAULT_MR1_VALID else 0)
  }

  function Opened(o: Observed, now: uint64, clockValid: bool): (r: Observed)
    ensures r.cumulativeDownTicks == o.cumulativeDownTicks
  {
    if clockValid && !o.downOpen then o.(downSinceTicks := now, downOpen := true) else o
  }

  function Faulted(o: Observed, tag: uint64, count: nat, mr0: uint64, mr1: uint64, now: uint64, clockValid: bool)
    : (r: Observed)
    ensures r.cumulativeDownTicks == o.cumulativeDownTicks
  {
    var seen := o.(faultLabel := if tag <= UINT32_MAX then tag else 0,
                   faultFlags := FaultWordFlags(count),
                   faultMr0 := if count >= 1 then mr0 else 0,
                   faultMr1 := if count >= 2 then mr1 else 0,
                   lastFaultTicks := if clockValid then now else 0);
    Opened(seen, now, clockValid)
  }

  /** A restart closes the down interval; a clock that went backwards adds nothing, and the sum saturates. */
  function Restarted(o: Observed, now: uint64, clockValid: bool): (r: Observed)
    ensures r.cumulativeDownTicks >= o.cumulativeDownTicks && !r.downOpen
  {
    var stamped := o.(lastRestartTicks := if clockValid then now else 0);
    if !o.downOpen then stamped
    else
      var elapsed := if clockValid && now >= o.downSinceTicks then now - o.downSinceTicks else 0;
      var total := o.cumulativeDownTicks + elapsed;
      stamped.(cumulativeDownTicks := if total > UINT64_MAX then UINT64_MAX else total, downOpen := false)
  }

  function WithObservation(s: PublisherState, child: nat, o: Observed): PublisherState
    requires child < CHILD_COUNT
  {
    s.(observations := s.observations[child := o])
  }

  /** Nothing but one present child's observation differs. */
  ghost predicate OnlyObserved(s: PublisherState, t: PublisherState, child: nat) {
    && t == s.(observations := t.observations)
    && forall i :: 0 <= i < CHILD_COUNT && (i != child || !s.Present(child)) ==> t.observations[i] == s.observations[i]
  }

  function NotedFault(s: PublisherState, child: nat, tag: uint64, count: nat, mr0: uint64, mr1: uint64,
                      now: uint64, clockValid: bool): PublisherState
  {
    if !s.Present(child) then s
    else WithObservation(s, child, Faulted(s.observations[child], tag, count, mr0, mr1, now, clockValid))
  }

  function NotedRestart(s: PublisherState, child: nat, now: uint64, clockValid: bool,
      beamRestart: bool): PublisherState {
    if !s.Present(child) then s
    else
      var t := WithObservation(s, child, Restarted(s.observations[child], now, clockValid));
      if !beamRestart then t
      else if s.beamIncarnation == UINT64_MAX then t.(enabled := false, exhausted := true)
      else t.(beamIncarnation := s.beamIncarnation + 1)
  }

  function NotedGone(s: PublisherState, child: nat, now: uint64, clockValid: bool): PublisherState {
    if !s.Present(child) then s
    else WithObservation(s, child, Opened(s.observations[child], now, clockValid))
  }

  function NotedPolicy(s: PublisherState, generation: uint64, bank: uint32, budget: seq<uint32>, desired: seq<byte>)
    : PublisherState
    requires |budget| == |desired| == CHILD_COUNT
  {
    s.(effectiveBudget := seq(CHILD_COUNT, i requires 0 <= i < CHILD_COUNT => if s.Present(i) then budget[i] else 0),
       desired := seq(CHILD_COUNT, i requires 0 <= i < CHILD_COUNT =>
         if s.Present(i) then desired[i] else DESIRED_UNSET),
       appliedGeneration := generation,
       appliedBank := bank,
       policyDirty := true)
  }

  // ----- init -----

  function BootRow(s: PublisherState, child: nat, stamp: uint64): ChildRow
    requires child < CHILD_COUNT
  {
    if !s.Present(child) then ZERO_ROW
    else ZERO_ROW.(state := WIRE_LIVE, desired := s.desired[child], effectiveBudget := s.effectiveBudget[child],
        bootTicks := stamp)
  }

  function BootEvent(stamp: uint64): Event {
    Event(stamp, EVENT_BOOT, EVENT_NO_CHILD, 0, 0, 1, 1)
  }

  /** The publisher as init leaves it when no page is mapped. */
  function Unmapped(present: set<nat>, frequency: uint64, budget: seq<uint32>): PublisherState
    requires |budget| == CHILD_COUNT
  {
    var s := BLANK.(present := present, rootGeneration := 1, beamIncarnation := 1, frequency := frequency);
    s.(effectiveBudget := seq(CHILD_COUNT, i requires 0 <= i < CHILD_COUNT => if s.Present(i) then budget[i] else 0),
       desired := seq(CHILD_COUNT, i requires 0 <= i < CHILD_COUNT =>
         if s.Present(i) then DESIRED_RUNNING else DESIRED_UNSET))
  }

  function BootState(present: set<nat>, now: uint64, frequency: uint64, budget: seq<uint32>): PublisherState
    requires |budget| == CHILD_COUNT
  {
    var s := Unmapped(present, frequency, budget);
    var stamp := if frequency != 0 then now else 0;
    s.(observations := seq(CHILD_COUNT, i requires 0 <= i < CHILD_COUNT =>
         if s.Present(i) then NO_OBSERVATION.(bootTicks := stamp) else NO_OBSERVATION),
       eventHead := 1, seqWord := 2, enabled := true)
  }

  function BootPage(present: set<nat>, now: uint64, frequency: uint64, budget: seq<uint32>): StatusPage
    requires |budget| == CHILD_COUNT
  {
    var s := Unmapped(present, frequency, budget);
    var stamp := if frequency != 0 then now else 0;
    Page(StatusHeader(STATUS_MAGIC, ABI_VERSION, CHILD_COUNT, 2, 1, 1, stamp, frequency, 1, 0, 0, 0),
         seq(CHILD_COUNT, i requires 0 <= i < CHILD_COUNT => BootRow(s, i, stamp)),
         Copies(EVENT_COUNT, ZERO_EVENT)[0 := BootEvent(stamp)])
  }

  // ----- publish -----

  /** The caller's events; Missing is a null pointer with a count. */
  datatype EventList = Missing(count: nat) | Events(list: seq<Event>)
  {
    function Count(): nat { if Missing? then count else |list| }

    predicate Usable() { Count() <= EVENTS_PER_PUBLISH && (Count() != 0 ==> Events?) }

    function List(): seq<Event> { if Missing? then [] else list }
  }

  function RowFor(row: ChildRow, s: PublisherState, child: nat, record: ChildRecord): ChildRow
    requires child < CHILD_COUNT
  {
    var o := s.observations[child];
    row.(state := if record.state == Gone then WIRE_GONE else WIRE_LIVE,
         desired := s.desired[child],
         flags := o.faultFlags + (if o.downOpen then DOWN_INTERVAL_OPEN else 0),
         lifetimeCount := record.lifetimeCount,
         effectiveBudget := s.effectiveBudget[child],
         faultLabel := o.faultLabel,
         faultMr0 := o.faultMr0,
         faultMr1 := o.faultMr1,
         lastFaultTicks := o.lastFaultTicks,
         lastRestartTicks := o.lastRestartTicks,
         cumulativeDownTicks := o.cumulativeDownTicks,
         windowCount := record.windowCount)
  }

  function PolicyRow(row: ChildRow, s: PublisherState, child: nat): ChildRow
    requires child < CHILD_COUNT
  {
    if s.policyDirty && s.Present(child) then
      row.(effectiveBudget := s.effectiveBudget[child], desired := s.desired[child])
    else row
  }

  function RecordRow(row: ChildRow, s: PublisherState, i: nat, child: nat, record: Option<ChildRecord>): ChildRow
    requires i < CHILD_COUNT
  {
    if record.Some? && i == child then RowFor(row, s, child, record.value) else row
  }

  function RowsAfter(rows: seq<ChildRow>, s: PublisherState, child: nat,
      record: Option<ChildRecord>): (r: seq<ChildRow>)
    requires |rows| == CHILD_COUNT
    ensures |r| == CHILD_COUNT
  {
    seq(CHILD_COUNT, i requires 0 <= i < CHILD_COUNT => PolicyRow(RecordRow(rows[i], s, i, child, record), s, i))
  }

  /** Events stored one by one at head mod the ring size. */
  function Pushed(ring: seq<Event>, head: nat, events: seq<Event>): (r: seq<Event>)
    requires |ring| == EVENT_COUNT
    ensures |r| == EVENT_COUNT
    decreases |events|
  {
    if events == [] then ring else Pushed(ring[head % EVENT_COUNT := events[0]], head + 1, events[1..])
  }

  function HeaderAfter(h: StatusHeader, s: PublisherState, head: uint64, now: uint64, clockValid: bool): StatusHeader
    requires s.seqWord <= UINT64_MAX - 2
  {
    h.(seqWord := s.seqWord + 2,
       beamIncarnation := s.beamIncarnation,
       nowTicks := if clockValid then now else 0,
       cntfrq := if clockValid then s.frequency else 0,
       eventHead := head,
       eventDropped := if head > EVENT_COUNT then head - EVENT_COUNT else 0,
       appliedGeneration := if s.policyDirty then s.appliedGeneration else h.appliedGeneration,
       appliedBank := if s.policyDirty then s.appliedBank else h.appliedBank)
  }

  datatype Publication = Publication(ok: bool, state: PublisherState, page: StatusPage)

  /** root_status_publish on a mapped page. */
  function Published(s: PublisherState, page: StatusPage, child: nat, record: Option<ChildRecord>, now: uint64,
                     clockValid: bool, events: EventList): Publication
  {
    if !s.enabled then Publication(false, s, page)
    else if !events.Usable() || (record.Some? && !s.Present(child)) then
      Publication(false, s.(enabled := false, misused := true), page)
    else if s.seqWord > UINT64_MAX - 2 || events.Count() > UINT64_MAX - s.eventHead then
      Publication(false, s.(enabled := false, exhausted := true), page)
    else
      var head := s.eventHead + events.Count();
      Publication(true,
                  s.(seqWord := s.seqWord + 2, eventHead := head, policyDirty := false),
                  Page(HeaderAfter(page.header, s, head, now, clockValid),
                       RowsAfter(page.children, s, child, record),
                       Pushed(page.events, s.eventHead, events.List())))
  }

  // ----- the publisher and its page -----

  /** The mapped page: its header words and its two arrays. */
  class StatusMemory {
    var header: StatusHeader
    const children: array<ChildRow>
    const events: array<Event>

    ghost predicate Valid()
      reads this
    {
      children.Length == CHILD_COUNT && events.Length == EVENT_COUNT
    }

    ghost function Value(): StatusPage
      requires Valid()
      reads this, children, events
    {
      Page(header, children[..], events[..])
    }

    constructor ()
      ensures Valid() && fresh(children) && fresh(events)
    {
      header := ZERO_HEADER;
      children := new ChildRow[CHILD_COUNT](_ => ZERO_ROW);
      events := new Event[EVENT_COUNT](_ => ZERO_EVENT);
    }
  }

  class Publisher {
    var state: PublisherState

    /** Also root_status_init: every byte of a mapped page is written before seq 2 is. */
    constructor (page: StatusMemory?, present: set<nat>, now: uint64, frequency: uint64, budget: seq<uint32>)
      requires |budget| == CHILD_COUNT && (page != null ==> page.Valid())
      modifies page, if page == null then {} else {page.children, page.events}
      ensures page == null ==> state == Unmapped(present, frequency, budget)
      ensures page != null ==>
        && page.Valid() && state == BootState(present, now, frequency, budget)
        && page.Value() == BootPage(present, now, frequency, budget)
    {
      state := Unmapped(present, frequency, budget);
      new;
      if page == null {
        return;
      }
      var s := state;
      var stamp := if frequency != 0 then now else 0;
      page.header := ZERO_HEADER;
      for i := 0 to CHILD_COUNT
        invariant state == s
        invariant forall k :: 0 <= k < i ==> page.children[k] == BootRow(s, k, stamp)
      {
        page.children[i] := BootRow(s, i, stamp);
      }
      for i := 0 to EVENT_COUNT
        invariant state == s
        invariant forall k :: 0 <= k < i ==> page.events[k] == ZERO_EVENT
        invariant forall k :: 0 <= k < CHILD_COUNT ==> page.children[k] == BootRow(s, k, stamp)
      {
        page.events[i] := ZERO_EVENT;
      }
      page.events[0] := BootEvent(stamp);
      page.header := StatusHeader(STATUS_MAGIC, ABI_VERSION, CHILD_COUNT, 2, 1, 1, stamp, frequency, 1, 0, 0, 0);
      state := BootState(present, now, frequency, budget);
    }

    method NoteFault(child: nat, tag: uint64, count: nat, mr0: uint64, mr1: uint64, now: uint64, clockValid: bool)
      modifies this
      ensures state == NotedFault(old(state), child, tag, count, mr0, mr1, now, clockValid)
      ensures OnlyObserved(old(state), state, child)
      ensures old(state).Present(child) ==>
        var o, p := old(state).observations[child], state.observations[child];
        && p.cumulativeDownTicks == o.cumulativeDownTicks && p.lastRestartTicks == o.lastRestartTicks
        && p.downOpen == (o.downOpen || clockValid)
        && p.downSinceTicks == (if o.downOpen || !clockValid then o.downSinceTicks else now)
    {
      if !state.Present(child) {
        return;
      }
      state := WithObservation(state, child, Faulted(state.observations[child], tag, count, mr0, mr1, now, clockValid));
    }

    method NoteRestart(child: nat, now: uint64, clockValid: bool, beamRestart: bool)
      modifies this
      ensures state == NotedRestart(old(state), child, now, clockValid, beamRestart)
      ensures OnlyObserved(old(state),
                           state.(beamIncarnation := old(state).beamIncarnation, enabled := old(state).enabled,
                                  exhausted := old(state).exhausted), child)
      ensures old(state).Present(child) ==>
        var o, p := old(state).observations[child], state.observations[child];
        && !p.downOpen && p.cumulativeDownTicks >= o.cumulativeDownTicks
        && (o.downOpen && clockValid && o.downSinceTicks <= now <= UINT64_MAX - o.cumulativeDownTicks ==>
              p.cumulativeDownTicks == o.cumulativeDownTicks + (now - o.downSinceTicks))
        && (!o.downOpen || !clockValid || now < o.downSinceTicks ==> p.cumulativeDownTicks == o.cumulativeDownTicks)
        && (p.faultLabel, p.faultFlags, p.faultMr0, p.faultMr1) == (o.faultLabel, o.faultFlags, o.faultMr0, o.faultMr1)
      ensures old(state).Present(child) && beamRestart ==>
        if old(state).beamIncarnation < UINT64_MAX then
          state.beamIncarnation == old(state).beamIncarnation + 1 && state.enabled == old(state).enabled
        else state.beamIncarnation == UINT64_MAX && !state.enabled && state.exhausted
      ensures !old(state).Present(child) || !beamRestart ==>
        state.beamIncarnation == old(state).beamIncarnation && state.enabled == old(state).enabled
    {
      if !state.Present(child) {
        return;
      }
      state := WithObservation(state, child, Restarted(state.observations[child], now, clockValid));
      if beamRestart {
        if state.beamIncarnation == UINT64_MAX {
          state := state.(enabled := false, exhausted := true);
        } else {
          state := state.(beamIncarnation := state.beamIncarnation + 1);
        }
      }
    }

    method NoteGone(child: nat, now: uint64, clockValid: bool)
      modifies this
      ensures state == NotedGone(old(state), child, now, clockValid)
      ensures OnlyObserved(old(state), state, child)
      ensures old(state).Present(child) ==>
        var o := old(state).observations[child];
        state.observations[child] ==
        if clockValid && !o.downOpen then o.(downSinceTicks := now, downOpen := true) else o
    {
      if !state.Present(child) {
        return;
      }
      state := WithObservation(state, child, Opened(state.observations[child], now, clockValid));
    }

    method NotePolicy(generation: uint64, bank: uint32, budget: seq<uint32>, desired: seq<byte>)
      requires |budget| == |desired| == CHILD_COUNT
      modifies this
      ensures state == NotedPolicy(old(state), generation, bank, budget, desired)
    {
      var s := state;
      var budgets, wanted := s.effectiveBudget, s.desired;
      for i := 0 to CHILD_COUNT
        invariant |budgets| == |wanted| == CHILD_COUNT
        invariant forall k :: 0 <= k < i ==> budgets[k] == if s.Present(k) then budget[k] else 0
        invariant forall k :: 0 <= k < i ==> wanted[k] == if s.Present(k) then desired[k] else DESIRED_UNSET
      {
        budgets := budgets[i := if s.Present(i) then budget[i] else 0];
        wanted := wanted[i := if s.Present(i) then desired[i] else DESIRED_UNSET];
      }
      ghost var noted := NotedPolicy(s, generation, bank, budget, desired);
      assert budgets == noted.effectiveBudget && wanted == noted.desired;
      state := s.(effectiveBudget := budgets, desired := wanted, appliedGeneration := generation, appliedBank := bank,
                  policyDirty := true);
    }

    /** root_status_publish: refusals write nothing to the page, whatever they disable. */
    method Publish(page: StatusMemory?, child: nat, record: Option<ChildRecord>, now: uint64, clockValid: bool,
                   events: EventList) returns (ok: bool)
      requires page != null ==> page.Valid()
      modifies this, page, if page == null then {} else {page.children, page.events}
      ensures page == null ==> !ok && state == old(state)
      ensures page != null ==>
        page.Valid() &&
        Publication(ok, state, page.Value()) ==
        Published(old(state), old(page.Value()), child, record, now, clockValid, events)
    {
      hide RowsAfter, Pushed;
      if !state.enabled || page == null {
        return false;
      }
      if !events.Usable() || (record.Some? && !state.Present(child)) {
        state := state.(enabled := false, misused := true);
        return false;
      }
      if state.seqWord > UINT64_MAX - 2 || events.Count() > UINT64_MAX - state.eventHead {
        state := state.(enabled := false, exhausted := true);
        return false;
      }
      page.header := page.header.(seqWord := state.seqWord + 1);
      WriteRows(page, child, record);
      PushEvents(page, events.List());
      var head := state.eventHead + events.Count();
      page.header := HeaderAfter(page.header, state, head, now, clockValid);
      state := state.(seqWord := state.seqWord + 2, eventHead := head, policyDirty := false);
      return true;
    }

    /** The record's row, then every present row when the policy is new. */
    method WriteRows(page: StatusMemory, child: nat, record: Option<ChildRecord>)
      requires page.Valid() && (record.Some? ==> child < CHILD_COUNT)
      modifies page.children
      ensures page.children[..] == RowsAfter(old(page.children[..]), state, child, record)
    {
      var s := state;
      ghost var before := page.children[..];
      if record.Some? {
        page.children[child] := RowFor(page.children[child], s, child, record.value);
      }
      assert forall k :: 0 <= k < CHILD_COUNT ==> page.children[k] == RecordRow(before[k], s, k, child, record);
      if s.policyDirty {
        for i := 0 to CHILD_COUNT
          invariant forall k :: 0 <= k < i ==>
            page.children[k] == PolicyRow(RecordRow(before[k], s, k, child, record), s, k)
          invariant forall k :: i <= k < CHILD_COUNT ==> page.children[k] == RecordRow(before[k], s, k, child, record)
        {
          page.children[i] := PolicyRow(page.children[i], s, i);
        }
      }
    }

    /** The event loop, each event at the running head mod the ring size. */
    method PushEvents(page: StatusMemory, list: seq<Event>)
      requires page.Valid()
      modifies page.events
      ensures page.events[..] == Pushed(old(page.events[..]), state.eventHead, list)
    {
      var head: nat := state.eventHead;
      ghost var before := page.events[..];
      for i := 0 to |list|
        invariant head == state.eventHead + i
        invariant Pushed(page.events[..], head, list[i..]) == Pushed(before, state.eventHead, list)
      {
        assert list[i..][1..] == list[i + 1..];
        page.events[head % EVENT_COUNT] := list[i];
        head := head + 1;
      }
    }
  }
}
