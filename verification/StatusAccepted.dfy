/** Every page the publisher makes passes the reader's checker (src/pd/root/status.c, tools/abi/checks.zig). */
module StatusAccepted {
  import opened Words
  import opened Regions
  import opened SpecPage
  import opened StatusPage
  import opened RootPolicy
  import opened Status
  import opened StatusRules
  import opened StatusReader
  import opened StatusRuns

  // ----- what the caller hands in -----

  /** An event that fits the page's rules once its child, unless it has none, is one of these. */
  predicate EventProper(e: Event, present: set<nat>) {
    && EventFieldsOk(e)
    && if e.kind == EVENT_BOOT || e.kind == EVENT_SPEC_REJECT then e.child == EVENT_NO_CHILD
       else e.child < CHILD_COUNT && (e.child as nat) in present
  }

  ghost predicate AllProper(events: seq<Event>, present: set<nat>) {
    forall i :: 0 <= i < |events| ==> EventProper(events[i], present)
  }

  /** A policy names one of two banks and known desired states; a publish that is not refused has proper events. */
  ghost predicate Proper(act: Act, present: set<nat>) {
    match act
    case Policy(_, bank, budget, desired) =>
      && |budget| == |desired| == CHILD_COUNT && bank <= 1
      && forall i :: 0 <= i < CHILD_COUNT ==> desired[i] <= DESIRED_MAX
    case Publish(child, record, _, _, events) =>
      (record.Some? ==> child in present) ==> AllProper(events.List(), present)
    case _ => true
  }

  // ----- what the publisher keeps -----

  /** A row of a present child is live or gone; one of an absent child is all zero. */
  predicate RowSane(row: ChildRow, present: bool) {
    if present then RowOk(row) && row.state != 0 else row == ZERO_ROW
  }

  ghost predicate RowsSane(rows: seq<ChildRow>, s: PublisherState)
    requires |rows| == CHILD_COUNT
  {
    forall i :: 0 <= i < CHILD_COUNT ==> RowSane(rows[i], s.Present(i))
  }

  ghost predicate StateSane(s: PublisherState) {
    && s.appliedBank <= 1
    && (forall i :: 0 <= i < CHILD_COUNT ==> s.desired[i] <= DESIRED_MAX)
    && forall i :: 0 <= i < CHILD_COUNT ==> WordFlags(s.observations[i].faultFlags)
  }

  ghost predicate Sane(r: Run) {
    var h := r.page.header;
    && h.magic == STATUS_MAGIC && h.abiVersion == ABI_VERSION && h.childCount == CHILD_COUNT && h.appliedBank <= 1
    && h.seqWord == r.state.seqWord && IsPublished(h.seqWord)
    && StateSane(r.state) && RowsSane(r.page.children, r.state) && AllProper(r.log, r.state.present)
  }

  lemma BootIsSane(present: set<nat>, now: uint64, frequency: uint64, budget: seq<uint32>)
    requires |budget| == CHILD_COUNT
    ensures Sane(Booted(present, now, frequency, budget))
  {
    var r := Booted(present, now, frequency, budget);
    var stamp := if frequency != 0 then now else 0;
    forall i | 0 <= i < CHILD_COUNT
      ensures RowSane(r.page.children[i], r.state.Present(i))
    {
      assert r.page.children[i] == BootRow(Unmapped(present, frequency, budget), i, stamp);
    }
  }

  lemma FlagsSane(s: PublisherState, child: nat, row: ChildRow, record: ChildRecord)
    requires child < CHILD_COUNT && StateSane(s) && s.Present(child)
    ensures RowSane(RowFor(row, s, child, record), true)
  {
  }

  lemma PublishStaysSane(r: Run, act: Act)
    requires Sane(r) && Proper(act, r.state.present) && act.Publish? && Publishing(r, act).ok
    ensures Sane(Acted(r, act))
  {
    hide Pushed, RowFor, EventProper, RowSane;
    var rows := Acted(r, act).page.children;
    forall i | 0 <= i < CHILD_COUNT
      ensures RowSane(rows[i], r.state.Present(i))
    {
      var kept := RecordRow(r.page.children[i], r.state, i, act.child, act.record);
      if act.record.Some? && i == act.child {
        FlagsSane(r.state, i, r.page.children[i], act.record.value);
      }
      PolicyRowSane(kept, r.state, i);
    }
  }

  lemma PolicyRowSane(row: ChildRow, s: PublisherState, child: nat)
    requires child < CHILD_COUNT && StateSane(s) && RowSane(row, s.Present(child))
    ensures RowSane(PolicyRow(row, s, child), s.Present(child))
  {
  }

  lemma ObservationStaysSane(r: Run, child: nat, o: Observed)
    requires Sane(r) && child < CHILD_COUNT && WordFlags(o.faultFlags)
    ensures Sane(r.(state := WithObservation(r.state, child, o)))
  {
    hide EventProper, RowSane;
  }

  lemma NotesKeepFlags(o: Observed, fault: Act, now: uint64, valid: bool)
    requires WordFlags(o.faultFlags)
    ensures fault.Fault? ==>
      WordFlags(Faulted(o, fault.tag, fault.count, fault.mr0, fault.mr1, fault.now, fault.clockValid).faultFlags)
    ensures WordFlags(Status.Restarted(o, now, valid).faultFlags) && WordFlags(Opened(o, now, valid).faultFlags)
  {
  }

  lemma NoteStaysSane(r: Run, act: Act)
    requires Sane(r) && Proper(act, r.state.present) && !act.Publish?
    ensures act.Whole() && Sane(Acted(r, act))
  {
    hide EventProper, RowSane, Faulted, Status.Restarted, Opened;
    if (act.Fault? || act.Restart? || act.Stop?) && r.state.Present(act.child) {
      var o := r.state.observations[act.child];
      NotesKeepFlags(o, act, act.now, act.clockValid);
      ObservationStaysSane(r, act.child, if act.Fault? then
          Faulted(o, act.tag, act.count, act.mr0, act.mr1, act.now, act.clockValid)
        else if act.Restart? then Status.Restarted(o, act.now, act.clockValid) else Opened(o, act.now, act.clockValid));
    }
  }

  lemma ActStaysSane(r: Run, act: Act)
    requires Sane(r) && Proper(act, r.state.present)
    ensures act.Whole() && Sane(Acted(r, act)) && Acted(r, act).state.present == r.state.present
  {
    hide Sane, Proper, Faulted, Status.Restarted, Opened, RowsAfter, Pushed;
    if act.Publish? {
      if Publishing(r, act).ok {
        PublishStaysSane(r, act);
      } else {
        RefusalStaysSane(r, act);
      }
    } else {
      NoteStaysSane(r, act);
    }
  }

  lemma RefusalStaysSane(r: Run, act: Act)
    requires Sane(r) && act.Publish? && !Publishing(r, act).ok
    ensures Sane(Acted(r, act))
  {
    hide RowsAfter, Pushed, EventProper, RowSane;
  }

  // ----- the page passes -----

  /** Some index of the kept part of the log falls in each slot of the window. */
  lemma SlotHasIndex(slot: nat, head: nat, n: nat) returns (i: nat)
    requires slot < n && slot < head
    ensures i < head && head <= i + n && i % n == slot
  {
    var laps := LapsTo(slot, head, n);
    i := slot + laps * n;
    SameSlot(slot, laps, n);
  }

  lemma {:induction false} LapsTo(slot: nat, head: nat, n: nat) returns (laps: nat)
    requires slot < n && slot < head
    ensures slot + laps * n < head <= slot + laps * n + n
  {
    if head <= slot + n {
      laps := 0;
    } else {
      var fewer := LapsTo(slot, head - n, n);
      laps := fewer + 1;
      assert laps * n == fewer * n + n;
    }
  }

  lemma SameSlot(slot: nat, laps: nat, n: nat)
    requires slot < n
    ensures (slot + laps * n) % n == slot
  {
    var i := slot + laps * n;
    Quotient(laps, n, i);
    assert i == i / n * n + i % n;
  }

  lemma SaneMeetsRules(r: Run)
    requires Sane(r) && RingKept(r)
    ensures PageRulesOk(r.page)
  {
    hide EventFieldsOk, RowOk;
    var head := r.page.header.eventHead;
    forall slot | 0 <= slot < EVENT_COUNT && InWindow(slot, head)
      ensures EventFieldsOk(r.page.events[slot]) && EventChildOk(r.page.events[slot], r.page.children)
    {
      var i := SlotHasIndex(slot, head, EVENT_COUNT);
      assert r.page.events[i % EVENT_COUNT] == r.log[i];
      assert EventProper(r.log[i], r.state.present);
    }
    RowsMeetRules(r);
  }

  lemma RowsMeetRules(r: Run)
    requires RowsSane(r.page.children, r.state)
    ensures forall i :: 0 <= i < CHILD_COUNT ==> RowOk(r.page.children[i])
  {
  }

  /** The checker passes the page, and a reader of the quiet page succeeds with its first attempt. */
  lemma SaneIsRead(r: Run, attempts: nat)
    requires Sane(r) && RingKept(r)
    ensures StatusChecks(PageBytes(r.page))
    ensures QuietRead(PageBytes(r.page), attempts) == if attempts == 0 then ReadTorn else ReadOk
  {
    hide PageBytes, PageRulesOk, RingKept, Decode, Load64;
    SaneMeetsRules(r);
    ChecksAreRules(r.page);
    PageHeaderLoads(r.page);
  }

  // ----- whole runs -----

  ghost predicate AllActsProper(acts: seq<Act>, present: set<nat>) {
    forall a :: a in acts ==> Proper(a, present)
  }

  lemma ProperIsWhole(acts: seq<Act>, present: set<nat>)
    requires AllActsProper(acts, present)
    ensures forall a :: a in acts ==> a.Whole()
  {
  }

  lemma {:induction false} RunsAreSane(
    present: set<nat>, now: uint64, frequency: uint64, budget: seq<uint32>, acts: seq<Act>)
    requires |budget| == CHILD_COUNT && AllActsProper(acts, present)
    ensures forall a :: a in acts ==> a.Whole()
    ensures var r := AfterActs(Booted(present, now, frequency, budget), acts); Sane(r) && r.state.present == present
  {
    hide Sane, Proper, Acted;
    ProperIsWhole(acts, present);
    if acts == [] {
      BootIsSane(present, now, frequency, budget);
    } else {
      var n := |acts| - 1;
      assert acts[n] in acts && forall a :: a in acts[..n] ==> a in acts;
      RunsAreSane(present, now, frequency, budget, acts[..n]);
      ActStaysSane(AfterActs(Booted(present, now, frequency, budget), acts[..n]), acts[n]);
    }
  }

  /** After every run of proper acts from boot the page's bytes are ones the reader accepts. */
  lemma EveryPageIsRead(
    present: set<nat>, now: uint64, frequency: uint64, budget: seq<uint32>, acts: seq<Act>, attempts: nat)
    requires |budget| == CHILD_COUNT && AllActsProper(acts, present) && attempts > 0
    ensures forall a :: a in acts ==> a.Whole()
    ensures QuietRead(PageBytes(AfterActs(Booted(present, now, frequency, budget), acts).page), attempts) == ReadOk
  {
    hide Sane, RingKept, AfterActs, Booted, QuietRead;
    RunsAreSane(present, now, frequency, budget, acts);
    RingHoldsTheTail(present, now, frequency, budget, acts);
    SaneIsRead(AfterActs(Booted(present, now, frequency, budget), acts), attempts);
  }
}
