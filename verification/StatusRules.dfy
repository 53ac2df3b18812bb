/**
 * The generated checker of Root's status page: a page's bytes decoded, and the rules its fields must
 * meet (tools/abi/checks.zig).
 */
module StatusRules {
  import opened Words
  import opened Regions
  import opened SpecPage
  import opened StatusPage

  const WIRE_STATE_MAX := 4
  const DESIRED_MAX := 2
  const EVENT_KIND_MAX := 9
  const GIVEUP_REASON_MAX := 4
  const CONTROL_KIND_MAX := 2
  const SPEC_REJECT_MAX := 8

  // ----- decoding -----

  function DecodeHeader(s: seq<byte>): StatusHeader
    requires |s| == STATUS_HEADER_BYTES
  {
    StatusHeader(Load64(s, 0), Load32(s, 8), Load32(s, 12), Load64(s, 16), Load64(s, 24), Load64(s, 32), Load64(s, 40),
                 Load64(s, 48), Load64(s, 56), Load64(s, 64), Load64(s, 72), Load32(s, 80))
  }

  function DecodeRow(s: seq<byte>): ChildRow
    requires |s| == ROW_BYTES
  {
    ChildRow(s[0], s[1], Load16(s, 2), Load32(s, 4), Load32(s, 8), Load32(s, 12), Load64(s, 16), Load64(s, 24),
             Load64(s, 32), Load64(s, 40), Load64(s, 48), Load64(s, 56), Load64(s, 64), Load32(s, 72))
  }

  function DecodeEvent(s: seq<byte>): Event
    requires |s| == EVENT_BYTES
  {
    Event(Load64(s, 0), s[8], s[9], Load16(s, 10), Load32(s, 12), Load64(s, 16), Load64(s, 24))
  }

  function EventAt(slot: nat): nat {
    RowAt(CHILD_COUNT) + EVENT_BYTES * slot
  }

  function Decode(s: StatusBytes): StatusPage {
    Page(DecodeHeader(s[..STATUS_HEADER_BYTES]),
         seq(CHILD_COUNT, i requires 0 <= i < CHILD_COUNT => DecodeRow(Region(s, RowAt(i), ROW_BYTES))),
         seq(EVENT_COUNT, i requires 0 <= i < EVENT_COUNT => DecodeEvent(Region(s, EventAt(i), EVENT_BYTES))))
  }

  // ----- the rules -----

  /** Flag bit 2 only with flag bit 1. */
  predicate WordFlags(flags: uint16) {
    flags % 4 != 2
  }

  predicate RowOk(r: ChildRow) {
    && r.state <= WIRE_STATE_MAX && r.desired <= DESIRED_MAX
    && r.flags <= 7 && WordFlags(r.flags)
    && (r.state == 0 ==> r == ZERO_ROW)
  }

  /** Kind, detail and flags of an event, whatever the rows say. */
  predicate EventFieldsOk(e: Event) {
    && 1 <= e.kind <= EVENT_KIND_MAX
    && (e.kind == EVENT_GIVEUP ==> 1 <= e.detail <= GIVEUP_REASON_MAX)
    && (e.kind == EVENT_CONTROL ==> 1 <= e.detail <= CONTROL_KIND_MAX)
    && (e.kind == EVENT_SPEC_REJECT ==> 1 <= e.detail <= SPEC_REJECT_MAX)
    && e.flags <= 3 && WordFlags(e.flags) && (e.flags != 0 ==> e.kind == EVENT_FAULT)
  }

  /** A global kind carries no child; every other kind one whose row is set. */
  predicate EventChildOk(e: Event, rows: seq<ChildRow>) {
    if e.kind == EVENT_BOOT || e.kind == EVENT_SPEC_REJECT then e.child == EVENT_NO_CHILD
    else e.child < |rows| && rows[e.child].state != 0
  }

  predicate HeaderRulesOk(h: StatusHeader) {
    && h.magic == STATUS_MAGIC && h.abiVersion == ABI_VERSION
    && h.seqWord != 0 && h.seqWord % 2 == 0
    && h.childCount == CHILD_COUNT && h.appliedBank <= 1
    && h.eventDropped == if h.eventHead > EVENT_COUNT then h.eventHead - EVENT_COUNT else 0
  }

  /** Only the published window of the ring is interpreted: the last events before the head. */
  predicate PageRulesOk(p: StatusPage) {
    var h := p.header;
    && HeaderRulesOk(h)
    && (forall i :: 0 <= i < CHILD_COUNT ==> RowOk(p.children[i]))
    && forall i :: 0 <= i < EVENT_COUNT && InWindow(i, h.eventHead) ==>
         EventFieldsOk(p.events[i]) && EventChildOk(p.events[i], p.children)
  }

  /** A slot of the ring holds a published event. */
  predicate InWindow(slot: nat, head: uint64) {
    slot < EVENT_COUNT && (slot < head || head >= EVENT_COUNT)
  }

  /** Bytes pass exactly when they are a page, reserved bytes zero, that meets the rules. */
  predicate StatusChecks(s: StatusBytes) {
    PageBytes(Decode(s)) == s && PageRulesOk(Decode(s))
  }

  // ----- a page reads back -----

  lemma HeaderReads(h: StatusHeader)
    ensures DecodeHeader(HeaderBytes(h)) == h
  {
    hide Bytes, Zeros, Value;
    HeaderSlices(h);
    WordRoundTrip(h.magic);
    WordRoundTrip(h.abiVersion);
    WordRoundTrip(h.childCount);
    WordRoundTrip(h.seqWord);
    WordRoundTrip(h.rootGeneration);
    WordRoundTrip(h.beamIncarnation);
    WordRoundTrip(h.nowTicks);
    WordRoundTrip(h.cntfrq);
    WordRoundTrip(h.eventHead);
    WordRoundTrip(h.eventDropped);
    WordRoundTrip(h.appliedGeneration);
    WordRoundTrip(h.appliedBank);
    hide HeaderBytes;
  }

  lemma HeaderSlices(h: StatusHeader)
    ensures var s := HeaderBytes(h);
            && s[0..8] == Bytes(8, h.magic) && s[8..12] == Bytes(4, h.abiVersion) && s[12..16] == Bytes(4, h.childCount)
            && s[16..24] == Bytes(8, h.seqWord) && s[24..32] == Bytes(8, h.rootGeneration)
            && s[32..40] == Bytes(8, h.beamIncarnation) && s[40..48] == Bytes(8, h.nowTicks)
            && s[48..56] == Bytes(8, h.cntfrq) && s[56..64] == Bytes(8, h.eventHead)
            && s[64..72] == Bytes(8, h.eventDropped) && s[72..80] == Bytes(8, h.appliedGeneration)
            && s[80..84] == Bytes(4, h.appliedBank)
  {
    hide Bytes, Zeros;
  }

  lemma RowSlices(r: ChildRow)
    ensures var s := RowBytes(r);
            && s[0] == r.state && s[1] == r.desired && s[2..4] == Bytes(2, r.flags)
            && s[4..8] == Bytes(4, r.lifetimeCount)
            && s[8..12] == Bytes(4, r.effectiveBudget) && s[12..16] == Bytes(4, r.faultLabel)
            && s[16..24] == Bytes(8, r.faultMr0) && s[24..32] == Bytes(8, r.faultMr1)
            && s[32..40] == Bytes(8, r.lastFaultTicks) && s[40..48] == Bytes(8, r.lastRestartTicks)
            && s[48..56] == Bytes(8, r.bootTicks) && s[56..64] == Bytes(8, r.cumulativeDownTicks)
            && s[64..72] == Bytes(8, r.slotGeneration) && s[72..76] == Bytes(4, r.windowCount)
  {
    hide Bytes, Zeros;
  }

  lemma RowReads(r: ChildRow)
    ensures DecodeRow(RowBytes(r)) == r
  {
    RowSlices(r);
    hide Bytes, Zeros, Value, RowBytes;
    WordRoundTrip(r.flags);
    WordRoundTrip(r.lifetimeCount);
    WordRoundTrip(r.effectiveBudget);
    WordRoundTrip(r.faultLabel);
    WordRoundTrip(r.faultMr0);
    WordRoundTrip(r.faultMr1);
    WordRoundTrip(r.lastFaultTicks);
    WordRoundTrip(r.lastRestartTicks);
    WordRoundTrip(r.bootTicks);
    WordRoundTrip(r.cumulativeDownTicks);
    WordRoundTrip(r.slotGeneration);
    WordRoundTrip(r.windowCount);
  }

  lemma EventSlices(e: Event)
    ensures var s := EventBytes(e);
            && s[0..8] == Bytes(8, e.ticks) && s[8] == e.kind && s[9] == e.child && s[10..12] == Bytes(2, e.flags)
            && s[12..16] == Bytes(4, e.detail) && s[16..24] == Bytes(8, e.a) && s[24..32] == Bytes(8, e.b)
  {
    hide Bytes, Zeros;
  }

  lemma EventReads(e: Event)
    ensures DecodeEvent(EventBytes(e)) == e
  {
    EventSlices(e);
    hide Bytes, Zeros, Value, EventBytes;
    WordRoundTrip(e.ticks);
    WordRoundTrip(e.flags);
    WordRoundTrip(e.detail);
    WordRoundTrip(e.a);
    WordRoundTrip(e.b);
  }

  lemma {:induction false} EventsBytesAt(events: seq<Event>, i: nat)
    requires i < |events|
    ensures EventsBytes(events)[EVENT_BYTES * i..EVENT_BYTES * i + EVENT_BYTES] == EventBytes(events[i])
  {
    hide EventBytes;
    var first, rest := EventBytes(events[0]), EventsBytes(events[1..]);
    assert EventsBytes(events) == first + rest;
    if i > 0 {
      EventsBytesAt(events[1..], i - 1);
      assert (first + rest)[EVENT_BYTES * i..EVENT_BYTES * i + EVENT_BYTES]
          == rest[EVENT_BYTES * (i - 1)..EVENT_BYTES * (i - 1) + EVENT_BYTES];
    }
  }

  /** Where the parts of a page lie. */
  lemma PageParts(p: StatusPage)
    ensures var s, rows, events := PageBytes(p), RowsBytes(p.children), EventsBytes(p.events);
            && s[..STATUS_HEADER_BYTES] == HeaderBytes(p.header)
            && s[STATUS_HEADER_BYTES..STATUS_HEADER_BYTES + |rows|] == rows
            && EventAt(0) == STATUS_HEADER_BYTES + |rows|
            && s[EventAt(0)..EventAt(0) + |events|] == events
  {
    hide HeaderBytes, RowsBytes, EventsBytes, Zeros;
  }

  lemma RowInPage(p: StatusPage, i: nat)
    requires i < CHILD_COUNT
    ensures Region(PageBytes(p), RowAt(i), ROW_BYTES) == RowBytes(p.children[i])
  {
    hide PageBytes, RowsBytes, RowBytes;
    PageParts(p);
    RowsBytesAt(p.children, i);
    var n := |RowsBytes(p.children)|;
    SubSlice(PageBytes(p), STATUS_HEADER_BYTES, STATUS_HEADER_BYTES + n, ROW_BYTES * i, ROW_BYTES * i + ROW_BYTES);
  }

  lemma EventInPage(p: StatusPage, i: nat)
    requires i < EVENT_COUNT
    ensures Region(PageBytes(p), EventAt(i), EVENT_BYTES) == EventBytes(p.events[i])
  {
    hide PageBytes, EventsBytes, EventBytes;
    PageParts(p);
    EventsBytesAt(p.events, i);
    var n := |EventsBytes(p.events)|;
    SubSlice(PageBytes(p), EventAt(0), EventAt(0) + n, EVENT_BYTES * i, EVENT_BYTES * i + EVENT_BYTES);
  }

  /** Every page reads back from its bytes, field by field. */
  lemma PageReads(p: StatusPage)
    ensures Decode(PageBytes(p)) == p
  {
    hide PageBytes, HeaderBytes, RowBytes, EventBytes, DecodeRow, DecodeEvent, DecodeHeader;
    var s := PageBytes(p);
    var d := Decode(s);
    PageParts(p);
    HeaderReads(p.header);
    forall i | 0 <= i < CHILD_COUNT
      ensures d.children[i] == p.children[i]
    {
      RowInPage(p, i);
      RowReads(p.children[i]);
    }
    forall i | 0 <= i < EVENT_COUNT
      ensures d.events[i] == p.events[i]
    {
      EventInPage(p, i);
      EventReads(p.events[i]);
    }
    assert d.children == p.children && d.events == p.events;
  }

  /** The checker accepts a page's bytes exactly when the page meets the rules. */
  lemma ChecksAreRules(p: StatusPage)
    ensures StatusChecks(PageBytes(p)) <==> PageRulesOk(p)
  {
    hide PageBytes, Decode, PageRulesOk;
    PageReads(p);
  }

  // ----- what the checker accepts, in numbers -----

  /** A row that is set, or one of zeros: known state and desired state, and flags that make sense. */
  ghost predicate RowMakesSense(r: ChildRow) {
    && r.state in {0, 1, 2, 3, 4} && r.desired in {0, 1, 2} && r.flags in {0, 1, 3, 4, 5, 7}
    && (r.state == 0 ==> r == ChildRow(0, 0, 0, 0, 0, 0, 0, 0, 0, 0, 0, 0, 0, 0))
  }

  /** A published event: a known kind with a detail of its kind, about a child that is set, or about none. */
  ghost predicate EventMakesSense(e: Event, rows: seq<ChildRow>) {
    && e.kind in {1, 2, 3, 4, 5, 6, 7, 8, 9}
    && (e.kind == 5 ==> e.detail in {1, 2, 3, 4}) && (e.kind == 8 ==> e.detail in {1, 2})
    && (e.kind == 9 ==> e.detail in {1, 2, 3, 4, 5, 6, 7, 8})
    && (if e.kind == 2 then e.flags in {0, 1, 3} else e.flags == 0)
    && if e.kind in {1, 9} then e.child == 255 else (e.child as nat) < |rows| && rows[e.child].state > 0
  }

  ghost predicate HeaderMakesSense(h: StatusHeader) {
    && h.magic == 0x3141_5453_5952_4843 && h.abiVersion == 1 && h.childCount == CHILD_COUNT
    && h.seqWord >= 2 && h.seqWord % 2 == 0 && h.appliedBank in {0, 1}
    && (h.eventHead <= EVENT_COUNT ==> h.eventDropped == 0)
    && (h.eventHead >= EVENT_COUNT ==> h.eventDropped + EVENT_COUNT == h.eventHead)
  }

  /**
   * The bytes that pass are exactly the pages, reserved bytes zero, whose header, rows and events before
   * the head make sense; slots no event has reached yet are not looked at.
   */
  lemma AcceptsExactly(s: StatusBytes)
    ensures StatusChecks(s) <==>
            exists p: StatusPage ::
              && s == PageBytes(p) && HeaderMakesSense(p.header)
              && (forall i :: 0 <= i < CHILD_COUNT ==> RowMakesSense(p.children[i]))
              && forall i :: 0 <= i < EVENT_COUNT && i < p.header.eventHead ==>
                   EventMakesSense(p.events[i], p.children)
  {
    hide PageBytes, Decode, PageRulesOk, HeaderMakesSense, RowMakesSense, EventMakesSense;
    if StatusChecks(s) {
      RulesMeanSense(Decode(s));
    }
    if p: StatusPage :|
        && s == PageBytes(p) && HeaderMakesSense(p.header)
        && (forall i :: 0 <= i < CHILD_COUNT ==> RowMakesSense(p.children[i]))
        && forall i :: 0 <= i < EVENT_COUNT && i < p.header.eventHead ==> EventMakesSense(p.events[i], p.children) {
      PageReads(p);
      RulesMeanSense(p);
    }
  }

  lemma RulesMeanSense(p: StatusPage)
    ensures PageRulesOk(p) <==>
            && HeaderMakesSense(p.header)
            && (forall i :: 0 <= i < CHILD_COUNT ==> RowMakesSense(p.children[i]))
            && forall i :: 0 <= i < EVENT_COUNT && i < p.header.eventHead ==> EventMakesSense(p.events[i], p.children)
  {
    hide RowOk, EventFieldsOk, EventChildOk, RowMakesSense, EventMakesSense;
    forall i | 0 <= i < CHILD_COUNT
      ensures RowOk(p.children[i]) <==> RowMakesSense(p.children[i])
    {
      RowSense(p.children[i]);
    }
    forall i | 0 <= i < EVENT_COUNT
      ensures EventFieldsOk(p.events[i]) && EventChildOk(p.events[i], p.children) <==>
              EventMakesSense(p.events[i], p.children)
      ensures InWindow(i, p.header.eventHead) <==> i < p.header.eventHead
    {
      EventSense(p.events[i], p.children);
    }
  }

  lemma RowSense(r: ChildRow)
    ensures RowOk(r) <==> RowMakesSense(r)
  {
  }

  lemma EventSense(e: Event, rows: seq<ChildRow>)
    ensures EventFieldsOk(e) && EventChildOk(e, rows) <==> EventMakesSense(e, rows)
  {
  }
}
