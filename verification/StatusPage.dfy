/** Root's status page and its byte layout (interfaces/orchestrator_abi.zig). */
module StatusPage {
  import opened Words
  import opened Regions
  import opened SpecPage

  const STATUS_BYTES := 16384
  const STATUS_HEADER_BYTES := 88
  const ROW_BYTES := 80
  const EVENT_BYTES := 32

  /** The event ring and the rows fit the page. */
  type EventCount = n: int |
    1 <= n && STATUS_HEADER_BYTES + ROW_BYTES * CHILD_COUNT + EVENT_BYTES * n <= STATUS_BYTES
    witness 1

  const EVENT_COUNT: EventCount

  const STATUS_MAGIC: uint64 := 0x3141_5453_5952_4843

  const EVENT_BOOT: byte := 1
  const EVENT_FAULT: byte := 2
  const EVENT_RESTART: byte := 3
  const EVENT_GIVEUP: byte := 5
  const EVENT_CONTROL: byte := 8
  const EVENT_SPEC_REJECT: byte := 9
  const EVENT_NO_CHILD: byte := 255

  datatype StatusHeader = StatusHeader(
    magic: uint64,
    abiVersion: uint32,
    childCount: uint32,
    seqWord: uint64,
    rootGeneration: uint64,
    beamIncarnation: uint64,
    nowTicks: uint64,
    cntfrq: uint64,
    eventHead: uint64,
    eventDropped: uint64,
    appliedGeneration: uint64,
    appliedBank: uint32)

  datatype ChildRow = ChildRow(
    state: byte,
    desired: byte,
    flags: uint16,
    lifetimeCount: uint32,
    effectiveBudget: uint32,
    faultLabel: uint32,
    faultMr0: uint64,
    faultMr1: uint64,
    lastFaultTicks: uint64,
    lastRestartTicks: uint64,
    bootTicks: uint64,
    cumulativeDownTicks: uint64,
    slotGeneration: uint64,
    windowCount: uint32)

  datatype Event = Event(ticks: uint64, kind: byte, child: byte, flags: uint16, detail: uint32, a: uint64, b: uint64)

  datatype Page = Page(header: StatusHeader, children: seq<ChildRow>, events: seq<Event>)

  type StatusPage = p: Page | |p.children| == CHILD_COUNT && |p.events| == EVENT_COUNT
    witness ZERO_PAGE

  const ZERO_HEADER := StatusHeader(0, 0, 0, 0, 0, 0, 0, 0, 0, 0, 0, 0)
  const ZERO_ROW := ChildRow(0, 0, 0, 0, 0, 0, 0, 0, 0, 0, 0, 0, 0, 0)
  const ZERO_EVENT := Event(0, 0, 0, 0, 0, 0, 0)
  const ZERO_PAGE := Page(ZERO_HEADER, Copies(CHILD_COUNT, ZERO_ROW), Copies(EVENT_COUNT, ZERO_EVENT))

  function Copies<T>(n: nat, x: T): (s: seq<T>)
    ensures |s| == n && forall i :: 0 <= i < n ==> s[i] == x
  {
    seq(n, i => x)
  }

  // ----- byte layout -----

  const SEQ_WORD_AT := 16
  const ROOT_GENERATION_AT := 24
  const BEAM_INCARNATION_AT := 32
  const NOW_TICKS_AT := 40
  const CNTFRQ_AT := 48
  const EVENT_HEAD_AT := 56
  const LIFETIME_AT := 4
  const DOWN_TICKS_AT := 56

  function RowAt(child: nat): nat {
    STATUS_HEADER_BYTES + ROW_BYTES * child
  }

  function HeaderBytes(h: StatusHeader): (s: seq<byte>)
    ensures |s| == STATUS_HEADER_BYTES
  {
    Bytes(8, h.magic) + Bytes(4, h.abiVersion) + Bytes(4, h.childCount) + Bytes(8, h.seqWord) +
    Bytes(8, h.rootGeneration) + Bytes(8, h.beamIncarnation) + Bytes(8, h.nowTicks) + Bytes(8, h.cntfrq) +
    Bytes(8, h.eventHead) + Bytes(8, h.eventDropped) + Bytes(8, h.appliedGeneration) + Bytes(4, h.appliedBank) +
    Zeros(4)
  }

  function RowBytes(r: ChildRow): (s: seq<byte>)
    ensures |s| == ROW_BYTES
  {
    [r.state, r.desired] + Bytes(2, r.flags) + Bytes(4, r.lifetimeCount) + Bytes(4, r.effectiveBudget) +
    Bytes(4, r.faultLabel) + Bytes(8, r.faultMr0) + Bytes(8, r.faultMr1) + Bytes(8, r.lastFaultTicks) +
    Bytes(8, r.lastRestartTicks) + Bytes(8, r.bootTicks) + Bytes(8, r.cumulativeDownTicks) +
    Bytes(8, r.slotGeneration) + Bytes(4, r.windowCount) + Zeros(4)
  }

  function EventBytes(e: Event): (s: seq<byte>)
    ensures |s| == EVENT_BYTES
  {
    Bytes(8, e.ticks) + [e.kind, e.child] + Bytes(2, e.flags) + Bytes(4, e.detail) + Bytes(8, e.a) + Bytes(8, e.b)
  }

  function RowsBytes(rows: seq<ChildRow>): (s: seq<byte>)
    ensures |s| == ROW_BYTES * |rows|
  {
    if rows == [] then [] else RowBytes(rows[0]) + RowsBytes(rows[1..])
  }

  function EventsBytes(events: seq<Event>): (s: seq<byte>)
    ensures |s| == EVENT_BYTES * |events|
  {
    if events == [] then [] else EventBytes(events[0]) + EventsBytes(events[1..])
  }

  type StatusBytes = s: seq<byte> | |s| == STATUS_BYTES witness Zeros(STATUS_BYTES)

  function PageBytes(p: StatusPage): StatusBytes {
    HeaderBytes(p.header) + RowsBytes(p.children) + EventsBytes(p.events) +
    Zeros(STATUS_BYTES - STATUS_HEADER_BYTES - ROW_BYTES * CHILD_COUNT - EVENT_BYTES * EVENT_COUNT)
  }

  // ----- the fields a reader loads -----

  lemma HeaderFields(h: StatusHeader)
    ensures var s := HeaderBytes(h);
            && s[SEQ_WORD_AT..SEQ_WORD_AT + 8] == Bytes(8, h.seqWord)
            && s[ROOT_GENERATION_AT..ROOT_GENERATION_AT + 8] == Bytes(8, h.rootGeneration)
            && s[BEAM_INCARNATION_AT..BEAM_INCARNATION_AT + 8] == Bytes(8, h.beamIncarnation)
            && s[NOW_TICKS_AT..NOW_TICKS_AT + 8] == Bytes(8, h.nowTicks)
            && s[CNTFRQ_AT..CNTFRQ_AT + 8] == Bytes(8, h.cntfrq)
            && s[EVENT_HEAD_AT..EVENT_HEAD_AT + 8] == Bytes(8, h.eventHead)
  {
    hide Bytes, Zeros;
  }

  lemma RowFields(r: ChildRow)
    ensures RowBytes(r)[LIFETIME_AT..LIFETIME_AT + 4] == Bytes(4, r.lifetimeCount)
    ensures RowBytes(r)[DOWN_TICKS_AT..DOWN_TICKS_AT + 8] == Bytes(8, r.cumulativeDownTicks)
  {
    hide Bytes, Zeros;
  }

  lemma {:induction false} RowsBytesAt(rows: seq<ChildRow>, i: nat)
    requires i < |rows|
    ensures RowsBytes(rows)[ROW_BYTES * i..ROW_BYTES * i + ROW_BYTES] == RowBytes(rows[i])
  {
    hide RowBytes;
    var first, rest := RowBytes(rows[0]), RowsBytes(rows[1..]);
    assert RowsBytes(rows) == first + rest;
    if i > 0 {
      RowsBytesAt(rows[1..], i - 1);
      assert (first + rest)[ROW_BYTES * i..ROW_BYTES * i + ROW_BYTES]
          == rest[ROW_BYTES * (i - 1)..ROW_BYTES * (i - 1) + ROW_BYTES];
    }
  }

  /** The header words of a page in memory are the header's fields. */
  lemma PageHeaderLoads(p: StatusPage)
    ensures var s, h := PageBytes(p), p.header;
            && Load64(s, SEQ_WORD_AT) == h.seqWord
            && Load64(s, ROOT_GENERATION_AT) == h.rootGeneration
            && Load64(s, BEAM_INCARNATION_AT) == h.beamIncarnation
            && Load64(s, NOW_TICKS_AT) == h.nowTicks
            && Load64(s, CNTFRQ_AT) == h.cntfrq
            && Load64(s, EVENT_HEAD_AT) == h.eventHead
  {
    hide Bytes, Zeros, HeaderBytes, RowsBytes, EventsBytes, Value;
    var s, h := PageBytes(p), HeaderBytes(p.header);
    HeaderFields(p.header);
    assert s[..STATUS_HEADER_BYTES] == h;
    Prefix(s, h, SEQ_WORD_AT);
    Prefix(s, h, ROOT_GENERATION_AT);
    Prefix(s, h, BEAM_INCARNATION_AT);
    Prefix(s, h, NOW_TICKS_AT);
    Prefix(s, h, CNTFRQ_AT);
    Prefix(s, h, EVENT_HEAD_AT);
    WordRoundTrip(p.header.seqWord);
    WordRoundTrip(p.header.rootGeneration);
    WordRoundTrip(p.header.beamIncarnation);
    WordRoundTrip(p.header.nowTicks);
    WordRoundTrip(p.header.cntfrq);
    WordRoundTrip(p.header.eventHead);
  }

  lemma Prefix(s: seq<byte>, h: seq<byte>, at: nat)
    requires |h| <= |s| && s[..|h|] == h && at + 8 <= |h|
    ensures s[at..at + 8] == h[at..at + 8]
  {
    SubSlice(s, 0, |h|, at, at + 8);
    assert s[0..|h|] == s[..|h|];
  }

  /** So are the counters of each child's row. */
  lemma PageRowLoads(p: StatusPage, i: nat)
    requires i < CHILD_COUNT
    ensures RowAt(i) + ROW_BYTES <= STATUS_BYTES
    ensures Load32(PageBytes(p), RowAt(i) + LIFETIME_AT) == p.children[i].lifetimeCount
    ensures Load64(PageBytes(p), RowAt(i) + DOWN_TICKS_AT) == p.children[i].cumulativeDownTicks
  {
    hide Bytes, Zeros, HeaderBytes, RowsBytes, EventsBytes, Value, RowBytes;
    var s, rows := PageBytes(p), RowsBytes(p.children);
    assert RowAt(i) + ROW_BYTES <= STATUS_HEADER_BYTES + |rows|;
    assert s[STATUS_HEADER_BYTES..STATUS_HEADER_BYTES + |rows|] == rows;
    RowsBytesAt(p.children, i);
    SubSlice(s, STATUS_HEADER_BYTES, STATUS_HEADER_BYTES + |rows|, ROW_BYTES * i, ROW_BYTES * i + ROW_BYTES);
    SubSlice(s, RowAt(i), RowAt(i) + ROW_BYTES, LIFETIME_AT, LIFETIME_AT + 4);
    SubSlice(s, RowAt(i), RowAt(i) + ROW_BYTES, DOWN_TICKS_AT, DOWN_TICKS_AT + 8);
    RowFields(p.children[i]);
    WordRoundTrip(p.children[i].lifetimeCount);
    WordRoundTrip(p.children[i].cumulativeDownTicks);
  }
}
