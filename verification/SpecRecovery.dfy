/**
 * When a writer crash leaves the spec page beyond repair: exactly which stores of the first header a
 * crash must fall between (src/lib/abi/spec_writer.c).
 */
module SpecRecovery {
  import opened Words
  import opened Regions
  import opened SpecPage
  import opened SpecWriter
  import opened SpecConsumer
  import opened SpecProtocol
  import SpecAtomicity

  const INIT_STORES := 13
  const LAST_FATAL := 8
  const IMAGE := Bytes(8, SPEC_MAGIC) + Bytes(4, ABI_VERSION)

  /** An unwritten header after the first k stores of its initialisation. */
  function HeaderWith(k: nat): (h: seq<byte>)
    requires k <= INIT_STORES
    ensures |h| == HEADER_BYTES
  {
    var n := if k < |IMAGE| then k else |IMAGE|;
    IMAGE[..n] + Zeros(HEADER_BYTES - n)
  }

  lemma NextByte(n: nat, v: nat, i: nat)
    requires i < n
    ensures Bytes(n, v)[i] == if i == 0 then v % 0x100 else Bytes(n - 1, v / 0x100)[i - 1]
  {
  }

  /** The bytes whose arrival decides whether the header reads as unwritten or as valid. */
  lemma DecidingBytes()
    ensures IMAGE[0] != 0 && IMAGE[7] != 0 && IMAGE[8] == ABI_VERSION && IMAGE[9] == IMAGE[10] == IMAGE[11] == 0
  {
    hide Bytes;
    NextByte(8, SPEC_MAGIC, 0);
    NextByte(8, SPEC_MAGIC, 7);
    NextByte(7, 0x31_4550_5359_5248, 6);
    NextByte(6, 0x3145_5053_5952, 5);
    NextByte(5, 0x31_4550_5359, 4);
    NextByte(4, 0x3145_5053, 3);
    NextByte(3, 0x31_4550, 2);
    NextByte(2, 0x3145, 1);
    NextByte(1, 0x31, 0);
    NextByte(4, 1, 0);
    NextByte(4, 1, 1);
    NextByte(4, 1, 2);
    NextByte(4, 1, 3);
    ZeroBytes();
  }

  lemma ZeroBytes()
    ensures Bytes(3, 0)[0] == Bytes(3, 0)[1] == Bytes(3, 0)[2] == 0
  {
    NextByte(3, 0, 1);
    NextByte(3, 0, 2);
    NextByte(2, 0, 1);
  }

  /** The header reads as unwritten before the first store, as valid from the ninth, and as neither between. */
  lemma HeaderReads(k: nat)
    requires k <= INIT_STORES
    ensures AllZero(HeaderWith(k)) <==> k == 0
    ensures HeaderOk(HeaderWith(k)) <==> k > LAST_FATAL
  {
    hide Bytes, Value;
    DecidingBytes();
    var h := HeaderWith(k);
    assert k > 0 ==> h[0] == IMAGE[0];
    var magic, version := h[MAGIC_AT..MAGIC_AT + 8], h[VERSION_AT..VERSION_AT + 4];
    WordRoundTrip(SPEC_MAGIC);
    WordRoundTrip(ABI_VERSION);
    if k < 8 {
      assert magic[7] == 0 && Bytes(8, SPEC_MAGIC)[7] == IMAGE[7];
      BytesOfValue(magic);
    } else {
      assert magic == IMAGE[..8] == Bytes(8, SPEC_MAGIC);
    }
    if k <= LAST_FATAL {
      assert AllZero(version);
      ValueZero(version);
    } else {
      assert version == IMAGE[8..12] == Bytes(4, ABI_VERSION);
    }
    assert AllZero(h[RESERVED_AT..]) && AllZero(h[ACTIVE_AT..ACTIVE_AT + 4]);
    ValueZero(h[ACTIVE_AT..ACTIVE_AT + 4]);
  }

  // ----- the stores of the initialisation, one by one -----

  lemma {:induction false} ByteStoreAt(at: nat, s: seq<byte>, i: nat)
    requires at + |s| <= PAGE_BYTES && i < |s|
    ensures |ByteStores(at, s)| == |s| && ByteStores(at, s)[i] == Store(at + i, [s[i]])
    decreases |s|
  {
    if |s| > 1 {
      ByteStoreAt(at + 1, s[1..], if i == 0 then 0 else i - 1);
    } else {
      assert ByteStores(at + 1, s[1..]) == [];
    }
  }

  lemma InitStores(k: nat)
    requires k < INIT_STORES
    ensures |HeaderStores()| == INIT_STORES
    ensures HeaderStores()[k] == if k < |IMAGE| then Store(k, [IMAGE[k]]) else Store(ACTIVE_AT, Bytes(4, 0))
  {
    hide Bytes, ByteStores;
    ByteStoreAt(MAGIC_AT, Bytes(8, SPEC_MAGIC), if k < 8 then k else 0);
    ByteStoreAt(VERSION_AT, Bytes(4, ABI_VERSION), if 8 <= k < 12 then k - 8 else 0);
  }

  lemma OneInitStore(page: Page, k: nat)
    requires k < INIT_STORES && Header(page) == HeaderWith(k)
    ensures |HeaderStores()| == INIT_STORES
    ensures Header(Apply(page, HeaderStores()[k])) == HeaderWith(k + 1)
  {
    hide Bytes, HeaderStores, Blit;
    InitStores(k);
    var store := HeaderStores()[k];
    BlitWithin(page, 0, HEADER_BYTES, store.at, store.bytes);
    if k < |IMAGE| {
      OneByte(k);
    } else {
      ZeroWord();
      BlitZeros();
    }
  }

  lemma OneByte(k: nat)
    requires k < |IMAGE|
    ensures Blit(HeaderWith(k), k, [IMAGE[k]]) == HeaderWith(k + 1)
  {
    hide Bytes;
  }

  lemma BlitZeros()
    ensures Blit(HeaderWith(12), ACTIVE_AT, Zeros(4)) == HeaderWith(12) == HeaderWith(13)
  {
    hide Bytes;
  }

  // ----- over every run -----

  predicate Initialising(s: System) {
    s.writer.attached && s.writer.phase == Idle && s.pending != []
  }

  /** While the header is being initialised it holds exactly the stores made; any other commit has a valid one. */
  ghost predicate HeaderKnown(s: System) {
    if Initialising(s) then
      && |s.pending| <= INIT_STORES == |HeaderStores()|
      && s.pending == HeaderStores()[INIT_STORES - |s.pending|..]
      && Header(s.page) == HeaderWith(INIT_STORES - |s.pending|)
    else s.writer.attached ==> HeaderValid(s.page)
  }

  lemma StoreKeepsHeaderKnown(s: System)
    requires PageFine(s) && HeaderKnown(s) && s.pending != []
    ensures HeaderKnown(Stored(s))
  {
    hide PageFine, HeaderStores, HeaderWith, HeaderOk, Apply, Region, Bytes;
    SpecAtomicity.PendingIsAttached(s);
    if s.writer.phase == Idle {
      var k := INIT_STORES - |s.pending|;
      assert s.pending[0] == HeaderStores()[k];
      OneInitStore(s.page, k);
      HeaderReads(INIT_STORES);
    } else {
      SpecAtomicity.StoreFacts(s);
    }
  }

  lemma NextKeepsHeaderKnown(s: System, event: Event)
    requires PageFine(s) && HeaderKnown(s)
    ensures HeaderKnown(Next(s, event))
  {
    hide PageFine, HeaderStores, HeaderWith, HeaderOk, Stored, Region, Consumed, ReaderMoved;
    match event
    case BeginCommit(c) =>
      if s.pending == [] && BeginOn(s.writer, s.page, c).result == WriteOk && IsFresh(s.page) {
        UnwrittenIsWithNone(Header(s.page));
        InitStores(0);
        assert HeaderStores()[0..] == HeaderStores();
      }
    case RunStep(step) =>
    case StoreNext =>
      if s.pending != [] {
        StoreKeepsHeaderKnown(s);
      }
    case CrashAndInit =>
    case ReadMarker =>
    case CopyByte =>
    case Recheck =>
    case Decide(_) =>
  }

  lemma UnwrittenIsWithNone(h: seq<byte>)
    requires |h| == HEADER_BYTES && AllZero(h)
    ensures h == HeaderWith(0)
  {
  }

  lemma {:induction false} RunsKnowHeader(events: seq<Event>)
    ensures PageFine(After(events)) && HeaderKnown(After(events))
  {
    hide PageFine, ReaderFine, RootFine, HeaderKnown, Next;
    RunsAreFine(events);
    if events == [] {
      StartKnown();
    } else {
      var n := |events| - 1;
      RunsKnowHeader(events[..n]);
      NextKeepsHeaderKnown(After(events[..n]), events[n]);
    }
  }

  lemma StartKnown()
    ensures HeaderKnown(START)
  {
  }

  /** A crash now would fall between the first store of a header and its ninth. */
  predicate Torn(s: System) {
    s.writer.attached && s.writer.phase == Idle
    && INIT_STORES - LAST_FATAL <= |s.pending| < INIT_STORES
  }

  /**
   * In every reachable state: a crash leaves a page no writer can use again if and only if it was so
   * already or the crash falls after one to eight of the thirteen stores of the first header.
   * Otherwise the next writer's begin finds the page good.
   */
  lemma CrashWedgesExactly(events: seq<Event>, c: Commit)
    ensures var s := After(events);
            && (Wedged(Next(s, CrashAndInit)) <==> Wedged(s) || Torn(s))
            && (Wedged(Next(s, CrashAndInit)) <==> BeginOn(FRESH_WRITER, s.page, c).result == BadPage)
  {
    hide PageFine, After, HeaderWith, HeaderStores, HeaderOk, Region;
    RunsKnowHeader(events);
    var s := After(events);
    Detached(s);
    if Initialising(s) {
      HeaderReads(INIT_STORES - |s.pending|);
    }
  }

  lemma Detached(s: System)
    requires PageFine(s)
    ensures s.writer.attached || s.pending == []
  {
  }

  /** This event of the run is such a crash. */
  ghost predicate Fatal(events: seq<Event>, i: nat) {
    i < |events| && events[i].CrashAndInit? && Torn(After(events[..i]))
  }

  /** A run has ruined the page exactly when one of its crashes was such a one. */
  lemma {:induction false} WedgedExactly(events: seq<Event>)
    ensures Wedged(After(events)) <==> exists i: nat :: Fatal(events, i)
  {
    hide Torn, Wedged, Next;
    if events == [] {
      StartNotWedged();
    } else {
      var n := |events| - 1;
      var p, last := events[..n], events[n];
      WedgedExactly(p);
      LastEvent(p, last);
      assert p + [last] == events;
      if i: nat :| Fatal(p, i) {
        assert events[..i] == p[..i];
        assert Fatal(events, i);
      } else if last.CrashAndInit? && Torn(After(p)) {
        assert Fatal(events, n);
      }
      if i: nat :| Fatal(events, i) {
        assert i < n ==> events[..i] == p[..i] && Fatal(p, i);
      }
    }
  }

  lemma StartNotWedged()
    ensures !Wedged(START)
  {
    assert forall k :: 0 <= k < HEADER_BYTES ==> Header(Zeros(PAGE_BYTES))[k] == 0;
  }

  lemma LastEvent(events: seq<Event>, last: Event)
    ensures Wedged(Next(After(events), last)) <==> Wedged(After(events)) || (last.CrashAndInit? && Torn(After(events)))
  {
    hide PageFine, HeaderKnown, After, HeaderOk, Region, Torn, AllZero, Consumed, HeaderStores, ReaderMoved;
    var s := After(events);
    RunsKnowHeader(events);
    Detached(s);
    if last.CrashAndInit? {
      CrashWedgesExactly(events, FRESH_WRITER.commit);
    } else if Wedged(s) {
      WedgedForGood(s, last);
    }
  }

  // ----- the first commit, store by store -----

  /** The first commit's begin and the first k stores it makes. */
  function FirstStores(c: Commit, k: nat): seq<Event> {
    [BeginCommit(c)] + seq(k, i => StoreNext)
  }

  lemma FirstBegin(c: Commit)
    ensures var s := Next(START, BeginCommit(c));
            s.writer.attached && s.writer.phase == Idle && s.pending == HeaderStores()
  {
    hide HeaderStores, HeaderOk, Region, AllZero;
    FreshStart(c);
  }

  lemma {:induction false} StoresSoFar(c: Commit, k: nat)
    requires k <= INIT_STORES
    ensures var s := After(FirstStores(c, k));
            s.writer.attached && s.writer.phase == Idle && |s.pending| == INIT_STORES - k
  {
    hide HeaderStores, Apply, BeginOn;
    var events := FirstStores(c, k);
    if k == 0 {
      InitStores(0);
      assert events == [BeginCommit(c)] && events[..0] == [];
      FirstBegin(c);
    } else {
      StoresSoFar(c, k - 1);
      assert events[..k] == FirstStores(c, k - 1) && events[k] == StoreNext;
    }
  }

  /** A first commit that crashes after k stores ruins the page if and only if k is between one and eight. */
  lemma CrashAfter(c: Commit, k: nat)
    requires k <= INIT_STORES
    ensures |HeaderStores()| == INIT_STORES
    ensures Wedged(After(FirstStores(c, k) + [CrashAndInit])) <==> 1 <= k <= LAST_FATAL
  {
    hide Wedged, Next, HeaderStores, FirstStores;
    InitStores(0);
    StoresSoFar(c, k);
    LastEvent(FirstStores(c, k), CrashAndInit);
    var events := FirstStores(c, k) + [CrashAndInit];
    assert events[..|events| - 1] == FirstStores(c, k);
    RunsKnowHeader(FirstStores(c, k));
    AttachedNotWedged(After(FirstStores(c, k)));
  }

  lemma AttachedNotWedged(s: System)
    requires s.writer.attached
    ensures !Wedged(s)
  {
  }
}
