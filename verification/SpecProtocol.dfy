/**
 * The spec page as a protocol: single writer stores, writer crashes and Root's copy in any
 * interleaving (src/lib/abi/spec_writer.c, src/pd/root/spec.c).
 */
module SpecProtocol {
  import opened Words
  import opened Regions
  import opened SpecPage
  import opened SpecWriter
  import opened SpecCommit
  import opened SpecConsumer

  /** Where Root is in snapshot(): the markers it loaded, the bytes it copied, the markers rechecked. */
  datatype Reader =
    | Resting
    | LoadedActive(active: uint32)
    | LoadedFirst(active: uint32, seq0: uint32)
    | Copying(active: uint32, seq0: uint32, seq1: uint32, copy: seq<byte>)
    | Checking(active: uint32, seq0: uint32, seq1: uint32, page: Page, checked: nat)

  /** A commit that reached close, and where. */
  datatype Published = Published(bank: nat, seqWord: uint32, commit: Commit)

  /** pending are the stores the writer's current call has still to make; closed is history. */
  datatype System = System(
    page: Page,
    writer: WriterState,
    pending: seq<Store>,
    reader: Reader,
    root: State,
    closed: set<Published>)

  const START := System(Zeros(PAGE_BYTES), FRESH_WRITER, [], Resting, INITIAL, {})

  datatype Event =
    | BeginCommit(commit: Commit)
    | RunStep(step: StepKind)
    | StoreNext
    | CrashAndInit
    | ReadMarker
    | CopyByte
    | Recheck
    | Decide(mask: Mask)

  // ----- one event; one that is not enabled changes nothing -----

  function WriterCall(s: System, writer: WriterState, stores: seq<Store>): System {
    s.(writer := writer, pending := stores)
  }

  /** The next single store. The one store of the close step is what publishes. */
  function Stored(s: System): System
    requires s.pending != []
  {
    var closed := if s.writer.phase == Closed
        then {Published(s.writer.bank, s.writer.openSeq + 1, s.writer.commit)} else {};
    s.(page := Apply(s.page, s.pending[0]), pending := s.pending[1..], closed := s.closed + closed)
  }

  function ReaderMoved(s: System, event: Event): Reader {
    match (event, s.reader)
    case (ReadMarker, Resting) => LoadedActive(ActiveOf(s.page))
    case (ReadMarker, LoadedActive(a)) => LoadedFirst(a, SeqOf(s.page, 0))
    case (ReadMarker, LoadedFirst(a, q0)) => Copying(a, q0, SeqOf(s.page, 1), [])
    case (CopyByte, Copying(a, q0, q1, copy)) =>
      if |copy| < PAGE_BYTES then Copying(a, q0, q1, copy + [s.page[|copy|]]) else s.reader
    case (Recheck, Copying(a, q0, q1, copy)) =>
      if |copy| == PAGE_BYTES && ActiveOf(s.page) == a then Checking(a, q0, q1, copy, 0) else s.reader
    case (Recheck, Checking(a, q0, q1, page, 0)) =>
      if SeqOf(s.page, 0) == q0 then Checking(a, q0, q1, page, 1) else s.reader
    case (Recheck, Checking(a, q0, q1, page, 1)) =>
      if SeqOf(s.page, 1) == q1 then Checking(a, q0, q1, page, 2) else s.reader
    case _ => s.reader
  }

  /** What Root decides on: a stable copy only after every recheck and the copy's own markers. */
  function Obtained(r: Reader): Copy {
    if r.Checking? && r.checked == 2 && ActiveOf(r.page) == r.active && SeqOf(r.page, 0) == r.seq0
        && SeqOf(r.page, 1) == r.seq1
    then Stable(r.page) else Unstable
  }

  /** Root may give up at any recheck; before the copy is whole there is nothing to decide. */
  predicate CanDecide(r: Reader) {
    r.Checking? || (r.Copying? && |r.copy| == PAGE_BYTES)
  }

  ghost function Next(s: System, event: Event): System {
    match event
    case BeginCommit(c) =>
      if s.pending == [] then
        var b := BeginOn(s.writer, s.page, c);
        WriterCall(s, b.writer, b.stores)
      else s
    case RunStep(step) =>
      if s.pending == [] && StepAllowed(s.writer, step) then
        WriterCall(s, Advanced(s.writer, step), StoresOf(s.writer, s.page, step))
      else s
    case StoreNext => if s.pending != [] then Stored(s) else s
    case CrashAndInit => WriterCall(s, FRESH_WRITER, [])
    case Decide(mask) =>
      if CanDecide(s.reader) then
        s.(reader := Resting, root := Consumed(s.root, Obtained(s.reader), mask).state)
      else s
    case _ => s.(reader := ReaderMoved(s, event))
  }

  ghost function After(events: seq<Event>): System {
    if events == [] then START else Next(After(events[..|events| - 1]), events[|events| - 1])
  }

  // ----- what the writer keeps -----

  /** A bank is unpublished, being written, or exactly a commit that reached close. */
  ghost predicate BankFine(page: Page, bank: nat, closed: set<Published>)
    requires bank <= 1
  {
    var q := SeqOf(page, bank);
    || q == 0 || q % 2 == 1
    || exists p :: p in closed && p.bank == bank && p.seqWord == q && BankOf(page, bank) == SealedBank(p.commit, q)
  }

  /** A store of the header initialisation: it leaves the selector word alone or zeroes it. */
  ghost predicate InitStore(store: Store) {
    store.at + |store.bytes| <= ACTIVE_AT || store == Store(ACTIVE_AT, Bytes(4, 0))
  }

  ghost predicate AllInit(stores: seq<Store>) {
    forall i :: 0 <= i < |stores| ==> InitStore(stores[i])
  }

  /** Where the stores still pending go, phase by phase. */
  ghost predicate PendingFits(w: WriterState, page: Page, pending: seq<Store>) {
    var at := BankAt(w.bank) + SEQ_AT;
    match w.phase
    case Idle => AllInit(pending)
    case Opened => pending == [] || (pending == [Store(at, Bytes(4, w.openSeq))] && SeqOf(page, w.bank) < w.openSeq)
    case Written => AllInPayload(w.bank, pending) && SeqOf(page, w.bank) == w.openSeq
    case Sealed => AllInPayload(w.bank, pending) && SeqOf(page, w.bank) == w.openSeq
    case Closed =>
      pending == [] || (pending == [Store(at, Bytes(4, w.openSeq + 1))] && SeqOf(page, w.bank) == w.openSeq)
    case Flipped => pending == [] || pending == [Store(ACTIVE_AT, Bytes(4, w.bank))]
  }

  ghost predicate WriterFine(s: System) {
    if s.writer.attached then
      Reached(s.writer, ApplyAll(s.page, s.pending)) && PendingFits(s.writer, s.page, s.pending)
    else s.pending == []
  }

  ghost predicate PageFine(s: System) {
    WriterFine(s) && BankFine(s.page, 0, s.closed) && BankFine(s.page, 1, s.closed)
  }

  /**
   * What one store may do to a bank: raise its sequence, or leave it. A bank whose sequence is even
   * and stays the same is not touched at all.
   */
  ghost predicate BankMoves(page: Page, page': Page, bank: nat)
    requires bank <= 1
  {
    && SeqOf(page, bank) <= SeqOf(page', bank)
    && (SeqOf(page, bank) == SeqOf(page', bank) && SeqOf(page, bank) % 2 == 0 ==>
          BankOf(page', bank) == BankOf(page, bank))
  }

  lemma HeaderStoreKeepsBanks(page: Page, store: Store)
    requires store.at + |store.bytes| <= HEADER_BYTES
    ensures BankOf(Apply(page, store), 0) == BankOf(page, 0) && BankOf(Apply(page, store), 1) == BankOf(page, 1)
  {
    hide Blit, Region, SameOutside;
    BlitRegion(page, store.at, store.bytes);
    KeepRegion(page, Apply(page, store), store.at, |store.bytes|, BankAt(0), BANK_BYTES);
    KeepRegion(page, Apply(page, store), store.at, |store.bytes|, BankAt(1), BANK_BYTES);
  }

  /** A payload store keeps its bank's sequence word and the other bank. */
  lemma PayloadStoreKeepsSeq(page: Page, bank: uint32, store: Store)
    requires bank <= 1 && InPayload(bank, store)
    ensures SeqOf(Apply(page, store), bank) == SeqOf(page, bank)
    ensures BankOf(Apply(page, store), 1 - bank) == BankOf(page, 1 - bank)
  {
    hide Blit, Region, SameOutside, Value;
    var page' := Apply(page, store);
    BlitRegion(page, store.at, store.bytes);
    var base := BankAt(bank);
    KeepRegion(page, page', store.at, |store.bytes|, base + SEQ_AT, 4);
    SeqInPage(page, bank);
    SeqInPage(page', bank);
    Widen(page, page', store.at, |store.bytes|, base, BANK_BYTES);
    BankApart(page, page', bank);
  }

  lemma SeqInPage(page: Page, bank: nat)
    requires bank <= 1
    ensures SeqOf(page, bank) == Value(Region(page, BankAt(bank) + SEQ_AT, 4))
  {
    SubSlice(page, BankAt(bank), BankAt(bank) + BANK_BYTES, SEQ_AT, SEQ_AT + 4);
  }

  /** A sequence-word store sets the bank's sequence and keeps the other bank. */
  lemma SeqStoreSets(page: Page, bank: uint32, v: uint32)
    requires bank <= 1
    ensures var page' := Apply(page, Store(BankAt(bank) + SEQ_AT, Bytes(4, v)));
            SeqOf(page', bank) == v && BankOf(page', 1 - bank) == BankOf(page, 1 - bank)
  {
    hide Blit, Region, SameOutside, Value, Bytes, Load32;
    WordInBank(page, bank, SEQ_AT, v);
    BankApart(page, Blit(page, BankAt(bank) + SEQ_AT, Bytes(4, v)), bank);
  }

  lemma ReachedSeq(w: WriterState, page: Page)
    requires Reached(w, page)
    ensures w.openSeq % 2 == 1
    ensures w.phase == Closed ==> BankOf(page, w.bank) == SealedBank(w.commit, w.openSeq + 1)
  {
  }

  /** The target bank's sequence before and after one store, and what the store leaves alone. */
  lemma StoreOnTarget(s: System)
    requires WriterFine(s) && s.pending != []
    ensures var w, page, page' := s.writer, s.page, Stored(s).page;
            && BankMoves(page, page', w.bank)
            && BankOf(page', 1 - w.bank) == BankOf(page, 1 - w.bank)
            && PendingFits(w, page', s.pending[1..])
            && (BankOf(page', w.bank) == BankOf(page, w.bank) || SeqOf(page', w.bank) % 2 == 1 || w.phase == Closed)
            && (w.phase == Closed ==> s.pending[1..] == [] && SeqOf(page', w.bank) == w.openSeq + 1)
  {
    hide Reached, Blit, Region, Load32, SealedBank, InPayload, ApplyAll, Bytes;
    var w, store := s.writer, s.pending[0];
    ReachedSeq(w, ApplyAll(s.page, s.pending));
    match w.phase
    case Idle => HeaderStoreKeepsBanks(s.page, store);
    case Flipped => HeaderStoreKeepsBanks(s.page, store);
    case Opened => SeqStoreSets(s.page, w.bank, w.openSeq);
    case Written => PayloadStoreKeepsSeq(s.page, w.bank, store);
    case Sealed => PayloadStoreKeepsSeq(s.page, w.bank, store);
    case Closed => SeqStoreSets(s.page, w.bank, w.openSeq + 1);
  }

  lemma KeptFine(page: Page, page': Page, bank: nat, closed: set<Published>, closed': set<Published>)
    requires bank <= 1 && BankFine(page, bank, closed) && closed <= closed'
    requires BankOf(page', bank) == BankOf(page, bank) || SeqOf(page', bank) % 2 == 1
    ensures BankFine(page', bank, closed')
  {
    hide Load32, SealedBank, Region;
  }

  /** One store of a well-behaved writer. */
  lemma StoreEffect(s: System)
    requires PageFine(s) && s.pending != []
    ensures PageFine(Stored(s)) && BankMoves(s.page, Stored(s).page, 0) && BankMoves(s.page, Stored(s).page, 1)
  {
    hide Reached, BankFine, Blit, Region, Load32, SealedBank, Bytes, PendingFits;
    var w, s' := s.writer, Stored(s);
    StoreOnTarget(s);
    KeptFine(s.page, s'.page, 1 - w.bank, s.closed, s'.closed);
    if w.phase == Closed {
      ApplyNothing(s'.page);
      ReachedSeq(w, s'.page);
      PublishedFine(s'.page, Published(w.bank, w.openSeq + 1, w.commit), s'.closed);
    } else {
      KeptFine(s.page, s'.page, w.bank, s.closed, s'.closed);
    }
  }

  lemma PublishedFine(page: Page, p: Published, closed: set<Published>)
    requires p in closed && p.bank <= 1 && SeqOf(page, p.bank) == p.seqWord
    requires BankOf(page, p.bank) == SealedBank(p.commit, p.seqWord)
    ensures BankFine(page, p.bank, closed)
  {
  }

  /** The writer's calls only decide what to store next. */
  lemma CallsStayFine(s: System, event: Event)
    requires PageFine(s) && (event.BeginCommit? || event.RunStep? || event.CrashAndInit?)
    ensures PageFine(Next(s, event)) && Next(s, event).page == s.page && Next(s, event).closed == s.closed
  {
    hide BankFine, Load32, SealedBank, Region, BeginOn, HeaderStores, StoresOf;
    match event
    case BeginCommit(c) =>
      if s.pending == [] {
        ApplyNothing(s.page);
        BegunFine(s.writer, s.page, c);
      }
    case RunStep(step) =>
      if s.pending == [] && StepAllowed(s.writer, step) {
        ApplyNothing(s.page);
        StepReaches(s.writer, s.page, step);
        StepFits(s.writer, s.page, step);
      }
    case CrashAndInit =>
  }

  lemma BegunFine(w: WriterState, page: Page, c: Commit)
    requires w.attached ==> Reached(w, page)
    ensures var b := BeginOn(w, page, c);
            if b.result == WriteOk then
              Reached(b.writer, ApplyAll(page, b.stores)) && b.writer.phase == Idle && AllInit(b.stores)
            else b.writer == w && b.stores == []
  {
    hide Reached, ApplyAll, HeaderStores, Load32, Region, HeaderOk;
    if BeginOn(w, page, c).result == WriteOk {
      BeginReaches(w, page, c);
      HeaderStoresFit();
    }
  }

  lemma HeaderStoresFit()
    ensures AllInit(HeaderStores())
  {
    hide Bytes;
    ByteStoresFit(MAGIC_AT, Bytes(8, SPEC_MAGIC));
    ByteStoresFit(VERSION_AT, Bytes(4, ABI_VERSION));
  }

  lemma {:induction false} ByteStoresFit(at: nat, s: seq<byte>)
    requires at + |s| <= ACTIVE_AT
    ensures AllInit(ByteStores(at, s))
    decreases |s|
  {
    if s != [] {
      ByteStoresFit(at + 1, s[1..]);
    }
  }

  lemma StepFits(w: WriterState, page: Page, step: StepKind)
    requires Reached(w, page) && PendingFits(w, page, []) && w.phase == TransitionOf(step).from
    ensures PendingFits(Advanced(w, step), page, StoresOf(w, page, step))
  {
    hide BankBytes, Bytes, PayloadStores, ByteStores, InPayload, HeaderOk, Region, Seal, Value;
    match step
    case OpenStep =>
    case WriteStep =>
      PayloadStaysIn(w.bank, w.commit);
    case SealStep =>
      ByteStoresStayIn(w.bank, BankAt(w.bank) + CRC_AT, Bytes(4, Seal(BankOf(page, w.bank))));
    case CloseStep =>
      SealedContent(w.commit, w.openSeq);
    case FlipStep =>
  }

  // ----- what the reader's copy keeps -----

  /**
   * The copied bytes of a bank are still the page's, as long as its sequence word is still the even
   * value loaded before the copy began.
   */
  ghost predicate Tracks(page: Page, bank: nat, q: uint32, copy: seq<byte>)
    requires bank <= 1
  {
    && |copy| <= PAGE_BYTES && q <= SeqOf(page, bank)
    && (q == SeqOf(page, bank) && q % 2 == 0 ==>
          forall k :: BankAt(bank) <= k < BankAt(bank) + BANK_BYTES && k < |copy| ==> copy[k] == page[k])
  }

  /** A copied bank whose marker was rechecked: written meanwhile, or a bank of some fine page. */
  ghost predicate CopyFine(copy: Page, bank: nat, q: uint32, closed: set<Published>)
    requires bank <= 1
  {
    q % 2 == 1 || (SeqOf(copy, bank) == q ==> BankFine(copy, bank, closed))
  }

  ghost predicate ReaderFine(s: System) {
    match s.reader
    case Resting => true
    case LoadedActive(_) => true
    case LoadedFirst(_, q0) => q0 <= SeqOf(s.page, 0)
    case Copying(_, q0, q1, copy) => Tracks(s.page, 0, q0, copy) && Tracks(s.page, 1, q1, copy)
    case Checking(_, q0, q1, copy, n) =>
      && (if n == 0 then Tracks(s.page, 0, q0, copy) else CopyFine(copy, 0, q0, s.closed))
      && (if n <= 1 then Tracks(s.page, 1, q1, copy) else CopyFine(copy, 1, q1, s.closed))
  }

  lemma TracksAfterStore(page: Page, page': Page, bank: nat, q: uint32, copy: seq<byte>)
    requires bank <= 1 && Tracks(page, bank, q, copy) && BankMoves(page, page', bank)
    ensures Tracks(page', bank, q, copy)
  {
    hide Load32;
    if q == SeqOf(page', bank) && q % 2 == 0 {
      forall k | BankAt(bank) <= k < BankAt(bank) + BANK_BYTES && k < |copy|
        ensures copy[k] == page'[k]
      {
        assert page'[k] == BankOf(page', bank)[k - BankAt(bank)] == BankOf(page, bank)[k - BankAt(bank)] == page[k];
      }
    }
  }

  lemma FineGrows(page: Page, bank: nat, closed: set<Published>, closed': set<Published>)
    requires bank <= 1 && closed <= closed' && BankFine(page, bank, closed)
    ensures BankFine(page, bank, closed')
  {
    hide Load32, SealedBank, Region;
  }

  lemma CopyFineGrows(copy: Page, bank: nat, q: uint32, closed: set<Published>, closed': set<Published>)
    requires bank <= 1 && closed <= closed' && CopyFine(copy, bank, q, closed)
    ensures CopyFine(copy, bank, q, closed')
  {
    hide BankFine, Load32, Region;
    if BankFine(copy, bank, closed) {
      FineGrows(copy, bank, closed, closed');
    }
  }

  /** The reader's facts survive any store of the writer. */
  lemma ReaderKeepsUp(s: System)
    requires PageFine(s) && ReaderFine(s) && s.pending != []
    ensures ReaderFine(Stored(s))
  {
    hide BankFine, PendingFits, Reached, Load32, Region, CopyFine, Tracks, WriterFine;
    var s' := Stored(s);
    StoreEffect(s);
    match s.reader
    case Resting =>
    case LoadedActive(_) =>
    case LoadedFirst(_, q0) =>
    case Copying(_, q0, q1, copy) =>
      TracksAfterStore(s.page, s'.page, 0, q0, copy);
      TracksAfterStore(s.page, s'.page, 1, q1, copy);
    case Checking(_, q0, q1, copy, n) =>
      if n == 0 {
        TracksAfterStore(s.page, s'.page, 0, q0, copy);
      } else {
        CopyFineGrows(copy, 0, q0, s.closed, s'.closed);
      }
      if n <= 1 {
        TracksAfterStore(s.page, s'.page, 1, q1, copy);
      } else {
        CopyFineGrows(copy, 1, q1, s.closed, s'.closed);
      }
  }

  /** A whole copy that still tracks a bank at recheck holds that bank, unless it was being written. */
  lemma RecheckSettles(page: Page, bank: nat, q: uint32, copy: Page, closed: set<Published>)
    requires bank <= 1 && Tracks(page, bank, q, copy) && SeqOf(page, bank) == q && BankFine(page, bank, closed)
    ensures q % 2 == 0 ==> BankOf(copy, bank) == BankOf(page, bank)
    ensures CopyFine(copy, bank, q, closed)
  {
    hide Load32;
    if q % 2 == 0 {
      var a, b := BankOf(copy, bank), BankOf(page, bank);
      forall k | 0 <= k < BANK_BYTES
        ensures a[k] == b[k]
      {
        assert a[k] == copy[BankAt(bank) + k] && b[k] == page[BankAt(bank) + k];
      }
      assert a == b;
    }
  }

  lemma TracksMore(page: Page, bank: nat, q: uint32, copy: seq<byte>)
    requires bank <= 1 && Tracks(page, bank, q, copy) && |copy| < PAGE_BYTES
    ensures Tracks(page, bank, q, copy + [page[|copy|]])
  {
    hide Load32, Region;
  }

  /** The reader's own moves keep its facts. */
  lemma ReaderMovesFine(s: System, event: Event)
    requires PageFine(s) && ReaderFine(s) && (event.ReadMarker? || event.CopyByte? || event.Recheck?)
    ensures ReaderFine(Next(s, event))
  {
    hide BankFine, PendingFits, Reached, Load32, Region, CopyFine, WriterFine;
    match (event, s.reader)
    case (CopyByte, Copying(a, q0, q1, copy)) =>
      if |copy| < PAGE_BYTES {
        TracksMore(s.page, 0, q0, copy);
        TracksMore(s.page, 1, q1, copy);
      }
    case (Recheck, Checking(a, q0, q1, copy, n)) =>
      if n == 0 && SeqOf(s.page, 0) == q0 {
        RecheckSettles(s.page, 0, q0, copy, s.closed);
      }
      if n == 1 && SeqOf(s.page, 1) == q1 {
        RecheckSettles(s.page, 1, q1, copy, s.closed);
      }
    case _ =>
  }

  // ----- what Root retains -----

  /** The compiled policy, or all of one commit that reached close. */
  ghost predicate RootFine(s: System) {
    || s.root.retained == COMPILED
    || exists p :: p in s.closed && s.root.retained.Content() == p.commit
  }

  /** A bank Root would accept, in a fine copy, is a commit that reached close. */
  lemma AcceptedIsPublished(copy: Page, bank: nat, mask: Mask, closed: set<Published>)
    requires bank <= 1 && BankFine(copy, bank, closed) && Acceptable(BankOf(copy, bank), mask)
    ensures exists p :: p in closed && ContentOf(BankOf(copy, bank)) == p.commit
  {
    hide Load32, SealedBank, Region, ContentOf, Declared;
    var q := SeqOf(copy, bank);
    var p :| p in closed && p.bank == bank && p.seqWord == q && BankOf(copy, bank) == SealedBank(p.commit, q);
    SealedContent(p.commit, q);
  }

  lemma DecideFine(s: System, mask: Mask)
    requires ReaderFine(s) && RootFine(s) && CanDecide(s.reader)
    ensures RootFine(Next(s, Decide(mask)))
    ensures var before, after := s.root.retained, Next(s, Decide(mask)).root.retained;
            after == before || after.generation > before.generation
  {
    hide BankFine, Consumed, Acceptable, Load32, Region, ContentOf;
    var copy := Obtained(s.reader);
    AppliesOneWholeBank(s.root, copy, mask);
    if Consumed(s.root, copy, mask).result.outcome == Applied {
      var bank: nat :| bank <= 1 && Acceptable(BankOf(copy.page, bank), mask) &&
                       Consumed(s.root, copy, mask).state.retained.Content() == ContentOf(BankOf(copy.page, bank));
      OddIsFine(copy.page, bank, s.closed);
      AcceptedIsPublished(copy.page, bank, mask, s.closed);
    }
  }

  lemma OddIsFine(copy: Page, bank: nat, closed: set<Published>)
    requires bank <= 1
    ensures SeqOf(copy, bank) % 2 == 1 ==> BankFine(copy, bank, closed)
  {
    hide Load32, SealedBank, Region;
  }

  // ----- whole runs -----

  ghost predicate Fine(s: System) {
    PageFine(s) && ReaderFine(s) && RootFine(s)
  }

  lemma StartIsFine()
    ensures Fine(START)
  {
    hide Value, Region;
    ZeroSeq(0);
    ZeroSeq(1);
  }

  lemma ZeroSeq(bank: nat)
    requires bank <= 1
    ensures SeqOf(Zeros(PAGE_BYTES), bank) == 0
  {
    var page := Zeros(PAGE_BYTES);
    var word := Region(page, BankAt(bank) + SEQ_AT, 4);
    forall k | 0 <= k < 4
      ensures word[k] == 0
    {
      assert word[k] == page[BankAt(bank) + SEQ_AT + k];
    }
    ValueZero(word);
    SeqInPage(page, bank);
  }

  lemma NextIsFine(s: System, event: Event)
    requires Fine(s)
    ensures Fine(Next(s, event))
    ensures s.closed <= Next(s, event).closed
    ensures var before, after := s.root.retained, Next(s, event).root.retained;
            after == before || after.generation > before.generation
  {
    hide BankFine, PendingFits, Reached, Load32, Region, CopyFine, Tracks, BeginOn, StoresOf, Consumed, ApplyAll;
    match event
    case BeginCommit(c) => CallsStayFine(s, event);
    case RunStep(step) => CallsStayFine(s, event);
    case CrashAndInit => CallsStayFine(s, event);
    case StoreNext =>
      if s.pending != [] {
        StoreEffect(s);
        ReaderKeepsUp(s);
      }
    case ReadMarker => ReaderMovesFine(s, event);
    case CopyByte => ReaderMovesFine(s, event);
    case Recheck => ReaderMovesFine(s, event);
    case Decide(mask) =>
      if CanDecide(s.reader) {
        DecideFine(s, mask);
      }
  }

  lemma {:induction false} RunsAreFine(events: seq<Event>)
    ensures Fine(After(events))
  {
    hide Fine, Next;
    if events == [] {
      StartIsFine();
    } else {
      RunsAreFine(events[..|events| - 1]);
      NextIsFine(After(events[..|events| - 1]), events[|events| - 1]);
    }
  }

  /** Everything closed, and everything being written, comes from a commit in this set. */
  ghost predicate From(s: System, begun: set<Commit>) {
    && (forall p :: p in s.closed ==> p.commit in begun)
    && (s.writer.attached ==> s.writer.commit in begun)
    && (s.writer.phase != Idle ==> s.writer.attached)
  }

  lemma NextIsFrom(s: System, event: Event, begun: set<Commit>)
    requires From(s, begun) && (event.BeginCommit? ==> event.commit in begun)
    ensures From(Next(s, event), begun)
  {
    hide StoresOf, Consumed, Region, Load32, HeaderStores, HeaderOk, Apply, ReaderMoved;
  }

  function BegunIn(events: seq<Event>): set<Commit> {
    set e | e in events && e.BeginCommit? :: e.commit
  }

  /** Every commit that reached close had begun, and so had the one being written. */
  lemma {:induction false} ClosedHadBegun(events: seq<Event>)
    ensures From(After(events), BegunIn(events))
  {
    hide Next;
    if events != [] {
      var n := |events| - 1;
      ClosedHadBegun(events[..n]);
      assert forall e :: e in events[..n] ==> e in events;
      assert events[n] in events;
      assert BegunIn(events[..n]) <= BegunIn(events);
      NextIsFrom(After(events[..n]), events[n], BegunIn(events));
    }
  }

  /**
   * Spec integrity. Over every interleaving of single stores, writer crashes with re-init and the
   * byte-by-byte copy, Root holds the compiled policy or exactly the generation, budgets and
   * desired states of one commit that was begun and reached close.
   */
  lemma SpecIntegrity(events: seq<Event>)
    ensures var s := After(events);
            || s.root.retained == COMPILED
            || exists p :: p in s.closed && s.root.retained.Content() == p.commit && BeginCommit(p.commit) in events
  {
    hide After, PageFine, ReaderFine;
    RunsAreFine(events);
    ClosedHadBegun(events);
  }

  /** Along a run the retained generation never decreases, and stays only if nothing was applied. */
  lemma {:induction false} GenerationNeverDecreases(events: seq<Event>, i: nat)
    requires i <= |events|
    ensures var before, after := After(events[..i]).root.retained, After(events).root.retained;
            after == before || after.generation > before.generation
    decreases |events|
  {
    hide Fine, Next;
    if i == |events| {
      assert events[..i] == events;
    } else {
      var n := |events| - 1;
      GenerationNeverDecreases(events[..n], i);
      assert events[..n][..i] == events[..i];
      RunsAreFine(events[..n]);
      NextIsFine(After(events[..n]), events[n]);
    }
  }

  // ----- a crash while the header is first written -----

  /** A header that is neither unwritten nor valid, with nobody storing. */
  ghost predicate Wedged(s: System) {
    s.pending == [] && !s.writer.attached && !IsFresh(s.page) && !HeaderValid(s.page)
  }

  /** No later call of any writer stores to such a page. */
  lemma WedgedForGood(s: System, event: Event)
    requires Wedged(s)
    ensures Wedged(Next(s, event)) && Next(s, event).page == s.page
  {
    hide HeaderOk, Region, AllZero, Consumed;
  }

  /** A crash after the first byte of the very first header store leaves the page so. */
  lemma CrashInHeaderWedges(c: Commit)
    ensures Wedged(After([BeginCommit(c), StoreNext, CrashAndInit]))
  {
    hide Value;
    var events := [BeginCommit(c), StoreNext, CrashAndInit];
    assert events[..2][..1] == [BeginCommit(c)] && events[..2] == [BeginCommit(c), StoreNext];
    assert [BeginCommit(c)][..0] == [];
    var begun := Next(START, BeginCommit(c));
    FreshStart(c);
    assert After([BeginCommit(c)]) == begun;
    var stored := Next(begun, StoreNext);
    assert After(events[..2]) == stored;
    assert After(events) == Next(stored, CrashAndInit);
    FirstByteStored(Zeros(PAGE_BYTES));
  }

  lemma FreshStart(c: Commit)
    ensures var b := BeginOn(FRESH_WRITER, Zeros(PAGE_BYTES), c);
            b.result == WriteOk && b.stores != [] && b.stores[0] == Store(0, [SPEC_MAGIC % 0x100])
                && b.writer.phase == Idle
  {
    hide Value;
    assert forall k :: 0 <= k < HEADER_BYTES ==> Header(Zeros(PAGE_BYTES))[k] == 0;
    ZeroSeq(1);
  }

  lemma FirstByteStored(page: Page)
    requires AllZero(page)
    ensures var after := Apply(page, Store(0, [SPEC_MAGIC % 0x100]));
            !IsFresh(after) && !HeaderValid(after)
  {
    hide Value;
    var h := Header(Apply(page, Store(0, [SPEC_MAGIC % 0x100])));
    assert h[0] == SPEC_MAGIC % 0x100 != 0;
    ValueZero(h[VERSION_AT..VERSION_AT + 4]);
    assert forall k :: 1 <= k < HEADER_BYTES ==> h[k] == 0;
    assert AllZero(h[VERSION_AT..VERSION_AT + 4]);
  }
}
