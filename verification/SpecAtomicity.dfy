/**
 * The spec page when Root's consumes are serialized with the writer's stores, as on one core:
 * what a reader sees is the last flipped commit (src/lib/abi/spec_writer.c, src/pd/root/spec.c).
 */
module SpecAtomicity {
  import opened Words
  import opened Regions
  import opened SpecPage
  import opened SpecWriter
  import opened SpecCommit
  import opened SpecConsumer
  import opened SpecProtocol

  /** The system, with the last commit to reach close and the last one to be flipped to. */
  datatype Serial = Serial(system: System, latest: Option<Published>, flipped: Option<Published>)

  const SERIAL_START := Serial(START, None, None)

  datatype WriterMove = Begins(commit: Commit) | Runs(step: StepKind) | Stores | Crashes
  {
    function Event(): Event {
      match this
      case Begins(c) => BeginCommit(c)
      case Runs(step) => RunStep(step)
      case Stores => StoreNext
      case Crashes => CrashAndInit
    }
  }

  /** One event of the writer, or one whole consume between two of its stores. */
  datatype Turn = WriterTurn(move: WriterMove) | ConsumeTurn

  function InHand(w: WriterState): Published {
    Published(w.bank, w.openSeq + 1, w.commit)
  }

  ghost function Consume(s: Serial, mask: Mask): Serial {
    s.(system := s.system.(root := Consumed(s.system.root, Stable(s.system.page), mask).state))
  }

  ghost function Turned(s: Serial, turn: Turn, mask: Mask): Serial {
    match turn
    case ConsumeTurn => Consume(s, mask)
    case WriterTurn(move) =>
      var w, stores := s.system.writer, move.Stores? && s.system.pending != [];
      Serial(Next(s.system, move.Event()),
             if stores && w.phase == Closed then Some(InHand(w)) else s.latest,
             if stores && w.phase == Flipped then Some(InHand(w)) else s.flipped)
  }

  /**
   * The policy on commits: generations above zero and above every commit already closed, and
   * nothing asked of an absent child.
   */
  ghost predicate Allowed(s: Serial, turn: Turn, mask: Mask) {
    turn.WriterTurn? && turn.move.Begins? ==> Fresh(turn.move.commit, s.system.closed, mask)
  }

  ghost predicate Fresh(c: Commit, closed: set<Published>, mask: Mask) {
    && c.generation > 0 && Declared(c, mask)
    && forall p :: p in closed ==> p.commit.generation < c.generation
  }

  ghost function AfterTurns(turns: seq<Turn>, mask: Mask): Serial {
    if turns == [] then SERIAL_START
    else Turned(AfterTurns(turns[..|turns| - 1], mask), turns[|turns| - 1], mask)
  }

  ghost predicate RunAllowed(turns: seq<Turn>, mask: Mask) {
    forall i :: 0 <= i < |turns| ==> Allowed(AfterTurns(turns[..i], mask), turns[i], mask)
  }

  // ----- the invariant -----

  ghost predicate Holds(page: Page, p: Published) {
    && p.bank <= 1 && p.seqWord % 2 == 0 && p.seqWord != 0
    && SeqOf(page, p.bank) == p.seqWord && BankOf(page, p.bank) == SealedBank(p.commit, p.seqWord)
  }

  /** The commit in the writer's hands has its close store behind it. */
  predicate PastClose(s: System) {
    s.writer.phase == Flipped || (s.writer.phase == Closed && s.pending == [])
  }

  /** Closed commits are ordered by generation, latest last, and the one being written is newer. */
  ghost predicate Ordered(s: Serial, mask: Mask) {
    && (forall p :: p in s.system.closed ==>
          p.commit.generation > 0 && Declared(p.commit, mask) && p.seqWord != 0 && p.seqWord % 2 == 0)
    && (s.latest.None? ==> s.system.closed == {})
    && (s.latest.Some? ==>
          && s.latest.value in s.system.closed
          && forall p :: p in s.system.closed ==>
               p == s.latest.value || p.commit.generation < s.latest.value.commit.generation)
    && (s.system.writer.attached ==>
          if PastClose(s.system) then s.latest == Some(InHand(s.system.writer))
          else Fresh(s.system.writer.commit, s.system.closed, mask))
  }

  /** The writer's bank is never the active one until its own flip is stored. */
  ghost predicate Targets(s: System) {
    var w := s.writer;
    w.attached ==>
      && ActiveOf(s.page) == (if w.phase == Flipped && s.pending == [] then w.bank else 1 - w.bank)
      && (w.phase != Idle ==> HeaderValid(s.page))
      && (w.phase == Idle && s.pending != [] ==> SeqOf(s.page, 1) == 0)
  }

  /** What the page shows: the last flip, or before any flip at most the latest close in bank 1. */
  ghost predicate Shows(s: Serial) {
    var page := s.system.page;
    match s.flipped
    case Some(f) =>
      && f in s.system.closed && Holds(page, f) && HeaderValid(page) && ActiveOf(page) == f.bank
      && (s.system.writer.phase == Idle ==> s.system.pending == [])
    case None =>
      && ActiveOf(page) == 0 && SeqOf(page, 0) == 0
      && (SeqOf(page, 1) != 0 ==> HeaderValid(page))
      && (SeqOf(page, 1) != 0 && SeqOf(page, 1) % 2 == 0 ==>
            s.latest.Some? && s.latest.value.bank == 1 && Holds(page, s.latest.value))
  }

  /** Root is never ahead of the last flip. */
  ghost predicate Behind(s: Serial) {
    s.flipped.Some? ==>
      var f, r := s.flipped.value.commit, s.system.root.retained;
      r.generation < f.generation || r.Content() == f
  }

  ghost predicate Sound(s: Serial, mask: Mask) {
    && PageFine(s.system) && RootFine(s.system)
    && Ordered(s, mask) && Targets(s.system) && Shows(s) && Behind(s)
  }

  // ----- the writer's calls -----

  lemma CallsStaySound(s: Serial, move: WriterMove, mask: Mask)
    requires Sound(s, mask) && !move.Stores? && Allowed(s, WriterTurn(move), mask)
    ensures Sound(Turned(s, WriterTurn(move), mask), mask)
  {
    hide Reached, PendingFits, BankFine, Load32, Region, HeaderOk, BeginOn, StoresOf, SealedBank, Declared;
    CallsStayFine(s.system, move.Event());
    match move
    case Begins(c) =>
      if s.system.pending == [] {
        BeginTargets(s.system.writer, s.system.page, c);
      }
    case Runs(step) =>
      if s.system.pending == [] && StepAllowed(s.system.writer, step) {
        ApplyNothing(s.system.page);
        ReachedHeader(s.system.writer, s.system.page);
        CloseIsAStore(s.system.writer, s.system.page, step);
      }
    case Crashes =>
  }

  lemma BeginTargets(w: WriterState, page: Page, c: Commit)
    ensures var b := BeginOn(w, page, c);
            if b.result == WriteOk then
              && b.writer.attached && b.writer.phase == Idle && b.writer.commit == c
              && ActiveOf(page) == 1 - b.writer.bank
              && (b.stores != [] ==> !HeaderValid(page))
            else b.writer == w && b.stores == []
  {
    hide HeaderStores, Value, Region;
    if IsFresh(page) {
      FreshIsInvalid(page);
      FreshActive(page);
    }
  }

  lemma FreshActive(page: Page)
    requires IsFresh(page)
    ensures ActiveOf(page) == 0
  {
    ValueZero(Header(page)[ACTIVE_AT..ACTIVE_AT + 4]);
  }

  lemma ReachedHeader(w: WriterState, page: Page)
    requires Reached(w, page)
    ensures HeaderValid(page) && ActiveOf(page) == (if w.phase.Flipped? then w.bank else 1 - w.bank)
  {
  }

  lemma CloseIsAStore(w: WriterState, page: Page, step: StepKind)
    ensures step.CloseStep? || step.FlipStep? ==> StoresOf(w, page, step) != []
  {
  }

  // ----- one store -----

  /** A store into the target bank keeps the header. */
  lemma BankStoreKeepsHeader(s: System)
    requires WriterFine(s) && s.pending != [] && s.writer.phase != Idle && s.writer.phase != Flipped
    ensures Header(Stored(s).page) == Header(s.page)
  {
    hide Reached, Blit, Region, SameOutside, SealedBank;
    var store := s.pending[0];
    assert store.at >= HEADER_BYTES;
    BlitRegion(s.page, store.at, store.bytes);
    KeepRegion(s.page, Stored(s).page, store.at, |store.bytes|, 0, HEADER_BYTES);
  }

  lemma InitKeepsSelector(page: Page, store: Store)
    requires InitStore(store) && ActiveOf(page) == 0
    ensures ActiveOf(Apply(page, store)) == 0
  {
    hide Blit, Region, SameOutside, Value, Bytes;
    if store.at + |store.bytes| <= ACTIVE_AT {
      BlitWithin(page, 0, HEADER_BYTES, store.at, store.bytes);
      BlitRegion(Header(page), store.at, store.bytes);
      KeepRegion(Header(page), Header(Apply(page, store)), store.at, |store.bytes|, ACTIVE_AT, 4);
      LoadIsRegion(Header(page), ACTIVE_AT);
      LoadIsRegion(Header(Apply(page, store)), ACTIVE_AT);
    } else {
      BlitWithin(page, 0, HEADER_BYTES, ACTIVE_AT, Bytes(4, 0));
      Load32Stored(Header(page), ACTIVE_AT, 0);
    }
  }

  lemma LoadIsRegion(m: seq<byte>, at: nat)
    requires at + 4 <= |m|
    ensures Load32(m, at) == Value(Region(m, at, 4))
  {
  }

  /** The facts about one store that the invariant needs, phase by phase. */
  lemma StoreFacts(s: System)
    requires PageFine(s) && s.pending != []
    ensures var w, page, page' := s.writer, s.page, Stored(s).page;
            && BankOf(page', 1 - w.bank) == BankOf(page, 1 - w.bank)
            && (w.phase == Idle || w.phase == Flipped ==> BankOf(page', w.bank) == BankOf(page, w.bank))
            && (w.phase == Idle && ActiveOf(page) == 0 ==> ActiveOf(page') == 0)
            && (w.phase != Idle && w.phase != Flipped ==> Header(page') == Header(page))
            && (w.phase == Opened || w.phase == Written || w.phase == Sealed ==> SeqOf(page', w.bank) % 2 == 1)
            && (w.phase == Closed || w.phase == Flipped ==> Stored(s).pending == [] && Holds(page', InHand(w)))
            && (w.phase == Flipped && HeaderValid(page) ==> HeaderValid(page') && ActiveOf(page') == w.bank)
  {
    hide Reached, Blit, Region, Load32, SealedBank, Bytes, InPayload, ApplyAll, HeaderOk, BankFine;
    var w, store, page' := s.writer, s.pending[0], Stored(s).page;
    StoreOnTarget(s);
    ReachedSeq(w, ApplyAll(s.page, s.pending));
    match w.phase
    case Idle =>
      HeaderStoreKeepsBanks(s.page, store);
      if ActiveOf(s.page) == 0 {
        InitKeepsSelector(s.page, store);
      }
    case Opened =>
      BankStoreKeepsHeader(s);
      SeqStoreSets(s.page, w.bank, w.openSeq);
    case Written => BankStoreKeepsHeader(s);
    case Sealed => BankStoreKeepsHeader(s);
    case Closed =>
      BankStoreKeepsHeader(s);
      LastStoreHolds(s);
    case Flipped =>
      HeaderStoreKeepsBanks(s.page, store);
      LastStoreHolds(s);
      if HeaderValid(s.page) {
        FlipMakes(s.page, w.bank);
      }
  }

  lemma LastStoreHolds(s: System)
    requires WriterFine(s) && s.pending != [] && s.pending[1..] == []
    requires s.writer.phase == Closed || s.writer.phase == Flipped
    ensures Holds(Stored(s).page, InHand(s.writer))
  {
    hide Blit, Region, Load32, SealedBank, Bytes, HeaderOk;
    ApplyNothing(Stored(s).page);
    assert Reached(s.writer, Stored(s).page);
    SealedContent(s.writer.commit, s.writer.openSeq + 1);
  }

  lemma StoresStaySound(s: Serial, mask: Mask)
    requires Sound(s, mask)
    ensures Sound(Turned(s, WriterTurn(Stores), mask), mask)
  {
    hide PageFine, Stored, Ordered, Targets, Shows, Behind, RootFine, BeginOn, StoresOf, Consumed, ReaderMoved;
    if s.system.pending != [] {
      StoreEffect(s.system);
      StoredOrdered(s, mask);
      StoredShows(s, mask);
    }
  }

  lemma StoredOrdered(s: Serial, mask: Mask)
    requires Sound(s, mask) && s.system.pending != []
    ensures var s' := Turned(s, WriterTurn(Stores), mask);
            Ordered(s', mask) && RootFine(s'.system) && Behind(s')
  {
    hide Reached, BankFine, Declared, Apply, Region, Load32, SealedBank, HeaderOk;
    StoreFacts(s.system);
  }

  lemma StoredShows(s: Serial, mask: Mask)
    requires Sound(s, mask) && s.system.pending != []
    ensures var s' := Turned(s, WriterTurn(Stores), mask);
            Targets(s'.system) && Shows(s')
  {
    hide Reached, BankFine, Declared, Apply, Region, Load32, SealedBank, HeaderOk, PendingFits;
    StoreFacts(s.system);
  }

  // ----- one consume -----

  /** A held commit that Root may apply reads back as exactly that commit. */
  lemma HeldIsUsable(page: Page, p: Published, mask: Mask, retained: Retained)
    requires Holds(page, p) && p.commit.generation > 0 && Declared(p.commit, mask)
    requires retained.generation < p.commit.generation || retained.Content() == p.commit
    ensures var e := Evaluated(BankOf(page, p.bank), p.bank, mask, retained);
            e.Usable? && e.policy.Content() == p.commit && e.newer == (retained.generation < p.commit.generation)
  {
    hide SealedBank, ContentOf, Region, Declared, Load32;
    SealedContent(p.commit, p.seqWord);
    SealedBankChecks(p.commit, p.seqWord);
  }

  /** Once a commit has flipped, a consume leaves Root with exactly the last flipped commit. */
  lemma ConsumeAfterFlip(s: Serial, mask: Mask)
    requires Sound(s, mask) && s.flipped.Some?
    ensures Consume(s, mask).system.root.retained.Content() == s.flipped.value.commit
  {
    hide Evaluated, Region, Load32, HeaderOk, Holds, PageFine, Declared;
    var f, page := s.flipped.value, s.system.page;
    assert f.bank <= 1 by { ActiveBounded(page); }
    if IsFresh(page) {
      FreshIsInvalid(page);
    }
    HeldIsUsable(page, f, mask, s.system.root.retained);
  }

  /**
   * Before any flip, a consume shows Root the latest closed commit while its bank stands sealed, so
   * the first commit is visible at its close; otherwise it changes nothing.
   */
  lemma ConsumeBeforeFlip(s: Serial, mask: Mask)
    requires Sound(s, mask) && s.flipped.None?
    ensures var before, after := s.system.root.retained, Consume(s, mask).system.root.retained;
            if SeqOf(s.system.page, 1) != 0 && SeqOf(s.system.page, 1) % 2 == 0 then
              s.latest.Some? && after.Content() == s.latest.value.commit
            else after == before
  {
    hide Evaluated, Region, Load32, HeaderOk, Holds, PageFine, Declared;
    var page, q := s.system.page, SeqOf(s.system.page, 1);
    if IsFresh(page) {
      FreshIsInvalid(page);
    } else if HeaderValid(page) {
      EmptyBank(page, 0, mask, s.system.root.retained);
      if q == 0 {
        EmptyBank(page, 1, mask, s.system.root.retained);
      } else if q % 2 == 1 {
        TornBank(page, 1, mask, s.system.root.retained);
      } else {
        HeldIsUsable(page, s.latest.value, mask, s.system.root.retained);
      }
    }
  }

  lemma EmptyBank(page: Page, bank: uint32, mask: Mask, retained: Retained)
    requires bank <= 1 && SeqOf(page, bank) == 0
    ensures Evaluated(BankOf(page, bank), bank, mask, retained) == Nothing
  {
  }

  lemma TornBank(page: Page, bank: uint32, mask: Mask, retained: Retained)
    requires bank <= 1 && SeqOf(page, bank) % 2 == 1
    ensures Evaluated(BankOf(page, bank), bank, mask, retained) == Refused(Torn, 0)
  {
    hide ContentOf, Declared, Region;
  }

  lemma ConsumeStaysSound(s: Serial, mask: Mask)
    requires Sound(s, mask)
    ensures Sound(Consume(s, mask), mask)
  {
    hide Consumed, BankFine, Reached, PendingFits, Holds, Region, Load32, HeaderOk, ApplyAll, Declared;
    if s.flipped.Some? {
      ConsumeAfterFlip(s, mask);
    } else {
      ConsumeBeforeFlip(s, mask);
    }
  }

  // ----- whole runs -----

  lemma {:induction false} RunsAreSound(turns: seq<Turn>, mask: Mask)
    requires RunAllowed(turns, mask)
    ensures Sound(AfterTurns(turns, mask), mask)
  {
    hide Sound, Turned, Allowed;
    if turns == [] {
      SerialStart(mask);
    } else {
      var n := |turns| - 1;
      assert forall i :: 0 <= i < n ==> turns[..n][..i] == turns[..i];
      RunsAreSound(turns[..n], mask);
      TurnStaysSound(AfterTurns(turns[..n], mask), turns[n], mask);
    }
  }

  lemma TurnStaysSound(s: Serial, turn: Turn, mask: Mask)
    requires Sound(s, mask) && Allowed(s, turn, mask)
    ensures Sound(Turned(s, turn, mask), mask)
  {
    hide Sound, Next;
    match turn
    case ConsumeTurn => ConsumeStaysSound(s, mask);
    case WriterTurn(move) =>
      if move.Stores? {
        StoresStaySound(s, mask);
      } else {
        CallsStaySound(s, move, mask);
      }
  }

  lemma SerialStart(mask: Mask)
    ensures Sound(SERIAL_START, mask)
  {
    hide Fine, Value, Region, HeaderOk;
    StartIsFine();
    ZeroSeq(0);
    ZeroSeq(1);
    ZeroActive();
    assert PageFine(START) && RootFine(START) by {
      FineParts(START);
    }
  }

  lemma FineParts(s: System)
    requires Fine(s)
    ensures PageFine(s) && RootFine(s)
  {
  }

  lemma ZeroActive()
    ensures ActiveOf(Zeros(PAGE_BYTES)) == 0
  {
    assert forall k :: 0 <= k < HEADER_BYTES ==> Header(Zeros(PAGE_BYTES))[k] == 0;
    FreshActive(Zeros(PAGE_BYTES));
  }

  /**
   * Spec atomicity. In every run of single stores, crashes with re-init and whole consumes: after a
   * consume Root holds exactly the last flipped commit, once there is one; before that it holds the
   * latest closed commit as soon as its bank is sealed.
   */
  lemma SpecAtomicity(turns: seq<Turn>, mask: Mask)
    requires RunAllowed(turns, mask)
    ensures var s := AfterTurns(turns, mask);
            var after := Consume(s, mask).system.root.retained;
            && (s.flipped.Some? ==> after.Content() == s.flipped.value.commit)
            && (s.flipped.None? && s.latest.Some? && SeqOf(s.system.page, 1) == s.latest.value.seqWord ==>
                  after.Content() == s.latest.value.commit)
  {
    hide Consume, Consumed, Region, Load32, AfterTurns, RunAllowed;
    RunsAreSound(turns, mask);
    var s := AfterTurns(turns, mask);
    if s.flipped.Some? {
      ConsumeAfterFlip(s, mask);
    } else {
      ConsumeBeforeFlip(s, mask);
      if s.latest.Some? {
        LatestIsPublished(s, mask);
      }
    }
  }

  /** Before any flip the latest commit was closed in bank 1, under an even sequence. */
  lemma LatestIsPublished(s: Serial, mask: Mask)
    requires Sound(s, mask) && s.latest.Some?
    ensures s.latest.value.seqWord != 0 && s.latest.value.seqWord % 2 == 0
  {
  }

  lemma ActiveIsBank(s: Serial, mask: Mask)
    requires Sound(s, mask)
    ensures ActiveOf(s.system.page) <= 1
  {
    hide PageFine, Load32, Region, HeaderOk;
    if s.flipped.Some? {
      ActiveBounded(s.system.page);
    }
  }

  /** The writer never stores into the active bank. */
  lemma ActiveBankUntouched(turns: seq<Turn>, move: WriterMove, mask: Mask)
    requires RunAllowed(turns, mask)
    ensures var s := AfterTurns(turns, mask);
            var active := ActiveOf(s.system.page);
            active <= 1 &&
            BankOf(Turned(s, WriterTurn(move), mask).system.page, active) == BankOf(s.system.page, active)
  {
    hide PageFine, AfterTurns, Region, Load32, Holds, HeaderOk, RunAllowed;
    RunsAreSound(turns, mask);
    ActiveIsBank(AfterTurns(turns, mask), mask);
    var s := AfterTurns(turns, mask).system;
    if move.Stores? && s.pending != [] {
      StoreFacts(s);
      PendingIsAttached(s);
    }
  }

  lemma PendingIsAttached(s: System)
    requires PageFine(s) && s.pending != []
    ensures s.writer.attached
  {
  }
}
