/** What each step of a commit has reached, and the writer that runs them (src/lib/abi/spec_writer.c). */
module SpecCommit {
  import opened Words
  import opened Regions
  import opened SpecPage
  import opened SpecWriter

  /**
   * How far a commit that began on a valid header has come, once the stores of its last step are
   * all made: what the target bank holds and which bank is active.
   */
  ghost predicate Reached(w: WriterState, page: Page) {
    && w.attached && w.openSeq % 2 == 1
    && HeaderValid(page)
    && ActiveOf(page) == (if w.phase.Flipped? then w.bank else 1 - w.bank)
    && var bank := BankOf(page, w.bank);
       match w.phase
       case Idle => Load32(bank, SEQ_AT) < w.openSeq
       case Opened => Load32(bank, SEQ_AT) == w.openSeq
       case Written => bank == BankBytes(w.commit, Load32(bank, CRC_AT), w.openSeq)
       case Sealed => bank == SealedBank(w.commit, w.openSeq)
       case Closed => bank == SealedBank(w.commit, w.openSeq + 1)
       case Flipped => bank == SealedBank(w.commit, w.openSeq + 1)
  }

  function Advanced(w: WriterState, step: StepKind): WriterState {
    w.(phase := TransitionOf(step).to)
  }

  // ----- single words -----

  lemma OverCrc(c: Commit, crc: uint32, seqWord: uint32, crc': uint32)
    ensures Blit(BankBytes(c, crc, seqWord), CRC_AT, Bytes(4, crc')) == BankBytes(c, crc', seqWord)
  {
    hide Bytes, BudgetBytes, Zeros;
  }

  lemma OverSeq(c: Commit, crc: uint32, seqWord: uint32, seqWord': uint32)
    ensures Blit(BankBytes(c, crc, seqWord), SEQ_AT, Bytes(4, seqWord')) == BankBytes(c, crc, seqWord')
  {
    hide Bytes, BudgetBytes, Zeros;
  }

  lemma Load32Stored(m: seq<byte>, at: nat, v: uint32)
    requires at + 4 <= |m|
    ensures Load32(Blit(m, at, Bytes(4, v)), at) == v
  {
    BlitRegion(m, at, Bytes(4, v));
    WordRoundTrip(v);
  }

  /** A word stored in one bank: the bank changes there, the rest of the page not at all. */
  lemma WordInBank(page: Page, bank: nat, at: nat, v: uint32)
    requires bank <= 1 && at + 4 <= BANK_BYTES
    ensures var after := Blit(page, BankAt(bank) + at, Bytes(4, v));
            && BankOf(after, bank) == Blit(BankOf(page, bank), at, Bytes(4, v))
            && Load32(BankOf(after, bank), at) == v
            && SameOutside(page, after, BankAt(bank), BANK_BYTES)
  {
    hide Bytes, Value, Blit;
    BlitWithin(page, BankAt(bank), BANK_BYTES, at, Bytes(4, v));
    Load32Stored(BankOf(page, bank), at, v);
  }

  /** A store into one bank keeps the header and the other bank. */
  lemma BankApart(page: Page, after: Page, bank: nat)
    requires bank <= 1 && SameOutside(page, after, BankAt(bank), BANK_BYTES)
    ensures Header(after) == Header(page)
    ensures BankOf(after, 1 - bank) == BankOf(page, 1 - bank)
  {
    hide SameOutside, Region;
    KeepRegion(page, after, BankAt(bank), BANK_BYTES, 0, HEADER_BYTES);
    KeepRegion(page, after, BankAt(bank), BANK_BYTES, BankAt(1 - bank), BANK_BYTES);
  }

  /** The flip keeps the header valid, selects the bank and touches neither bank. */
  lemma FlipMakes(page: Page, bank: uint32)
    requires bank <= 1 && HeaderValid(page)
    ensures var after := Blit(page, ACTIVE_AT, Bytes(4, bank));
            && HeaderValid(after) && ActiveOf(after) == bank
            && BankOf(after, 0) == BankOf(page, 0) && BankOf(after, 1) == BankOf(page, 1)
  {
    hide Bytes, Value;
    var after := Blit(page, ACTIVE_AT, Bytes(4, bank));
    var h := Header(page);
    BlitRegion(page, ACTIVE_AT, Bytes(4, bank));
    BlitWithin(page, 0, HEADER_BYTES, ACTIVE_AT, Bytes(4, bank));
    Load32Stored(h, ACTIVE_AT, bank);
    BlitRegion(h, ACTIVE_AT, Bytes(4, bank));
    var h' := Header(after);
    KeepRegion(h, h', ACTIVE_AT, 4, MAGIC_AT, 8);
    KeepRegion(h, h', ACTIVE_AT, 4, VERSION_AT, 4);
    KeepRegion(h, h', ACTIVE_AT, 4, RESERVED_AT, HEADER_BYTES - RESERVED_AT);
    assert h'[RESERVED_AT..] == Region(h', RESERVED_AT, HEADER_BYTES - RESERVED_AT);
    assert h[RESERVED_AT..] == Region(h, RESERVED_AT, HEADER_BYTES - RESERVED_AT);
    KeepRegion(page, after, ACTIVE_AT, 4, BankAt(0), BANK_BYTES);
    KeepRegion(page, after, ACTIVE_AT, 4, BankAt(1), BANK_BYTES);
  }

  /** Initialising an all-zero header makes it valid and selects bank 0. */
  lemma HeaderStoresMake(page: Page)
    requires IsFresh(page)
    ensures var after := ApplyAll(page, HeaderStores());
            && HeaderValid(after) && ActiveOf(after) == 0
            && BankOf(after, 0) == BankOf(page, 0) && BankOf(after, 1) == BankOf(page, 1)
  {
    hide Bytes, Value, ByteStores, ApplyAll;
    var a, b := ByteStores(MAGIC_AT, Bytes(8, SPEC_MAGIC)), ByteStores(VERSION_AT, Bytes(4, ABI_VERSION));
    var c: Store := Store(ACTIVE_AT, Bytes(4, 0));
    ApplyConcat(page, a + b, [c]);
    ApplyConcat(page, a, b);
    ApplyByteStores(page, MAGIC_AT, Bytes(8, SPEC_MAGIC));
    var p1 := Blit(page, MAGIC_AT, Bytes(8, SPEC_MAGIC));
    ApplyByteStores(p1, VERSION_AT, Bytes(4, ABI_VERSION));
    var p2 := Blit(p1, VERSION_AT, Bytes(4, ABI_VERSION));
    ApplyOne(p2, c, []);
    ApplyNothing(Apply(p2, c));
    assert [c] + [] == [c];
    HeaderWritten(page);
  }

  lemma HeaderWritten(page: Page)
    requires IsFresh(page)
    ensures var p1 := Blit(page, MAGIC_AT, Bytes(8, SPEC_MAGIC));
            var p2 := Blit(p1, VERSION_AT, Bytes(4, ABI_VERSION));
            var after := Blit(p2, ACTIVE_AT, Bytes(4, 0));
            && HeaderValid(after) && ActiveOf(after) == 0
            && BankOf(after, 0) == BankOf(page, 0) && BankOf(after, 1) == BankOf(page, 1)
  {
    hide Bytes, Value;
    var p1 := Blit(page, MAGIC_AT, Bytes(8, SPEC_MAGIC));
    var p2 := Blit(p1, VERSION_AT, Bytes(4, ABI_VERSION));
    var after := Blit(p2, ACTIVE_AT, Bytes(4, 0));
    var h := Header(after);
    WordRoundTrip(SPEC_MAGIC);
    WordRoundTrip(ABI_VERSION);
    WordRoundTrip(0);
    BlitRegion(page, MAGIC_AT, Bytes(8, SPEC_MAGIC));
    BlitRegion(p1, VERSION_AT, Bytes(4, ABI_VERSION));
    BlitRegion(p2, ACTIVE_AT, Bytes(4, 0));
    KeepRegion(p1, p2, VERSION_AT, 4, MAGIC_AT, 8);
    KeepRegion(p2, after, ACTIVE_AT, 4, MAGIC_AT, 8);
    KeepRegion(p2, after, ACTIVE_AT, 4, VERSION_AT, 4);
    SubSlice(after, 0, HEADER_BYTES, MAGIC_AT, MAGIC_AT + 8);
    SubSlice(after, 0, HEADER_BYTES, VERSION_AT, VERSION_AT + 4);
    SubSlice(after, 0, HEADER_BYTES, ACTIVE_AT, ACTIVE_AT + 4);
    assert SameOutside(page, after, 0, RESERVED_AT);
    KeepRegion(page, after, 0, RESERVED_AT, RESERVED_AT, HEADER_BYTES - RESERVED_AT);
    assert h[RESERVED_AT..] == Region(after, RESERVED_AT, HEADER_BYTES - RESERVED_AT);
    assert Header(page)[RESERVED_AT..] == Region(page, RESERVED_AT, HEADER_BYTES - RESERVED_AT);
    KeepRegion(page, after, 0, RESERVED_AT, BankAt(0), BANK_BYTES);
    KeepRegion(page, after, 0, RESERVED_AT, BankAt(1), BANK_BYTES);
  }

  // ----- whole steps -----

  /** Begin reaches the idle phase: an odd sequence above the target bank's, on a valid header. */
  lemma BeginReaches(w: WriterState, page: Page, c: Commit)
    requires BeginOn(w, page, c).result == WriteOk
    ensures var b := BeginOn(w, page, c);
            var after := ApplyAll(page, b.stores);
            && Reached(b.writer, after) && b.writer.commit == c && b.writer.phase == Idle
            && BankOf(after, 0) == BankOf(page, 0) && BankOf(after, 1) == BankOf(page, 1)
            && (HeaderValid(page) ==> after == page)
  {
    hide HeaderStores, ApplyAll, Load32, Region, HeaderOk;
    if IsFresh(page) {
      HeaderStoresMake(page);
      FreshIsInvalid(page);
    } else {
      ApplyNothing(page);
      ActiveBounded(page);
    }
  }

  lemma ActiveBounded(page: Page)
    requires HeaderValid(page)
    ensures ActiveOf(page) <= 1
  {
  }

  lemma FreshIsInvalid(page: Page)
    requires IsFresh(page)
    ensures !HeaderValid(page)
  {
    var h := Header(page);
    ValueZero(h[MAGIC_AT..MAGIC_AT + 8]);
  }

  /** Each step, once all its stores are made, reaches the next phase and keeps the other bank. */
  lemma StepReaches(w: WriterState, page: Page, step: StepKind)
    requires Reached(w, page) && w.phase == TransitionOf(step).from
    ensures var after := ApplyAll(page, StoresOf(w, page, step));
            && Reached(Advanced(w, step), after)
            && BankOf(after, 1 - w.bank) == BankOf(page, 1 - w.bank)
  {
    hide Bytes, Value, BankBytes, Blit, Load32, Region, SameOutside, HeaderOk, PayloadStores, ByteStores, ApplyAll,
        Seal;
    var base := BankAt(w.bank);
    match step
    case OpenStep =>
      SingleStore(page, base + SEQ_AT, Bytes(4, w.openSeq));
      WordInBank(page, w.bank, SEQ_AT, w.openSeq);
      BankApart(page, Blit(page, base + SEQ_AT, Bytes(4, w.openSeq)), w.bank);
    case WriteStep =>
      WriteMakesBank(page, w.bank, w.commit);
      CrcOfBank(w.commit, Load32(BankOf(page, w.bank), CRC_AT), w.openSeq);
      BankApart(page, ApplyAll(page, PayloadStores(w.bank, w.commit)), w.bank);
    case SealStep =>
      var crc := Load32(BankOf(page, w.bank), CRC_AT);
      var sealed := Seal(BankOf(page, w.bank));
      SealSame(w.commit, crc, w.openSeq);
      ApplyByteStores(page, base + CRC_AT, Bytes(4, sealed));
      WordInBank(page, w.bank, CRC_AT, sealed);
      OverCrc(w.commit, crc, w.openSeq, sealed);
      BankApart(page, Blit(page, base + CRC_AT, Bytes(4, sealed)), w.bank);
    case CloseStep =>
      SingleStore(page, base + SEQ_AT, Bytes(4, w.openSeq + 1));
      WordInBank(page, w.bank, SEQ_AT, w.openSeq + 1);
      OverSeq(w.commit, Seal(BankBytes(w.commit, 0, 0)), w.openSeq, w.openSeq + 1);
      BankApart(page, Blit(page, base + SEQ_AT, Bytes(4, w.openSeq + 1)), w.bank);
    case FlipStep =>
      SingleStore(page, ACTIVE_AT, Bytes(4, w.bank));
      FlipMakes(page, w.bank);
  }

  lemma SingleStore(page: Page, at: nat, s: seq<byte>)
    requires at + |s| <= PAGE_BYTES
    ensures ApplyAll(page, [Store(at, s)]) == Blit(page, at, s)
  {
    ApplyOne(page, Store(at, s), []);
    ApplyNothing(Blit(page, at, s));
    assert [Store(at, s)] + [] == [Store(at, s)];
  }

  lemma CrcOfBank(c: Commit, crc: uint32, seqWord: uint32)
    ensures Load32(BankBytes(c, crc, seqWord), CRC_AT) == crc
  {
    hide Bytes, Value, BankBytes;
    BankParts(c, crc, seqWord);
    WordRoundTrip(crc);
  }

  lemma SealSame(c: Commit, crc: uint32, seqWord: uint32)
    ensures Seal(BankBytes(c, crc, seqWord)) == Seal(BankBytes(c, 0, 0))
  {
    hide Unsealed, BankBytes;
    UnsealedIsUnsealed(c, crc, seqWord);
    UnsealedIsUnsealed(c, 0, 0);
  }

  // ----- the writer -----

  /** store_u32le and store_u64le: the low byte first. */
  method StoreLe(page: array<byte>, at: nat, n: nat, value: nat)
    requires at + n <= page.Length
    modifies page
    ensures page[..] == Blit(old(page[..]), at, Bytes(n, value))
  {
    hide Blit;
    ghost var was := page[..];
    var rest := value;
    BlitAgain(was, at, n, value);
    for i := 0 to n
      invariant page.Length == |was|
      invariant Blit(page[..], at + i, Bytes(n - i, rest)) == Blit(was, at, Bytes(n, value))
    {
      StoreLow(page[..], at + i, n - i, rest);
      page[at + i] := rest % 0x100;
      rest := rest / 0x100;
    }
    BlitAgain(page[..], at + n, 0, rest);
  }

  lemma BlitAgain(page: seq<byte>, at: nat, n: nat, value: nat)
    requires at + n <= |page|
    ensures n == 0 ==> Blit(page, at, Bytes(n, value)) == page
  {
  }

  /** Storing the low byte leaves the rest of the word to store. */
  lemma StoreLow(page: seq<byte>, at: nat, n: nat, value: nat)
    requires 0 < n && at + n <= |page|
    ensures Blit(page[at := value % 0x100], at + 1, Bytes(n - 1, value / 0x100)) == Blit(page, at, Bytes(n, value))
  {
  }

  class Writer {
    var page: array?<byte>
    var phase: Phase
    var bank: uint32
    var openSeq: uint32
    var commit: Commit

    function Value(): WriterState
      requires Valid()
      reads this
    {
      WriterFields(page != null, phase, bank, openSeq, commit)
    }

    predicate Valid()
      reads this
    {
      bank <= 1 && openSeq < UINT32_MAX && (page != null ==> page.Length == PAGE_BYTES)
    }

    constructor ()
      ensures Valid() && Value() == FRESH_WRITER
    {
      page, phase, bank, openSeq, commit := null, Idle, 0, 0, FRESH_WRITER.commit;
    }

    /** spec_writer_begin: refusals store nothing; a fresh header is the only thing it writes. */
    method Begin(target: array?<byte>, c: Commit) returns (result: WriteResult)
      requires Valid() && (target != null ==> target.Length == PAGE_BYTES)
      modifies this, if target == null then {} else {target}
      ensures Valid()
      ensures target == null ==>
        Value() == old(Value()) && page == old(page) &&
        result == (if old(phase).Idle? || old(phase).Flipped? then BadPage else BadState)
      ensures target != null ==>
        var b := BeginOn(old(Value()), old(target[..]), c);
        && result == b.result && Value() == b.writer && target[..] == ApplyAll(old(target[..]), b.stores)
        && page == if result == WriteOk then target else old(page)
    {
      hide HeaderStores, Region, Load32, HeaderOk, ApplyAll, ByteStores;
      if target != null {
        ApplyNothing(target[..]);
      }
      if !phase.Idle? && !phase.Flipped? {
        return BadState;
      }
      if target == null {
        return BadPage;
      }
      var unwritten := IsFresh(target[..]);
      if !unwritten && !HeaderValid(target[..]) {
        return BadPage;
      }
      var to := TargetBank(target[..]);
      var open := OpenSeq(SeqOf(target[..], to));
      if open + 1 > UINT32_MAX {
        return Exhausted;
      }
      if unwritten {
        InitialiseHeader(target);
      }
      page, phase, bank, openSeq, commit := target, Idle, to, open, c;
      return WriteOk;
    }

    method InitialiseHeader(target: array<byte>)
      requires target.Length == PAGE_BYTES
      modifies target
      ensures target[..] == ApplyAll(old(target[..]), HeaderStores())
    {
      hide Blit, Bytes, ByteStores, ApplyAll;
      HeaderAsBlits(target[..]);
      StoreLe(target, MAGIC_AT, 8, SPEC_MAGIC);
      StoreLe(target, VERSION_AT, 4, ABI_VERSION);
      StoreLe(target, ACTIVE_AT, 4, 0);
    }

    /** write_payload: the fields, the children one by one, then the zero tail. */
    method WritePayload(target: array<byte>)
      requires target.Length == PAGE_BYTES && bank <= 1
      modifies target
      ensures target[..] == ApplyAll(old(target[..]), PayloadStores(bank, commit))
    {
      hide Blit, Bytes, ByteStores, ChildStores, ApplyAll, PayloadStores, PayloadPage, BudgetBytes;
      PayloadStoresMake(target[..], bank, commit);
      PayloadByChildren(target[..], bank, commit);
      var base := BankAt(bank);
      StoreLe(target, base + GENERATION_AT, 8, commit.generation);
      StoreLe(target, base + LENGTH_AT, 4, BANK_BYTES);
      StoreLe(target, base + COUNT_AT, 4, CHILD_COUNT);
      ghost var counted := target[..];
      for c := 0 to CHILD_COUNT
        invariant ApplyAll(target[..], ChildStores(base, commit, c)) == ApplyAll(counted, ChildStores(base, commit, 0))
      {
        OneChild(target[..], base, commit, c);
        StoreLe(target, base + BUDGET_AT + 4 * c, 4, commit.budget[c]);
        StoreBytes(target, base + DESIRED_AT + c, [commit.desired[c]]);
      }
      NoChild(target[..], base, commit);
      StoreBytes(target, base + TAIL_AT, Zeros(BANK_BYTES - TAIL_AT));
    }

    /** spec_writer_step: only from the phase the table names, otherwise nothing is stored. */
    method Step(step: StepKind) returns (result: WriteResult)
      requires Valid()
      modifies this, if page == null then {} else {page}
      ensures Valid() && page == old(page)
      ensures result == if StepAllowed(old(Value()), step) then WriteOk else BadState
      ensures result == BadState ==> Value() == old(Value()) && (page != null ==> page[..] == old(page[..]))
      ensures result == WriteOk ==>
        && Value() == Advanced(old(Value()), step)
        && page[..] == ApplyAll(old(page[..]), StoresOf(old(Value()), old(page[..]), step))
    {
      hide Blit, Bytes, ByteStores, ApplyAll, PayloadStores, Seal, Region;
      if page == null || phase != TransitionOf(step).from {
        return BadState;
      }
      var base := BankAt(bank);
      match step {
        case OpenStep =>
          SingleStore(page[..], base + SEQ_AT, Bytes(4, openSeq));
          StoreLe(page, base + SEQ_AT, 4, openSeq);
        case WriteStep =>
          WritePayload(page);
        case SealStep =>
          var sealed := SpecPage.Seal(BankOf(page[..], bank));
          ApplyByteStores(page[..], base + CRC_AT, Bytes(4, sealed));
          StoreLe(page, base + CRC_AT, 4, sealed);
        case CloseStep =>
          SingleStore(page[..], base + SEQ_AT, Bytes(4, openSeq + 1));
          StoreLe(page, base + SEQ_AT, 4, openSeq + 1);
        case FlipStep =>
          SingleStore(page[..], ACTIVE_AT, Bytes(4, bank));
          StoreLe(page, ACTIVE_AT, 4, bank);
      }
      phase := TransitionOf(step).to;
      return WriteOk;
    }

    /**
     * spec_writer_commit: on success the bank that was inactive is active and holds the sealed
     * commit under its next even sequence, and the other bank is untouched.
     */
    method CommitAll(target: array?<byte>, c: Commit) returns (result: WriteResult)
      requires Valid() && (target != null ==> target.Length == PAGE_BYTES)
      modifies this, if target == null then {} else {target}
      ensures Valid()
      ensures target == null ==> result == BadPage || result == BadState
      ensures target != null ==> result == BeginOn(old(Value()), old(target[..]), c).result
      ensures target != null && result != WriteOk ==> target[..] == old(target[..])
      ensures target != null && result == WriteOk ==>
        var bank := TargetBank(old(target[..]));
        && HeaderValid(target[..]) && ActiveOf(target[..]) == bank && phase == Flipped
        && BankOf(target[..], bank) == SealedBank(c, OpenSeq(SeqOf(old(target[..]), bank)) + 1)
        && BankOf(target[..], 1 - bank) == BankOf(old(target[..]), 1 - bank)
    {
      hide Reached, ApplyAll, StoresOf, SealedBank, HeaderOk, Region, Load32, BeginOn, HeaderStores;
      ghost var before, was := Value(), if target == null then Zeros(PAGE_BYTES) else target[..];
      result := Begin(target, c);
      if result != WriteOk {
        if target != null {
          RefusedStoresNothing(before, was, c);
        }
        return;
      }
      BeginReaches(before, was, c);
      BegunAt(before, was, c);
      ghost var to, open := bank, openSeq;
      var steps := [OpenStep, WriteStep, SealStep, CloseStep, FlipStep];
      for i := 0 to |steps|
        invariant result == WriteOk && Valid() && page == target && target != null
        invariant Reached(Value(), target[..]) && Value() == WriterFields(true, PhaseAt(i), to, open, c)
        invariant BankOf(target[..], 1 - to) == BankOf(was, 1 - to)
      {
        StepReaches(Value(), target[..], steps[i]);
        result := Step(steps[i]);
      }
      FlippedHolds(Value(), target[..]);
    }
  }

  function PhaseAt(i: nat): Phase
    requires i <= 5
  {
    [Idle, Opened, Written, Sealed, Closed, Flipped][i]
  }

  lemma RefusedStoresNothing(w: WriterState, page: Page, c: Commit)
    ensures BeginOn(w, page, c).result != WriteOk ==> ApplyAll(page, BeginOn(w, page, c).stores) == page
  {
    ApplyNothing(page);
  }

  lemma BegunAt(w: WriterState, page: Page, c: Commit)
    requires BeginOn(w, page, c).result == WriteOk
    ensures var b := BeginOn(w, page, c).writer;
            b.bank == TargetBank(page) && b.openSeq == OpenSeq(SeqOf(page, b.bank))
  {
  }

  lemma FlippedHolds(w: WriterState, page: Page)
    requires Reached(w, page) && w.phase == Flipped
    ensures HeaderValid(page) && ActiveOf(page) == w.bank
    ensures BankOf(page, w.bank) == SealedBank(w.commit, w.openSeq + 1)
  {
  }

  lemma HeaderAsBlits(page: Page)
    ensures var p1 := Blit(page, MAGIC_AT, Bytes(8, SPEC_MAGIC));
            var p2 := Blit(p1, VERSION_AT, Bytes(4, ABI_VERSION));
            ApplyAll(page, HeaderStores()) == Blit(p2, ACTIVE_AT, Bytes(4, 0))
  {
    hide Bytes, Value, ByteStores, ApplyAll;
    var a, b := ByteStores(MAGIC_AT, Bytes(8, SPEC_MAGIC)), ByteStores(VERSION_AT, Bytes(4, ABI_VERSION));
    ApplyConcat(page, a + b, [Store(ACTIVE_AT, Bytes(4, 0))]);
    ApplyConcat(page, a, b);
    ApplyByteStores(page, MAGIC_AT, Bytes(8, SPEC_MAGIC));
    var p1 := Blit(page, MAGIC_AT, Bytes(8, SPEC_MAGIC));
    ApplyByteStores(p1, VERSION_AT, Bytes(4, ABI_VERSION));
    SingleStore(Blit(p1, VERSION_AT, Bytes(4, ABI_VERSION)), ACTIVE_AT, Bytes(4, 0));
  }

  /** One turn of the child loop. */
  lemma OneChild(page: Page, base: nat, c: Commit, child: nat)
    requires child < CHILD_COUNT && base + BANK_BYTES <= PAGE_BYTES
    ensures var p1 := Blit(page, base + BUDGET_AT + 4 * child, Bytes(4, c.budget[child]));
            var p2 := Blit(p1, base + DESIRED_AT + child, [c.desired[child]]);
            ApplyAll(page, ChildStores(base, c, child)) == ApplyAll(p2, ChildStores(base, c, child + 1))
  {
    hide Bytes, ByteStores, ApplyAll, Blit;
    var b, rest := base + BUDGET_AT + 4 * child, ChildStores(base, c, child + 1);
    var word := Bytes(4, c.budget[child]);
    var one: Store := Store(base + DESIRED_AT + child, [c.desired[child]]);
    assert ByteStores(b, word) + ([one] + rest) == ChildStores(base, c, child);
    ApplyConcat(page, ByteStores(b, word), [one] + rest);
    ApplyByteStores(page, b, word);
    ApplyOne(Blit(page, b, word), one, rest);
  }

  lemma NoChild(page: Page, base: nat, c: Commit)
    requires base + BANK_BYTES <= PAGE_BYTES
    ensures ApplyAll(page, ChildStores(base, c, CHILD_COUNT)) == page
  {
  }

  /** The write step with the child loop kept apart. */
  lemma PayloadByChildren(page: Page, bank: uint32, c: Commit)
    requires bank <= 1
    ensures var base := BankAt(bank);
            var p1 := Blit(page, base + GENERATION_AT, Bytes(8, c.generation));
            var p2 := Blit(p1, base + LENGTH_AT, Bytes(4, BANK_BYTES));
            var p3 := Blit(p2, base + COUNT_AT, Bytes(4, CHILD_COUNT));
            var p4 := ApplyAll(p3, ChildStores(base, c, 0));
            PayloadPage(page, bank, c) == Blit(p4, base + TAIL_AT, Zeros(BANK_BYTES - TAIL_AT))
  {
    hide Bytes, ApplyAll, Blit, ChildStores, BudgetBytes;
    var base := BankAt(bank);
    var p1 := Blit(page, base + GENERATION_AT, Bytes(8, c.generation));
    var p2 := Blit(p1, base + LENGTH_AT, Bytes(4, BANK_BYTES));
    var p3 := Blit(p2, base + COUNT_AT, Bytes(4, CHILD_COUNT));
    ApplyChildStores(p3, base, c, 0);
    assert c.budget[0..] == c.budget && c.desired[0..] == c.desired;
  }
}
