/** The writer side of the orchestrator_spec page (src/lib/abi/spec_writer.c). */
module SpecWriter {
  import opened Words
  import opened Regions
  import opened SpecPage

  /** One store of the writer: a single byte, or an atomic word. */
  datatype AnyStore = Store(at: nat, bytes: seq<byte>)

  type Store = s: AnyStore | s.at + |s.bytes| <= PAGE_BYTES witness Store(0, [])

  function Apply(page: Page, store: Store): Page {
    Blit(page, store.at, store.bytes)
  }

  function ApplyAll(page: Page, stores: seq<Store>): Page
    decreases |stores|
  {
    if stores == [] then page else ApplyAll(Apply(page, stores[0]), stores[1..])
  }

  /** A field stored byte by byte. */
  function ByteStores(at: nat, s: seq<byte>): seq<Store>
    requires at + |s| <= PAGE_BYTES
    decreases |s|
  {
    if s == [] then [] else [Store(at, [s[0]])] + ByteStores(at + 1, s[1..])
  }

  // ----- the writer -----

  datatype Phase = Idle | Opened | Written | Sealed | Closed | Flipped

  datatype StepKind = OpenStep | WriteStep | SealStep | CloseStep | FlipStep

  datatype Transition = Transition(from: Phase, to: Phase)

  /** The protocol as data: each step runs from exactly one phase. */
  function TransitionOf(step: StepKind): Transition {
    match step
    case OpenStep => Transition(Idle, Opened)
    case WriteStep => Transition(Opened, Written)
    case SealStep => Transition(Written, Sealed)
    case CloseStep => Transition(Sealed, Closed)
    case FlipStep => Transition(Closed, Flipped)
  }

  datatype WriteResult = WriteOk | BadState | BadPage | Exhausted

  /** The budget and desired stores of the children from child on, in the loop's order. */
  function ChildStores(base: nat, c: Commit, child: nat): seq<Store>
    requires child <= CHILD_COUNT && base + BANK_BYTES <= PAGE_BYTES
    decreases CHILD_COUNT - child
  {
    if child == CHILD_COUNT then []
    else
      ByteStores(base + BUDGET_AT + 4 * child, Bytes(4, c.budget[child])) +
      [Store(base + DESIRED_AT + child, [c.desired[child]])] +
      ChildStores(base, c, child + 1)
  }

  /** write_payload: everything but crc32 and bank_seq. */
  function PayloadStores(bank: uint32, c: Commit): seq<Store>
    requires bank <= 1
  {
    var base := BankAt(bank);
    ByteStores(base + GENERATION_AT, Bytes(8, c.generation)) +
    ByteStores(base + LENGTH_AT, Bytes(4, BANK_BYTES)) +
    ByteStores(base + COUNT_AT, Bytes(4, CHILD_COUNT)) +
    ChildStores(base, c, 0) +
    ByteStores(base + TAIL_AT, Zeros(BANK_BYTES - TAIL_AT))
  }

  /** What one writer holds between calls. */
  datatype WriterFields = WriterFields(attached: bool, phase: Phase, bank: uint32, openSeq: uint32, commit: Commit)

  type WriterState = w: WriterFields | w.bank <= 1 && w.openSeq < UINT32_MAX
    witness WriterFields(false, Idle, 0, 0, PolicyContent(0, Zeros(CHILD_COUNT), Zeros(CHILD_COUNT)))

  const FRESH_WRITER: WriterState :=
    WriterFields(false, Idle, 0, 0, PolicyContent(0, Zeros(CHILD_COUNT), Zeros(CHILD_COUNT)))

  /** The stores of one step. The seal is computed from the bank as it is when the step starts. */
  function StoresOf(w: WriterState, page: Page, step: StepKind): seq<Store> {
    var base := BankAt(w.bank);
    match step
    case OpenStep => [Store(base + SEQ_AT, Bytes(4, w.openSeq))]
    case WriteStep => PayloadStores(w.bank, w.commit)
    case SealStep => ByteStores(base + CRC_AT, Bytes(4, Seal(BankOf(page, w.bank))))
    case CloseStep => [Store(base + SEQ_AT, Bytes(4, w.openSeq + 1))]
    case FlipStep => [Store(ACTIVE_AT, Bytes(4, w.bank))]
  }

  function StepAllowed(w: WriterState, step: StepKind): bool {
    w.attached && w.phase == TransitionOf(step).from
  }

  /** The outcome of begin: a result, the writer after it and the stores that initialise the header. */
  datatype Begun = Begun(result: WriteResult, writer: WriterState, stores: seq<Store>)

  function HeaderStores(): seq<Store> {
    ByteStores(MAGIC_AT, Bytes(8, SPEC_MAGIC)) + ByteStores(VERSION_AT, Bytes(4, ABI_VERSION)) +
    [Store(ACTIVE_AT, Bytes(4, 0))]
  }

  /** The bank a commit that begins now goes to, and whether the header is still unwritten. */
  function IsFresh(page: Page): bool {
    AllZero(Header(page))
  }

  function HeaderValid(page: Page): bool {
    HeaderOk(Header(page))
  }

  function TargetBank(page: Page): (bank: uint32)
    requires IsFresh(page) || HeaderValid(page)
    ensures bank <= 1
  {
    if IsFresh(page) then 1
    else
      assert ActiveOf(page) <= 1;
      1 - ActiveOf(page)
  }

  /** The next odd sequence value. */
  function OpenSeq(seqWord: uint32): nat {
    seqWord + (if seqWord % 2 == 1 then 2 else 1)
  }

  function BeginOn(w: WriterState, page: Page, c: Commit): Begun {
    if !w.phase.Idle? && !w.phase.Flipped? then Begun(BadState, w, [])
    else if !IsFresh(page) && !HeaderValid(page) then Begun(BadPage, w, [])
    else
      var bank := TargetBank(page);
      var open := OpenSeq(SeqOf(page, bank));
      if open + 1 > UINT32_MAX then Begun(Exhausted, w, [])
      else Begun(WriteOk, WriterFields(true, Idle, bank, open, c), if IsFresh(page) then HeaderStores() else [])
  }

  // ----- what the stores amount to -----

  lemma {:induction false} ApplyConcat(page: Page, a: seq<Store>, b: seq<Store>)
    ensures ApplyAll(page, a + b) == ApplyAll(ApplyAll(page, a), b)
    decreases |a|
  {
    if a == [] {
      assert a + b == b;
    } else {
      assert (a + b)[0] == a[0] && (a + b)[1..] == a[1..] + b;
      ApplyConcat(Apply(page, a[0]), a[1..], b);
    }
  }

  lemma BlitHead(page: seq<byte>, at: nat, b: byte, s: seq<byte>)
    requires at + 1 + |s| <= |page|
    ensures Blit(Blit(page, at, [b]), at + 1, s) == Blit(page, at, [b] + s)
  {
  }

  lemma {:induction false} ApplyByteStores(page: Page, at: nat, s: seq<byte>)
    requires at + |s| <= PAGE_BYTES
    ensures ApplyAll(page, ByteStores(at, s)) == Blit(page, at, s)
    decreases |s|
  {
    if s == [] {
      assert Blit(page, at, s) == page;
    } else {
      hide Blit;
      var rest := ByteStores(at + 1, s[1..]);
      ApplyByteStores(Blit(page, at, [s[0]]), at + 1, s[1..]);
      BlitHead(page, at, s[0], s[1..]);
      assert [s[0]] + s[1..] == s;
      assert ByteStores(at, s)[1..] == rest;
    }
  }

  lemma BlitByte(m: seq<byte>, at: nat, s: seq<byte>, k: nat)
    requires at + |s| <= |m| && k < |m|
    ensures Blit(m, at, s)[k] == if at <= k < at + |s| then s[k - at] else m[k]
  {
  }

  /** Four interleaved stores into two arrays. */
  lemma BlitInterleaved(page: seq<byte>, b: nat, w: seq<byte>, ws: seq<byte>, d: nat, x: byte, xs: seq<byte>)
    requires b + |w| + |ws| <= d && d + 1 + |xs| <= |page|
    ensures Blit(Blit(Blit(Blit(page, b, w), d, [x]), b + |w|, ws), d + 1, xs)
         == Blit(Blit(page, b, w + ws), d, [x] + xs)
  {
    hide Blit;
    var q1 := Blit(page, b, w);
    var q2 := Blit(q1, d, [x]);
    var q3 := Blit(q2, b + |w|, ws);
    var one, p1 := Blit(q3, d + 1, xs), Blit(page, b, w + ws);
    var two := Blit(p1, d, [x] + xs);
    forall k | 0 <= k < |page|
      ensures one[k] == two[k]
    {
      BlitByte(page, b, w, k);
      BlitByte(q1, d, [x], k);
      BlitByte(q2, b + |w|, ws, k);
      BlitByte(q3, d + 1, xs, k);
      BlitByte(page, b, w + ws, k);
      BlitByte(p1, d, [x] + xs, k);
    }
  }

  /** The child loop stores the budget array and the desired array. */
  lemma {:induction false} ApplyChildStores(page: Page, base: nat, c: Commit, child: nat)
    requires child <= CHILD_COUNT && base + BANK_BYTES <= PAGE_BYTES
    ensures ApplyAll(page, ChildStores(base, c, child)) ==
            Blit(Blit(page, base + BUDGET_AT + 4 * child, BudgetBytes(c.budget[child..])),
                 base + DESIRED_AT + child, c.desired[child..])
    decreases CHILD_COUNT - child
  {
    hide Blit, Bytes, ByteStores, ApplyAll;
    var b, d := base + BUDGET_AT + 4 * child, base + DESIRED_AT + child;
    if child == CHILD_COUNT {
      BlitNothing(page, b);
      BlitNothing(page, d);
      ApplyNothing(page);
    } else {
      var word, rest := Bytes(4, c.budget[child]), ChildStores(base, c, child + 1);
      var one: Store := Store(d, [c.desired[child]]);
      var p1 := Blit(page, b, word);
      var p2 := Apply(p1, one);
      ApplyConcat(page, ByteStores(b, word), [one] + rest);
      assert ByteStores(b, word) + ([one] + rest) == ChildStores(base, c, child);
      ApplyByteStores(page, b, word);
      ApplyOne(p1, one, rest);
      ApplyChildStores(p2, base, c, child + 1);
      BlitInterleaved(page, b, word, BudgetBytes(c.budget[child + 1..]), d, c.desired[child], c.desired[child + 1..]);
      assert c.budget[child..][1..] == c.budget[child + 1..];
      assert [c.desired[child]] + c.desired[child + 1..] == c.desired[child..];
    }
  }

  lemma BlitNothing(page: seq<byte>, at: nat)
    requires at <= |page|
    ensures Blit(page, at, []) == page
  {
  }

  lemma ApplyNothing(page: Page)
    ensures ApplyAll(page, []) == page
  {
  }

  lemma ApplyOne(page: Page, store: Store, rest: seq<Store>)
    ensures ApplyAll(page, [store] + rest) == ApplyAll(Apply(page, store), rest)
  {
    assert ([store] + rest)[1..] == rest;
  }

  // ----- what the write step leaves -----

  /** A store inside the bank that leaves its sequence word alone. */
  ghost predicate InPayload(bank: uint32, store: Store) {
    var base := BankAt(bank);
    && base <= store.at && store.at + |store.bytes| <= base + BANK_BYTES
    && (store.at + |store.bytes| <= base + SEQ_AT || base + BUDGET_AT <= store.at)
  }

  ghost predicate AllInPayload(bank: uint32, stores: seq<Store>) {
    forall i :: 0 <= i < |stores| ==> InPayload(bank, stores[i])
  }

  lemma {:induction false} ByteStoresStayIn(bank: uint32, at: nat, s: seq<byte>)
    requires bank <= 1 && BankAt(bank) <= at && at + |s| <= BankAt(bank) + BANK_BYTES <= PAGE_BYTES
    requires at + |s| <= BankAt(bank) + SEQ_AT || BankAt(bank) + BUDGET_AT <= at
    ensures AllInPayload(bank, ByteStores(at, s))
    decreases |s|
  {
    if s != [] {
      ByteStoresStayIn(bank, at + 1, s[1..]);
    }
  }

  lemma {:induction false} ChildStoresStayIn(bank: uint32, c: Commit, child: nat)
    requires bank <= 1 && child <= CHILD_COUNT
    ensures AllInPayload(bank, ChildStores(BankAt(bank), c, child))
    decreases CHILD_COUNT - child
  {
    hide ByteStores, Bytes;
    if child < CHILD_COUNT {
      ByteStoresStayIn(bank, BankAt(bank) + BUDGET_AT + 4 * child, Bytes(4, c.budget[child]));
      ChildStoresStayIn(bank, c, child + 1);
    }
  }

  lemma PayloadStaysIn(bank: uint32, c: Commit)
    requires bank <= 1
    ensures AllInPayload(bank, PayloadStores(bank, c))
  {
    hide ByteStores, Bytes, ChildStores, Zeros;
    var base := BankAt(bank);
    ByteStoresStayIn(bank, base + GENERATION_AT, Bytes(8, c.generation));
    ByteStoresStayIn(bank, base + LENGTH_AT, Bytes(4, BANK_BYTES));
    ByteStoresStayIn(bank, base + COUNT_AT, Bytes(4, CHILD_COUNT));
    ChildStoresStayIn(bank, c, 0);
    ByteStoresStayIn(bank, base + TAIL_AT, Zeros(BANK_BYTES - TAIL_AT));
  }

  /** The write step as six block stores. */
  function PayloadPage(page: Page, bank: uint32, c: Commit): Page
    requires bank <= 1
  {
    var base := BankAt(bank);
    var p1 := Blit(page, base + GENERATION_AT, Bytes(8, c.generation));
    var p2 := Blit(p1, base + LENGTH_AT, Bytes(4, BANK_BYTES));
    var p3 := Blit(p2, base + COUNT_AT, Bytes(4, CHILD_COUNT));
    var p4 := Blit(p3, base + BUDGET_AT, BudgetBytes(c.budget));
    var p5 := Blit(p4, base + DESIRED_AT, c.desired);
    Blit(p5, base + TAIL_AT, Zeros(BANK_BYTES - TAIL_AT))
  }

  lemma PayloadStoresMake(page: Page, bank: uint32, c: Commit)
    requires bank <= 1
    ensures ApplyAll(page, PayloadStores(bank, c)) == PayloadPage(page, bank, c)
  {
    hide ByteStores, Bytes, ChildStores, Zeros, ApplyAll, Blit, BudgetBytes;
    var base := BankAt(bank);
    var s1 := ByteStores(base + GENERATION_AT, Bytes(8, c.generation));
    var s2 := ByteStores(base + LENGTH_AT, Bytes(4, BANK_BYTES));
    var s3 := ByteStores(base + COUNT_AT, Bytes(4, CHILD_COUNT));
    var s4 := ChildStores(base, c, 0);
    var s5 := ByteStores(base + TAIL_AT, Zeros(BANK_BYTES - TAIL_AT));
    ApplyConcat(page, s1 + s2 + s3 + s4, s5);
    ApplyConcat(page, s1 + s2 + s3, s4);
    ApplyConcat(page, s1 + s2, s3);
    ApplyConcat(page, s1, s2);
    var p1 := Blit(page, base + GENERATION_AT, Bytes(8, c.generation));
    var p2 := Blit(p1, base + LENGTH_AT, Bytes(4, BANK_BYTES));
    var p3 := Blit(p2, base + COUNT_AT, Bytes(4, CHILD_COUNT));
    ApplyByteStores(page, base + GENERATION_AT, Bytes(8, c.generation));
    ApplyByteStores(p1, base + LENGTH_AT, Bytes(4, BANK_BYTES));
    ApplyByteStores(p2, base + COUNT_AT, Bytes(4, CHILD_COUNT));
    ApplyChildStores(p3, base, c, 0);
    assert c.budget[0..] == c.budget && c.desired[0..] == c.desired;
    var p5 := Blit(Blit(p3, base + BUDGET_AT, BudgetBytes(c.budget)), base + DESIRED_AT, c.desired);
    ApplyByteStores(p5, base + TAIL_AT, Zeros(BANK_BYTES - TAIL_AT));
  }

  /** After the write step the bank holds the commit, over the checksum and sequence it had. */
  lemma WriteMakesBank(page: Page, bank: uint32, c: Commit)
    requires bank <= 1
    ensures var after := ApplyAll(page, PayloadStores(bank, c));
            && BankOf(after, bank) ==
               BankBytes(c, Load32(BankOf(page, bank), CRC_AT), SeqOf(page, bank))
            && SameOutside(page, after, BankAt(bank), BANK_BYTES)
  {
    hide ByteStores, Bytes, ChildStores, Zeros, ApplyAll, BudgetBytes, PayloadPage, Value, PayloadStores;
    PayloadStoresMake(page, bank, c);
    PayloadPageBank(page, bank, c);
    var was := BankOf(page, bank);
    BytesOfValue(was[CRC_AT..CRC_AT + 4]);
    BytesOfValue(was[SEQ_AT..SEQ_AT + 4]);
  }

  lemma PayloadPageBank(page: Page, bank: uint32, c: Commit)
    requires bank <= 1
    ensures var after, was := PayloadPage(page, bank, c), BankOf(page, bank);
            && BankOf(after, bank) ==
               Bytes(8, c.generation) + Bytes(4, BANK_BYTES) + was[CRC_AT..CRC_AT + 4] + Bytes(4, CHILD_COUNT) +
               was[SEQ_AT..SEQ_AT + 4] + BudgetBytes(c.budget) + c.desired + Zeros(BANK_BYTES - TAIL_AT)
            && SameOutside(page, after, BankAt(bank), BANK_BYTES)
  {
    hide Bytes, Zeros, BudgetBytes, Blit, SameOutside, Region;
    var base := BankAt(bank);
    var p1 := Blit(page, base + GENERATION_AT, Bytes(8, c.generation));
    var p2 := Blit(p1, base + LENGTH_AT, Bytes(4, BANK_BYTES));
    var p3 := Blit(p2, base + COUNT_AT, Bytes(4, CHILD_COUNT));
    var p4 := Blit(p3, base + BUDGET_AT, BudgetBytes(c.budget));
    var p5 := Blit(p4, base + DESIRED_AT, c.desired);
    var p6 := Blit(p5, base + TAIL_AT, Zeros(BANK_BYTES - TAIL_AT));
    BlitWithin(page, base, BANK_BYTES, GENERATION_AT, Bytes(8, c.generation));
    BlitWithin(p1, base, BANK_BYTES, LENGTH_AT, Bytes(4, BANK_BYTES));
    BlitWithin(p2, base, BANK_BYTES, COUNT_AT, Bytes(4, CHILD_COUNT));
    BlitWithin(p3, base, BANK_BYTES, BUDGET_AT, BudgetBytes(c.budget));
    BlitWithin(p4, base, BANK_BYTES, DESIRED_AT, c.desired);
    BlitWithin(p5, base, BANK_BYTES, TAIL_AT, Zeros(BANK_BYTES - TAIL_AT));
    SameOutsideTransitive(page, p1, p2, base, BANK_BYTES);
    SameOutsideTransitive(page, p2, p3, base, BANK_BYTES);
    SameOutsideTransitive(page, p3, p4, base, BANK_BYTES);
    SameOutsideTransitive(page, p4, p5, base, BANK_BYTES);
    SameOutsideTransitive(page, p5, p6, base, BANK_BYTES);
    SixParts(BankOf(page, bank), Bytes(8, c.generation), Bytes(4, BANK_BYTES), Bytes(4, CHILD_COUNT),
             BudgetBytes(c.budget), c.desired, Zeros(BANK_BYTES - TAIL_AT));
  }

  /** Six block stores that leave only the checksum and the sequence word of a bank. */
  lemma SixParts(
    bank: seq<byte>, g: seq<byte>, l: seq<byte>, n: seq<byte>, b: seq<byte>, d: seq<byte>, z: seq<byte>)
    requires |bank| == BANK_BYTES && |g| == 8 && |l| == 4 && |n| == 4
    requires |b| == DESIRED_AT - BUDGET_AT && |d| == TAIL_AT - DESIRED_AT && |z| == BANK_BYTES - TAIL_AT
    ensures Blit(Blit(Blit(Blit(Blit(Blit(bank, GENERATION_AT, g), LENGTH_AT, l), COUNT_AT, n), BUDGET_AT, b),
                      DESIRED_AT, d), TAIL_AT, z)
         == g + l + bank[CRC_AT..CRC_AT + 4] + n + bank[SEQ_AT..SEQ_AT + 4] + b + d + z
  {
    var head := Blit(Blit(Blit(bank, GENERATION_AT, g), LENGTH_AT, l), COUNT_AT, n);
    assert head == g + l + bank[CRC_AT..CRC_AT + 4] + n + bank[SEQ_AT..];
    var front := g + l + bank[CRC_AT..CRC_AT + 4] + n + bank[SEQ_AT..SEQ_AT + 4];
    Tail(head, front, b, d, z);
  }

  lemma Tail(head: seq<byte>, front: seq<byte>, b: seq<byte>, d: seq<byte>, z: seq<byte>)
    requires |head| == |front| + |b| + |d| + |z| && head[..|front|] == front
    ensures Blit(Blit(Blit(head, |front|, b), |front| + |b|, d), |front| + |b| + |d|, z) == front + b + d + z
  {
  }
}
