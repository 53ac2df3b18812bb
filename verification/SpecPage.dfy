/**
 * The orchestrator_spec page: its layout, its sealed banks and the checks Root runs on a copy
 * (interfaces/orchestrator_abi.zig, tools/abi/checks.zig).
 */
module SpecPage {
  import opened Words
  import opened Regions

  const PAGE_BYTES := 4096
  const HEADER_BYTES := 64
  const BANK_BYTES := 2016

  const SPEC_MAGIC: uint64 := 0x3145_5053_5952_4843
  const ABI_VERSION: uint32 := 1
  const MAGIC_AT := 0
  const VERSION_AT := 8
  const ACTIVE_AT := 12
  const RESERVED_AT := 16

  const GENERATION_AT := 0
  const LENGTH_AT := 8
  const CRC_AT := 12
  const COUNT_AT := 16
  const SEQ_AT := 20
  const BUDGET_AT := 24

  type ChildCount = n: int | 1 <= n <= 64 witness 1

  const CHILD_COUNT: ChildCount
  const DESIRED_AT := BUDGET_AT + 4 * CHILD_COUNT
  const TAIL_AT := DESIRED_AT + CHILD_COUNT

  /** CRC-32 as any function of the bytes: nothing below depends on which. */
  const Crc: seq<byte> -> uint32

  /** What one commit publishes. */
  datatype PolicyContent = PolicyContent(generation: uint64, budget: seq<uint32>, desired: seq<byte>)

  type Commit = c: PolicyContent | |c.budget| == CHILD_COUNT && |c.desired| == CHILD_COUNT
    witness PolicyContent(0, Zeros(CHILD_COUNT), Zeros(CHILD_COUNT))

  type Page = s: seq<byte> | |s| == PAGE_BYTES witness Zeros(PAGE_BYTES)

  function BankAt(bank: nat): nat {
    HEADER_BYTES + bank * BANK_BYTES
  }

  function Header(page: Page): (s: seq<byte>)
    ensures |s| == HEADER_BYTES
  {
    Region(page, 0, HEADER_BYTES)
  }

  function BankOf(page: Page, bank: nat): (s: seq<byte>)
    requires bank <= 1
    ensures |s| == BANK_BYTES
  {
    Region(page, BankAt(bank), BANK_BYTES)
  }

  /** The selector and sequence words of a page. */
  function ActiveOf(page: Page): uint32 {
    Load32(Header(page), ACTIVE_AT)
  }

  function SeqOf(page: Page, bank: nat): uint32
    requires bank <= 1
  {
    Load32(BankOf(page, bank), SEQ_AT)
  }

  // ----- encoding -----

  function BudgetBytes(budget: seq<uint32>): (s: seq<byte>)
    ensures |s| == 4 * |budget|
  {
    if budget == [] then [] else Bytes(4, budget[0]) + BudgetBytes(budget[1..])
  }

  lemma {:induction false} BudgetBytesAt(budget: seq<uint32>, c: nat)
    requires c < |budget|
    ensures BudgetBytes(budget)[4 * c..4 * c + 4] == Bytes(4, budget[c])
  {
    var first, rest := Bytes(4, budget[0]), BudgetBytes(budget[1..]);
    assert BudgetBytes(budget) == first + rest;
    if c > 0 {
      BudgetBytesAt(budget[1..], c - 1);
      assert (first + rest)[4 * c..4 * c + 4] == rest[4 * (c - 1)..4 * (c - 1) + 4];
    }
  }

  /** The bytes of a bank, part by part. */
  function BankBytes(c: Commit, crc: uint32, seqWord: uint32): (s: seq<byte>)
    ensures |s| == BANK_BYTES
  {
    Bytes(8, c.generation) + Bytes(4, BANK_BYTES) + Bytes(4, crc) + Bytes(4, CHILD_COUNT) + Bytes(4, seqWord) +
    BudgetBytes(c.budget) + c.desired + Zeros(BANK_BYTES - TAIL_AT)
  }

  /** A bank with crc32 and bank_seq read as zero. */
  function Unsealed(bank: seq<byte>): (s: seq<byte>)
    requires |bank| == BANK_BYTES
    ensures |s| == BANK_BYTES
  {
    Blit(Blit(bank, CRC_AT, Zeros(4)), SEQ_AT, Zeros(4))
  }

  function Seal(bank: seq<byte>): uint32
    requires |bank| == BANK_BYTES
  {
    Crc(Unsealed(bank))
  }

  /** The bank a commit leaves once its sequence word is seqWord. */
  function SealedBank(c: Commit, seqWord: uint32): (s: seq<byte>)
    ensures |s| == BANK_BYTES
  {
    BankBytes(c, Seal(BankBytes(c, 0, 0)), seqWord)
  }

  // ----- checking and decoding -----

  predicate HeaderOk(header: seq<byte>)
    requires |header| == HEADER_BYTES
  {
    && Load64(header, MAGIC_AT) == SPEC_MAGIC
    && Load32(header, VERSION_AT) == ABI_VERSION
    && AllZero(header[RESERVED_AT..])
    && Load32(header, ACTIVE_AT) <= 1
  }

  datatype BankVerdict = BankOk | BankTorn | BankChecksum | BankMalformed

  /** The generated bank checker, classes in its order of precedence. */
  function CheckBank(bank: seq<byte>): BankVerdict
    requires |bank| == BANK_BYTES
  {
    var seqWord := Load32(bank, SEQ_AT);
    if seqWord == 0 || seqWord % 2 == 1 then BankTorn
    else if Load32(bank, CRC_AT) != Seal(bank) then BankChecksum
    else if !AllZero(bank[TAIL_AT..]) || Load32(bank, LENGTH_AT) != BANK_BYTES
        || Load32(bank, COUNT_AT) != CHILD_COUNT then
      BankMalformed
    else BankOk
  }

  function ContentOf(bank: seq<byte>): Commit
    requires |bank| == BANK_BYTES
  {
    PolicyContent(Load64(bank, GENERATION_AT),
                  seq(CHILD_COUNT, c requires 0 <= c < CHILD_COUNT => Load32(bank, BUDGET_AT + 4 * c)),
                  bank[DESIRED_AT..TAIL_AT])
  }

  // ----- a sealed bank reads back as its commit -----

  /** Where each part of a bank lies. */
  lemma BankParts(c: Commit, crc: uint32, seqWord: uint32)
    ensures var s := BankBytes(c, crc, seqWord);
            && s[GENERATION_AT..GENERATION_AT + 8] == Bytes(8, c.generation)
            && s[LENGTH_AT..LENGTH_AT + 4] == Bytes(4, BANK_BYTES)
            && s[CRC_AT..CRC_AT + 4] == Bytes(4, crc)
            && s[COUNT_AT..COUNT_AT + 4] == Bytes(4, CHILD_COUNT)
            && s[SEQ_AT..SEQ_AT + 4] == Bytes(4, seqWord)
            && s[BUDGET_AT..DESIRED_AT] == BudgetBytes(c.budget)
            && s[DESIRED_AT..TAIL_AT] == c.desired
            && s[TAIL_AT..] == Zeros(BANK_BYTES - TAIL_AT)
  {
    hide Bytes, BudgetBytes, Zeros;
  }

  lemma UnsealedIsUnsealed(c: Commit, crc: uint32, seqWord: uint32)
    ensures Unsealed(BankBytes(c, crc, seqWord)) == BankBytes(c, 0, 0)
  {
    hide Bytes, BudgetBytes, Zeros;
    assert Bytes(4, 0) == Zeros(4) by {
      ZeroWord();
    }
    var s := BankBytes(c, crc, seqWord);
    var t := Blit(s, CRC_AT, Zeros(4));
    assert t == BankBytes(c, 0, seqWord);
    assert Blit(t, SEQ_AT, Zeros(4)) == BankBytes(c, 0, 0);
  }

  lemma ZeroWord()
    ensures Bytes(4, 0) == Zeros(4)
  {
    assert Bytes(4, 0) == [0] + ([0] + ([0] + ([0] + Bytes(0, 0))));
  }

  lemma SealedContent(c: Commit, seqWord: uint32)
    ensures ContentOf(SealedBank(c, seqWord)) == c
    ensures Load32(SealedBank(c, seqWord), SEQ_AT) == seqWord
  {
    hide Bytes, BudgetBytes, Value, BankBytes, Seal;
    var s := SealedBank(c, seqWord);
    BankParts(c, Seal(BankBytes(c, 0, 0)), seqWord);
    WordRoundTrip(c.generation);
    WordRoundTrip(seqWord);
    var decoded := ContentOf(s);
    forall i | 0 <= i < CHILD_COUNT
      ensures decoded.budget[i] == c.budget[i]
    {
      BudgetBytesAt(c.budget, i);
      SubSlice(s, BUDGET_AT, DESIRED_AT, 4 * i, 4 * i + 4);
      WordRoundTrip(c.budget[i]);
    }
    assert decoded.budget == c.budget;
  }

  /** A sealed bank with a published sequence passes the checker, whatever it was sealed over before. */
  lemma SealedBankChecks(c: Commit, seqWord: uint32)
    requires seqWord != 0 && seqWord % 2 == 0
    ensures CheckBank(SealedBank(c, seqWord)) == BankOk
  {
    hide Bytes, BudgetBytes, Value, BankBytes, Unsealed, Zeros;
    var crc := Seal(BankBytes(c, 0, 0));
    BankParts(c, crc, seqWord);
    UnsealedIsUnsealed(c, crc, seqWord);
    UnsealedIsUnsealed(c, 0, 0);
    WordRoundTrip(crc);
    WordRoundTrip(BANK_BYTES);
    WordRoundTrip(CHILD_COUNT);
    WordRoundTrip(seqWord);
  }

  // ----- the policy Root retains -----

  /** root_spec_policy: generation 0 is the compiled-in policy. */
  datatype Policy = Policy(generation: uint64, bank: uint32, crc: uint32, budget: seq<uint32>, desired: seq<byte>)
  {
    function Content(): PolicyContent { PolicyContent(generation, budget, desired) }
  }

  type Retained = p: Policy | |p.budget| == CHILD_COUNT && |p.desired| == CHILD_COUNT
    witness Policy(0, 0, 0, Zeros(CHILD_COUNT), Zeros(CHILD_COUNT))

  const COMPILED: Retained := Policy(0, 0, 0, Zeros(CHILD_COUNT), Zeros(CHILD_COUNT))

  /** A policy asks for a budget: one was applied, and its value for this child is not zero. */
  predicate Asks(retained: Retained, child: uint32) {
    child < CHILD_COUNT && retained.generation != 0 && retained.budget[child] != 0
  }

  /** root_spec_budget: the compiled budget, or a non-zero spec value capped at hardMax. */
  function SpecBudget(retained: Retained, child: uint32, compiled: uint32, hardMax: uint32): (budget: uint32)
    ensures Asks(retained, child) ==>
      && budget <= retained.budget[child] && budget <= hardMax
      && (budget == retained.budget[child] || budget == hardMax)
    ensures !Asks(retained, child) ==> budget == compiled
    ensures compiled <= hardMax ==> budget <= hardMax
    ensures retained == COMPILED ==> budget == compiled
  {
    if child >= CHILD_COUNT || retained.generation == 0 then compiled
    else
      var budget := retained.budget[child];
      if budget == 0 then compiled else if budget < hardMax then budget else hardMax
  }
}
