/** Which spec pages Root believes, bank by bank, and what it reports of the rest (src/pd/root/spec.c). */
module SpecMeaning {
  import opened Words
  import opened Regions
  import opened SpecPage
  import opened SpecConsumer
  import opened SpecWriter

  predicate Even(seqWord: uint32) { seqWord != 0 && seqWord % 2 == 0 }

  // ----- banks -----

  lemma {:induction false} BudgetLoads(s: seq<byte>, budget: seq<uint32>)
    requires |s| == 4 * |budget| && forall i :: 0 <= i < |budget| ==> budget[i] == Load32(s, 4 * i)
    ensures BudgetBytes(budget) == s
    decreases |budget|
  {
    hide Value;
    if budget == [] {
      assert s == [];
    } else {
      var rest := s[4..];
      forall i | 0 <= i < |budget| - 1
        ensures budget[1..][i] == Load32(rest, 4 * i)
      {
        assert budget[1..][i] == budget[i + 1];
        SubSlice(s, 4, |s|, 4 * i, 4 * i + 4);
        assert s[4..|s|] == rest;
      }
      BudgetLoads(rest, budget[1..]);
      BytesOfValue(s[0..4]);
      assert s == s[0..4] + rest;
    }
  }

  /** The parts of any bank of the right size and shape are the bytes of its content. */
  lemma BankIsItsContent(bank: seq<byte>)
    requires |bank| == BANK_BYTES && AllZero(bank[TAIL_AT..])
    requires Load32(bank, LENGTH_AT) == BANK_BYTES && Load32(bank, COUNT_AT) == CHILD_COUNT
    ensures bank == BankBytes(ContentOf(bank), Load32(bank, CRC_AT), Load32(bank, SEQ_AT))
  {
    hide Value, Bytes, BudgetBytes, Zeros;
    var c := ContentOf(bank);
    BytesOfValue(bank[GENERATION_AT..GENERATION_AT + 8]);
    BytesOfValue(bank[LENGTH_AT..LENGTH_AT + 4]);
    BytesOfValue(bank[CRC_AT..CRC_AT + 4]);
    BytesOfValue(bank[COUNT_AT..COUNT_AT + 4]);
    BytesOfValue(bank[SEQ_AT..SEQ_AT + 4]);
    var words := bank[BUDGET_AT..DESIRED_AT];
    forall i | 0 <= i < CHILD_COUNT
      ensures c.budget[i] == Load32(words, 4 * i)
    {
      SubSlice(bank, BUDGET_AT, DESIRED_AT, 4 * i, 4 * i + 4);
    }
    BudgetLoads(words, c.budget);
    assert bank[TAIL_AT..] == Zeros(BANK_BYTES - TAIL_AT);
    assert bank == bank[0..8] + bank[8..12] + bank[12..16] + bank[16..20] + bank[20..24] + words
                   + bank[DESIRED_AT..TAIL_AT] + bank[TAIL_AT..];
  }

  /** The checker accepts a bank if and only if it is some commit, sealed, under a published sequence. */
  lemma AcceptsSealedExactly(bank: seq<byte>)
    requires |bank| == BANK_BYTES
    ensures CheckBank(bank) == BankOk <==> exists c: Commit, q: uint32 :: Even(q) && bank == SealedBank(c, q)
  {
    hide Value, Bytes, BankBytes, ContentOf, Unsealed, Zeros;
    if CheckBank(bank) == BankOk {
      var c, crc, q := ContentOf(bank), Load32(bank, CRC_AT), Load32(bank, SEQ_AT);
      BankIsItsContent(bank);
      UnsealedIsUnsealed(c, crc, q);
      UnsealedIsUnsealed(c, 0, 0);
      assert Even(q) && bank == SealedBank(c, q);
    }
    if c: Commit, q: uint32 :| Even(q) && bank == SealedBank(c, q) {
      SealedBankChecks(c, q);
    }
  }

  /** The checksum is judged before the shape, and the sequence before both. */
  lemma VerdictsInOrder(bank: seq<byte>)
    requires |bank| == BANK_BYTES
    ensures var q := Load32(bank, SEQ_AT);
            var zeroed := Blit(Blit(bank, CRC_AT, [0, 0, 0, 0]), SEQ_AT, [0, 0, 0, 0]);
            && (CheckBank(bank) == BankTorn <==> !Even(q))
            && (CheckBank(bank) == BankChecksum <==> Even(q) && Load32(bank, CRC_AT) != Crc(zeroed))
  {
    assert Zeros(4) == [0, 0, 0, 0];
  }

  // ----- headers -----

  /** The header check accepts exactly magic, version, a selector of one of the two banks, and zeros. */
  lemma AcceptsHeaderExactly(h: seq<byte>)
    requires |h| == HEADER_BYTES
    ensures HeaderOk(h) <==> exists active: uint32 :: active <= 1 && h == HeaderOf(active)
  {
    hide Value, Bytes;
    WordRoundTrip(SPEC_MAGIC);
    WordRoundTrip(ABI_VERSION);
    if HeaderOk(h) {
      BytesOfValue(h[MAGIC_AT..MAGIC_AT + 8]);
      BytesOfValue(h[VERSION_AT..VERSION_AT + 4]);
      BytesOfValue(h[ACTIVE_AT..ACTIVE_AT + 4]);
      assert h[RESERVED_AT..] == Zeros(HEADER_BYTES - RESERVED_AT);
      assert h == h[0..8] + h[8..12] + h[12..16] + h[16..];
      assert h == HeaderOf(Load32(h, ACTIVE_AT));
    }
    if active: uint32 :| active <= 1 && h == HeaderOf(active) {
      WordRoundTrip(active);
      assert h[MAGIC_AT..MAGIC_AT + 8] == Bytes(8, SPEC_MAGIC);
      assert h[VERSION_AT..VERSION_AT + 4] == Bytes(4, ABI_VERSION);
      assert h[ACTIVE_AT..ACTIVE_AT + 4] == Bytes(4, active) && h[RESERVED_AT..] == Zeros(HEADER_BYTES - RESERVED_AT);
    }
  }

  function HeaderOf(active: uint32): (h: seq<byte>)
    ensures |h| == HEADER_BYTES
  {
    Bytes(8, SPEC_MAGIC) + Bytes(4, ABI_VERSION) + Bytes(4, active) + Zeros(HEADER_BYTES - RESERVED_AT)
  }

  // ----- what one bank means -----

  /** The commit asks something of a child the image does not have. */
  ghost predicate AsksAbsent(c: Commit, mask: Mask) {
    exists i :: 0 <= i < CHILD_COUNT && i !in mask && (c.budget[i] != 0 || c.desired[i] != 0)
  }

  /** How a sealed commit is judged against the policy retained. */
  lemma SealedIsJudged(c: Commit, q: uint32, bank: uint32, mask: Mask, retained: Retained)
    requires Even(q) && bank <= 1
    ensures var e := Evaluated(SealedBank(c, q), bank, mask, retained);
            && (c.generation == 0 ==> e == Nothing)
            && (c.generation > 0 && AsksAbsent(c, mask) ==> e == Refused(UndeclaredChild, c.generation))
            && (c.generation > 0 && !AsksAbsent(c, mask) ==>
                  && (c.generation < retained.generation ==> e == Refused(Regressed, c.generation))
                  && (c.generation == retained.generation && retained.Content() != c ==>
                        e == Refused(Conflict, c.generation))
                  && (c.generation > retained.generation || retained.Content() == c ==>
                        && e.Usable? && e.newer == (c.generation > retained.generation)
                        && e.policy.Content() == c && e.policy.bank == bank
                        && e.policy.crc == Seal(SealedBank(c, q))))
  {
    hide SealedBank, ContentOf, Declared;
    SealedContent(c, q);
    SealedBankChecks(c, q);
    assert Declared(c, mask) <==> !AsksAbsent(c, mask) by {
      DeclaredMeaning(c, mask);
    }
    hide Load32, Seal;
  }

  lemma DeclaredMeaning(c: Commit, mask: Mask)
    ensures Declared(c, mask) <==> !AsksAbsent(c, mask)
  {
  }

  /** A bank that is no sealed commit is empty while its sequence is zero, and otherwise refused unread. */
  lemma UnsealedIsRefused(bytes: seq<byte>, bank: uint32, mask: Mask, retained: Retained)
    requires |bytes| == BANK_BYTES && CheckBank(bytes) != BankOk
    ensures var e := Evaluated(bytes, bank, mask, retained);
            && (e == Nothing <==> Load32(bytes, SEQ_AT) == 0)
            && (e != Nothing ==>
                  e == Refused(match CheckBank(bytes)
                               case BankTorn => Torn
                               case BankChecksum => Checksum
                               case _ => Malformed, 0))
  {
    hide Seal, ContentOf, Declared, Load32;
  }

  // ----- what one consume reports -----

  /** Without a readable page nothing is applied, and what is reported follows from why. */
  lemma UnreadablePages(state: State, copy: Copy, mask: Mask)
    requires copy.Stable? ==> AllZero(Header(copy.page)) || !HeaderOk(Header(copy.page))
    ensures var step := Consumed(state, copy, mask);
            var absent := copy.NoPage? || (copy.Stable? && AllZero(Header(copy.page)));
            && step.state.retained == state.retained
            && step.result.outcome == (if absent then Absent else Kept)
            && step.result.reason == (if absent then Unset else if copy.Unstable? then UnstableCopy else BadHeader)
            && step.result.generation == 0 && step.result.bank == 0
  {
    hide HeaderOk, AllZero, Header;
  }

  /** Of a readable page only the active bank's rejection is reported, with the generation it claims. */
  lemma ReportsActiveBank(state: State, page: Page, mask: Mask)
    requires HeaderOk(Header(page)) && !AllZero(Header(page))
    ensures ActiveOf(page) <= 1
    ensures var result := Consumed(state, Stable(page), mask).result;
            var active := Evaluated(BankOf(page, ActiveOf(page)), ActiveOf(page), mask, state.retained);
            && result.bank == ActiveOf(page)
            && result.reason == (if active.Refused? then active.reason else Unset)
            && result.generation == (if active.Refused? then active.generation else 0)
  {
    HeaderBoundsActive(page);
    hide Evaluated, HeaderOk, AllZero, Load32, BankOf;
  }

  /** A rejection is recorded exactly when it is not the one recorded last, and any acceptance forgets it. */
  lemma RecordsChanges(state: State, copy: Copy, mask: Mask)
    ensures var step := Consumed(state, copy, mask);
            var r := step.result;
            var last := (state.lastReason, state.lastGeneration, state.lastBank);
            && (r.record <==> r.reason != Unset && (r.reason, r.generation, r.bank) != last)
            && (step.state.lastReason, step.state.lastGeneration, step.state.lastBank) ==
               if r.reason == Unset then (Unset, 0, 0) else (r.reason, r.generation, r.bank)
  {
    hide HeaderOk, AllZero, Header, Evaluated, BankOf, Load32;
    if copy.Stable? && HeaderOk(Header(copy.page)) {
      HeaderBoundsActive(copy.page);
    }
  }

  // ----- beginning a commit -----

  /** The least odd number above. */
  lemma OpenSeqIsNextOdd(q: uint32, odd: nat)
    requires odd > q && odd % 2 == 1
    ensures q < OpenSeq(q) <= odd && OpenSeq(q) % 2 == 1
  {
  }

  /** When a commit can begin, and where it goes: the bank that is not active, under the next odd sequence. */
  lemma BeginsExactly(w: WriterState, page: Page, c: Commit)
    ensures var b := BeginOn(w, page, c);
            var between := w.phase == Idle || w.phase == Flipped;
            var unwritten := AllZero(Header(page));
            var known := unwritten || HeaderOk(Header(page));
            && (b.result == BadState <==> !between)
            && (b.result == BadPage <==> between && !known)
            && (known ==>
                  var target := if unwritten then 1 else 1 - ActiveOf(page);
                  && 0 <= target <= 1
                  && (b.result == Exhausted <==> between && SeqOf(page, target) >= UINT32_MAX - 2)
                  && (b.result == WriteOk ==>
                        && b.writer.bank == target && b.writer.openSeq == OpenSeq(SeqOf(page, target))
                        && b.writer.commit == c && b.writer.phase == Idle
                        && (b.stores == [] <==> !unwritten)))
            && (b.result != WriteOk ==> b.writer == w && b.stores == [])
  {
    hide Load32, AllZero, ByteStores, Header;
    if HeaderOk(Header(page)) {
      HeaderBoundsActive(page);
    }
    hide HeaderOk;
  }
}
