/** A page that is reported twice, under two reasons (src/pd/root/spec.c). */
module SpecConflict {
  import opened Words
  import opened Regions
  import opened SpecPage
  import opened SpecConsumer
  import SpecRecovery

  const NONE_ASKED := Zeros(CHILD_COUNT)

  /** Generation 1 again, but asking for another budget. */
  const CONFLICTING: Commit := PolicyContent(1, NONE_ASKED[0 := 1], NONE_ASKED)
  const NEWER: Commit := PolicyContent(2, NONE_ASKED, NONE_ASKED)

  /** The conflicting commit is active in bank 0; a newer one is sealed in bank 1. */
  const PAGE: Page := SpecRecovery.HeaderWith(SpecRecovery.INIT_STORES) + SealedBank(CONFLICTING, 2) +
                      SealedBank(NEWER, 2)

  /** Root has applied generation 1 with nothing asked. */
  const HELD := State(Policy(1, 1, 0, NONE_ASKED, NONE_ASKED), Unset, 0, 0)

  lemma PageParts()
    ensures Header(PAGE) == SpecRecovery.HeaderWith(SpecRecovery.INIT_STORES)
    ensures BankOf(PAGE, 0) == SealedBank(CONFLICTING, 2) && BankOf(PAGE, 1) == SealedBank(NEWER, 2)
    ensures HeaderOk(Header(PAGE)) && !AllZero(Header(PAGE)) && ActiveOf(PAGE) == 0
  {
    hide HeaderOk, SealedBank, SpecRecovery.HeaderWith, Value;
    SpecRecovery.HeaderReads(SpecRecovery.INIT_STORES);
    SelectsFirst();
  }

  lemma SelectsFirst()
    ensures Load32(SpecRecovery.HeaderWith(SpecRecovery.INIT_STORES), ACTIVE_AT) == 0
  {
    hide Bytes, Value;
    var h := SpecRecovery.HeaderWith(SpecRecovery.INIT_STORES);
    assert AllZero(h[ACTIVE_AT..ACTIVE_AT + 4]);
    ValueZero(h[ACTIVE_AT..ACTIVE_AT + 4]);
  }

  /**
   * The first read reports a conflict and applies the other bank; the second reports the same bank
   * again, now as a regression, and nothing after that.
   */
  lemma ConflictThenRegression()
    ensures var once := Consumed(HELD, Stable(PAGE), {0});
            var twice := Consumed(once.state, Stable(PAGE), {0});
            && once.result == Result(Applied, true, Conflict, 1, 0)
            && twice.result == Result(Unchanged, true, Regressed, 1, 0)
            && !Consumed(twice.state, Stable(PAGE), {0}).result.record
  {
    hide HeaderOk, SealedBank, Load32, CheckBank, ContentOf, BankOf, Header, ActiveOf, AllZero, DeclaredUpTo;
    PageParts();
    SealedContent(CONFLICTING, 2);
    SealedContent(NEWER, 2);
    SealedBankChecks(CONFLICTING, 2);
    SealedBankChecks(NEWER, 2);
    AllDeclared();
    assert CONFLICTING.budget[0] != HELD.retained.budget[0];
  }

  lemma AllDeclared()
    ensures Declared(CONFLICTING, {0}) && Declared(NEWER, {0})
  {
  }
}
