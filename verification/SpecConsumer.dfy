/** Root's consumer of the BEAM-owned spec page (src/pd/root/spec.c). */
module SpecConsumer {
  import opened Words
  import opened Regions
  import opened SpecPage

  datatype Reject =
    | Unset
    | BadHeader
    | Torn
    | Checksum
    | Malformed
    | UndeclaredChild
    | Regressed
    | Conflict
    | UnstableCopy

  datatype Outcome = Absent | Applied | Unchanged | Kept

  datatype Kind = Empty | Rejected | Same | Newer | Skipped

  datatype Candidate =
    | Nothing
    | Refused(reason: Reject, generation: uint64)
    | Usable(policy: Retained, newer: bool)
    | NotRead
  {
    function Kind(): Kind {
      match this
      case Nothing => Empty
      case Refused(_, _) => Rejected
      case Usable(_, newer) => if newer then Newer else Same
      case NotRead => Skipped
    }
  }

  datatype Choice = ChooseNone | ChooseActive | ChooseOther

  datatype Selection = Selection(outcome: Outcome, chosen: Choice)

  /** What Root does for each pair of active bank and other bank, cell by cell. */
  function Selected(active: Kind, other: Kind): Selection {
    match (active, other)
    case (Empty, Empty) => Selection(Absent, ChooseNone)
    case (Empty, Rejected) => Selection(Absent, ChooseNone)
    case (Empty, Same) => Selection(Unchanged, ChooseOther)
    case (Empty, Newer) => Selection(Applied, ChooseOther)
    case (Empty, Skipped) => Selection(Absent, ChooseNone)
    case (Rejected, Empty) => Selection(Kept, ChooseNone)
    case (Rejected, Rejected) => Selection(Kept, ChooseNone)
    case (Rejected, Same) => Selection(Unchanged, ChooseOther)
    case (Rejected, Newer) => Selection(Applied, ChooseOther)
    case (Rejected, Skipped) => Selection(Kept, ChooseNone)
    case (Same, _) => Selection(Unchanged, ChooseActive)
    case (Newer, _) => Selection(Applied, ChooseActive)
    case (Skipped, _) => Selection(Kept, ChooseNone)
  }

  /** The table applies exactly newer banks and prefers the active bank whenever it is usable. */
  lemma SelectionMeaning(active: Kind, other: Kind)
    requires active != Skipped
    ensures var s := Selected(active, other);
            var activeUsable, otherUsable := active.Same? || active.Newer?, other.Same? || other.Newer?;
            && (s.chosen == ChooseActive <==> activeUsable)
            && (s.chosen == ChooseOther <==> !activeUsable && otherUsable)
            && (s.outcome == Applied <==> (if activeUsable then active else other) == Newer)
            && (s.outcome == Unchanged <==> (if activeUsable then active else other) == Same)
            && (s.outcome == Absent <==> active == Empty && !otherUsable)
  {
  }

  // ----- one bank -----

  /** The children this image declares, as the set bits of the presence mask. */
  type Mask = set<nat>

  ghost predicate DeclaredUpTo(c: Commit, mask: Mask, n: nat)
    requires n <= CHILD_COUNT
  {
    forall i :: 0 <= i < n && i !in mask ==> c.budget[i] == 0 && c.desired[i] == 0
  }

  /** Nothing is asked of a child outside the mask. */
  ghost predicate Declared(c: Commit, mask: Mask) {
    DeclaredUpTo(c, mask, CHILD_COUNT)
  }

  function ReasonFor(verdict: BankVerdict): Reject {
    match verdict
    case BankTorn => Torn
    case BankChecksum => Checksum
    case BankMalformed => Malformed
    case BankOk => Malformed
  }

  /** What one bank means for Root, given the policy it retains. */
  ghost function Evaluated(bytes: seq<byte>, bank: uint32, mask: Mask, retained: Retained): Candidate
    requires |bytes| == BANK_BYTES
  {
    var verdict, c := CheckBank(bytes), ContentOf(bytes);
    if Load32(bytes, SEQ_AT) == 0 then Nothing
    else if verdict != BankOk then Refused(ReasonFor(verdict), 0)
    else if c.generation == 0 then Nothing
    else if !Declared(c, mask) then Refused(UndeclaredChild, c.generation)
    else if c.generation < retained.generation then Refused(Regressed, c.generation)
    else if c.generation == retained.generation && (c.budget != retained.budget || c.desired != retained.desired) then
      Refused(Conflict, c.generation)
    else
      Usable(Policy(c.generation, bank, Load32(bytes, CRC_AT), c.budget, c.desired), c.generation > retained.generation)
  }

  /** The loop that looks for an undeclared child. */
  method CheckDeclared(c: Commit, mask: Mask) returns (ok: bool)
    ensures ok <==> Declared(c, mask)
  {
    for i := 0 to CHILD_COUNT
      invariant DeclaredUpTo(c, mask, i)
    {
      if i !in mask && (c.budget[i] != 0 || c.desired[i] != 0) {
        return false;
      }
    }
    return true;
  }

  method SameContent(c: Commit, retained: Retained) returns (same: bool)
    ensures same <==> c.budget == retained.budget && c.desired == retained.desired
  {
    for i := 0 to CHILD_COUNT
      invariant c.budget[..i] == retained.budget[..i] && c.desired[..i] == retained.desired[..i]
    {
      if c.budget[i] != retained.budget[i] || c.desired[i] != retained.desired[i] {
        return false;
      }
    }
    assert c.budget[..CHILD_COUNT] == c.budget && retained.budget[..CHILD_COUNT] == retained.budget;
    assert c.desired[..CHILD_COUNT] == c.desired && retained.desired[..CHILD_COUNT] == retained.desired;
    return true;
  }

  method Evaluate(bytes: seq<byte>, bank: uint32, mask: Mask, retained: Retained) returns (candidate: Candidate)
    requires |bytes| == BANK_BYTES
    ensures candidate == Evaluated(bytes, bank, mask, retained)
  {
    hide Declared, CheckBank, ContentOf, Load32;
    if Load32(bytes, SEQ_AT) == 0 {
      return Nothing;
    }
    var verdict := CheckBank(bytes);
    if verdict != BankOk {
      return Refused(ReasonFor(verdict), 0);
    }
    var c := ContentOf(bytes);
    if c.generation == 0 {
      return Nothing;
    }
    var declared := CheckDeclared(c, mask);
    if !declared {
      return Refused(UndeclaredChild, c.generation);
    }
    if c.generation < retained.generation {
      return Refused(Regressed, c.generation);
    }
    if c.generation == retained.generation {
      var same := SameContent(c, retained);
      if !same {
        return Refused(Conflict, c.generation);
      }
    }
    var policy := Policy(c.generation, bank, Load32(bytes, CRC_AT), c.budget, c.desired);
    return Usable(policy, c.generation > retained.generation);
  }

  // ----- one consume -----

  datatype State = State(retained: Retained, lastReason: Reject, lastGeneration: uint64, lastBank: uint32)

  const INITIAL := State(COMPILED, Unset, 0, 0)

  datatype Result = Result(outcome: Outcome, record: bool, reason: Reject, generation: uint64, bank: uint32)

  datatype Step = Step(state: State, result: Result)

  /** finish: a rejection is to be recorded when it differs from the last one recorded. */
  function Finished(state: State, outcome: Outcome, reason: Reject, generation: uint64, bank: uint32): Step {
    if reason == Unset then
      Step(State(state.retained, Unset, 0, 0), Result(outcome, false, Unset, generation, bank))
    else
      var record := reason != state.lastReason || generation != state.lastGeneration || bank != state.lastBank;
      Step(State(state.retained, reason, generation, bank), Result(outcome, record, reason, generation, bank))
  }

  /** What Root got of the page: none is mapped, the markers moved, or a stable copy. */
  datatype Copy = NoPage | Unstable | Stable(page: Page)

  /** The active bank, then the other one only when the active one is empty or refused. */
  ghost function ConsumedBanks(state: State, page: Page, active: uint32, mask: Mask): Step
    requires active <= 1
  {
    var first := Evaluated(BankOf(page, active), active, mask, state.retained);
    var second := if first.Nothing? || first.Refused? then
                    Evaluated(BankOf(page, 1 - active), 1 - active, mask, state.retained)
                  else NotRead;
    Picked(state, first, second, active)
  }

  function Picked(state: State, first: Candidate, second: Candidate, active: uint32): Step {
    var pick := Selected(first.Kind(), second.Kind());
    var reason := if first.Refused? then first.reason else Unset;
    var generation := if first.Refused? then first.generation else 0;
    var chosen := if pick.chosen == ChooseActive then first else second;
    var next := if pick.outcome == Applied && chosen.Usable? then state.(retained := chosen.policy) else state;
    Finished(next, pick.outcome, reason, generation, active)
  }

  ghost function Consumed(state: State, copy: Copy, mask: Mask): Step
  {
    match copy
    case NoPage => Finished(state, Absent, Unset, 0, 0)
    case Unstable => Finished(state, Kept, UnstableCopy, 0, 0)
    case Stable(page) =>
      if AllZero(Header(page)) then Finished(state, Absent, Unset, 0, 0)
      else if !HeaderOk(Header(page)) then Finished(state, Kept, BadHeader, 0, 0)
      else ConsumedBanks(state, page, ActiveOf(page), mask)
  }

  /** The markers read before and after the copy agree with each other and with the copy's own. */
  predicate MarkersHold(before: Page, copy: Page, after: Page) {
    && ActiveOf(before) == ActiveOf(after) == ActiveOf(copy)
    && SeqOf(before, 0) == SeqOf(after, 0) == SeqOf(copy, 0)
    && SeqOf(before, 1) == SeqOf(after, 1) == SeqOf(copy, 1)
  }

  function Copied(before: Page, copy: Page, after: Page): (c: Copy)
    ensures before == copy == after ==> c == Stable(copy)
  {
    if MarkersHold(before, copy, after) then Stable(copy) else Unstable
  }

  class SpecState {
    var retained: Retained
    var lastReason: Reject
    var lastGeneration: uint64
    var lastBank: uint32

    function Value(): State
      reads this
    {
      State(retained, lastReason, lastGeneration, lastBank)
    }

    constructor ()
      ensures Value() == INITIAL
    {
      retained, lastReason, lastGeneration, lastBank := COMPILED, Unset, 0, 0;
    }

    method Finish(outcome: Outcome, reason: Reject, generation: uint64, bank: uint32) returns (result: Result)
      modifies this
      ensures Step(Value(), result) == Finished(old(Value()), outcome, reason, generation, bank)
    {
      if reason == Unset {
        lastReason, lastGeneration, lastBank := Unset, 0, 0;
        return Result(outcome, false, Unset, generation, bank);
      }
      var record := reason != lastReason || generation != lastGeneration || bank != lastBank;
      lastReason, lastGeneration, lastBank := reason, generation, bank;
      return Result(outcome, record, reason, generation, bank);
    }

    /** copy_page: byte by byte, then the markers are compared with the ones read first. */
    method Snapshot(shared: array<byte>, scratch: array<byte>) returns (stable: bool)
      requires shared.Length == scratch.Length == PAGE_BYTES && shared != scratch
      modifies scratch
      ensures scratch[..] == shared[..]
      ensures stable == MarkersHold(shared[..], scratch[..], shared[..])
    {
      var before := shared[..];
      for i := 0 to PAGE_BYTES
        invariant scratch[..i] == shared[..i]
      {
        scratch[i] := shared[i];
      }
      assert scratch[..] == scratch[..PAGE_BYTES] && shared[..] == shared[..PAGE_BYTES];
      return MarkersHold(before, scratch[..], shared[..]);
    }

    /**
     * root_spec_consume with nobody storing meanwhile. The interleaved copy is the reader of the
     * protocol model.
     */
    method Consume(shared: array?<byte>, scratch: array?<byte>, mask: Mask) returns (result: Result)
      requires shared != null ==> shared.Length == PAGE_BYTES && shared != scratch
      requires scratch != null ==> scratch.Length == PAGE_BYTES
      modifies this, if scratch == null then {} else {scratch}
      ensures scratch == null ==> Value() == old(Value()) && result == Result(Absent, false, Unset, 0, 0)
      ensures scratch != null ==>
        var page := if shared == null then Zeros(PAGE_BYTES) else old(shared[..]);
        var copy := if shared == null then NoPage else Copied(page, page, page);
        Step(Value(), result) == Consumed(old(Value()), copy, mask)
    {
      hide HeaderOk, Evaluated, Load32, AllZero, Finished, MarkersHold;
      if scratch == null {
        return Result(Absent, false, Unset, 0, 0);
      }
      if shared == null {
        result := Finish(Absent, Unset, 0, 0);
        return;
      }
      var stable := Snapshot(shared, scratch);
      if !stable {
        result := Finish(Kept, UnstableCopy, 0, 0);
        return;
      }
      var page := scratch[..];
      if AllZero(Header(page)) {
        result := Finish(Absent, Unset, 0, 0);
        return;
      }
      if !HeaderOk(Header(page)) {
        result := Finish(Kept, BadHeader, 0, 0);
        return;
      }
      HeaderBoundsActive(page);
      result := ConsumeBanks(page, ActiveOf(page), mask);
    }

    method ConsumeBanks(page: Page, active: uint32, mask: Mask) returns (result: Result)
      requires active <= 1
      modifies this
      ensures Step(Value(), result) == ConsumedBanks(old(Value()), page, active, mask)
    {
      hide Evaluated, Load32, Finished;
      var first := Evaluate(BankOf(page, active), active, mask, retained);
      var second := NotRead;
      if first.Nothing? || first.Refused? {
        second := Evaluate(BankOf(page, 1 - active), 1 - active, mask, retained);
      }
      var pick := Selected(first.Kind(), second.Kind());
      var reason := if first.Refused? then first.reason else Unset;
      var generation := if first.Refused? then first.generation else 0;
      if pick.outcome == Applied {
        retained := if pick.chosen == ChooseActive then first.policy else second.policy;
      }
      result := Finish(pick.outcome, reason, generation, active);
    }
  }

  lemma HeaderBoundsActive(page: Page)
    requires HeaderOk(Header(page))
    ensures ActiveOf(page) <= 1
  {
  }

  // ----- what a consume means -----

  /** A bank whose bytes Root would take as its policy. */
  ghost predicate Acceptable(bytes: seq<byte>, mask: Mask) {
    && |bytes| == BANK_BYTES
    && CheckBank(bytes) == BankOk
    && ContentOf(bytes).generation != 0
    && Declared(ContentOf(bytes), mask)
  }

  /**
   * The retained policy changes exactly on Applied, only to the whole content of one acceptable
   * bank, and only to a higher generation.
   */
  lemma AppliesOneWholeBank(state: State, copy: Copy, mask: Mask)
    ensures var step := Consumed(state, copy, mask);
            if step.result.outcome == Applied then
              && step.state.retained.generation > state.retained.generation
              && copy.Stable?
              && exists bank: nat ::
                   bank <= 1 && Acceptable(BankOf(copy.page, bank), mask) &&
                   step.state.retained.Content() == ContentOf(BankOf(copy.page, bank))
            else step.state.retained == state.retained
  {
    hide CheckBank, ContentOf, Declared, HeaderOk, AllZero, Load32, Region;
    if copy.Stable? && Consumed(state, copy, mask).result.outcome == Applied {
      var page := copy.page;
      HeaderBoundsActive(page);
      var active := ActiveOf(page);
      var first := Evaluated(BankOf(page, active), active, mask, state.retained);
      if first.Usable? {
        assert Acceptable(BankOf(page, active), mask);
      } else {
        assert Acceptable(BankOf(page, 1 - active), mask);
      }
    }
  }

  /** How a bank reads again once Root retains r', no older than r. */
  lemma Reevaluated(bytes: seq<byte>, bank: uint32, mask: Mask, r: Retained, r': Retained)
    requires |bytes| == BANK_BYTES && r.generation <= r'.generation
    ensures var e, e' := Evaluated(bytes, bank, mask, r), Evaluated(bytes, bank, mask, r');
            && (e.Nothing? ==> e'.Nothing?)
            && (e.Refused? && e.reason != Conflict ==> e' == e)
            && (e.Refused? ==> e.reason != Unset)
            && (e.Refused? && e.reason == Conflict && r.generation < r'.generation ==>
                  e' == Refused(Regressed, e.generation))
            && (e.Usable? ==> e.newer == (e.policy.generation > r.generation))
            && (e.Usable? && r' == e.policy ==> e' == Usable(e.policy, false))
  {
    hide CheckBank, ContentOf, Declared, Load32;
  }

  /**
   * Reading the same page again changes no policy, and records nothing again: it records a rejection
   * in exactly one case, where the first read refused the active bank as conflicting and applied the
   * other bank, and then it is another one, the same bank refused as a regression.
   */
  lemma SecondReadSettles(state: State, copy: Copy, mask: Mask)
    ensures var once := Consumed(state, copy, mask);
            var twice := Consumed(once.state, copy, mask);
            && twice.state.retained == once.state.retained
            && twice.result.outcome != Applied
            && (twice.result.record <==> once.result.reason == Conflict && once.result.outcome == Applied)
            && (twice.result.record ==> twice.result.reason == Regressed && once.result.reason == Conflict)
  {
    hide Evaluated, HeaderOk, AllZero, Load32;
    if copy.Stable? && !AllZero(Header(copy.page)) && HeaderOk(Header(copy.page)) {
      HeaderBoundsActive(copy.page);
      BanksSettle(state, copy.page, ActiveOf(copy.page), mask);
    }
  }

  lemma BanksSettle(state: State, page: Page, active: uint32, mask: Mask)
    requires active <= 1
    ensures var once := ConsumedBanks(state, page, active, mask);
            var twice := ConsumedBanks(once.state, page, active, mask);
            && twice.state.retained == once.state.retained
            && twice.result.outcome != Applied
            && (twice.result.record <==> once.result.reason == Conflict && once.result.outcome == Applied)
            && (twice.result.record ==> twice.result.reason == Regressed && once.result.reason == Conflict)
  {
    hide Evaluated, BankOf;
    var once := ConsumedBanks(state, page, active, mask);
    Reevaluated(BankOf(page, active), active, mask, state.retained, state.retained);
    Reevaluated(BankOf(page, 1 - active), 1 - active, mask, state.retained, state.retained);
    Reevaluated(BankOf(page, active), active, mask, state.retained, once.state.retained);
    Reevaluated(BankOf(page, 1 - active), 1 - active, mask, state.retained, once.state.retained);
  }
}
