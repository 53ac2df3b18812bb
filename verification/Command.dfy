/** Root's command decisions: frame checks, token bucket, retry fence and tallies (src/pd/root/command.c). */
module Command {
  import opened Words
  import opened RootPolicy

  const COMMAND_WORDS := 4

  type FourWords = w: seq<uint64> | |w| == COMMAND_WORDS witness [0, 0, 0, 0]

  const NO_VALUES: FourWords := [0, 0, 0, 0]

  type Opcode = o: int | 0 <= o < 0x1_0000

  const HELLO: Opcode := 1
  const RESTART_CHILD: Opcode := 2
  const SYNC: Opcode := 7

  datatype OpcodeClass = InvalidClass | Handshake | Barrier | Preconditioned | Slot

  /** An opcode's class and the words a well-formed request leaves zero. */
  datatype OpcodeRow = OpcodeRow(kind: OpcodeClass, unused: set<nat>)

  function RowOf(tag: nat): OpcodeRow {
    match tag
    case 1 => OpcodeRow(Handshake, {1, 2, 3})
    case 2 => OpcodeRow(Preconditioned, {})
    case 3 => OpcodeRow(Slot, {})
    case 4 => OpcodeRow(Slot, {})
    case 5 => OpcodeRow(Slot, {})
    case 6 => OpcodeRow(Slot, {})
    case 7 => OpcodeRow(Barrier, {0, 1, 2, 3})
    case _ => OpcodeRow(InvalidClass, {})
  }

  datatype CtlResult = Ok | AlreadyDone | RateLimited | BadArg | BadVersion | Refused | Stale

  datatype Refill = Running | Off

  /** The last completed command and its reply. */
  datatype Memo = Memo(opcode: Opcode, args: FourWords, values: FourWords)

  datatype Tallies = Tallies(accepted: uint64, rateLimited: uint64, rejected: uint64)

  datatype CommandFields = CommandFields(
    refill: Refill,
    capacity: uint32,
    tokens: uint32,
    interval: uint64,
    lastTicks: uint64,
    fence: Option<Memo>,
    tallies: Tallies)

  type CommandState = s: CommandFields | s.tokens <= s.capacity && (s.refill == Running ==> s.interval != 0)
    witness CommandFields(Off, 0, 0, 0, 0, None, Tallies(0, 0, 0))

  /** Root's state as a command sees it. Masks are the sets of their bits. */
  datatype RootView = RootView(
    abiVersion: uint32,
    rootGeneration: uint64,
    beamIncarnation: uint64,
    cntfrq: uint64,
    seqWord: uint64,
    publishing: bool,
    present: set<nat>,
    drivers: set<nat>,
    records: seq<ChildRecord>)

  datatype Decision = Decision(
    result: CtlResult,
    restart: bool,
    child: uint32,
    opcode: Opcode,
    args: FourWords,
    values: FourWords)

  datatype Step = Step(state: CommandState, decision: Decision)

  // ----- tallies -----

  function Bump(n: uint64): uint64 {
    (n + 1) % 0x1_0000_0000_0000_0000
  }

  function Counted(t: Tallies, result: CtlResult): Tallies {
    match result
    case Ok => t.(accepted := Bump(t.accepted))
    case AlreadyDone => t.(accepted := Bump(t.accepted))
    case RateLimited => t.(rateLimited := Bump(t.rateLimited))
    case _ => t.(rejected := Bump(t.rejected))
  }

  function Tallied(s: CommandState, result: CtlResult): CommandState {
    s.(tallies := Counted(s.tallies, result))
  }

  // ----- init and frame -----

  /** The refill interval, rounded up so tokens never arrive faster than configured. */
  function IntervalFor(capacity: uint32, refillTicks: uint64): (interval: uint64)
    requires capacity != 0
    ensures capacity * (interval - 1) < refillTicks <= capacity * interval || refillTicks == interval == 0
  {
    WholeIntervals(refillTicks, capacity);
    var q := refillTicks / capacity;
    assert refillTicks == q * capacity + refillTicks % capacity;
    if refillTicks % capacity != 0 then
      RoundedUp(q, capacity);
      AtMost(q, capacity, refillTicks);
      q + 1
    else
      RoundedDown(q, capacity);
      q
  }

  lemma RoundedUp(q: nat, capacity: nat)
    ensures capacity * (q + 1) == q * capacity + capacity && capacity * (q + 1 - 1) == q * capacity
  {
  }

  lemma RoundedDown(q: nat, capacity: nat)
    ensures capacity * (q - 1) == q * capacity - capacity && capacity * q == q * capacity
  {
  }

  lemma AtMost(q: nat, capacity: nat, ticks: uint64)
    requires capacity != 0 && q * capacity < ticks
    ensures q < UINT64_MAX
  {
    AtLeast(q, capacity);
  }

  function Initial(capacity: uint32, refillTicks: uint64, now: uint64, nowValid: bool): CommandState {
    var on := capacity != 0 && refillTicks != 0 && nowValid;
    CommandFields(if on then Running else Off, capacity, capacity,
                  if on then IntervalFor(capacity, refillTicks) else 0, now, None, Tallies(0, 0, 0))
  }

  function FrameResult(channel: uint32, ppChannel: uint32, tag: uint64, count: uint64): CtlResult {
    if channel != ppChannel then Refused
    else if count != COMMAND_WORDS || RowOf(tag).kind == InvalidClass then BadArg
    else Ok
  }

  function Framed(s: CommandState, result: CtlResult): CommandState {
    if result == Ok then s else s.(tallies := s.tallies.(rejected := Bump(s.tallies.rejected)))
  }

  // ----- the token bucket -----

  /** One clock sample through the refill machine. */
  function Refilled(s: CommandState, now: uint64, nowValid: bool): CommandState {
    if s.refill == Off then s
    else if !nowValid || now < s.lastTicks then s.(refill := Off)
    else
      var due := (now - s.lastTicks) / s.interval;
      WholeIntervals(now - s.lastTicks, s.interval);
      if due == 0 then s
      else if due >= s.capacity - s.tokens then s.(tokens := s.capacity, lastTicks := now)
      else s.(tokens := s.tokens + due, lastTicks := s.lastTicks + due * s.interval)
  }

  // ----- decisions -----

  predicate Malformed(opcode: Opcode, args: FourWords) {
    var row := RowOf(opcode);
    row.kind == InvalidClass || exists i :: 0 <= i < COMMAND_WORDS && i in row.unused && args[i] != 0
  }

  predicate Repeats(fence: Option<Memo>, opcode: Opcode, args: FourWords) {
    fence.Some? && fence.value.opcode == opcode && fence.value.args == args
  }

  /** root_child_from_raw on a word that fits 32 bits. */
  predicate NamesChild(view: RootView, word: uint64) {
    word <= UINT32_MAX && word < |view.records| && word < 64 && word in view.present
  }

  function Reply(opcode: Opcode, args: FourWords, result: CtlResult, values: FourWords): Decision {
    Decision(result, false, 0, opcode, args, values)
  }

  /** decide_restart: fence, child, standing, then the words the caller observed. */
  function RestartDecision(fence: Option<Memo>, view: RootView, opcode: Opcode, args: FourWords): Decision {
    if Repeats(fence, opcode, args) then Reply(opcode, args, AlreadyDone, fence.value.values)
    else if !NamesChild(view, args[0]) then Reply(opcode, args, BadArg, NO_VALUES)
    else
      var record := view.records[args[0]];
      if args[0] !in view.drivers || record.state == Gone || !view.publishing then
        Reply(opcode, args, Refused, NO_VALUES)
      else if args[1] != view.rootGeneration || args[2] != view.seqWord || args[3] != record.lifetimeCount then
        Reply(opcode, args, Stale, [view.rootGeneration, view.seqWord, record.lifetimeCount, 0])
      else Decision(Ok, true, args[0], opcode, args, NO_VALUES)
  }

  /** root_command_decide on a well-formed request that holds a token. */
  function Granted(s: CommandState, view: RootView, opcode: Opcode, args: FourWords): Step {
    match RowOf(opcode).kind
    case Handshake =>
      var result := if args[0] == view.abiVersion then Ok else BadVersion;
      Step(Tallied(s, result),
           Reply(opcode, args, result, [view.abiVersion, view.rootGeneration, view.beamIncarnation, view.cntfrq]))
    case Barrier =>
      if !view.publishing then Step(Tallied(s, Refused), Reply(opcode, args, Refused, NO_VALUES))
      else
        var t := Tallied(s, Ok);
        Step(t, Reply(opcode, args, Ok, [view.seqWord, t.tallies.accepted, t.tallies.rateLimited, t.tallies.rejected]))
    case Preconditioned =>
      var d := RestartDecision(s.fence, view, opcode, args);
      Step(Tallied(s, d.result), d)
    case _ => Step(Tallied(s, Refused), Reply(opcode, args, Refused, NO_VALUES))
  }

  function Decided(s: CommandState, view: RootView, opcode: Opcode, args: FourWords, now: uint64,
      nowValid: bool): Step {
    if Malformed(opcode, args) then Step(Tallied(s, BadArg), Reply(opcode, args, BadArg, NO_VALUES))
    else
      var r := Refilled(s, now, nowValid);
      if r.tokens == 0 then Step(Tallied(r, RateLimited), Reply(opcode, args, RateLimited, NO_VALUES))
      else Granted(r.(tokens := r.tokens - 1), view, opcode, args)
  }

  function Completed(s: CommandState, d: Decision): CommandState {
    if !d.restart then s else s.(fence := Some(Memo(d.opcode, d.args, d.values)))
  }

  // ----- the state machine -----

  class CommandPath {
    var refill: Refill
    var capacity: uint32
    var tokens: uint32
    var interval: uint64
    var lastTicks: uint64
    var fence: Option<Memo>
    var tallies: Tallies

    ghost predicate Valid()
      reads this
    {
      tokens <= capacity && (refill == Running ==> interval != 0)
    }

    ghost function Value(): CommandState
      requires Valid()
      reads this
    {
      CommandFields(refill, capacity, tokens, interval, lastTicks, fence, tallies)
    }

    constructor (newCapacity: uint32, refillTicks: uint64, now: uint64, nowValid: bool)
      ensures Valid() && Value() == Initial(newCapacity, refillTicks, now, nowValid)
    {
      refill, capacity, tokens, interval, lastTicks := Off, newCapacity, newCapacity, 0, now;
      fence, tallies := None, Tallies(0, 0, 0);
      if newCapacity != 0 && refillTicks != 0 && nowValid {
        interval := IntervalFor(newCapacity, refillTicks);
        refill := Running;
      }
    }

    method Frame(channel: uint32, ppChannel: uint32, tag: uint64, count: uint64) returns (result: CtlResult)
      requires Valid()
      modifies this`tallies
      ensures Valid()
      ensures result == FrameResult(channel, ppChannel, tag, count)
      ensures Value() == Framed(old(Value()), result)
      ensures result == Ok ==> 1 <= tag <= 7
    {
      result := Ok;
      if channel != ppChannel {
        result := Refused;
      } else if count != COMMAND_WORDS || RowOf(tag).kind == InvalidClass {
        result := BadArg;
      }
      if result != Ok {
        tallies := tallies.(rejected := Bump(tallies.rejected));
      }
    }

    method RefillStep(now: uint64, nowValid: bool)
      requires Valid()
      modifies this`refill, this`tokens, this`lastTicks
      ensures Valid() && Value() == Refilled(old(Value()), now, nowValid)
    {
      if refill == Off {
        return;
      }
      if !nowValid || now < lastTicks {
        refill := Off;
        return;
      }
      var due := (now - lastTicks) / interval;
      WholeIntervals(now - lastTicks, interval);
      if due == 0 {
        return;
      }
      var room := capacity - tokens;
      if due >= room {
        tokens, lastTicks := capacity, now;
        return;
      }
      tokens, lastTicks := tokens + due, lastTicks + due * interval;
    }

    method FenceRepeats(opcode: Opcode, args: FourWords) returns (repeats: bool)
      ensures repeats == Repeats(fence, opcode, args)
    {
      if fence.None? || fence.value.opcode != opcode {
        return false;
      }
      for i := 0 to COMMAND_WORDS
        invariant forall k :: 0 <= k < i ==> fence.value.args[k] == args[k]
      {
        if fence.value.args[i] != args[i] {
          return false;
        }
      }
      return true;
    }

    method DecideRestart(view: RootView, opcode: Opcode, args: FourWords) returns (d: Decision)
      ensures d == RestartDecision(fence, view, opcode, args)
    {
      var repeats := FenceRepeats(opcode, args);
      if repeats {
        return Reply(opcode, args, AlreadyDone, fence.value.values);
      }
      if !NamesChild(view, args[0]) {
        return Reply(opcode, args, BadArg, NO_VALUES);
      }
      var record := view.records[args[0]];
      if args[0] !in view.drivers || record.state == Gone || !view.publishing {
        return Reply(opcode, args, Refused, NO_VALUES);
      }
      if args[1] != view.rootGeneration || args[2] != view.seqWord || args[3] != record.lifetimeCount {
        return Reply(opcode, args, Stale, [view.rootGeneration, view.seqWord, record.lifetimeCount, 0]);
      }
      return Decision(Ok, true, args[0], opcode, args, NO_VALUES);
    }

    method CheckMalformed(opcode: Opcode, args: FourWords) returns (malformed: bool)
      ensures malformed == Malformed(opcode, args)
    {
      var row := RowOf(opcode);
      malformed := row.kind == InvalidClass;
      for i := 0 to COMMAND_WORDS
        invariant malformed <==> row.kind == InvalidClass || exists k :: 0 <= k < i && k in row.unused && args[k] != 0
      {
        malformed := malformed || (i in row.unused && args[i] != 0);
      }
    }

    method Decide(view: RootView, opcode: Opcode, args: FourWords, now: uint64, nowValid: bool) returns (d: Decision)
      requires Valid()
      modifies this`refill, this`tokens, this`lastTicks, this`tallies
      ensures Valid()
      ensures Step(Value(), d) == Decided(old(Value()), view, opcode, args, now, nowValid)
    {
      hide Refilled, Malformed, RestartDecision;
      var malformed := CheckMalformed(opcode, args);
      if malformed {
        tallies := Counted(tallies, BadArg);
        return Reply(opcode, args, BadArg, NO_VALUES);
      }
      RefillStep(now, nowValid);
      if tokens == 0 {
        tallies := Counted(tallies, RateLimited);
        return Reply(opcode, args, RateLimited, NO_VALUES);
      }
      tokens := tokens - 1;
      var kind := RowOf(opcode).kind;
      if kind == Handshake {
        var result := if args[0] == view.abiVersion then Ok else BadVersion;
        d := Reply(opcode, args, result, [view.abiVersion, view.rootGeneration, view.beamIncarnation, view.cntfrq]);
      } else if kind == Barrier && view.publishing {
        tallies := Counted(tallies, Ok);
        return Reply(opcode, args, Ok, [view.seqWord, tallies.accepted, tallies.rateLimited, tallies.rejected]);
      } else if kind == Preconditioned {
        d := DecideRestart(view, opcode, args);
      } else {
        d := Reply(opcode, args, Refused, NO_VALUES);
      }
      tallies := Counted(tallies, d.result);
    }

    method Complete(d: Decision)
      requires Valid()
      modifies this`fence
      ensures Valid() && Value() == Completed(old(Value()), d)
    {
      if !d.restart {
        return;
      }
      fence := Some(Memo(d.opcode, d.args, d.values));
    }
  }
}
