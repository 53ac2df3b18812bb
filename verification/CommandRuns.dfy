/** What the command path keeps over whole runs (src/pd/root/command.c). */
module CommandRuns {
  import opened Words
  import opened RootPolicy
  import opened Command

  /** One call into the command path, with any inputs. */
  datatype Call =
    | Framing(channel: uint32, ppChannel: uint32, tag: uint64, count: uint64)
    | Deciding(view: RootView, opcode: Opcode, args: FourWords, now: uint64, nowValid: bool)
    | Completing(decision: Decision)

  /**
   * The state, and what an observer counts beside it: tokens spent, the tick of the last
   * saturation with the tokens added and spent since, and replies by tally.
   */
  datatype Track = Track(
    state: CommandState,
    spent: nat,
    saturated: nat,
    added: nat,
    spentSince: nat,
    accepted: nat,
    rateLimited: nat,
    rejected: nat)

  function Start(capacity: uint32, refillTicks: uint64, t0: uint64, valid: bool): Track {
    Track(Initial(capacity, refillTicks, t0, valid), 0, t0, 0, 0, 0, 0, 0)
  }

  /** Every well-formed decision that is not rate limited has spent one token. */
  predicate Spends(opcode: Opcode, args: FourWords, result: CtlResult) {
    !Malformed(opcode, args) && result != RateLimited
  }

  /** A sample that fills the bucket to the brim, losing what was due beyond it. */
  predicate Saturates(s: CommandState, now: uint64, nowValid: bool) {
    && s.refill == Running && nowValid && s.lastTicks <= now
    && var due := (now - s.lastTicks) / s.interval; due != 0 && due >= s.capacity - s.tokens
  }

  function Observed(t: Track, result: CtlResult): (r: Track)
    ensures r == t.(accepted := r.accepted, rateLimited := r.rateLimited, rejected := r.rejected)
  {
    if result == Ok || result == AlreadyDone then t.(accepted := t.accepted + 1)
    else if result == RateLimited then t.(rateLimited := t.rateLimited + 1)
    else t.(rejected := t.rejected + 1)
  }

  function Sampled(t: Track, now: uint64, nowValid: bool): Track {
    var r := Refilled(t.state, now, nowValid);
    if Saturates(t.state, now, nowValid) then t.(state := r, saturated := now, added := 0, spentSince := 0)
    else t.(state := r, added := t.added + if r.tokens >= t.state.tokens then r.tokens - t.state.tokens else 0)
  }

  function Called(t: Track, call: Call): Track {
    match call
    case Framing(channel, ppChannel, tag, count) =>
      var result := FrameResult(channel, ppChannel, tag, count);
      var t' := t.(state := Framed(t.state, result));
      if result == Ok then t' else t'.(rejected := t.rejected + 1)
    case Deciding(view, opcode, args, now, nowValid) =>
      var d := Decided(t.state, view, opcode, args, now, nowValid);
      var t1 := if Malformed(opcode, args) then t else Sampled(t, now, nowValid);
      var spends := Spends(opcode, args, d.decision.result);
      var t2 := if spends then t1.(spent := t1.spent + 1, spentSince := t1.spentSince + 1) else t1;
      Observed(t2, d.decision.result).(state := d.state)
    case Completing(d) => t.(state := Completed(t.state, d))
  }

  function AfterCalls(start: Track, calls: seq<Call>): Track {
    if calls == [] then start else Called(AfterCalls(start, calls[..|calls| - 1]), calls[|calls| - 1])
  }

  // ----- the token bucket -----

  /** The bucket's books: exact since the last saturation, and bounded since the start. */
  ghost predicate Balanced(t: Track, capacity: uint32, interval: nat, t0: nat) {
    && t.state.capacity == capacity && t.state.interval == interval
    && t.state.tokens + t.spentSince == capacity + t.added
    && t.state.lastTicks == t.saturated + t.added * interval
    && t0 <= t.state.lastTicks
    && (t.spent + t.state.tokens) * interval <= capacity * interval + (t.state.lastTicks - t0)
    && (interval == 0 ==> t.spent + t.state.tokens == capacity && t.state.refill == Off)
  }

  lemma Distribute(a: nat, b: nat, interval: nat)
    ensures (a + b) * interval == a * interval + b * interval
  {
  }

  /** Tokens that were due are paid for by the ticks they took. */
  lemma DueIsPaid(held: nat, due: nat, interval: nat, capacity: nat, elapsed: nat)
    requires held * interval <= capacity * interval + elapsed
    ensures (held + due) * interval <= capacity * interval + elapsed + due * interval
  {
    Distribute(held, due, interval);
  }

  lemma FewerTokens(room: nat, due: nat, interval: nat)
    requires room <= due
    ensures room * interval <= due * interval
  {
    Regroup(due, room, interval);
  }

  /** A clock sample keeps the books balanced. */
  lemma SampleBalances(t: Track, now: uint64, nowValid: bool, capacity: uint32, interval: uint64, t0: nat)
    requires Balanced(t, capacity, interval, t0)
    ensures Balanced(Sampled(t, now, nowValid), capacity, interval, t0)
    ensures var latest := if nowValid && now > t.state.lastTicks then now else t.state.lastTicks;
            Sampled(t, now, nowValid).state.lastTicks <= latest
    ensures Sampled(t, now, nowValid).spent == t.spent
  {
    var s := t.state;
    if s.refill == Running && nowValid && s.lastTicks <= now {
      var due := (now - s.lastTicks) / s.interval;
      WholeIntervals(now - s.lastTicks, s.interval);
      var room := capacity - s.tokens;
      if due != 0 && due >= room {
        FewerTokens(room, due, interval);
        DueIsPaid(t.spent + s.tokens, room, interval, capacity, s.lastTicks - t0);
      } else if due != 0 {
        DueIsPaid(t.spent + s.tokens, due, interval, capacity, s.lastTicks - t0);
        Distribute(t.added, due, interval);
      }
    }
  }

  /** Whatever is decided, the state is the sampled one less the token spent. */
  lemma DecisionSpends(s: CommandState, view: RootView, opcode: Opcode, args: FourWords, now: uint64, nowValid: bool)
    ensures var d := Decided(s, view, opcode, args, now, nowValid);
            var r := if Malformed(opcode, args) then s else Refilled(s, now, nowValid);
            var spends := Spends(opcode, args, d.decision.result);
            && (spends ==> r.tokens > 0)
            && d.state.(tallies := s.tallies) ==
               r.(tokens := if spends && r.tokens > 0 then r.tokens - 1 else r.tokens, tallies := s.tallies)
            && d.state.tallies == Counted(s.tallies, d.decision.result)
  {
    hide Malformed;
    if !Malformed(opcode, args) {
      RefillKeepsTallies(s, now, nowValid);
      hide Refilled;
    }
  }

  lemma RefillKeepsTallies(s: CommandState, now: uint64, nowValid: bool)
    ensures Refilled(s, now, nowValid).tallies == s.tallies && Refilled(s, now, nowValid).fence == s.fence
  {
  }

  lemma {:induction false} RunBalances(start: Track, calls: seq<Call>, capacity: uint32, interval: uint64, t0: nat,
      latest: uint64)
    requires Balanced(start, capacity, interval, t0) && start.state.lastTicks <= latest
    requires forall c :: c in calls && c.Deciding? && c.nowValid ==> c.now <= latest
    ensures Balanced(AfterCalls(start, calls), capacity, interval, t0)
    ensures AfterCalls(start, calls).state.lastTicks <= latest
  {
    hide Called;
    if calls != [] {
      var n := |calls| - 1;
      assert calls[n] in calls;
      RunBalances(start, calls[..n], capacity, interval, t0, latest);
      CallBalances(AfterCalls(start, calls[..n]), calls[n], capacity, interval, t0);
    }
  }

  lemma CallBalances(t: Track, call: Call, capacity: uint32, interval: uint64, t0: nat)
    requires Balanced(t, capacity, interval, t0)
    ensures Balanced(Called(t, call), capacity, interval, t0)
    ensures var sampled := call.Deciding? && call.nowValid && call.now > t.state.lastTicks;
            var latest := if sampled then call.now else t.state.lastTicks;
            Called(t, call).state.lastTicks <= latest
  {
    if call.Deciding? {
      hide Decided, Sampled, Malformed, Balanced, Observed;
      var t1 := if Malformed(call.opcode, call.args) then t else Sampled(t, call.now, call.nowValid);
      DecisionSpends(t.state, call.view, call.opcode, call.args, call.now, call.nowValid);
      SampledState(t, call.now, call.nowValid);
      SampleBalances(t, call.now, call.nowValid, capacity, interval, t0);
      SpendBalances(t1, Called(t, call), capacity, interval, t0);
    }
  }

  lemma SampledState(t: Track, now: uint64, nowValid: bool)
    ensures Sampled(t, now, nowValid).state == Refilled(t.state, now, nowValid)
  {
  }

  /** Spending a token moves it from the bucket to the counts; anything else leaves the books alone. */
  lemma SpendBalances(t: Track, t': Track, capacity: uint32, interval: uint64, t0: nat)
    requires Balanced(t, capacity, interval, t0)
    requires t'.saturated == t.saturated && t'.added == t.added
    requires t'.state.(tallies := t.state.tallies, tokens := t.state.tokens) == t.state
    requires t'.spent - t.spent == t'.spentSince - t.spentSince == t.state.tokens - t'.state.tokens
    ensures Balanced(t', capacity, interval, t0)
  {
  }

  /**
   * From init at t0, tokens spent by any tick no sample exceeds are at most the capacity plus one
   * per whole interval since t0, and the interval spreads the capacity over at least refillTicks.
   */
  lemma SpentWithinRate(
    capacity: uint32, refillTicks: uint64, t0: uint64, valid: bool, calls: seq<Call>, now: uint64)
    requires t0 <= now && forall c :: c in calls && c.Deciding? && c.nowValid ==> c.now <= now
    ensures var interval := Initial(capacity, refillTicks, t0, valid).interval;
            var t := AfterCalls(Start(capacity, refillTicks, t0, valid), calls);
            if interval == 0 then t.spent <= capacity
            else t.spent <= capacity + (now - t0) / interval && refillTicks <= capacity * interval
  {
    hide Called, Balanced, AfterCalls;
    var start := Start(capacity, refillTicks, t0, valid);
    var interval := start.state.interval;
    StartBalances(capacity, refillTicks, t0, valid);
    RunBalances(start, calls, capacity, interval, t0, now);
    BalancedBound(AfterCalls(start, calls), capacity, interval, t0, now);
  }

  lemma BalancedBound(t: Track, capacity: uint32, interval: uint64, t0: nat, now: nat)
    requires Balanced(t, capacity, interval, t0) && t.state.lastTicks <= now
    ensures if interval == 0 then t.spent <= capacity else t.spent <= capacity + (now - t0) / interval
  {
    if interval != 0 {
      Distribute(t.spent, t.state.tokens, interval);
      CountWithin(t.spent, capacity, interval, now - t0);
    }
  }

  lemma StartBalances(capacity: uint32, refillTicks: uint64, t0: uint64, valid: bool)
    ensures var start := Start(capacity, refillTicks, t0, valid);
            Balanced(start, capacity, start.state.interval, t0)
  {
  }

  /**
   * Since the last saturation no fraction of an interval is lost: tokens held and spent are exactly
   * the capacity plus one per interval, and the sample kept is a whole number of intervals on.
   */
  lemma ExactSinceSaturation(capacity: uint32, refillTicks: uint64, t0: uint64, valid: bool, calls: seq<Call>)
    requires Initial(capacity, refillTicks, t0, valid).interval != 0
    ensures var interval := Initial(capacity, refillTicks, t0, valid).interval;
            var t := AfterCalls(Start(capacity, refillTicks, t0, valid), calls);
            && t.saturated <= t.state.lastTicks
            && t.state.tokens + t.spentSince == capacity + (t.state.lastTicks - t.saturated) / interval
            && (t.state.lastTicks - t.saturated) % interval == 0
  {
    hide Called;
    var start := Start(capacity, refillTicks, t0, valid);
    var interval := start.state.interval;
    StartBalances(capacity, refillTicks, t0, valid);
    RunBalances(start, calls, capacity, interval, t0, UINT64_MAX);
    var t := AfterCalls(start, calls);
    WholeMultiple(t.added, interval);
  }

  lemma WholeMultiple(k: nat, interval: nat)
    requires interval != 0
    ensures k * interval / interval == k && k * interval % interval == 0
  {
    Quotient(k, interval, k * interval);
    assert k * interval == k * interval / interval * interval + k * interval % interval;
  }

  // ----- tallies -----

  const WRAP := 0x1_0000_0000_0000_0000

  predicate IsReply(call: Call) {
    match call
    case Framing(channel, ppChannel, tag, count) => FrameResult(channel, ppChannel, tag, count) != Ok
    case Deciding(_, _, _, _, _) => true
    case Completing(_) => false
  }

  function Replies(calls: seq<Call>): nat {
    if calls == [] then 0
    else Replies(calls[..|calls| - 1]) + if IsReply(calls[|calls| - 1]) then 1 else 0
  }

  ghost predicate Tallying(t: Track, replies: nat) {
    && t.state.tallies == Tallies(t.accepted % WRAP, t.rateLimited % WRAP, t.rejected % WRAP)
    && t.accepted + t.rateLimited + t.rejected == replies
  }

  /** Every frame rejection and every decision is counted exactly once, modulo 64 bits. */
  lemma {:induction false} TalliesCountReplies(capacity: uint32, refillTicks: uint64, t0: uint64, valid: bool,
      calls: seq<Call>)
    ensures Tallying(AfterCalls(Start(capacity, refillTicks, t0, valid), calls), Replies(calls))
  {
    if calls != [] {
      hide Called, IsReply, Tallying;
      var n := |calls| - 1;
      TalliesCountReplies(capacity, refillTicks, t0, valid, calls[..n]);
      CallTallies(AfterCalls(Start(capacity, refillTicks, t0, valid), calls[..n]), calls[n], Replies(calls[..n]));
    }
  }

  lemma CallTallies(t: Track, call: Call, replies: nat)
    requires Tallying(t, replies)
    ensures Tallying(Called(t, call), replies + if IsReply(call) then 1 else 0)
  {
    hide Decided, Malformed, Sampled, Spends, Bump;
    BumpWraps(t.accepted);
    BumpWraps(t.rateLimited);
    BumpWraps(t.rejected);
    if call.Deciding? {
      DecisionSpends(t.state, call.view, call.opcode, call.args, call.now, call.nowValid);
      SampleKeepsCounts(t, call.now, call.nowValid);
    }
  }

  /** A SYNC that is answered reports the published sequence and every reply so far, itself included. */
  lemma SyncReportsReplies(t: Track, replies: nat, view: RootView, now: uint64, nowValid: bool)
    requires Tallying(t, replies) && view.publishing && Refilled(t.state, now, nowValid).tokens != 0
    ensures var d := Decided(t.state, view, SYNC, NO_VALUES, now, nowValid).decision;
            && d.result == Ok
            && d.values == [view.seqWord, (t.accepted + 1) % WRAP, t.rateLimited % WRAP, t.rejected % WRAP]
            && t.accepted + 1 + t.rateLimited + t.rejected == replies + 1
  {
    BumpWraps(t.accepted);
    RefillKeepsTallies(t.state, now, nowValid);
    hide Refilled, Bump;
  }

  /** A funded HELLO reports Root's version and identity, accepts exactly its own version and arms no fence. */
  lemma HelloReports(s: CommandState, view: RootView, version: uint64, now: uint64, nowValid: bool)
    requires Refilled(s, now, nowValid).tokens != 0
    ensures var step := Decided(s, view, HELLO, [version, 0, 0, 0], now, nowValid);
            && (step.decision.result == Ok <==> version == view.abiVersion)
            && (step.decision.result != Ok ==> step.decision.result == BadVersion)
            && step.decision.values == [view.abiVersion, view.rootGeneration, view.beamIncarnation, view.cntfrq]
            && !step.decision.restart && step.state.fence == s.fence
            && step.state.tokens + 1 == Refilled(s, now, nowValid).tokens
  {
    RefillKeepsTallies(s, now, nowValid);
    hide Refilled;
  }

  lemma BumpWraps(n: nat)
    ensures Bump(n % WRAP) == (n + 1) % WRAP
  {
  }

  lemma SampleKeepsCounts(t: Track, now: uint64, nowValid: bool)
    ensures var t' := Sampled(t, now, nowValid);
            t'.accepted == t.accepted && t'.rateLimited == t.rateLimited && t'.rejected == t.rejected
  {
  }

  // ----- the retry fence -----

  /** A restart is decided exactly when it is well formed, funded, new, and states what Root now holds. */
  lemma RestartDecidedExactly(s: CommandState, view: RootView, opcode: Opcode, args: FourWords, now: uint64,
      nowValid: bool)
    ensures Decided(s, view, opcode, args, now, nowValid).decision.restart <==>
            && opcode == RESTART_CHILD && Refilled(s, now, nowValid).tokens != 0 && !Repeats(s.fence, opcode, args)
            && NamesChild(view, args[0]) && args[0] in view.drivers && view.records[args[0]].state == Live
            && view.publishing && args[1] == view.rootGeneration && args[2] == view.seqWord
            && args[3] == view.records[args[0]].lifetimeCount
  {
    RefillKeepsTallies(s, now, nowValid);
    hide Refilled;
  }

  predicate CompletesRestart(call: Call) {
    call.Completing? && call.decision.restart
  }

  lemma {:induction false} FenceKept(start: Track, calls: seq<Call>)
    requires forall c :: c in calls ==> !CompletesRestart(c)
    ensures AfterCalls(start, calls).state.fence == start.state.fence
  {
    if calls != [] {
      hide Decided, Malformed, Sampled;
      var n := |calls| - 1;
      assert calls[n] in calls;
      FenceKept(start, calls[..n]);
      var t := AfterCalls(start, calls[..n]);
      if calls[n].Deciding? {
        DecisionSpends(t.state, calls[n].view, calls[n].opcode, calls[n].args, calls[n].now, calls[n].nowValid);
        RefillKeepsTallies(t.state, calls[n].now, calls[n].nowValid);
      }
    }
  }

  /**
   * A verbatim retry of the last completed command is answered already_done with the identical
   * reply words whatever Root's state has become, unless the bucket is empty.
   */
  lemma RetryIsAnswered(
    before: Track, view: RootView, args: FourWords, decidedAt: uint64, decidedValid: bool, values: FourWords,
    calls: seq<Call>, later: RootView, now: uint64, nowValid: bool)
    requires Decided(before.state, view, RESTART_CHILD, args, decidedAt, decidedValid).decision.restart
    requires forall c :: c in calls ==> !CompletesRestart(c)
    ensures var step := Decided(before.state, view, RESTART_CHILD, args, decidedAt, decidedValid);
            var completed := before.(state := Completed(step.state, step.decision.(values := values)));
            var s := AfterCalls(completed, calls).state;
            var retry := Decided(s, later, RESTART_CHILD, args, now, nowValid).decision;
            if Refilled(s, now, nowValid).tokens == 0 then retry.result == RateLimited
            else retry == Reply(RESTART_CHILD, args, AlreadyDone, values)
  {
    RestartDecidedExactly(before.state, view, RESTART_CHILD, args, decidedAt, decidedValid);
    DecidedWords(before.state, view, RESTART_CHILD, args, decidedAt, decidedValid);
    var step := Decided(before.state, view, RESTART_CHILD, args, decidedAt, decidedValid);
    var completed := before.(state := Completed(step.state, step.decision.(values := values)));
    FenceKept(completed, calls);
    RefillKeepsTallies(AfterCalls(completed, calls).state, now, nowValid);
    hide Refilled, AfterCalls;
  }

  lemma DecidedWords(s: CommandState, view: RootView, opcode: Opcode, args: FourWords, now: uint64, nowValid: bool)
    ensures var d := Decided(s, view, opcode, args, now, nowValid).decision; d.opcode == opcode && d.args == args
  {
    hide Refilled, Malformed;
  }
}
