/** What each command is answered, on the caller's inputs (src/pd/root/command.c). */
module CommandReplies {
  import opened Words
  import opened RootPolicy
  import opened Command
  import CommandRuns

  // ----- what a caller could check -----

  /** A declared opcode with every word it does not use left zero. */
  predicate WellFormed(opcode: Opcode, args: FourWords) {
    && 1 <= opcode <= 7
    && (opcode == HELLO ==> args[1] == args[2] == args[3] == 0)
    && (opcode == SYNC ==> args == [0, 0, 0, 0])
  }

  predicate Funded(s: CommandState, now: uint64, nowValid: bool) {
    Refilled(s, now, nowValid).tokens != 0
  }

  /** The last completed command, word for word. */
  predicate IsLast(s: CommandState, opcode: Opcode, args: FourWords) {
    s.fence.Some? && s.fence.value.opcode == opcode && s.fence.value.args == args
  }

  /** The word is the number of a child of this image. */
  predicate Names(view: RootView, word: uint64) {
    word < |view.records| && word < 64 && (word as nat) in view.present
  }

  /** A live driver, while Root publishes. */
  predicate MayRestart(view: RootView, word: uint64)
    requires Names(view, word)
  {
    (word as nat) in view.drivers && view.records[word].state == Live && view.publishing
  }

  /** The generation, the sequence and the child's count the caller states are the ones Root holds. */
  predicate UpToDate(view: RootView, args: FourWords)
    requires Names(view, args[0])
  {
    args[1] == view.rootGeneration && args[2] == view.seqWord && args[3] == view.records[args[0]].lifetimeCount
  }

  /** The condition of each result, over all opcodes. */
  lemma ResultsExactly(s: CommandState, view: RootView, opcode: Opcode, args: FourWords, now: uint64, nowValid: bool)
    ensures var result := Decided(s, view, opcode, args, now, nowValid).decision.result;
            var granted := WellFormed(opcode, args) && Funded(s, now, nowValid);
            var asks := granted && opcode == RESTART_CHILD && !IsLast(s, opcode, args);
            var names := Names(view, args[0]);
            && (result == BadArg <==> !WellFormed(opcode, args) || (asks && !names))
            && (result == RateLimited <==> WellFormed(opcode, args) && !Funded(s, now, nowValid))
            && (result == BadVersion <==> granted && opcode == HELLO && args[0] != view.abiVersion)
            && (result == AlreadyDone <==> granted && opcode == RESTART_CHILD && IsLast(s, opcode, args))
            && (result == Refused <==>
                  || (granted && 3 <= opcode <= 6)
                  || (granted && opcode == SYNC && !view.publishing)
                  || (asks && names && !MayRestart(view, args[0])))
            && (result == Stale <==> asks && names && MayRestart(view, args[0]) && !UpToDate(view, args))
            && (result == Ok <==>
                  || (granted && opcode == HELLO && args[0] == view.abiVersion)
                  || (granted && opcode == SYNC && view.publishing)
                  || (asks && names && MayRestart(view, args[0]) && UpToDate(view, args)))
  {
    CommandRuns.RefillKeepsTallies(s, now, nowValid);
    MalformedMeaning(opcode, args);
    hide Refilled, Malformed;
  }

  lemma MalformedMeaning(opcode: Opcode, args: FourWords)
    ensures Malformed(opcode, args) <==> !WellFormed(opcode, args)
  {
    var unused := RowOf(opcode).unused;
    if opcode == HELLO || opcode == SYNC {
      assert 1 in unused && 2 in unused && 3 in unused;
    }
    if opcode == SYNC {
      assert 0 in unused;
      assert args == [args[0], args[1], args[2], args[3]];
    }
  }

  /** A frame is judged before any word of it. */
  lemma FramesExactly(channel: uint32, ppChannel: uint32, tag: uint64, count: uint64)
    ensures FrameResult(channel, ppChannel, tag, count) == Refused <==> channel != ppChannel
    ensures FrameResult(channel, ppChannel, tag, count) == Ok <==>
            channel == ppChannel && count == 4 && 1 <= tag <= 7
    ensures FrameResult(channel, ppChannel, tag, count) in {Ok, Refused, BadArg}
  {
  }

  /** The words of a reply: none for a refusal, the memo's for a retry, Root's own for HELLO and SYNC. */
  lemma WordsExactly(s: CommandState, view: RootView, opcode: Opcode, args: FourWords, now: uint64, nowValid: bool)
    ensures var step := Decided(s, view, opcode, args, now, nowValid);
            var d := step.decision;
            && (d.result in {BadArg, RateLimited, Refused} || d.restart ==> d.values == [0, 0, 0, 0])
            && (d.result == AlreadyDone ==> s.fence.Some? && d.values == s.fence.value.values)
            && (d.result == BadVersion || (d.result == Ok && opcode == HELLO) ==>
                  d.values == [view.abiVersion, view.rootGeneration, view.beamIncarnation, view.cntfrq])
            && (d.result == Ok && opcode == SYNC ==>
                  d.values == [view.seqWord, step.state.tallies.accepted, step.state.tallies.rateLimited,
                               step.state.tallies.rejected])
            && (d.restart <==> d.result == Ok && opcode == RESTART_CHILD)
            && (d.restart ==> d.child == args[0])
  {
    CommandRuns.RefillKeepsTallies(s, now, nowValid);
    hide Refilled, Malformed;
  }

  /**
   * The law a caller relies on: the first three words of a stale reply, sent back for the same child to
   * the same Root, are a restart that is decided, unless there is no token or they are the last command.
   */
  lemma StaleReplyHeals(s: CommandState, view: RootView, args: FourWords, now: uint64, nowValid: bool,
                        later: CommandState, now': uint64, nowValid': bool)
    requires Decided(s, view, RESTART_CHILD, args, now, nowValid).decision.result == Stale
    ensures var told := Decided(s, view, RESTART_CHILD, args, now, nowValid).decision.values;
            var again := [args[0], told[0], told[1], told[2]];
            var d := Decided(later, view, RESTART_CHILD, again, now', nowValid').decision;
            && told[3] == 0
            && (Funded(later, now', nowValid') && !IsLast(later, RESTART_CHILD, again) ==>
                  d.result == Ok && d.restart && d.child == args[0])
  {
    hide Malformed;
    ResultsExactly(s, view, RESTART_CHILD, args, now, nowValid);
    var told := Decided(s, view, RESTART_CHILD, args, now, nowValid).decision.values;
    StaleTells(s, view, args, now, nowValid);
    ResultsExactly(later, view, RESTART_CHILD, [args[0], told[0], told[1], told[2]], now', nowValid');
    WordsExactly(later, view, RESTART_CHILD, [args[0], told[0], told[1], told[2]], now', nowValid');
    hide Decided;
  }

  lemma StaleTells(s: CommandState, view: RootView, args: FourWords, now: uint64, nowValid: bool)
    requires Decided(s, view, RESTART_CHILD, args, now, nowValid).decision.result == Stale
    ensures Names(view, args[0])
    ensures Decided(s, view, RESTART_CHILD, args, now, nowValid).decision.values ==
            [view.rootGeneration, view.seqWord, view.records[args[0]].lifetimeCount, 0]
  {
    hide Refilled, Malformed;
  }

  // ----- the bucket without a clock -----

  /** The bucket starts full, and refills only if there is anything to refill at a rate with a clock. */
  lemma StartsFull(capacity: uint32, refillTicks: uint64, now: uint64, nowValid: bool)
    ensures var s := Initial(capacity, refillTicks, now, nowValid);
            && s.tokens == s.capacity == capacity && s.lastTicks == now && s.fence == None
            && (s.refill == Running <==> capacity > 0 && refillTicks > 0 && nowValid)
            && s.tallies == Tallies(0, 0, 0)
  {
  }

  /** A sample without a clock, or one that went back, ends refills, and they never start again. */
  lemma RefillEndsExactly(s: CommandState, now: uint64, nowValid: bool)
    ensures var r := Refilled(s, now, nowValid);
            && (r.refill == Running <==> s.refill == Running && nowValid && s.lastTicks <= now)
            && (r.refill == Off ==> r.tokens == s.tokens)
            && s.tokens <= r.tokens <= s.capacity
  {
  }

  /** From then on no call adds a token. */
  lemma {:induction false} NoTokensOnceOff(start: CommandRuns.Track, calls: seq<CommandRuns.Call>)
    requires start.state.refill == Off
    ensures var s := CommandRuns.AfterCalls(start, calls).state;
            s.refill == Off && s.tokens <= start.state.tokens
  {
    hide Decided, Malformed, CommandRuns.Sampled;
    if calls != [] {
      var n := |calls| - 1;
      NoTokensOnceOff(start, calls[..n]);
      var s, call := CommandRuns.AfterCalls(start, calls[..n]).state, calls[n];
      if call.Deciding? {
        CommandRuns.DecisionSpends(s, call.view, call.opcode, call.args, call.now, call.nowValid);
        RefillEndsExactly(s, call.now, call.nowValid);
      }
    }
  }
}
