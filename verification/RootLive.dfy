/**
 * Root's callbacks, store by store, beside a reader of its status page (src/pd/root/main.c,
 * src/pd/root/status.c, src/lib/abi/root_status_reader.c).
 */
module RootLive {
  import opened Words
  import Regions
  import opened SpecPage
  import opened RootPolicy
  import opened StatusPage
  import opened StatusRules
  import opened Status
  import opened StatusReader
  import opened StatusAccepted
  import opened Command
  import opened RootMain
  import opened RootRuns
  import opened RootActs
  import Seqlock = StatusSeqlock
  import SpecConsumer
  import StatusRuns

  /** What init() samples and fixes. */
  datatype Boot = Boot(present: set<nat>, now: uint64, frequency: uint64, budget: seq<uint32>, command: CommandState,
                       config: Config)
  {
    predicate Valid() { |budget| == CHILD_COUNT }
  }

  function BootRoot(boot: Boot): RootState
    requires boot.Valid()
  {
    RootFields(Copies(CHILD_COUNT, FRESH), SpecConsumer.INITIAL,
               BootState(boot.present, boot.now, boot.frequency, boot.budget),
               Some(BootPage(boot.present, boot.now, boot.frequency, boot.budget)), boot.command)
  }

  /** Root once these callbacks have returned. */
  ghost function RootAfter(boot: Boot, callbacks: seq<Callback>): RootState
    requires boot.Valid()
  {
    RootRuns.After(BootRoot(boot), callbacks, boot.config).state
  }

  // ----- pages of whole callbacks -----

  /** Root keeps a page its reader can rely on, whose ring is the end of this log. */
  ghost predicate RootKept(s: RootState, present: set<nat>, log: seq<Event>) {
    s.page.Some? && s.publisher.present == present && RowsBehindRecords(s) && Kept(RunOf(s, log), present)
  }

  lemma BootKept(boot: Boot) returns (log: seq<Event>)
    requires boot.Valid()
    ensures RootKept(BootRoot(boot), boot.present, log)
    ensures RunOf(BootRoot(boot), log) == StatusRuns.Booted(boot.present, boot.now, boot.frequency, boot.budget)
  {
    hide Sane, StatusRuns.RingKept, StatusRuns.Ahead;
    log := [BootEvent(if boot.frequency != 0 then boot.now else 0)];
    BootIsSane(boot.present, boot.now, boot.frequency, boot.budget);
    StatusRuns.BootRing(boot.present, boot.now, boot.frequency, boot.budget);
    StatusRuns.BootIsAhead(boot.present, boot.now, boot.frequency, boot.budget);
    BootRowsCountNothing(boot);
  }

  lemma BootRowsCountNothing(boot: Boot)
    requires boot.Valid()
    ensures RowsBehindRecords(BootRoot(boot))
  {
    var s, stamp := Unmapped(boot.present, boot.frequency, boot.budget), if boot.frequency != 0 then boot.now else 0;
    forall i | 0 <= i < CHILD_COUNT
      ensures BootRoot(boot).page.value.children[i].lifetimeCount == 0
    {
      assert BootRoot(boot).page.value.children[i] == BootRow(s, i, stamp);
    }
  }

  /** One callback keeps that, and its page follows the one before. */
  lemma CallbackKeeps(s: RootState, cb: Callback, config: Config, present: set<nat>, log: seq<Event>)
    returns (log': seq<Event>)
    requires RootKept(s, present, log)
    ensures RootKept(Handled(s, cb, config).state, present, log')
    ensures StatusRuns.Follows(s.page.value, Handled(s, cb, config).state.page.value)
  {
    hide Fit, Through, Kept, StatusRuns.Follows, Handled, ActsOf, RowsBehindRecords;
    CallbackAmounts(s, cb, config, log);
    FitActsKeep(RunOf(s, log), ActsOf(s, cb, config), present);
    HandledKeepsRows(s, cb, config);
    log' := Through(RunOf(s, log), ActsOf(s, cb, config), present).log;
  }

  lemma {:induction false} CallbacksKeep(boot: Boot, callbacks: seq<Callback>) returns (log: seq<Event>)
    requires boot.Valid()
    ensures RootKept(RootAfter(boot, callbacks), boot.present, log)
  {
    hide RootKept, Handled, BootRoot;
    if callbacks == [] {
      log := BootKept(boot);
    } else {
      var n := |callbacks| - 1;
      var before := CallbacksKeep(boot, callbacks[..n]);
      log := CallbackKeeps(RootAfter(boot, callbacks[..n]), callbacks[n], boot.config, boot.present, before);
    }
  }

  /** Whatever callbacks Root has handled since boot, a reader of its quiet page succeeds at once. */
  lemma EveryPageIsRead(boot: Boot, callbacks: seq<Callback>, attempts: nat)
    requires boot.Valid() && attempts > 0
    ensures var s := RootAfter(boot, callbacks);
            s.page.Some? && StatusChecks(PageBytes(s.page.value)) &&
            QuietRead(PageBytes(s.page.value), attempts) == ReadOk
  {
    hide Sane, StatusRuns.RingKept, StatusRuns.Ahead, RootAfter, StatusChecks, QuietRead, PageBytes;
    var log := CallbacksKeep(boot, callbacks);
    SaneIsRead(RunOf(RootAfter(boot, callbacks), log), attempts);
  }

  /** Of two pages of one run of callbacks, the later never reads as a regression of the earlier. */
  lemma {:induction false} PagesNeverRegress(boot: Boot, callbacks: seq<Callback>, i: nat)
    requires boot.Valid() && i <= |callbacks|
    ensures var s, t := RootAfter(boot, callbacks[..i]), RootAfter(boot, callbacks);
            s.page.Some? && t.page.Some? && StatusRuns.Follows(s.page.value, t.page.value)
            && !WentBack(PageBytes(s.page.value), PageBytes(t.page.value))
    decreases |callbacks|
  {
    hide Handled, BootRoot, StatusRuns.Follows, WentBack, PageBytes, Kept;
    if i == |callbacks| {
      assert callbacks[..i] == callbacks;
      var log := CallbacksKeep(boot, callbacks);
      StatusRuns.FollowsItself(RootAfter(boot, callbacks).page.value);
    } else {
      var n := |callbacks| - 1;
      PagesNeverRegress(boot, callbacks[..n], i);
      assert callbacks[..n][..i] == callbacks[..i];
      var log := CallbacksKeep(boot, callbacks[..n]);
      var log' := CallbackKeeps(RootAfter(boot, callbacks[..n]), callbacks[n], boot.config, boot.present, log);
      StatusRuns.FollowsTransitive(RootAfter(boot, callbacks[..i]).page.value,
                                   RootAfter(boot, callbacks[..n]).page.value, RootAfter(boot, callbacks).page.value);
    }
    StatusRuns.FollowsIsNoRegression(RootAfter(boot, callbacks[..i]).page.value,
                                     RootAfter(boot, callbacks).page.value);
  }

  // ----- callbacks and reader interleaved -----

  /** The callbacks entered so far, the calls the last one has still to make, and the shared page. */
  datatype Session = Session(entered: seq<Callback>, todo: seq<Act>, system: Seqlock.System)

  datatype SessionMove = Enters(cb: Callback) | Moves(move: Seqlock.Move)

  function SessionStart(boot: Boot): Session
    requires boot.Valid()
  {
    Session([], [], Seqlock.Start(boot.present, boot.now, boot.frequency, boot.budget))
  }

  /** The publisher is called as the callback under way says, in its order. */
  predicate Due(l: Session, move: Seqlock.Move) {
    match move
    case Note(act) => l.todo != [] && act == l.todo[0]
    case OpenPublish(act) => l.todo != [] && act == l.todo[0]
    case _ => true
  }

  /** This move completes the call that is due. */
  ghost predicate Completes(l: Session, move: Seqlock.Move) {
    match move
    case Note(act) => Seqlock.CanNote(l.system, act)
    case ClosePublish => Seqlock.CanClose(l.system)
    case _ => false
  }

  /** A callback is entered once the one before has made all its calls: Root handles them one at a time. */
  ghost function SessionNext(boot: Boot, l: Session, m: SessionMove): Session
    requires boot.Valid()
  {
    match m
    case Enters(cb) =>
      if l.todo == [] then
        Session(l.entered + [cb], ActsOf(RootAfter(boot, l.entered), cb, boot.config), l.system)
      else l
    case Moves(move) =>
      if !Due(l, move) then l
      else l.(system := Seqlock.Next(l.system, move),
              todo := if Completes(l, move) && l.todo != [] then l.todo[1..] else l.todo)
  }

  ghost function SessionAfter(boot: Boot, moves: seq<SessionMove>): Session
    requires boot.Valid()
  {
    if moves == [] then SessionStart(boot)
    else SessionNext(boot, SessionAfter(boot, moves[..|moves| - 1]), moves[|moves| - 1])
  }

  // ----- one publish a callback, last -----

  /** After a publish only the flags are cleared. */
  ghost predicate PublishLast(acts: seq<Act>) {
    forall i :: 0 <= i < |acts| && acts[i].Publish? ==> acts[i + 1..] == [StatusRuns.Clear]
  }

  ghost predicate NoPublish(acts: seq<Act>) {
    forall i :: 0 <= i < |acts| ==> !acts[i].Publish?
  }

  lemma PublishComesLast(a: seq<Act>, b: seq<Act>)
    requires NoPublish(a) && PublishLast(b)
    ensures PublishLast(a + b)
  {
    forall i | 0 <= i < |a + b| && (a + b)[i].Publish?
      ensures (a + b)[i + 1..] == [StatusRuns.Clear]
    {
      assert (a + b)[i] == b[i - |a|];
      assert (a + b)[i + 1..] == b[i - |a| + 1..];
    }
  }

  lemma ConcludePublishesLast(s: RootState, child: Child, leading: seq<Event>, config: Config, sample: Sample)
    ensures var r := RestartChild(s, child, config, sample);
            && NoPublish(RestartActs(s, child, config, sample))
            && PublishLast(RestartActs(s, child, config, sample) + ConcludeActs(r, child, leading, sample))
  {
    hide RestartChild, SpecConsumer.Consumed, ConcludingEvents;
    PublishComesLast(RestartActs(s, child, config, sample),
                     ConcludeActs(RestartChild(s, child, config, sample), child, leading, sample));
  }

  lemma PerformPublishesLast(s: RootState, d: Decision, config: Config, sample: Sample)
    requires d.child < CHILD_COUNT
    ensures PublishLast(PerformActs(s, d, config, sample))
  {
    hide RestartActs, ConcludeActs, RestartChild;
    ConcludePublishesLast(s, d.child, [ControlEvent(d, sample)], config, sample);
  }

  lemma CallbackPublishesLast(s: RootState, cb: Callback, config: Config)
    ensures PublishLast(ActsOf(s, cb, config))
  {
    hide PerformActs, RestartActs, ConcludeActs, RestartChild, Decided;
    match cb
    case OnCommand(channel, ppChannel, tag, count, args, sample) =>
      if CommandActs(s, channel, ppChannel, tag, count, args, config, sample) != [] {
        var ticks := Ticks(sample.entryTicks, sample.before);
        var step := Decided(s.command, ViewOf(s, config), tag, args, ticks, sample.before);
        RestartNamesChild(s.command, ViewOf(s, config), tag, args, ticks, sample.before);
        PerformPublishesLast(s.(command := step.state), step.decision, config, sample);
      }
    case OnFault(raw, tag, count, mr0, mr1, sample) =>
      if raw < CHILD_COUNT && raw in s.publisher.present {
        var stamp := Ticks(sample.entryTicks, sample.before);
        var noted := FaultTaken(s, raw, tag, count, mr0, mr1, stamp, sample.before);
        var event := FaultEvent(raw, tag, count, mr0, mr1, stamp);
        var acts := FaultActs(s, raw, tag, count, mr0, mr1, config, sample);
        var rest := RestartActs(noted, raw, config, sample)
                    + ConcludeActs(RestartChild(noted, raw, config, sample), raw, [event], sample);
        ConcludePublishesLast(noted, raw, [event], config, sample);
        PublishComesLast([acts[0]], rest);
        assert [acts[0]] + rest == acts;
      }
    case OnDebugRestart(child, sample) => ConcludePublishesLast(s, child, [], config, sample);
    case OnFaultInject(child, sample) =>
  }

  // ----- the invariant -----

  /** A page Root had after some of the callbacks entered, and one the checker passes. */
  ghost predicate Shown(boot: Boot, entered: seq<Callback>, page: StatusPage)
    requires boot.Valid()
  {
    && StatusChecks(PageBytes(page))
    && exists n :: 0 <= n <= |entered| && RootAfter(boot, entered[..n]).page == Some(page)
  }

  ghost predicate AllShown(boot: Boot, l: Session)
    requires boot.Valid()
  {
    forall k :: k in l.system.history ==> Shown(boot, l.entered, l.system.history[k])
  }

  /** The calls made and the calls due take the publisher exactly to where the callbacks leave it. */
  ghost predicate OnCourse(boot: Boot, l: Session)
    requires boot.Valid()
  {
    var root, run := RootAfter(boot, l.entered), l.system.run;
    && root.page.Some? && root.publisher.present == boot.present && RowsBehindRecords(root)
    && Kept(run, boot.present) && Fit(run, l.todo, boot.present)
    && (var r := Through(run, l.todo, boot.present); r == RunOf(root, r.log))
    && PublishLast(l.todo)
    && (l.system.publishing.Some? ==> l.todo != [] && l.system.publishing.value == l.todo[0])
  }

  ghost predicate SessionFine(boot: Boot, l: Session)
    requires boot.Valid()
  {
    Seqlock.Fine(l.system) && OnCourse(boot, l) && AllShown(boot, l)
  }

  lemma StartIsFine(boot: Boot)
    requires boot.Valid()
    ensures SessionFine(boot, SessionStart(boot))
  {
    hide BootRoot, Seqlock.Fine, RootKept, Kept, StatusChecks, Seqlock.Start, StatusRuns.Booted, RootAfter;
    var l := SessionStart(boot);
    Seqlock.StartIsFine(boot.present, boot.now, boot.frequency, boot.budget);
    var log := BootKept(boot);
    NoCallbacks(boot);
    StartParts(boot);
    KeptParts(BootRoot(boot), boot.present, log);
    PageIsShown(boot, [], 0);
  }

  lemma NoCallbacks(boot: Boot)
    requires boot.Valid()
    ensures RootAfter(boot, []) == BootRoot(boot)
  {
  }

  lemma StartParts(boot: Boot)
    requires boot.Valid()
    ensures var s := Seqlock.Start(boot.present, boot.now, boot.frequency, boot.budget);
            && s.run == StatusRuns.Booted(boot.present, boot.now, boot.frequency, boot.budget)
            && s.publishing.None? && s.history == map[2 := s.run.page] && s.accepted == []
  {
  }

  lemma KeptParts(s: RootState, present: set<nat>, log: seq<Event>)
    requires RootKept(s, present, log)
    ensures s.page.Some? && s.publisher.present == present && RowsBehindRecords(s) && Kept(RunOf(s, log), present)
  {
  }

  /** A page Root had at some time is one its reader accepts. */
  lemma PageIsShown(boot: Boot, entered: seq<Callback>, n: nat)
    requires boot.Valid() && n <= |entered|
    ensures var s := RootAfter(boot, entered[..n]); s.page.Some? && Shown(boot, entered, s.page.value)
  {
    hide RootAfter, StatusChecks, QuietRead;
    EveryPageIsRead(boot, entered[..n], 1);
  }

  lemma ShownLater(boot: Boot, entered: seq<Callback>, cb: Callback, page: StatusPage)
    requires boot.Valid() && Shown(boot, entered, page)
    ensures Shown(boot, entered + [cb], page)
  {
    hide RootAfter, StatusChecks;
    var n :| 0 <= n <= |entered| && RootAfter(boot, entered[..n]).page == Some(page);
    assert (entered + [cb])[..n] == entered[..n];
  }

  // ----- entering a callback -----

  lemma EnterStaysFine(boot: Boot, l: Session, cb: Callback)
    requires boot.Valid() && SessionFine(boot, l)
    ensures SessionFine(boot, SessionNext(boot, l, Enters(cb)))
  {
    hide Seqlock.Fine, Kept, Fit, Through, RootAfter, Handled, ActsOf, RowsBehindRecords, PublishLast, Shown;
    if l.todo == [] {
      var s, log, next := RootAfter(boot, l.entered), l.system.run.log, SessionNext(boot, l, Enters(cb));
      FitNone(l.system.run, boot.present);
      AfterOneMore(boot, l.entered, cb);
      CallbackAmounts(s, cb, boot.config, log);
      HandledKeepsRows(s, cb, boot.config);
      CallbackPublishesLast(s, cb, boot.config);
      forall k | k in next.system.history
        ensures Shown(boot, next.entered, next.system.history[k])
      {
        ShownLater(boot, l.entered, cb, l.system.history[k]);
      }
    }
  }

  lemma AfterOneMore(boot: Boot, entered: seq<Callback>, cb: Callback)
    requires boot.Valid()
    ensures RootAfter(boot, entered + [cb]) == Handled(RootAfter(boot, entered), cb, boot.config).state
  {
    hide Handled;
    assert (entered + [cb])[..|entered|] == entered;
  }

  // ----- the publisher's moves -----

  /** What completing the call that is due leaves. */
  lemma CallCompletes(boot: Boot, l: Session, system: Seqlock.System)
    requires boot.Valid() && OnCourse(boot, l) && l.todo != []
    requires l.todo[0].Whole() && system.run == StatusRuns.Acted(l.system.run, l.todo[0]) && system.publishing.None?
    ensures OnCourse(boot, l.(system := system, todo := l.todo[1..]))
    ensures l.todo[0].Publish? ==> RootAfter(boot, l.entered).page == Some(system.run.page)
  {
    hide Kept, RootAfter, RowsBehindRecords, StatusRuns.Acted, Proper, StatusRuns.Honest;
    OneFitActKeeps(l.system.run, l.todo[0], boot.present);
    assert PublishLast(l.todo[1..]) by {
      RestPublishesLast(l.todo);
    }
    if l.todo[0].Publish? {
      assert l.todo[1..] == [StatusRuns.Clear];
      ClearKeepsPage(system.run, boot.present);
    }
  }

  lemma ClearKeepsPage(r: Run, present: set<nat>)
    ensures Fit(r, [StatusRuns.Clear], present) && Through(r, [StatusRuns.Clear], present).page == r.page
  {
    FitOne(r, StatusRuns.Clear, present);
  }

  lemma RestPublishesLast(acts: seq<Act>)
    requires PublishLast(acts) && acts != []
    ensures PublishLast(acts[1..])
  {
    forall i | 0 <= i < |acts[1..]| && acts[1..][i].Publish?
      ensures acts[1..][i + 1..] == [StatusRuns.Clear]
    {
      assert acts[1..][i] == acts[i + 1] && acts[1..][i + 1..] == acts[i + 2..];
    }
  }

  lemma DueIsHonest(boot: Boot, l: Session, move: Seqlock.Move)
    requires boot.Valid() && OnCourse(boot, l) && Due(l, move)
    ensures Seqlock.HonestMove(l.system, move)
    ensures l.todo != [] ==> l.todo[0].Whole()
  {
    hide Kept, RootAfter, RowsBehindRecords, StatusRuns.Acted, Proper, StatusRuns.Honest, PublishLast;
  }

  lemma MoveStaysFine(boot: Boot, l: Session, move: Seqlock.Move)
    requires boot.Valid() && SessionFine(boot, l)
    ensures SessionFine(boot, SessionNext(boot, l, Moves(move)))
  {
    hide Seqlock.Fine, OnCourse, StatusRuns.Acted, Shown, Seqlock.Next, Seqlock.HonestMove, RootAfter;
    if Due(l, move) {
      var next := SessionNext(boot, l, Moves(move));
      DueIsHonest(boot, l, move);
      Seqlock.MoveIsFine(l.system, move);
      PublishingIsDue(boot, l);
      if Completes(l, move) {
        CompletedMove(l.system, move);
        CallCompletes(boot, l, next.system);
        if move.ClosePublish? {
          PublishingPublishes(l.system);
          PageIsShown(boot, l.entered, |l.entered|);
          assert l.entered[..|l.entered|] == l.entered;
        }
      } else {
        OtherMove(l.system, move);
        StaysOnCourse(boot, l, next.system);
      }
    }
  }

  lemma PublishingIsDue(boot: Boot, l: Session)
    requires boot.Valid() && OnCourse(boot, l)
    ensures l.system.publishing.Some? ==> l.todo != [] && l.system.publishing.value == l.todo[0]
  {
    hide Kept, RootAfter, RowsBehindRecords, Fit, Through, PublishLast;
  }

  lemma PublishingPublishes(s: Seqlock.System)
    requires Seqlock.Fine(s) && s.publishing.Some?
    ensures s.publishing.value.Publish?
  {
  }

  /** A completed call has taken effect on the run, and its page, if it published, is the latest of the history. */
  lemma CompletedMove(s: Seqlock.System, move: Seqlock.Move)
    requires if move.Note? then Seqlock.CanNote(s, move.act) else move.ClosePublish? && Seqlock.CanClose(s)
    ensures var act, t := if move.Note? then move.act else s.publishing.value, Seqlock.Next(s, move);
            && act.Whole() && t.run == StatusRuns.Acted(s.run, act) && t.publishing.None?
            && forall k :: k in t.history ==>
                 (k in s.history && t.history[k] == s.history[k]) || (move.ClosePublish? && t.history[k] == t.run.page)
  {
    hide StatusRuns.Acted, Published, PageBytes, Seqlock.WithSeq;
  }

  /** Any other move leaves run and history alone, and opens at most the publish it names. */
  lemma OtherMove(s: Seqlock.System, move: Seqlock.Move)
    requires !(if move.Note? then Seqlock.CanNote(s, move.act) else move.ClosePublish? && Seqlock.CanClose(s))
    ensures var t := Seqlock.Next(s, move);
            && t.run == s.run && t.history == s.history
            && (t.publishing == s.publishing || (move.OpenPublish? && t.publishing == Some(move.act)))
  {
    hide StatusRuns.Acted, Published, PageBytes, Seqlock.WithSeq, StatusChecks;
  }

  lemma StaysOnCourse(boot: Boot, l: Session, system: Seqlock.System)
    requires boot.Valid() && OnCourse(boot, l) && system.run == l.system.run
    requires system.publishing == l.system.publishing || (l.todo != [] && system.publishing == Some(l.todo[0]))
    ensures OnCourse(boot, l.(system := system))
  {
    hide Kept, RootAfter, RowsBehindRecords, Fit, Through, PublishLast;
  }

  // ----- whole runs -----

  lemma {:induction false} SessionsAreFine(boot: Boot, moves: seq<SessionMove>)
    requires boot.Valid()
    ensures SessionFine(boot, SessionAfter(boot, moves))
  {
    hide SessionFine, SessionNext, SessionStart;
    if moves == [] {
      StartIsFine(boot);
    } else {
      var n := |moves| - 1;
      SessionsAreFine(boot, moves[..n]);
      var l := SessionAfter(boot, moves[..n]);
      match moves[n]
      case Enters(cb) => EnterStaysFine(boot, l, cb);
      case Moves(move) => MoveStaysFine(boot, l, move);
    }
  }

  /** Between callbacks the publisher and the shared bytes are exactly what the callbacks entered leave. */
  lemma NothingIsSkipped(boot: Boot, moves: seq<SessionMove>)
    requires boot.Valid()
    ensures var l := SessionAfter(boot, moves);
            var root := RootAfter(boot, l.entered);
            l.todo == [] ==>
              root.page.Some? && l.system.run.state == root.publisher && l.system.bytes == PageBytes(root.page.value)
  {
    hide SessionAfter, RootAfter, Kept, Fit, RowsBehindRecords, PublishLast, PageBytes, Seqlock.HistoryFine,
        Seqlock.ReaderFine, Seqlock.AcceptedFine, StatusRuns.Ahead, AllShown;
    SessionsAreFine(boot, moves);
    var l := SessionAfter(boot, moves);
    FitNone(l.system.run, boot.present);
  }

  /**
   * Whatever callbacks Root handles and however their stores interleave with the reader's copy: every
   * copy the reader accepts is, byte for byte, the page Root had after one of the callbacks, and no
   * later accepted copy reads as a regression of an earlier one.
   */
  lemma ReaderSeesCallbacks(boot: Boot, moves: seq<SessionMove>, i: nat, j: nat)
    requires boot.Valid() && i <= j < |SessionAfter(boot, moves).system.accepted|
    ensures var l := SessionAfter(boot, moves);
            && (exists n :: 0 <= n <= |l.entered| && var s := RootAfter(boot, l.entered[..n]);
                  s.page.Some? && l.system.accepted[i].bytes == PageBytes(s.page.value))
            && !WentBack(l.system.accepted[i].bytes, l.system.accepted[j].bytes)
  {
    hide SessionAfter, RootAfter, OnCourse, PageBytes, Seqlock.Fine, StatusChecks, WentBack;
    SessionsAreFine(boot, moves);
    var l := SessionAfter(boot, moves);
    Seqlock.FineIsSound(l.system);
    var page := l.system.history[l.system.accepted[i].seqWord];
    var n :| 0 <= n <= |l.entered| && RootAfter(boot, l.entered[..n]).page == Some(page);
  }

  /** A reader whose copy ends on the sequence it began with always has its copy accepted. */
  lemma SteadyCopyIsAccepted(boot: Boot, moves: seq<SessionMove>)
    requires boot.Valid()
    ensures var l := SessionAfter(boot, moves);
            var r, next := l.system.reader, SessionNext(boot, l, Moves(Seqlock.FinishCopy));
            r.Copying? && |r.copy| == STATUS_BYTES ==>
              if SeqWord(l.system.bytes) == r.seqWord then
                next.system.accepted == l.system.accepted + [Seqlock.Accepted(r.seqWord, r.copy)]
              else next.system.accepted == l.system.accepted
  {
    hide SessionAfter, RootAfter, OnCourse, PageBytes, StatusChecks, StatusRuns.Ahead, StatusRuns.Honest,
        StatusRuns.Publishing, StatusRuns.Follows, Shown, Regions.Load64;
    SessionsAreFine(boot, moves);
    var l := SessionAfter(boot, moves);
    var s := l.system;
    if s.reader.Copying? && |s.reader.copy| == STATUS_BYTES && SeqWord(s.bytes) == s.reader.seqWord {
      assert s.bytes[..STATUS_BYTES] == s.bytes;
      Seqlock.AheadSeq(s.run);
      assert Shown(boot, l.entered, s.run.page);
      ShownChecks(boot, l.entered, s.run.page);
    }
  }

  lemma ShownChecks(boot: Boot, entered: seq<Callback>, page: StatusPage)
    requires boot.Valid() && Shown(boot, entered, page)
    ensures StatusChecks(PageBytes(page))
  {
  }
}
