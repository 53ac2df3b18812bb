/**
 * The status page under one writer and one reader whose copy is interleaved with its stores
 * (src/pd/root/status.c, src/lib/abi/root_status_reader.c).
 */
module StatusSeqlock {
  import opened Words
  import opened Regions
  import opened SpecPage
  import opened StatusPage
  import opened Status
  import opened StatusReader
  import opened StatusRules
  import opened StatusRuns

  datatype Reader = Resting | Copying(seqWord: uint64, copy: seq<byte>)

  datatype Accepted = Accepted(seqWord: uint64, bytes: StatusBytes)

  /**
   * The publisher, the shared bytes, the publish under way, the reader, every page whose publish
   * completed by its sequence, and every copy the reader accepted, in order.
   */
  datatype System = System(
    run: Run,
    bytes: StatusBytes,
    publishing: Option<Act>,
    reader: Reader,
    history: map<uint64, StatusPage>,
    accepted: seq<Accepted>)

  datatype Move =
    | Note(act: Act)
    | OpenPublish(act: Act)
    | StoreByte(at: nat, value: byte)
    | ClosePublish
    | LoadSeq
    | CopyByte
    | FinishCopy

  function Start(present: set<nat>, now: uint64, frequency: uint64, budget: seq<uint32>): System
    requires |budget| == CHILD_COUNT
  {
    var r := Booted(present, now, frequency, budget);
    System(r, PageBytes(r.page), None, Resting, map[2 := r.page], [])
  }

  function WithSeq(bytes: StatusBytes, seqWord: uint64): StatusBytes {
    Blit(bytes, SEQ_WORD_AT, Bytes(8, seqWord))
  }

  /** A call that publishes nothing takes effect at once, between publishes. */
  ghost predicate CanNote(s: System, act: Act) {
    s.publishing.None? && act.Whole() && !(act.Publish? && Publishing(s.run, act).ok)
  }

  /** The payload stores have left the page the publisher specifies, but for the sequence word. */
  ghost predicate CanClose(s: System) {
    && s.publishing.Some? && s.publishing.value.Whole()
    && var r := Acted(s.run, s.publishing.value);
       WithSeq(s.bytes, r.state.seqWord) == PageBytes(r.page)
  }

  /**
   * One move; one that is not enabled changes nothing. While a publish is open any byte may be
   * stored anywhere but the sequence word, which covers every order of the payload stores; the
   * publish can close only once they have left the page the publisher specifies.
   */
  ghost function Next(s: System, move: Move): System {
    match move
    case Note(act) => if CanNote(s, act) then s.(run := Acted(s.run, act)) else s
    case OpenPublish(act) =>
      if s.publishing.None? && act.Publish? && Publishing(s.run, act).ok && s.run.state.seqWord < UINT64_MAX then
        s.(publishing := Some(act), bytes := WithSeq(s.bytes, s.run.state.seqWord + 1))
      else s
    case StoreByte(at, value) =>
      if s.publishing.Some? && at < STATUS_BYTES && !(SEQ_WORD_AT <= at < SEQ_WORD_AT + 8) then
        s.(bytes := Blit(s.bytes, at, [value]))
      else s
    case ClosePublish =>
      if CanClose(s) then
        var r := Acted(s.run, s.publishing.value);
        s.(run := r, bytes := PageBytes(r.page), publishing := None, history := s.history[r.state.seqWord := r.page])
      else s
    case LoadSeq =>
      if s.reader.Resting? && IsPublished(SeqWord(s.bytes)) then s.(reader := Copying(SeqWord(s.bytes), [])) else s
    case CopyByte =>
      if s.reader.Copying? && |s.reader.copy| < STATUS_BYTES then
        s.(reader := Copying(s.reader.seqWord, s.reader.copy + [s.bytes[|s.reader.copy|]]))
      else s
    case FinishCopy =>
      if s.reader.Copying? && |s.reader.copy| == STATUS_BYTES then
        var copy, q := s.reader.copy, s.reader.seqWord;
        var ok := SeqWord(s.bytes) == q && SeqWord(copy) == q && StatusChecks(copy);
        s.(reader := Resting, accepted := if ok then s.accepted + [Accepted(q, copy)] else s.accepted)
      else s
  }

  /** The caller's part: a record it publishes never counts less than its row already shows. */
  ghost predicate HonestMove(s: System, move: Move) {
    match move
    case Note(act) => act.Whole() ==> Honest(s.run, act)
    case OpenPublish(act) => Honest(s.run, act)
    case _ => true
  }

  // ----- the invariant -----

  /** Between publishes the bytes are the page; during one the sequence is odd. */
  ghost predicate WriterFine(s: System) {
    && Ahead(s.run)
    && (if s.publishing.None? then s.bytes == PageBytes(s.run.page)
        else
          && s.publishing.value.Publish? && Honest(s.run, s.publishing.value)
              && Publishing(s.run, s.publishing.value).ok
          && SeqWord(s.bytes) == s.run.state.seqWord + 1)
  }

  /** Completed pages, in sequence order, each following the ones before. */
  ghost predicate HistoryFine(s: System) {
    && s.run.state.seqWord in s.history && s.history[s.run.state.seqWord] == s.run.page
    && (forall k :: k in s.history ==> k <= s.run.state.seqWord)
    && forall j, k :: j in s.history && k in s.history && j <= k ==> Follows(s.history[j], s.history[k])
  }

  /** A copy under way matches the bytes as long as the sequence stands. */
  ghost predicate ReaderFine(s: System) {
    s.reader.Copying? ==>
      var q, copy := s.reader.seqWord, s.reader.copy;
      && IsPublished(q) && q <= SeqWord(s.bytes) && |copy| <= STATUS_BYTES
      && (q == SeqWord(s.bytes) ==> copy == s.bytes[..|copy|])
  }

  /** Accepted copies are pages of the history, in order, none newer than what is being read. */
  ghost predicate AcceptedFine(s: System) {
    && (forall i :: 0 <= i < |s.accepted| ==>
          && s.accepted[i].seqWord in s.history
          && s.accepted[i].bytes == PageBytes(s.history[s.accepted[i].seqWord])
          && s.accepted[i].seqWord <= (if s.reader.Copying? then s.reader.seqWord else SeqWord(s.bytes)))
    && forall i, j :: 0 <= i < j < |s.accepted| ==> s.accepted[i].seqWord <= s.accepted[j].seqWord
  }

  ghost predicate Fine(s: System) {
    WriterFine(s) && HistoryFine(s) && ReaderFine(s) && AcceptedFine(s)
  }

  lemma SeqOfPage(p: StatusPage)
    ensures SeqWord(PageBytes(p)) == p.header.seqWord
  {
    PageHeaderLoads(p);
  }

  lemma SeqSet(bytes: StatusBytes, v: uint64)
    ensures SeqWord(WithSeq(bytes, v)) == v
  {
    LoadStored(bytes, SEQ_WORD_AT, v);
  }

  lemma SeqKept(bytes: StatusBytes, at: nat, value: byte)
    requires at < STATUS_BYTES && !(SEQ_WORD_AT <= at < SEQ_WORD_AT + 8)
    ensures SeqWord(Blit(bytes, at, [value])) == SeqWord(bytes)
  {
    BlitRegion(bytes, at, [value]);
    KeepWord(bytes, Blit(bytes, at, [value]), at, 1, SEQ_WORD_AT);
  }

  lemma StartIsFine(present: set<nat>, now: uint64, frequency: uint64, budget: seq<uint32>)
    requires |budget| == CHILD_COUNT
    ensures Fine(Start(present, now, frequency, budget))
  {
    hide PageBytes, Booted, Ahead, Follows, Load64;
    var r := Booted(present, now, frequency, budget);
    BootIsAhead(present, now, frequency, budget);
    BootSequence(present, now, frequency, budget);
    SeqOfPage(r.page);
    FollowsItself(r.page);
  }

  lemma BootSequence(present: set<nat>, now: uint64, frequency: uint64, budget: seq<uint32>)
    requires |budget| == CHILD_COUNT
    ensures var r := Booted(present, now, frequency, budget);
            r.state.seqWord == 2 && r.page.header.seqWord == 2
  {
  }

  lemma NoteIsFine(s: System, act: Act)
    requires Fine(s) && HonestMove(s, Note(act))
    ensures Fine(Next(s, Note(act)))
  {
    hide PageBytes, Ahead, Follows, Acted, Load64, Honest;
    if Next(s, Note(act)) != s {
      ActFollows(s.run, act);
      NoteKeepsSeq(s.run, act);
    }
  }

  lemma NoteKeepsSeq(r: Run, act: Act)
    requires Honest(r, act) && !(act.Publish? && Publishing(r, act).ok)
    ensures Acted(r, act).state.seqWord == r.state.seqWord && Acted(r, act).page == r.page
  {
    if act.Publish? {
    } else {
      NotesOnlyAdd(r, act);
    }
  }

  lemma PublishAdvances(r: Run, act: Act)
    requires act.Publish? && Publishing(r, act).ok
    ensures act.Whole() && Acted(r, act).state.seqWord == r.state.seqWord + 2
    ensures Acted(r, act).page.header.seqWord == r.state.seqWord + 2
  {
  }

  lemma AheadSeq(r: Run)
    requires Ahead(r)
    ensures r.page.header.seqWord == r.state.seqWord && IsPublished(r.state.seqWord)
  {
  }

  lemma OpenIsFine(s: System, act: Act)
    requires Fine(s) && HonestMove(s, OpenPublish(act))
    ensures Fine(Next(s, OpenPublish(act)))
  {
    hide PageBytes, Ahead, Follows, Acted, Load64, Honest, Published, WithSeq;
    AheadSeq(s.run);
    if s.run.state.seqWord < UINT64_MAX {
      SeqSet(s.bytes, s.run.state.seqWord + 1);
    }
    SeqOfPage(s.run.page);
  }

  lemma StoreIsFine(s: System, at: nat, value: byte)
    requires Fine(s)
    ensures Fine(Next(s, StoreByte(at, value)))
  {
    hide PageBytes, Ahead, Follows, Acted, Load64, Honest, Published, Blit;
    if Next(s, StoreByte(at, value)) != s {
      AheadSeq(s.run);
      SeqKept(s.bytes, at, value);
    }
  }

  lemma CloseIsFine(s: System)
    requires Fine(s)
    ensures Fine(Next(s, ClosePublish))
  {
    hide PageBytes, Ahead, Follows, Acted, Load64, Honest, Published, WithSeq;
    if Next(s, ClosePublish) != s {
      var act := s.publishing.value;
      ActFollows(s.run, act);
      PublishAdvances(s.run, act);
      SeqOfPage(Acted(s.run, act).page);
      HistoryGrows(s, Acted(s.run, act));
    }
  }

  /** A page that follows the latest follows the whole history. */
  lemma HistoryGrows(s: System, r: Run)
    requires HistoryFine(s) && Follows(s.run.page, r.page) && s.run.state.seqWord < r.state.seqWord
    ensures HistoryFine(s.(run := r, bytes := s.bytes, history := s.history[r.state.seqWord := r.page]))
  {
    hide Follows;
    var h := s.history[r.state.seqWord := r.page];
    forall j, k | j in h && k in h && j <= k
      ensures Follows(h[j], h[k])
    {
      if k == r.state.seqWord {
        if j == k {
          FollowsItself(r.page);
        } else {
          FollowsTransitive(s.history[j], s.run.page, r.page);
        }
      }
    }
  }

  lemma ReaderMoveIsFine(s: System, move: Move)
    requires Fine(s) && (move.LoadSeq? || move.CopyByte? || move.FinishCopy?)
    ensures Fine(Next(s, move))
  {
    hide PageBytes, Ahead, Follows, Acted, Load64, Honest, Published;
    if move.FinishCopy? && s.reader.Copying? && |s.reader.copy| == STATUS_BYTES {
      AheadSeq(s.run);
      SeqOfPage(s.run.page);
      assert s.bytes[..STATUS_BYTES] == s.bytes;
    } else if move.CopyByte? && s.reader.Copying? && |s.reader.copy| < STATUS_BYTES {
      var n := |s.reader.copy|;
      assert s.bytes[..n] + [s.bytes[n]] == s.bytes[..n + 1];
    }
  }

  // ----- whole runs -----

  ghost function After(start: System, moves: seq<Move>): System {
    if moves == [] then start else Next(After(start, moves[..|moves| - 1]), moves[|moves| - 1])
  }

  ghost predicate HonestRun(start: System, moves: seq<Move>) {
    forall i :: 0 <= i < |moves| ==> HonestMove(After(start, moves[..i]), moves[i])
  }

  lemma MoveIsFine(s: System, move: Move)
    requires Fine(s) && HonestMove(s, move)
    ensures Fine(Next(s, move))
  {
    hide Fine, Next, HonestMove;
    match move
    case Note(act) => NoteIsFine(s, act);
    case OpenPublish(act) => OpenIsFine(s, act);
    case StoreByte(at, value) => StoreIsFine(s, at, value);
    case ClosePublish => CloseIsFine(s);
    case LoadSeq => ReaderMoveIsFine(s, LoadSeq);
    case CopyByte => ReaderMoveIsFine(s, CopyByte);
    case FinishCopy => ReaderMoveIsFine(s, FinishCopy);
  }

  lemma {:induction false} RunsAreFine(start: System, moves: seq<Move>)
    requires Fine(start) && HonestRun(start, moves)
    ensures Fine(After(start, moves))
  {
    hide Fine, Next, HonestMove;
    if moves != [] {
      var n := |moves| - 1;
      assert forall i :: 0 <= i < n ==> moves[..n][..i] == moves[..i];
      RunsAreFine(start, moves[..n]);
      MoveIsFine(After(start, moves[..n]), moves[n]);
    }
  }

  /** Every accepted copy is a completed page, and none reads as a regression of an earlier one. */
  ghost predicate AcceptedSound(s: System) {
    forall i, j :: 0 <= i <= j < |s.accepted| ==>
      && s.accepted[i].seqWord in s.history
      && s.accepted[i].bytes == PageBytes(s.history[s.accepted[i].seqWord])
      && !WentBack(s.accepted[i].bytes, s.accepted[j].bytes)
  }

  lemma FineIsSound(s: System)
    requires Fine(s)
    ensures AcceptedSound(s)
  {
    hide PageBytes, Follows, WentBack, Load64;
    forall i, j | 0 <= i <= j < |s.accepted|
      ensures !WentBack(s.accepted[i].bytes, s.accepted[j].bytes)
    {
      var a, b := s.accepted[i], s.accepted[j];
      assert a.seqWord <= b.seqWord;
      FollowsIsNoRegression(s.history[a.seqWord], s.history[b.seqWord]);
    }
  }

  /**
   * However its copy was interleaved with the writer's stores, an accepted copy is byte for byte the
   * page of one completed publish, and no later accepted copy reads as a regression of it.
   */
  lemma SeqlockIsSound(present: set<nat>, now: uint64, frequency: uint64, budget: seq<uint32>, moves: seq<Move>)
    requires |budget| == CHILD_COUNT && HonestRun(Start(present, now, frequency, budget), moves)
    ensures AcceptedSound(After(Start(present, now, frequency, budget), moves))
  {
    hide Fine, HonestRun, AcceptedSound, Next, Start;
    StartIsFine(present, now, frequency, budget);
    RunsAreFine(Start(present, now, frequency, budget), moves);
    FineIsSound(After(Start(present, now, frequency, budget), moves));
  }
}
