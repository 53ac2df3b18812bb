/** Reading, validating and replaying survivor records (src/pd/beam/restart/beam_snapshot_codec.c). */
module SurvivorReplay {
  import opened Words
  import opened SnapshotCodec

  datatype ReadResult =
    | Record(run: Run, payload: seq<byte>, next: nat)
    | End
    | Truncated
    | OutOfBounds

  /**
   * What beam_survivor_read makes of the bytes at cursor. Offset and length are 32-bit, so their
   * sum cannot wrap a 64-bit size_t and the checked addition in the source never fails.
   */
  function ReadAt(input: seq<byte>, bssLen: nat, cursor: nat): (r: ReadResult)
    ensures r.Record? ==>
      && cursor < r.next <= |input| && r.next == cursor + HEADER_BYTES + r.run.len
      && r.payload == input[cursor + HEADER_BYTES..r.next]
      && r.run.offset + r.run.len <= bssLen
  {
    if cursor == |input| then End
    else if cursor > |input| || |input| - cursor < HEADER_BYTES then Truncated
    else
      var run := Run(Value(input[cursor..cursor + 4]), Value(input[cursor + 4..cursor + HEADER_BYTES]));
      if |input| - cursor - HEADER_BYTES < run.len then Truncated
      else if run.offset + run.len > bssLen then OutOfBounds
      else
        var next := cursor + HEADER_BYTES + run.len;
        Record(run, input[cursor + HEADER_BYTES..next], next)
  }

  /** A cursor over an encoded survivor area. */
  class SurvivorReader {
    const input: seq<byte>
    const bssLen: nat
    var cursor: nat

    constructor (input: seq<byte>, bssLen: nat)
      ensures this.input == input && this.bssLen == bssLen && cursor == 0
    {
      this.input, this.bssLen, this.cursor := input, bssLen, 0;
    }

    /** beam_survivor_read: only a record moves the cursor. */
    method Read() returns (r: ReadResult)
      modifies this
      ensures r == ReadAt(input, bssLen, old(cursor))
      ensures cursor == if r.Record? then r.next else old(cursor)
    {
      if cursor == |input| {
        return End;
      }
      if cursor > |input| || |input| - cursor < HEADER_BYTES {
        return Truncated;
      }
      var offset, len := Value(input[cursor..cursor + 4]), Value(input[cursor + 4..cursor + HEADER_BYTES]);
      if |input| - cursor - HEADER_BYTES < len {
        return Truncated;
      }
      if offset + len > bssLen {
        return OutOfBounds;
      }
      var payload := input[cursor + HEADER_BYTES..cursor + HEADER_BYTES + len];
      cursor := cursor + HEADER_BYTES + len;
      return Record(Run(offset, len), payload, cursor);
    }
  }

  // ----- the validator's walk -----

  datatype WalkStatus =
    | WalkOk
    | WalkTruncated
    | WalkOutOfBounds
    | WalkEmpty
    | WalkMisaligned
    | WalkOutOfOrder

  /** The record loop of beam_snapshot_validate, from a cursor and the end of the previous record. */
  function Walk(input: seq<byte>, bssLen: nat, cursor: nat, previousEnd: nat): WalkStatus
    decreases |input| - cursor
  {
    match ReadAt(input, bssLen, cursor)
    case End => WalkOk
    case Truncated => WalkTruncated
    case OutOfBounds => WalkOutOfBounds
    case Record(run, _, next) =>
      if run.len == 0 then WalkEmpty
      else if run.offset % WORD_BYTES != 0 || (run.len % WORD_BYTES != 0 && !IsTail(run, bssLen)) then WalkMisaligned
      else if run.offset < previousEnd then WalkOutOfOrder
      else Walk(input, bssLen, next, run.offset + run.len)
  }

  /** The loop itself. */
  method WalkRecords(input: seq<byte>, bssLen: nat) returns (status: WalkStatus)
    ensures status == Walk(input, bssLen, 0, 0)
  {
    var reader := new SurvivorReader(input, bssLen);
    var previousEnd: nat := 0;
    while true
      invariant reader.cursor <= |reader.input|
      invariant Walk(input, bssLen, reader.cursor, previousEnd) == Walk(input, bssLen, 0, 0)
      decreases |input| - reader.cursor
    {
      var r := reader.Read();
      match r
      case End => return WalkOk;
      case Truncated => return WalkTruncated;
      case OutOfBounds => return WalkOutOfBounds;
      case Record(run, payload, next) =>
        if run.len == 0 {
          return WalkEmpty;
        }
        var isTail := run.offset == TailOffset(bssLen) && run.offset + run.len == bssLen;
        if run.offset % WORD_BYTES != 0 || (run.len % WORD_BYTES != 0 && !isTail) {
          return WalkMisaligned;
        }
        if run.offset < previousEnd {
          return WalkOutOfOrder;
        }
        previousEnd := run.offset + run.len;
    }
  }

  /** Everything a read loop sees: its records, and the result that stopped it. */
  datatype Parsed = Parsed(runs: seq<Run>, stop: ReadResult)

  function Parse(input: seq<byte>, bssLen: nat, cursor: nat): Parsed
    decreases |input| - cursor
  {
    var r := ReadAt(input, bssLen, cursor);
    if r.Record? then
      var rest := Parse(input, bssLen, r.next);
      Parsed([r.run] + rest.runs, rest.stop)
    else Parsed([], r)
  }

  /** Starts at or after previousEnd. */
  predicate StartsAfter(runs: seq<Run>, previousEnd: nat) {
    runs == [] || previousEnd <= runs[0].offset
  }

  /** Valid runs leave a valid first record and valid later ones that start after its end. */
  lemma ValidRunsParts(run: Run, rest: seq<Run>, bssLen: nat)
    requires ValidRuns([run] + rest, bssLen)
    ensures ValidRun(run, bssLen) && ValidRuns(rest, bssLen) && StartsAfter(rest, run.offset + run.len)
  {
    hide ValidRun;
    var runs := [run] + rest;
    assert runs[0] == run && run in runs;
    assert forall i :: 0 <= i < |rest| ==> rest[i] == runs[i + 1] && rest[i] in runs;
  }

  /** And such a record put before such ones gives valid runs. */
  lemma ValidRunsJoin(run: Run, rest: seq<Run>, bssLen: nat)
    requires ValidRun(run, bssLen) && ValidRuns(rest, bssLen) && StartsAfter(rest, run.offset + run.len)
    ensures ValidRuns([run] + rest, bssLen)
  {
    hide ValidRun;
    forall r | r in rest
      ensures run.offset + run.len <= r.offset
    {
      var i :| 0 <= i < |rest| && rest[i] == r;
      assert i > 0 ==> rest[0].offset + rest[0].len <= rest[i].offset;
    }
    PrependValid(run, rest, bssLen);
  }

  lemma ValidRunsSplit(run: Run, rest: seq<Run>, bssLen: nat)
    ensures ValidRuns([run] + rest, bssLen) <==>
      ValidRun(run, bssLen) && ValidRuns(rest, bssLen) && StartsAfter(rest, run.offset + run.len)
  {
    hide ValidRun, ValidRuns, StartsAfter;
    if ValidRuns([run] + rest, bssLen) {
      ValidRunsParts(run, rest, bssLen);
    } else if ValidRun(run, bssLen) && ValidRuns(rest, bssLen) && StartsAfter(rest, run.offset + run.len) {
      ValidRunsJoin(run, rest, bssLen);
    }
  }

  /**
   * The validator accepts exactly the byte strings whose records can be read to the end and are
   * valid, in bounds and in ascending order.
   */
  lemma {:induction false} WalkAcceptsExactly(input: seq<byte>, bssLen: nat, cursor: nat, previousEnd: nat)
    ensures Walk(input, bssLen, cursor, previousEnd) == WalkOk <==>
      var p := Parse(input, bssLen, cursor);
      p.stop == End && ValidRuns(p.runs, bssLen) && StartsAfter(p.runs, previousEnd)
    decreases |input| - cursor
  {
    var r := ReadAt(input, bssLen, cursor);
    if r.Record? {
      var rest := Parse(input, bssLen, r.next);
      WalkAcceptsExactly(input, bssLen, r.next, r.run.offset + r.run.len);
      ValidRunsSplit(r.run, rest.runs, bssLen);
    }
  }

  /**
   * On any bytes the validator accepts, the replay loop stops at the end of the area, stays inside
   * .bss, and no byte of .bss belongs to two records.
   */
  lemma AcceptedReplayIsSafe(input: seq<byte>, bssLen: nat)
    requires Walk(input, bssLen, 0, 0) == WalkOk
    ensures var p := Parse(input, bssLen, 0);
      && p.stop == End
      && InBounds(p.runs, bssLen)
      && forall i, j, k ::
           0 <= i < |p.runs| && 0 <= j < |p.runs| && Covers(p.runs[i], k) && Covers(p.runs[j], k) ==> i == j
  {
    WalkAcceptsExactly(input, bssLen, 0, 0);
  }

  // ----- replay -----

  /** The replay loop of beam_reset_restore on a copy of .bss. */
  function Replay(input: seq<byte>, bssLen: nat, cursor: nat, target: seq<byte>): (r: seq<byte>)
    requires |target| == bssLen
    ensures |r| == bssLen
    decreases |input| - cursor
  {
    var r := ReadAt(input, bssLen, cursor);
    if r.Record? then Replay(input, bssLen, r.next, Blit(target, r.run.offset, r.payload)) else target
  }

  /** target with each run overwritten by the bytes of bss it covers. */
  function Overlay(bss: seq<byte>, runs: seq<Run>, target: seq<byte>): (r: seq<byte>)
    requires InBounds(runs, |bss|) && |target| == |bss|
    ensures |r| == |bss|
  {
    if runs == [] then target
    else
      var run := runs[0];
      Overlay(bss, runs[1..], Blit(target, run.offset, bss[run.offset..run.offset + run.len]))
  }

  /** Reading an encoded record gives it back. */
  lemma ReadEncoded(bss: seq<byte>, run: Run, input: seq<byte>, cursor: nat)
    requires run.offset + run.len <= |bss| <= UINT32_MAX
    requires cursor + HEADER_BYTES + run.len <= |input|
    requires input[cursor..cursor + HEADER_BYTES + run.len] == EncodeRun(bss, run)
    ensures ReadAt(input, |bss|, cursor)
         == Record(run, bss[run.offset..run.offset + run.len], cursor + HEADER_BYTES + run.len)
  {
    hide Bytes, Value;
    var record := input[cursor..cursor + HEADER_BYTES + run.len];
    var end := HEADER_BYTES + run.len;
    SubSlice(input, cursor, cursor + end, 0, 4);
    SubSlice(input, cursor, cursor + end, 4, HEADER_BYTES);
    SubSlice(input, cursor, cursor + end, HEADER_BYTES, end);
    assert record[0..4] == Bytes(4, run.offset);
    assert record[4..HEADER_BYTES] == Bytes(4, run.len);
    assert record[HEADER_BYTES..end] == bss[run.offset..run.offset + run.len];
    WordRoundTrip(run.offset);
    WordRoundTrip(run.len);
  }

  lemma AtEnd(input: seq<byte>, bssLen: nat, cursor: nat, target: seq<byte>)
    requires cursor == |input| && |target| == bssLen
    ensures Parse(input, bssLen, cursor) == Parsed([], End) && Replay(input, bssLen, cursor, target) == target
  {
  }

  lemma AtRecord(input: seq<byte>, bssLen: nat, cursor: nat, target: seq<byte>)
    requires ReadAt(input, bssLen, cursor).Record? && |target| == bssLen
    ensures var r := ReadAt(input, bssLen, cursor);
            var rest := Parse(input, bssLen, r.next);
            && Parse(input, bssLen, cursor) == Parsed([r.run] + rest.runs, rest.stop)
            && Replay(input, bssLen, cursor, target)
            == Replay(input, bssLen, r.next, Blit(target, r.run.offset, r.payload))
  {
  }

  /** Reading an encoded area gives exactly its runs, and replaying it overlays them. */
  lemma {:induction false} ReadBack(bss: seq<byte>, runs: seq<Run>, input: seq<byte>, cursor: nat, target: seq<byte>)
    requires InBounds(runs, |bss|) && |bss| <= UINT32_MAX && |target| == |bss|
    requires cursor <= |input| && input[cursor..] == EncodeRuns(bss, runs)
    ensures Parse(input, |bss|, cursor) == Parsed(runs, End)
    ensures Replay(input, |bss|, cursor, target) == Overlay(bss, runs, target)
    decreases |runs|
  {
    hide EncodeRun, ReadAt, Parse, Replay, Blit;
    if runs == [] {
      AtEnd(input, |bss|, cursor, target);
    } else {
      var run, rest := runs[0], runs[1..];
      var next := cursor + HEADER_BYTES + run.len;
      SplitSuffix(input, cursor, EncodeRun(bss, run), EncodeRuns(bss, rest));
      ReadEncoded(bss, run, input, cursor);
      AtRecord(input, |bss|, cursor, target);
      ReadBack(bss, rest, input, next, Blit(target, run.offset, bss[run.offset..run.offset + run.len]));
      assert [run] + rest == runs;
    }
  }

  /** After an overlay a covered byte comes from bss and any other from target. */
  lemma {:induction false} OverlayByte(bss: seq<byte>, runs: seq<Run>, target: seq<byte>, k: nat)
    requires InBounds(runs, |bss|) && |target| == |bss| && k < |bss|
    ensures Overlay(bss, runs, target)[k] == if Covered(runs, k) then bss[k] else target[k]
    decreases |runs|
  {
    if runs != [] {
      var run, rest := runs[0], runs[1..];
      var next := Blit(target, run.offset, bss[run.offset..run.offset + run.len]);
      OverlayByte(bss, rest, next, k);
      assert next[k] == if Covers(run, k) then bss[k] else target[k];
      assert Covered(runs, k) <==> Covers(run, k) || Covered(rest, k) by {
        assert forall r :: r in runs <==> r == run || r in rest;
      }
    }
  }

  /** Zero-filling .bss and replaying its encoded survivors rebuilds it byte for byte. */
  lemma SurvivorRoundTrip(bss: seq<byte>, gapWords: nat)
    requires |bss| <= UINT32_MAX
    ensures Replay(Encode(bss, gapWords), |bss|, 0, Zeros(|bss|)) == bss
  {
    var runs := Runs(bss, gapWords);
    RunsValid(bss, gapWords);
    ReadBack(bss, runs, Encode(bss, gapWords), 0, Zeros(|bss|));
    OverlayOnZeros(bss, gapWords);
  }

  /** The discovered runs are all of .bss that differs from zero. */
  lemma OverlayOnZeros(bss: seq<byte>, gapWords: nat)
    requires InBounds(Runs(bss, gapWords), |bss|)
    ensures Overlay(bss, Runs(bss, gapWords), Zeros(|bss|)) == bss
  {
    hide Runs, Overlay;
    var rebuilt := Overlay(bss, Runs(bss, gapWords), Zeros(|bss|));
    forall k | 0 <= k < |bss|
      ensures rebuilt[k] == bss[k]
    {
      OverlayByte(bss, Runs(bss, gapWords), Zeros(|bss|), k);
      if bss[k] != 0 {
        RunsCover(bss, gapWords, k);
      }
    }
  }

  /** The validator accepts everything the encoder produces, and reads back the encoder's runs. */
  lemma EncoderPassesWalk(bss: seq<byte>, gapWords: nat)
    requires |bss| <= UINT32_MAX
    ensures Walk(Encode(bss, gapWords), |bss|, 0, 0) == WalkOk
    ensures Parse(Encode(bss, gapWords), |bss|, 0) == Parsed(Runs(bss, gapWords), End)
  {
    RunsValid(bss, gapWords);
    ReadBack(bss, Runs(bss, gapWords), Encode(bss, gapWords), 0, bss);
    WalkAcceptsExactly(Encode(bss, gapWords), |bss|, 0, 0);
  }

  // ----- why a record is refused -----

  /** What stands at a cursor: nothing more, or too few bytes, or a record that may leave .bss. */
  lemma ReadsExactly(input: seq<byte>, bssLen: nat, cursor: nat)
    ensures var left := |input| - cursor;
            && (ReadAt(input, bssLen, cursor) == End <==> left == 0)
            && (left < 8 && left != 0 ==> ReadAt(input, bssLen, cursor) == Truncated)
            && (left >= 8 ==>
                  var offset, len := Value(input[cursor..cursor + 4]), Value(input[cursor + 4..cursor + 8]);
                  && (ReadAt(input, bssLen, cursor) == Truncated <==> left - 8 < len)
                  && (ReadAt(input, bssLen, cursor) == OutOfBounds <==> left - 8 >= len && offset + len > bssLen)
                  && (left - 8 >= len && offset + len <= bssLen ==>
                        ReadAt(input, bssLen, cursor) ==
                        Record(Run(offset, len), input[cursor + 8..cursor + 8 + len], cursor + 8 + len)))
  {
  }

  /** How the walk judges the record it stands at: empty, then alignment, then order, then the rest. */
  lemma WalkJudges(input: seq<byte>, bssLen: nat, cursor: nat, previousEnd: nat)
    ensures var r, status := ReadAt(input, bssLen, cursor), Walk(input, bssLen, cursor, previousEnd);
            && (r == End ==> status == WalkOk) && (r == Truncated ==> status == WalkTruncated)
            && (r == OutOfBounds ==> status == WalkOutOfBounds)
            && (r.Record? ==>
                  var run := r.run;
                  var aligned := run.offset % 8 == 0 && (run.len % 8 == 0 || IsTail(run, bssLen));
                  && (run.len == 0 ==> status == WalkEmpty)
                  && (run.len > 0 && !aligned ==> status == WalkMisaligned)
                  && (run.len > 0 && aligned && run.offset < previousEnd ==> status == WalkOutOfOrder)
                  && (run.len > 0 && aligned && run.offset >= previousEnd ==>
                        status == Walk(input, bssLen, r.next, run.offset + run.len)))
  {
    hide ReadAt;
  }
}
