/** The survivor records of a warm-restart snapshot (src/pd/beam/restart/beam_snapshot_codec.c). */
module SnapshotCodec {
  import opened Words

  const WORD_BYTES := 8
  const HEADER_BYTES := 8

  /** One non-zero run of .bss. */
  datatype Run = Run(offset: nat, len: nat)

  datatype EncodeStatus = EncodeOk | SurvivorOverflow | BssTooLarge

  // ----- which runs the scan discovers -----

  function WordCount(bss: seq<byte>): nat {
    |bss| / WORD_BYTES
  }

  function LoadWord(bss: seq<byte>, index: nat): nat
    requires index < WordCount(bss)
  {
    Value(bss[WORD_BYTES * index..WORD_BYTES * index + WORD_BYTES])
  }

  /** The last non-zero word of a run, and the first word the scan has not examined. */
  datatype Scan = Scan(last: nat, next: nat)

  /** Extends a run whose last non-zero word so far is last; words in (last, i) are zero. */
  function ExtendRun(bss: seq<byte>, gapWords: nat, last: nat, i: nat): (s: Scan)
    requires last < i <= WordCount(bss)
    ensures last <= s.last < s.next <= WordCount(bss) && i <= s.next
    decreases WordCount(bss) - i
  {
    if i < WordCount(bss) && i - last <= gapWords
    then ExtendRun(bss, gapWords, if LoadWord(bss, i) != 0 then i else last, i + 1)
    else Scan(last, i)
  }

  function WordRun(first: nat, last: nat): Run
    requires first <= last
  {
    Run(WORD_BYTES * first, WORD_BYTES * (last - first + 1))
  }

  /** The whole-word runs found from word i on. */
  function WordRuns(bss: seq<byte>, gapWords: nat, i: nat): seq<Run>
    requires i <= WordCount(bss)
    decreases WordCount(bss) - i
  {
    if i == WordCount(bss) then []
    else if LoadWord(bss, i) == 0 then WordRuns(bss, gapWords, i + 1)
    else
      var s := ExtendRun(bss, gapWords, i, i + 1);
      [WordRun(i, s.last)] + WordRuns(bss, gapWords, s.next)
  }

  function TailOffset(bssLen: nat): nat {
    bssLen - bssLen % WORD_BYTES
  }

  /** The sub-word tail, kept whole when any byte of it is non-zero. */
  function TailRuns(bss: seq<byte>): seq<Run> {
    var at := TailOffset(|bss|);
    if AllZero(bss[at..]) then [] else [Run(at, |bss| - at)]
  }

  function Runs(bss: seq<byte>, gapWords: nat): seq<Run> {
    WordRuns(bss, gapWords, 0) + TailRuns(bss)
  }

  // ----- what the encoder guarantees about its runs -----

  predicate IsTail(run: Run, bssLen: nat) {
    run.offset == TailOffset(bssLen) && run.offset + run.len == bssLen
  }

  /** What the validator demands of a single record. */
  predicate ValidRun(run: Run, bssLen: nat) {
    && run.len != 0
    && run.offset + run.len <= bssLen
    && run.offset % WORD_BYTES == 0
    && (run.len % WORD_BYTES == 0 || IsTail(run, bssLen))
  }

  /** Valid records, each ending at or before the start of every later one. */
  predicate ValidRuns(runs: seq<Run>, bssLen: nat) {
    && (forall r :: r in runs ==> ValidRun(r, bssLen))
    && (forall i, j :: 0 <= i < j < |runs| ==> runs[i].offset + runs[i].len <= runs[j].offset)
  }

  predicate Covers(run: Run, k: nat) {
    run.offset <= k < run.offset + run.len
  }

  ghost predicate Covered(runs: seq<Run>, k: nat) {
    exists r :: r in runs && Covers(r, k)
  }

  /** The words strictly between the last found word and the end of the scan are zero. */
  lemma {:induction false} ExtendRunScans(bss: seq<byte>, gapWords: nat, last: nat, i: nat)
    requires last < i <= WordCount(bss) && LoadWord(bss, last) != 0
    requires forall w :: last < w < i ==> LoadWord(bss, w) == 0
    ensures var s := ExtendRun(bss, gapWords, last, i);
            && LoadWord(bss, s.last) != 0
            && (forall w :: s.last < w < s.next ==> LoadWord(bss, w) == 0)
            && (s.next == WordCount(bss) || s.next - s.last > gapWords)
    decreases WordCount(bss) - i
  {
    if i < WordCount(bss) && i - last <= gapWords {
      ExtendRunScans(bss, gapWords, if LoadWord(bss, i) != 0 then i else last, i + 1);
    }
  }

  /** A run of whole words is a valid record that ends before the tail. */
  lemma WordRunValid(bssLen: nat, first: nat, last: nat)
    requires first <= last < bssLen / WORD_BYTES
    ensures var run := WordRun(first, last);
            && ValidRun(run, bssLen) && run.offset + run.len <= TailOffset(bssLen)
            && run.offset == WORD_BYTES * first && run.offset + run.len == WORD_BYTES * (last + 1)
  {
  }

  /** Putting a valid record before later ones. */
  lemma PrependValid(run: Run, rest: seq<Run>, bssLen: nat)
    requires ValidRun(run, bssLen) && ValidRuns(rest, bssLen)
    requires forall r :: r in rest ==> run.offset + run.len <= r.offset
    ensures ValidRuns([run] + rest, bssLen)
  {
    var runs := [run] + rest;
    assert forall i :: 0 < i < |runs| ==> runs[i] == rest[i - 1] && runs[i] in rest;
  }

  /** Every run lies between word i and the tail. */
  predicate Within(runs: seq<Run>, from: nat, to: nat) {
    forall r :: r in runs ==> from <= r.offset && r.offset + r.len <= to
  }

  /** Word runs are valid, in order, and lie between word i and the tail. */
  lemma {:induction false} WordRunsValid(bss: seq<byte>, gapWords: nat, i: nat)
    requires i <= WordCount(bss)
    ensures ValidRuns(WordRuns(bss, gapWords, i), |bss|)
    ensures Within(WordRuns(bss, gapWords, i), WORD_BYTES * i, TailOffset(|bss|))
    decreases WordCount(bss) - i
  {
    if i < WordCount(bss) {
      if LoadWord(bss, i) == 0 {
        WordRunsValid(bss, gapWords, i + 1);
      } else {
        var s := ExtendRun(bss, gapWords, i, i + 1);
        var run, rest := WordRun(i, s.last), WordRuns(bss, gapWords, s.next);
        WordRunsValid(bss, gapWords, s.next);
        WordRunValid(|bss|, i, s.last);
        PrependValid(run, rest, |bss|);
      }
    }
  }

  lemma RunsValid(bss: seq<byte>, gapWords: nat)
    ensures ValidRuns(Runs(bss, gapWords), |bss|)
  {
    WordRunsValid(bss, gapWords, 0);
  }

  /** Every non-zero word from i on lies in a discovered run. */
  lemma {:induction false} WordRunsCover(bss: seq<byte>, gapWords: nat, i: nat, w: nat, k: nat)
    requires i <= w < WordCount(bss) && LoadWord(bss, w) != 0 && k / WORD_BYTES == w
    ensures Covered(WordRuns(bss, gapWords, i), k)
    decreases WordCount(bss) - i
  {
    if LoadWord(bss, i) == 0 {
      WordRunsCover(bss, gapWords, i + 1, w, k);
    } else {
      var s := ExtendRun(bss, gapWords, i, i + 1);
      ExtendRunScans(bss, gapWords, i, i + 1);
      var rest := WordRuns(bss, gapWords, s.next);
      if w <= s.last {
        assert Covers(WordRuns(bss, gapWords, i)[0], k);
      } else {
        WordRunsCover(bss, gapWords, s.next, w, k);
        var r :| r in rest && Covers(r, k);
        assert r in WordRuns(bss, gapWords, i);
      }
    }
  }

  /** Every non-zero byte of .bss lies in a discovered run. */
  lemma RunsCover(bss: seq<byte>, gapWords: nat, k: nat)
    requires k < |bss| && bss[k] != 0
    ensures Covered(Runs(bss, gapWords), k)
  {
    var at := TailOffset(|bss|);
    if k < at {
      var w := k / WORD_BYTES;
      var word := bss[WORD_BYTES * w..WORD_BYTES * w + WORD_BYTES];
      assert word[k - WORD_BYTES * w] != 0;
      ValueZero(word);
      WordRunsCover(bss, gapWords, 0, w, k);
      var r :| r in WordRuns(bss, gapWords, 0) && Covers(r, k);
      assert r in Runs(bss, gapWords);
    } else {
      assert bss[at..][k - at] != 0;
      assert Covers(TailRuns(bss)[0], k);
      assert TailRuns(bss)[0] in Runs(bss, gapWords);
    }
  }

  /** A run's words [first, last]: it starts and ends non-zero and no hole in it exceeds the gap. */
  ghost predicate Coalesced(bss: seq<byte>, gapWords: nat, first: nat, last: nat) {
    && first <= last < WordCount(bss)
    && LoadWord(bss, first) != 0 && LoadWord(bss, last) != 0
    && forall w :: first <= w < last && LoadWord(bss, w) != 0 ==> HasNeighbour(bss, gapWords, w, last)
  }

  /** Another non-zero word follows w at an index distance of at most the gap, no later than last. */
  ghost predicate HasNeighbour(bss: seq<byte>, gapWords: nat, w: nat, last: nat)
    requires last < WordCount(bss)
  {
    exists v :: w < v <= last && v - w <= gapWords && LoadWord(bss, v) != 0
  }

  function FirstWord(run: Run): nat {
    run.offset / WORD_BYTES
  }

  function LastWord(run: Run): int {
    (run.offset + run.len) / WORD_BYTES - 1
  }

  lemma WordRunWords(first: nat, last: nat)
    requires first <= last
    ensures FirstWord(WordRun(first, last)) == first && LastWord(WordRun(first, last)) == last
  {
  }

  /** Every run is coalesced, and between two of them, or lastWord and the first, the gap is exceeded. */
  ghost predicate CoalescedRuns(bss: seq<byte>, gapWords: nat, runs: seq<Run>, lastWord: int) {
    runs == [] ||
    (&& LastWord(runs[0]) >= 0
     && Coalesced(bss, gapWords, FirstWord(runs[0]), LastWord(runs[0]))
     && (lastWord < 0 || FirstWord(runs[0]) - lastWord > gapWords)
     && CoalescedRuns(bss, gapWords, runs[1..], LastWord(runs[0])))
  }

  /** The next non-zero word, no further than the gap, extends a coalesced run. */
  lemma CoalescedGrows(bss: seq<byte>, gapWords: nat, first: nat, last: nat, i: nat)
    requires last < i < WordCount(bss) && i - last <= gapWords && LoadWord(bss, i) != 0
    requires Coalesced(bss, gapWords, first, last)
    requires forall w :: last < w < i ==> LoadWord(bss, w) == 0
    ensures Coalesced(bss, gapWords, first, i)
  {
    hide LoadWord;
    forall w | first <= w < i && LoadWord(bss, w) != 0
      ensures HasNeighbour(bss, gapWords, w, i)
    {
      if w < last {
        assert HasNeighbour(bss, gapWords, w, last);
      }
    }
  }

  /** Holes inside one extended run never exceed the gap. */
  lemma {:induction false} ExtendRunCoalesces(bss: seq<byte>, gapWords: nat, first: nat, last: nat, i: nat)
    requires last < i <= WordCount(bss) && Coalesced(bss, gapWords, first, last)
    requires forall w :: last < w < i ==> LoadWord(bss, w) == 0
    ensures Coalesced(bss, gapWords, first, ExtendRun(bss, gapWords, last, i).last)
    decreases WordCount(bss) - i
  {
    hide LoadWord, HasNeighbour;
    if i < WordCount(bss) && i - last <= gapWords {
      if LoadWord(bss, i) != 0 {
        CoalescedGrows(bss, gapWords, first, last, i);
        ExtendRunCoalesces(bss, gapWords, first, i, i + 1);
      } else {
        ExtendRunCoalesces(bss, gapWords, first, last, i + 1);
      }
    }
  }

  /**
   * The scan groups words exactly by the gap: two consecutive non-zero words share a run if and
   * only if their index distance is at most gapWords.
   */
  lemma {:induction false} WordRunsCoalesce(bss: seq<byte>, gapWords: nat, i: nat, lastWord: int)
    requires -1 <= lastWord < i <= WordCount(bss)
    requires lastWord < 0 || i == WordCount(bss) || i - lastWord > gapWords
    ensures CoalescedRuns(bss, gapWords, WordRuns(bss, gapWords, i), lastWord)
    decreases WordCount(bss) - i
  {
    hide LoadWord, ExtendRun, HasNeighbour, WordRun, FirstWord, LastWord;
    if i < WordCount(bss) {
      if LoadWord(bss, i) == 0 {
        WordRunsCoalesce(bss, gapWords, i + 1, lastWord);
      } else {
        var s := ExtendRun(bss, gapWords, i, i + 1);
        ExtendRunScans(bss, gapWords, i, i + 1);
        ExtendRunCoalesces(bss, gapWords, i, i, i + 1);
        assert Coalesced(bss, gapWords, i, s.last);
        WordRunsCoalesce(bss, gapWords, s.next, s.last);
        var runs := WordRuns(bss, gapWords, i);
        WordRunWords(i, s.last);
        assert runs[1..] == WordRuns(bss, gapWords, s.next);
      }
    }
  }

  // ----- the records on the wire -----

  /** A record: 32-bit offset, 32-bit length, then the payload. */
  function EncodeRun(bss: seq<byte>, run: Run): (s: seq<byte>)
    requires run.offset + run.len <= |bss|
    ensures |s| == HEADER_BYTES + run.len
  {
    Bytes(4, run.offset) + Bytes(4, run.len) + bss[run.offset..run.offset + run.len]
  }

  predicate InBounds(runs: seq<Run>, bssLen: nat) {
    forall r :: r in runs ==> r.offset + r.len <= bssLen
  }

  function EncodeRuns(bss: seq<byte>, runs: seq<Run>): (s: seq<byte>)
    requires InBounds(runs, |bss|)
    ensures |s| == EncodedSize(runs)
  {
    if runs == [] then [] else EncodeRun(bss, runs[0]) + EncodeRuns(bss, runs[1..])
  }

  function EncodedSize(runs: seq<Run>): nat {
    if runs == [] then 0 else HEADER_BYTES + runs[0].len + EncodedSize(runs[1..])
  }

  lemma {:induction false} EncodeRunsConcat(bss: seq<byte>, a: seq<Run>, b: seq<Run>)
    requires InBounds(a + b, |bss|)
    ensures InBounds(a, |bss|) && InBounds(b, |bss|)
    ensures EncodeRuns(bss, a + b) == EncodeRuns(bss, a) + EncodeRuns(bss, b)
    ensures EncodedSize(a + b) == EncodedSize(a) + EncodedSize(b)
  {
    hide Bytes, EncodeRun;
    forall r | r in a || r in b
      ensures r in a + b
    {
    }
    if a == [] {
      assert a + b == b;
    } else {
      assert (a + b)[0] == a[0] && (a + b)[1..] == a[1..] + b;
      EncodeRunsConcat(bss, a[1..], b);
      var first, middle, last := EncodeRun(bss, a[0]), EncodeRuns(bss, a[1..]), EncodeRuns(bss, b);
      assert first + middle + last == first + (middle + last);
    }
  }

  /** The encoded survivors of .bss. */
  function Encode(bss: seq<byte>, gapWords: nat): seq<byte> {
    RunsValid(bss, gapWords);
    EncodeRuns(bss, Runs(bss, gapWords))
  }

  // ----- the encoder -----

  /** append_run: write one record after the used bytes of the area, or report that it does not fit. */
  method AppendRun(bss: seq<byte>, run: Run, out: array<byte>, base: nat, capacity: nat, used: nat)
    returns (ok: bool, used': nat)
    requires run.offset + run.len <= |bss| <= UINT32_MAX
    requires used <= capacity && base + capacity <= out.Length
    modifies out
    ensures ok <==> used + HEADER_BYTES + run.len <= capacity
    ensures ok ==> used' == used + HEADER_BYTES + run.len
    ensures ok ==> out[..][base..base + used'] == old(out[..])[base..base + used] + EncodeRun(bss, run)
    ensures !ok ==> used' == used && out[..] == old(out[..])
    ensures SameOutside(old(out[..]), out[..], base, capacity)
  {
    if capacity - used < HEADER_BYTES || capacity - used - HEADER_BYTES < run.len {
      return false, used;
    }
    var record := EncodeRun(bss, run);
    forall k | 0 <= k < |record| {
      out[base + used + k] := record[k];
    }
    used' := used + |record|;
    assert out[..][base..base + used'] == out[..][base..base + used] + out[..][base + used..base + used'];
    return true, used';
  }

  /** The inner scan: extend the run that starts at word start. */
  method ScanRun(bss: seq<byte>, gapWords: nat, start: nat) returns (last: nat, next: nat)
    requires start < WordCount(bss)
    ensures Scan(last, next) == ExtendRun(bss, gapWords, start, start + 1)
  {
    last, next := start, start + 1;
    while next < WordCount(bss) && next - last <= gapWords
      invariant start <= last < next <= WordCount(bss)
      invariant ExtendRun(bss, gapWords, last, next) == ExtendRun(bss, gapWords, start, start + 1)
      decreases WordCount(bss) - next
    {
      if LoadWord(bss, next) != 0 {
        last := next;
      }
      next := next + 1;
    }
  }

  /** The tail scan: true when any byte after the last whole word is non-zero. */
  method ScanTail(bss: seq<byte>) returns (found: bool)
    ensures found <==> !AllZero(bss[TailOffset(|bss|)..])
  {
    var tailOffset := WordCount(bss) * WORD_BYTES;
    var k := tailOffset;
    while k < |bss|
      invariant tailOffset <= k <= |bss|
      invariant forall j :: tailOffset <= j < k ==> bss[j] == 0
    {
      if bss[k] != 0 {
        assert bss[tailOffset..][k - tailOffset] != 0;
        return true;
      }
      k := k + 1;
    }
    return false;
  }

  /** What both halves of the encoder keep: the area holds exactly the records of done. */
  ghost predicate Written(bss: seq<byte>, done: seq<Run>, out: seq<byte>, base: nat, capacity: nat, used: nat) {
    && InBounds(done, |bss|) && used <= capacity && base + capacity <= |out|
    && out[base..base + used] == EncodeRuns(bss, done)
  }

  /** Finds the run that starts at a non-zero word and appends its record. */
  method EncodeRunAt(
    bss: seq<byte>, gapWords: nat, start: nat, out: array<byte>, base: nat, capacity: nat, used: nat,
    ghost done: seq<Run>)
    returns (ok: bool, used': nat, next: nat, ghost done': seq<Run>)
    requires |bss| <= UINT32_MAX && start < WordCount(bss) && LoadWord(bss, start) != 0
    requires Progress(bss, gapWords, done, start) && Written(bss, done, out[..], base, capacity, used)
    modifies out
    ensures start < next <= WordCount(bss)
    ensures ok ==> Progress(bss, gapWords, done', next) && Written(bss, done', out[..], base, capacity, used')
    ensures !ok ==> |Encode(bss, gapWords)| > capacity
    ensures SameOutside(old(out[..]), out[..], base, capacity)
  {
    hide EncodeRun, Runs, WordRuns, ExtendRun, TailRuns, LoadWord;
    var last;
    last, next := ScanRun(bss, gapWords, start);
    var run := Run(start * WORD_BYTES, (last - start + 1) * WORD_BYTES);
    WordStep(bss, gapWords, done, start);
    ok, used' := AppendRun(bss, run, out, base, capacity, used);
    done' := done + [run];
  }

  lemma ZeroStep(bss: seq<byte>, gapWords: nat, done: seq<Run>, i: nat)
    requires i < WordCount(bss) && LoadWord(bss, i) == 0 && Progress(bss, gapWords, done, i)
    ensures Progress(bss, gapWords, done, i + 1)
  {
  }

  /** The word loop of beam_survivors_encode. */
  method EncodeWords(bss: seq<byte>, gapWords: nat, out: array<byte>, base: nat, capacity: nat)
    returns (ok: bool, used: nat, ghost done: seq<Run>)
    requires |bss| <= UINT32_MAX && base + capacity <= out.Length
    modifies out
    ensures ok ==> Progress(bss, gapWords, done, WordCount(bss)) && Written(bss, done, out[..], base, capacity, used)
    ensures !ok ==> |Encode(bss, gapWords)| > capacity
    ensures SameOutside(old(out[..]), out[..], base, capacity)
  {
    hide EncodeRun, ExtendRun, TailRuns;
    ok, done, used := true, [], 0;
    var i: nat := 0;
    while i < WordCount(bss)
      invariant Progress(bss, gapWords, done, i) && Written(bss, done, out[..], base, capacity, used)
      invariant SameOutside(old(out[..]), out[..], base, capacity)
      decreases WordCount(bss) - i
    {
      if LoadWord(bss, i) == 0 {
        ZeroStep(bss, gapWords, done, i);
        i := i + 1;
      } else {
        ghost var before := out[..];
        ok, used, i, done := EncodeRunAt(bss, gapWords, i, out, base, capacity, used, done);
        SameOutsideTransitive(old(out[..]), before, out[..], base, capacity);
        if !ok {
          return;
        }
      }
    }
  }

  /**
   * beam_survivors_encode: scan .bss a word at a time, coalescing across gaps, then the tail.
   * Only bytes of the survivor area are written, whatever the outcome.
   */
  method SurvivorsEncode(bss: seq<byte>, gapWords: nat, out: array<byte>, base: nat, capacity: nat)
    returns (status: EncodeStatus, used: nat)
    requires base + capacity <= out.Length
    modifies out
    ensures status.BssTooLarge? <==> |bss| > UINT32_MAX
    ensures status.SurvivorOverflow? <==> |bss| <= UINT32_MAX && |Encode(bss, gapWords)| > capacity
    ensures status.EncodeOk? ==>
      used == |Encode(bss, gapWords)| <= capacity && out[..][base..base + used] == Encode(bss, gapWords)
    ensures SameOutside(old(out[..]), out[..], base, capacity)
  {
    hide EncodeRun, Runs, WordRuns;
    if |bss| > UINT32_MAX {
      return BssTooLarge, 0;
    }
    ghost var done;
    var ok;
    ok, used, done := EncodeWords(bss, gapWords, out, base, capacity);
    if !ok {
      return SurvivorOverflow, 0;
    }
    var tail := ScanTail(bss);
    if tail {
      var tailOffset := WordCount(bss) * WORD_BYTES;
      TailStep(bss, gapWords, done);
      ok, used := AppendRun(bss, Run(tailOffset, |bss| - tailOffset), out, base, capacity, used);
      if !ok {
        return SurvivorOverflow, 0;
      }
    } else {
      NoTailStep(bss, gapWords, done);
    }
    return EncodeOk, used;
  }

  /** done holds the runs before word i. */
  ghost predicate Progress(bss: seq<byte>, gapWords: nat, done: seq<Run>, i: nat) {
    i <= WordCount(bss) && InBounds(done, |bss|) &&
    done + (WordRuns(bss, gapWords, i) + TailRuns(bss)) == Runs(bss, gapWords)
  }

  /** Appending run to the encoding of done, which is part of the encoding of all runs. */
  ghost predicate Appends(bss: seq<byte>, gapWords: nat, done: seq<Run>, run: Run)
    requires InBounds(done, |bss|)
  {
    && run.offset + run.len <= |bss| && InBounds(done + [run], |bss|)
    && EncodeRuns(bss, done + [run]) == EncodeRuns(bss, done) + EncodeRun(bss, run)
    && EncodedSize(done) + HEADER_BYTES + run.len <= |Encode(bss, gapWords)|
  }

  /** The run at a non-zero word is the next one to append. */
  lemma WordStep(bss: seq<byte>, gapWords: nat, done: seq<Run>, i: nat)
    requires i < WordCount(bss) && Progress(bss, gapWords, done, i) && LoadWord(bss, i) != 0
    ensures var s := ExtendRun(bss, gapWords, i, i + 1);
            var run := WordRun(i, s.last);
            Appends(bss, gapWords, done, run) && Progress(bss, gapWords, done + [run], s.next)
  {
    var s := ExtendRun(bss, gapWords, i, i + 1);
    var run, rest := WordRun(i, s.last), WordRuns(bss, gapWords, s.next) + TailRuns(bss);
    assert done + [run] + rest == done + (WordRuns(bss, gapWords, i) + TailRuns(bss));
    AppendedRun(bss, gapWords, done, run, rest);
  }

  /** A non-zero tail is the last run to append. */
  lemma TailStep(bss: seq<byte>, gapWords: nat, done: seq<Run>)
    requires Progress(bss, gapWords, done, WordCount(bss)) && !AllZero(bss[TailOffset(|bss|)..])
    ensures var run := Run(TailOffset(|bss|), |bss| % WORD_BYTES);
            Appends(bss, gapWords, done, run) && Runs(bss, gapWords) == done + [run]
  {
    var run := Run(TailOffset(|bss|), |bss| % WORD_BYTES);
    assert done + [run] + [] == done + ([] + TailRuns(bss));
    AppendedRun(bss, gapWords, done, run, []);
  }

  /** With a zero tail the word runs are all there is. */
  lemma NoTailStep(bss: seq<byte>, gapWords: nat, done: seq<Run>)
    requires Progress(bss, gapWords, done, WordCount(bss)) && AllZero(bss[TailOffset(|bss|)..])
    ensures Runs(bss, gapWords) == done
  {
    assert done + ([] + []) == done;
  }

  /** How one more record extends the encoding and bounds the total from below. */
  lemma AppendedRun(bss: seq<byte>, gapWords: nat, done: seq<Run>, run: Run, rest: seq<Run>)
    requires Runs(bss, gapWords) == done + [run] + rest
    ensures InBounds(done, |bss|) && Appends(bss, gapWords, done, run)
  {
    RunsValid(bss, gapWords);
    EncodeRunsConcat(bss, done + [run], rest);
    EncodeRunsConcat(bss, done, [run]);
    assert run in done + [run];
    assert EncodeRuns(bss, [run]) == EncodeRun(bss, run);
  }
}
