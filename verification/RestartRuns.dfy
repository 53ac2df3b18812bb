/** Whole runs of captures, arbitrary execution and resets (src/pd/beam/restart/restart.c). */
module RestartRuns {
  import opened Words
  import opened Regions
  import opened SnapshotCodec
  import opened SurvivorReplay
  import opened RestartLayout
  import opened Restart

  type Memory = seq<byte>

  /** Memory after a reset: restored when every check passes, otherwise as it was. */
  function AfterReset(m: Memory, image: Image): (r: Memory)
    requires |m| == ADDRESS_SPACE
    ensures |r| == |m|
  {
    if ResetOutcome(m, image).Resumed? then
      LayoutPlaces(SnapshotBase(m, image), image);
      Restored(m, SnapshotBase(m, image), image)
    else m
  }

  /** An address of the stack the reset handler runs on, inside the snapshot region. */
  predicate OnResetStack(address: nat, base: uint64) {
    base + REGION.resetStackOff <= address < base + REGION.ResetStackTop()
  }

  /**
   * Anything may happen to memory between two resets, including the resets' own stack, except that
   * the rest of the snapshot region and the patched global naming it are spared.
   */
  ghost predicate Spares(before: Memory, after: Memory, base: uint64, image: Image) {
    && |before| == |after| == ADDRESS_SPACE
    && (forall k :: base <= k < base + REGION.snapshotSize && k < |before| && !OnResetStack(k, base) ==>
          after[k] == before[k])
    && Region(after, image.snapshotStartVar, 8) == Region(before, image.snapshotStartVar, 8)
  }

  /** A region of the snapshot clear of the reset stack survives execution. */
  lemma SparedRegion(before: Memory, after: Memory, base: uint64, image: Image, from: nat, len: nat)
    requires Placed(base, image) && Spares(before, after, base, image)
    requires base <= from && from + len <= base + REGION.snapshotSize
    requires from + len <= base + REGION.resetStackOff || base + REGION.ResetStackTop() <= from
    ensures from + len <= |before| && Region(after, from, len) == Region(before, from, len)
  {
    var a, b := Region(after, from, len), Region(before, from, len);
    forall k | 0 <= k < len
      ensures a[k] == b[k]
    {
      assert a[k] == after[from + k] && b[k] == before[from + k];
    }
  }

  /** Execution that spares the snapshot leaves it intact and reachable. */
  lemma SparedSnapshot(
    before: Memory, after: Memory, base: uint64, image: Image, sp: uint64, data: seq<byte>, bss: seq<byte>,
        generation: nat)
    requires Placed(base, image) && Spares(before, after, base, image)
    requires SnapshotBase(before, image) == base
    requires Snapshot(before, base, image, sp, data, bss, generation)
    ensures SnapshotBase(after, image) == base
    ensures Snapshot(after, base, image, sp, data, bss, generation)
  {
    hide Spares, Value, Encode;
    SnapshotInMemory(base, image);
    assert |before| == |after| && Region(after, image.snapshotStartVar, 8) ==
        Region(before, image.snapshotStartVar, 8) by {
      SpareFacts(before, after, base, image);
    }
    SparedRegion(before, after, base, image, base + MAGIC_AT, 8);
    SparedRegion(before, after, base, image, base + GENERATION_AT, 8);
    SparedRegion(before, after, base, image, base + SAVED_SP_AT, 8);
    SparedRegion(before, after, base, image, base + DATA_BYTES_AT, 8);
    SparedRegion(before, after, base, image, base + SURVIVOR_BYTES_AT, 8);
    SparedRegion(before, after, base, image, base + REGION.dataOff, |data|);
    SparedRegion(before, after, base, image, base + REGION.survivorsOff, |Encode(bss, SURVIVOR_GAP_WORDS)|);
  }

  lemma SpareFacts(before: Memory, after: Memory, base: uint64, image: Image)
    requires Spares(before, after, base, image)
    ensures |before| == |after| == ADDRESS_SPACE
    ensures Region(after, image.snapshotStartVar, 8) == Region(before, image.snapshotStartVar, 8)
  {
  }

  /** A 16-byte aligned SP whose first push lands neither in the snapshot region nor in the segment. */
  ghost predicate StackUsable(sp: uint64, base: uint64, image: Image) {
    && sp != 0 && sp % 16 == 0
    && !InRange(base, REGION.snapshotSize, sp - 1)
    && !InRange(image.segmentStart, image.bssEnd - image.segmentStart, sp - 1)
  }

  lemma StackCheckMeaning(sp: uint64, base: uint64, image: Image)
    requires Placed(base, image)
    ensures StackTopIsValid(sp, base, image) <==> StackUsable(sp, base, image)
  {
    StackTopMeansPush(base, REGION.snapshotSize, sp);
    StackTopMeansPush(image.segmentStart, image.bssEnd - image.segmentStart, sp);
  }

  /**
   * On an intact snapshot the checks pass exactly while the saved SP is usable and the generation
   * can still be incremented.
   */
  lemma ResetSucceedsExactly(
    m: Memory, image: Image, sp: uint64, data: seq<byte>, bss: seq<byte>, generation: nat)
    requires |m| == ADDRESS_SPACE
    requires LayoutCheck(CurrentLayout(SnapshotBase(m, image), image)) == LayoutOk
    requires Placed(SnapshotBase(m, image), image) && generation > 0
    requires Snapshot(m, SnapshotBase(m, image), image, sp, data, bss, generation)
    ensures var ok := generation < UINT64_MAX && StackUsable(sp, SnapshotBase(m, image), image);
            ResetOutcome(m, image) ==
            if ok then Resumed(sp)
            else Faulted(BadSnapshot(if generation == UINT64_MAX then BadGeneration else BadStackPointer))
  {
    hide Value, Encode, Walk, StackTopIsValid, StackUsable;
    StackCheckMeaning(sp, SnapshotBase(m, image), image);
    EncoderPassesWalk(bss, SURVIVOR_GAP_WORDS);
  }

  /**
   * On any memory whatever a reset resumes exactly when the layout is sound, the magic is in place, the
   * generation can be incremented, both lengths fit, the SP is usable and the survivors can be read to
   * their end as valid ascending records.
   */
  lemma ResetAcceptsExactly(m: Memory, image: Image, sp: uint64)
    requires |m| == ADDRESS_SPACE
    ensures ResetOutcome(m, image) == Resumed(sp) <==>
            var base := SnapshotBase(m, image);
            && Sound(CurrentLayout(base, image))
            && Region(m, base, 8) == Bytes(8, SNAPSHOT_MAGIC)
            && 0 < Load64(m, base + GENERATION_AT) < UINT64_MAX
            && Load64(m, base + DATA_BYTES_AT) == image.bssStart - image.segmentStart
            && Load64(m, base + SAVED_SP_AT) == sp && StackUsable(sp, base, image)
            && var used := Load64(m, base + SURVIVOR_BYTES_AT);
               && used <= REGION.survivorsSize
               && var p := Parse(Region(m, base + REGION.survivorsOff, used), BssLen(image), 0);
                  p.stop == End && ValidRuns(p.runs, BssLen(image))
  {
    hide Value, Bytes, Walk, Parse, StackTopIsValid, StackUsable, Sound, LayoutCheck, ValidRuns;
    var base := SnapshotBase(m, image);
    LayoutCheckMeaning(CurrentLayout(base, image));
    if Sound(CurrentLayout(base, image)) {
      LayoutPlaces(base, image);
      MagicBytes(m, base);
      StackCheckMeaning(Load64(m, base + SAVED_SP_AT), base, image);
      var used := Load64(m, base + SURVIVOR_BYTES_AT);
      if used <= REGION.survivorsSize {
        WalkAcceptsExactly(Region(m, base + REGION.survivorsOff, used), BssLen(image), 0, 0);
        StartsAfterZero(Parse(Region(m, base + REGION.survivorsOff, used), BssLen(image), 0).runs);
      }
    }
  }

  lemma StartsAfterZero(runs: seq<Run>)
    ensures StartsAfter(runs, 0)
  {
  }

  /** The magic word reads as itself exactly when its eight bytes are in place. */
  lemma MagicBytes(m: Memory, base: nat)
    requires base + 8 <= |m|
    ensures Load64(m, base + MAGIC_AT) == SNAPSHOT_MAGIC <==> Region(m, base, 8) == Bytes(8, SNAPSHOT_MAGIC)
  {
    hide Bytes, Value;
    WordRoundTrip(SNAPSHOT_MAGIC);
    BytesOfValue(Region(m, base, 8));
  }

  /** The segment holds exactly this image. */
  ghost predicate SegmentIs(m: Memory, image: Image, data: seq<byte>, bss: seq<byte>) {
    && |m| == ADDRESS_SPACE && image.segmentStart <= image.bssStart
    && Data(m, image) == data && Bss(m, image) == bss
  }

  /** A restore from an intact snapshot rebuilds the image and advances only the generation. */
  lemma RestoreRebuilds(
    m: Memory, image: Image, sp: uint64, data: seq<byte>, bss: seq<byte>, generation: nat)
    requires |m| == ADDRESS_SPACE && Placed(SnapshotBase(m, image), image)
    requires Snapshot(m, SnapshotBase(m, image), image, sp, data, bss, generation) && generation < UINT64_MAX
    requires Validate(m, SnapshotBase(m, image), image) == SnapshotOk
    ensures var base := SnapshotBase(m, image);
            var m' := Restored(m, base, image);
            SegmentIs(m', image, data, bss) && Snapshot(m', base, image, sp, data, bss, generation + 1)
  {
    hide Value, Encode, Validate, Replay, Blit, SameOutside, Load64, Region, Bytes;
    var base := SnapshotBase(m, image);
    SurvivorRoundTrip(bss, SURVIVOR_GAP_WORDS);
    var area := Encode(bss, SURVIVOR_GAP_WORDS);
    var m1 := Blit(m, image.segmentStart, data);
    var m2 := Blit(m1, image.bssStart, bss);
    var m3 := Blit(m2, base + GENERATION_AT, Bytes(8, generation + 1));
    assert Restored(m, base, image) == m3;
    SnapshotInMemory(base, image);
    BlitRegion(m, image.segmentStart, data);
    BlitRegion(m1, image.bssStart, bss);
    BlitRegion(m2, base + GENERATION_AT, Bytes(8, generation + 1));
    KeepRegion(m1, m2, image.bssStart, |bss|, image.segmentStart, |data|);
    KeepRegion(m2, m3, base + GENERATION_AT, 8, image.segmentStart, |data|);
    KeepRegion(m2, m3, base + GENERATION_AT, 8, image.bssStart, |bss|);
    LoadStored(m2, base + GENERATION_AT, generation + 1);
    KeepOutsideSegment(m, m1, image.segmentStart, |data|, base, image, |data|, |area|);
    KeepOutsideSegment(m1, m2, image.bssStart, |bss|, base, image, |data|, |area|);
    KeepWord(m2, m3, base + GENERATION_AT, 8, base + MAGIC_AT);
    KeepWord(m2, m3, base + GENERATION_AT, 8, base + SURVIVOR_BYTES_AT);
    KeepBody(m2, m3, base + GENERATION_AT, base, image, |data|, |area|);
  }

  /** A write to the segment keeps every part of the snapshot. */
  lemma KeepOutsideSegment(
    m: Memory, m': Memory, at: nat, len: nat, base: uint64, image: Image, dataLen: nat, used: nat)
    requires |m| == ADDRESS_SPACE && Placed(base, image) && SameOutside(m, m', at, len)
    requires image.segmentStart <= at && at + len <= image.bssEnd
    requires dataLen == DataLen(image) && used <= REGION.survivorsSize
    ensures Load64(m', base + MAGIC_AT) == Load64(m, base + MAGIC_AT)
    ensures Load64(m', base + SAVED_SP_AT) == Load64(m, base + SAVED_SP_AT)
    ensures Load64(m', base + DATA_BYTES_AT) == Load64(m, base + DATA_BYTES_AT)
    ensures Load64(m', base + SURVIVOR_BYTES_AT) == Load64(m, base + SURVIVOR_BYTES_AT)
    ensures Region(m', base + REGION.dataOff, dataLen) == Region(m, base + REGION.dataOff, dataLen)
    ensures Region(m', base + REGION.survivorsOff, used) == Region(m, base + REGION.survivorsOff, used)
  {
    hide Load64, Region, SameOutside;
    SnapshotInMemory(base, image);
    KeepWord(m, m', at, len, base + MAGIC_AT);
    KeepWord(m, m', at, len, base + SAVED_SP_AT);
    KeepWord(m, m', at, len, base + DATA_BYTES_AT);
    KeepWord(m, m', at, len, base + SURVIVOR_BYTES_AT);
    KeepRegion(m, m', at, len, base + REGION.dataOff, dataLen);
    KeepRegion(m, m', at, len, base + REGION.survivorsOff, used);
  }

  /** Memory before and after each of a series of resets, starting from the memory a capture left. */
  ghost predicate ResetRun(captured: Memory, pre: seq<Memory>, post: seq<Memory>, base: uint64, image: Image) {
    && |pre| == |post|
    && forall i :: 0 <= i < |pre| ==>
         && Spares(if i == 0 then captured else post[i - 1], pre[i], base, image)
         && post[i] == AfterReset(pre[i], image)
  }

  lemma RunAt(captured: Memory, pre: seq<Memory>, post: seq<Memory>, base: uint64, image: Image, i: nat)
    requires ResetRun(captured, pre, post, base, image) && i < |pre|
    ensures |pre| == |post| && Spares(if i == 0 then captured else post[i - 1], pre[i], base, image)
    ensures post[i] == AfterReset(pre[i], image)
  {
    hide Spares;
  }

  /** What reset number i (from 0) must do, given the image that was captured. */
  ghost predicate ResetKept(
    pre: Memory, post: Memory, i: nat, base: uint64, image: Image, sp: uint64, data: seq<byte>, bss: seq<byte>)
    requires Placed(base, image)
  {
    && |pre| == |post| == ADDRESS_SPACE && SnapshotBase(pre, image) == base
    && if i + 1 < UINT64_MAX then
         && ResetOutcome(pre, image) == Resumed(sp)
         && SegmentIs(post, image, data, bss)
         && SnapshotBase(post, image) == base
         && Snapshot(post, base, image, sp, data, bss, i + 2)
       else
         && ResetOutcome(pre, image) == Faulted(BadSnapshot(BadGeneration))
         && post == pre
         && Snapshot(post, base, image, sp, data, bss, UINT64_MAX)
  }

  /** One reset after spared execution on a snapshot of the given generation. */
  lemma OneReset(
    last: Memory, pre: Memory, i: nat, base: uint64, image: Image, sp: uint64, data: seq<byte>, bss: seq<byte>)
    requires LayoutCheck(CurrentLayout(base, image)) == LayoutOk && Placed(base, image)
    requires StackUsable(sp, base, image) && Spares(last, pre, base, image)
    requires SnapshotBase(last, image) == base
    requires Snapshot(last, base, image, sp, data, bss, if i + 1 < UINT64_MAX then i + 1 else UINT64_MAX)
    requires |bss| == BssLen(image) && Load64(bss, image.snapshotStartVar - image.bssStart) == base
    ensures ResetKept(pre, AfterReset(pre, image), i, base, image, sp, data, bss)
  {
    hide Spares, Snapshot, ResetOutcome, Restored, Validate, StackUsable, LayoutCheck, Load64, Region;
    SpareFacts(last, pre, base, image);
    var generation := if i + 1 < UINT64_MAX then i + 1 else UINT64_MAX;
    SparedSnapshot(last, pre, base, image, sp, data, bss, generation);
    ResetSucceedsExactly(pre, image, sp, data, bss, generation);
    if i + 1 < UINT64_MAX {
      ResumedMeansValid(pre, image);
      RestoreRebuilds(pre, image, sp, data, bss, generation);
      BaseInBss(AfterReset(pre, image), image, data, bss);
    }
  }

  lemma ResumedMeansValid(m: Memory, image: Image)
    requires |m| == ADDRESS_SPACE && ResetOutcome(m, image).Resumed?
    ensures Placed(SnapshotBase(m, image), image) && Validate(m, SnapshotBase(m, image), image) == SnapshotOk
  {
    hide Validate;
    LayoutPlaces(SnapshotBase(m, image), image);
  }

  /** The patched global is part of .bss. */
  lemma BaseInBss(m: Memory, image: Image, data: seq<byte>, bss: seq<byte>)
    requires SegmentIs(m, image, data, bss)
    ensures |bss| == BssLen(image)
    ensures SnapshotBase(m, image) == Load64(bss, image.snapshotStartVar - image.bssStart)
  {
    hide Value;
    var offset := image.snapshotStartVar - image.bssStart;
    SubSlice(m, image.bssStart, image.bssEnd, offset, offset + 8);
  }

  /** Reset by reset, from the memory a completed capture left. */
  lemma {:induction false} ResetsRestore(
    cold: Memory, captured: Memory, pre: seq<Memory>, post: seq<Memory>, image: Image, sp: uint64, i: nat)
    requires BaseMapped(cold, image) && CaptureTaken(cold, captured, image, sp)
    requires StackUsable(sp, SnapshotBase(cold, image), image)
    requires ResetRun(captured, pre, post, SnapshotBase(cold, image), image) && i < |pre|
    ensures ResetKept(pre[i], post[i], i, SnapshotBase(cold, image), image, sp, Data(cold, image), Bss(cold, image))
    decreases i
  {
    hide Spares, Snapshot, ResetOutcome, StackUsable, LayoutCheck, Load64, AfterReset, Region;
    var base, data, bss := SnapshotBase(cold, image), Data(cold, image), Bss(cold, image);
    BaseInBss(cold, image, data, bss);
    RunAt(captured, pre, post, base, image, i);
    if i == 0 {
      KeepBase(cold, captured, base, image);
      OneReset(captured, pre[0], 0, base, image, sp, data, bss);
    } else {
      ResetsRestore(cold, captured, pre, post, image, sp, i - 1);
      OneReset(post[i - 1], pre[i], i, base, image, sp, data, bss);
    }
  }

  /** The capture writes only the snapshot region, which the patched global lies outside. */
  lemma KeepBase(cold: Memory, captured: Memory, base: uint64, image: Image)
    requires |cold| == ADDRESS_SPACE && Placed(base, image) && SnapshotBase(cold, image) == base
    requires SameOutside(cold, captured, base, REGION.snapshotSize)
    ensures |captured| == ADDRESS_SPACE && SnapshotBase(captured, image) == base
  {
    hide Load64, SameOutside;
    SnapshotInMemory(base, image);
    assert |captured| == |cold| by {
      SameOutsideLength(cold, captured, base, REGION.snapshotSize);
    }
    KeepWord(cold, captured, base, REGION.snapshotSize, image.snapshotStartVar);
  }

  lemma SameOutsideLength(m: Memory, m': Memory, at: nat, len: nat)
    requires SameOutside(m, m', at, len)
    ensures |m'| == |m|
  {
  }

  // ----- when a capture happens -----

  /** No magic yet: what a region that was never captured, such as one of zeros, reads as. */
  ghost predicate Uncaptured(m: Memory, base: nat)
    requires base + 8 <= |m|
  {
    Region(m, base, 8) != Bytes(8, SNAPSHOT_MAGIC)
  }

  /** The encoded survivors of .bss fit their area. */
  predicate SurvivorsFit(m: Memory, image: Image)
    requires |m| == ADDRESS_SPACE
  {
    |Encode(Bss(m, image), SURVIVOR_GAP_WORDS)| <= REGION.survivorsSize
  }

  /** A boot that can be captured: the region is mapped and reads as cold, the layout is sound, .bss fits. */
  ghost predicate Cold(m: Memory, image: Image)
    requires BaseMapped(m, image)
  {
    var base := SnapshotBase(m, image);
    base != 0 && Uncaptured(m, base) && Sound(CurrentLayout(base, image)) && SurvivorsFit(m, image)
  }

  /** What a sound layout asks of this image and region. */
  lemma SoundMeaning(base: uint64, image: Image)
    ensures Sound(CurrentLayout(base, image)) <==>
            var segment := image.bssEnd - image.segmentStart;
            && base != 0 && base + REGION.snapshotSize <= UINT64_MAX
            && REGION.exitFaultBase + REGION.exitFaultSize <= UINT64_MAX
            && image.segmentStart <= image.bssStart && image.bssEnd - image.bssStart <= UINT32_MAX
            && REGION.dataOff + (image.bssStart - image.segmentStart) <= REGION.snapshotSize
            && Disjoint(base, REGION.snapshotSize, image.segmentStart, segment)
            && Disjoint(REGION.exitFaultBase, REGION.exitFaultSize, base, REGION.snapshotSize)
            && Disjoint(REGION.exitFaultBase, REGION.exitFaultSize, image.segmentStart, segment)
  {
  }

  lemma ZerosAreUncaptured(m: Memory, base: nat)
    requires base + 8 <= |m| && AllZero(Region(m, base, 8))
    ensures Uncaptured(m, base)
  {
    hide Bytes, Value;
    WordRoundTrip(SNAPSHOT_MAGIC);
    ValueZero(Region(m, base, 8));
  }

  /** Which result comes when: a missing region, the magic, the layout and the survivors, in that order. */
  lemma CapturesExactly(m: Memory, m': Memory, image: Image, sp: uint64, result: CaptureResult)
    requires BaseMapped(m, image) && CaptureStep(m, m', image, sp, result)
    ensures var base := SnapshotBase(m, image);
            var sound := Sound(CurrentLayout(base, image));
            && (result == Captured <==> Cold(m, image))
            && (result == Unavailable <==> base == 0)
            && (result == AlreadyCaptured <==> base != 0 && !Uncaptured(m, base))
            && (result.LayoutFault? <==> base != 0 && Uncaptured(m, base) && !sound)
            && (result == SurvivorFault <==> Uncaptured(m, base) && sound && !SurvivorsFit(m, image))
  {
    hide LayoutCheck, Sound, Encode, Load64, Bytes, CaptureTaken, CaptureTorn, Region;
    var base := SnapshotBase(m, image);
    MagicBytes(m, base);
    LayoutCheckMeaning(CurrentLayout(base, image));
    SoundHasBase(CurrentLayout(base, image));
  }

  lemma SoundHasBase(l: Layout)
    ensures Sound(l) ==> l.snapshotBase != 0
  {
  }

  /** After a completed capture another call changes no byte; after a torn one it captures the cold image. */
  lemma CaptureAgain(
    cold: Memory, left: Memory, after: Memory, image: Image, sp: uint64, sp': uint64, first: CaptureResult,
    second: CaptureResult)
    requires BaseMapped(cold, image) && Cold(cold, image) && BaseMapped(left, image)
    requires CaptureStep(left, after, image, sp', second)
    ensures CaptureStep(cold, left, image, sp, first) ==>
              first == Captured && second == AlreadyCaptured && after == left
    ensures CaptureTorn(cold, left, image) ==> second == Captured && CaptureTaken(cold, after, image, sp')
  {
    hide LayoutCheck, Sound, Encode, Load64, Bytes, Region, SameOutside, Snapshot, Blit;
    var base := SnapshotBase(cold, image);
    LayoutCheckMeaning(CurrentLayout(base, image));
    LayoutPlaces(base, image);
    CapturesExactly(left, after, image, sp', second);
    if CaptureStep(cold, left, image, sp, first) {
      CapturesExactly(cold, left, image, sp, first);
      KeepBase(cold, left, base, image);
      SnapshotHasMagic(left, base, image, sp, Data(cold, image), Bss(cold, image), 1);
      MagicBytes(left, base);
    }
    if CaptureTorn(cold, left, image) {
      KeepBase(cold, left, base, image);
      MagicBytes(left, base);
      SegmentKept(cold, left, base, image);
      if second == Captured {
        OutsideTwice(cold, left, after, base);
      }
    }
  }

  lemma OutsideTwice(a: Memory, b: Memory, c: Memory, base: nat)
    requires SameOutside(a, b, base, REGION.snapshotSize) && SameOutside(b, c, base, REGION.snapshotSize)
    ensures SameOutside(a, c, base, REGION.snapshotSize)
  {
  }

  lemma SnapshotHasMagic(m: Memory, base: uint64, image: Image, sp: uint64, data: seq<byte>, bss: seq<byte>,
                         generation: nat)
    requires |m| == ADDRESS_SPACE && Placed(base, image) && Snapshot(m, base, image, sp, data, bss, generation)
    ensures base + SNAPSHOT_HEADER_BYTES <= |m| && Load64(m, base + MAGIC_AT) == SNAPSHOT_MAGIC
  {
  }

  /** What a capture has changed so far is not the image. */
  lemma SegmentKept(cold: Memory, left: Memory, base: uint64, image: Image)
    requires |cold| == ADDRESS_SPACE && Placed(base, image) && SameOutside(cold, left, base, REGION.snapshotSize)
    ensures |left| == ADDRESS_SPACE && Data(left, image) == Data(cold, image) && Bss(left, image) == Bss(cold, image)
  {
    hide SameOutside, Region;
    SameOutsideLength(cold, left, base, REGION.snapshotSize);
    KeepRegion(cold, left, base, REGION.snapshotSize, image.segmentStart, DataLen(image));
    KeepRegion(cold, left, base, REGION.snapshotSize, image.bssStart, BssLen(image));
  }

  // ----- the whole run -----

  /**
   * From any cold boot with a usable SP, the call to the capture captures, and every reset of any run
   * after it restores the captured segment byte for byte, keeps the snapshot and the SP, and leaves
   * generation 1 plus the resets so far. The one exception is exact: reset number UINT64_MAX and later
   * find a generation that cannot be incremented, fault, and write nothing.
   */
  lemma WholeRunRestores(cold: Memory, captured: Memory, pre: seq<Memory>, post: seq<Memory>, image: Image, sp: uint64,
                         result: CaptureResult, i: nat)
    requires BaseMapped(cold, image) && Cold(cold, image) && CaptureStep(cold, captured, image, sp, result)
    requires StackUsable(sp, SnapshotBase(cold, image), image)
    requires ResetRun(captured, pre, post, SnapshotBase(cold, image), image) && i < |pre|
    ensures result == Captured && Placed(SnapshotBase(cold, image), image)
    ensures ResetKept(pre[i], post[i], i, SnapshotBase(cold, image), image, sp, Data(cold, image), Bss(cold, image))
  {
    hide Cold, StackUsable, ResetRun, ResetKept, Snapshot, Placed;
    CapturesExactly(cold, captured, image, sp, result);
    ResetsRestore(cold, captured, pre, post, image, sp, i);
  }

  // ----- why a reset faults -----

  /** Under a sound layout, which fault comes when: the first of these that fails. */
  lemma ResetFaultsExactly(m: Memory, image: Image)
    requires |m| == ADDRESS_SPACE && Sound(CurrentLayout(SnapshotBase(m, image), image))
    ensures Placed(SnapshotBase(m, image), image)
    ensures var base, r := SnapshotBase(m, image), ResetOutcome(m, image);
            var captured := !Uncaptured(m, base);
            var generation, used := Load64(m, base + GENERATION_AT), Load64(m, base + SURVIVOR_BYTES_AT);
            var counts := 0 < generation < UINT64_MAX;
            var sized := Load64(m, base + DATA_BYTES_AT) == image.bssStart - image.segmentStart;
            var usable := StackUsable(Load64(m, base + SAVED_SP_AT), base, image);
            && (r == Faulted(BadSnapshot(NotCaptured)) <==> !captured)
            && (r == Faulted(BadSnapshot(BadGeneration)) <==> captured && !counts)
            && (r == Faulted(BadSnapshot(DataLengthMismatch)) <==> captured && counts && !sized)
            && (r == Faulted(BadSnapshot(SurvivorLengthTooLarge)) <==>
                  captured && counts && sized && used > REGION.survivorsSize)
            && (r == Faulted(BadSnapshot(BadStackPointer)) <==>
                  captured && counts && sized && used <= REGION.survivorsSize && !usable)
  {
    hide Walk, StackTopIsValid, StackUsable, Sound, LayoutCheck, Value, Bytes;
    var base := SnapshotBase(m, image);
    LayoutCheckMeaning(CurrentLayout(base, image));
    LayoutPlaces(base, image);
    MagicBytes(m, base);
    StackCheckMeaning(Load64(m, base + SAVED_SP_AT), base, image);
  }
}
