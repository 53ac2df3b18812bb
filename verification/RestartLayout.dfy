/** Address checks for the warm restart (src/pd/beam/restart/beam_restart_layout.h). */
module RestartLayout {
  import opened Words

  /** Addresses and sizes as the source holds them, in 64-bit words. */
  datatype Layout = Layout(
    snapshotBase: uint64,
    snapshotSize: uint64,
    dataOff: uint64,
    segmentStart: uint64,
    bssStart: uint64,
    bssEnd: uint64,
    exitFaultBase: uint64,
    exitFaultSize: uint64)

  datatype LayoutStatus =
    | LayoutOk
    | ZeroBase
    | RangeWraps
    | SegmentOrder
    | LayoutBssTooLarge
    | DataOverflow
    | SnapshotOverlapsSegment
    | ExitFaultOverlaps

  /** The checked addition start + size does not overflow. */
  predicate RangeFits(start: uint64, size: uint64) {
    start + size <= UINT64_MAX
  }

  predicate RangesOverlap(a: uint64, aSize: uint64, b: uint64, bSize: uint64)
    requires RangeFits(a, aSize) && RangeFits(b, bSize)
  {
    aSize != 0 && bSize != 0 && a < b + bSize && b < a + aSize
  }

  predicate InRange(start: int, size: int, address: int) {
    start <= address < start + size
  }

  /** Two ranges overlap exactly when some address lies in both. */
  lemma OverlapMeansShared(a: uint64, aSize: uint64, b: uint64, bSize: uint64)
    requires RangeFits(a, aSize) && RangeFits(b, bSize)
    ensures RangesOverlap(a, aSize, b, bSize) <==>
      exists address :: InRange(a, aSize, address) && InRange(b, bSize, address)
  {
    if RangesOverlap(a, aSize, b, bSize) {
      var shared := if a < b then b else a;
      assert InRange(a, aSize, shared) && InRange(b, bSize, shared);
    }
  }

  predicate RangeHoldsStackTop(start: uint64, size: uint64, sp: uint64) {
    sp > start && sp - start <= size
  }

  /** A stack top is held by a range exactly when the byte the first push writes lies in it. */
  lemma StackTopMeansPush(start: uint64, size: uint64, sp: uint64)
    requires RangeFits(start, size)
    ensures RangeHoldsStackTop(start, size, sp) <==> InRange(start, size, sp - 1)
  {
  }

  function LayoutCheck(l: Layout): LayoutStatus {
    if l.snapshotBase == 0 then ZeroBase
    else if !RangeFits(l.snapshotBase, l.snapshotSize) || !RangeFits(l.exitFaultBase, l.exitFaultSize) then RangeWraps
    else if l.segmentStart > l.bssStart || l.bssStart > l.bssEnd then SegmentOrder
    else if l.bssEnd - l.bssStart > UINT32_MAX then LayoutBssTooLarge
    else if l.dataOff > l.snapshotSize || l.bssStart - l.segmentStart > l.snapshotSize - l.dataOff then DataOverflow
    else
      var segmentSize: uint64 := l.bssEnd - l.segmentStart;
      if RangesOverlap(l.snapshotBase, l.snapshotSize, l.segmentStart, segmentSize) then SnapshotOverlapsSegment
      else if RangesOverlap(l.exitFaultBase, l.exitFaultSize, l.snapshotBase, l.snapshotSize) ||
              RangesOverlap(l.exitFaultBase, l.exitFaultSize, l.segmentStart, segmentSize) then ExitFaultOverlaps
      else LayoutOk
  }

  /** No address lies in both ranges. */
  ghost predicate Disjoint(a: int, aSize: int, b: int, bSize: int) {
    forall address :: !(InRange(a, aSize, address) && InRange(b, bSize, address))
  }

  /**
   * The segment is ordered and fits its copies, no range wraps, and the snapshot, the segment and the
   * exit-fault range share no address.
   */
  ghost predicate Sound(l: Layout) {
    && l.snapshotBase != 0
    && l.segmentStart <= l.bssStart <= l.bssEnd
    && l.snapshotBase + l.snapshotSize <= UINT64_MAX && l.exitFaultBase + l.exitFaultSize <= UINT64_MAX
    && l.bssEnd - l.bssStart <= UINT32_MAX
    && l.dataOff + (l.bssStart - l.segmentStart) <= l.snapshotSize
    && Disjoint(l.snapshotBase, l.snapshotSize, l.segmentStart, l.bssEnd - l.segmentStart)
    && Disjoint(l.exitFaultBase, l.exitFaultSize, l.snapshotBase, l.snapshotSize)
    && Disjoint(l.exitFaultBase, l.exitFaultSize, l.segmentStart, l.bssEnd - l.segmentStart)
  }

  /** The check accepts exactly the sound layouts. */
  lemma LayoutCheckMeaning(l: Layout)
    ensures LayoutCheck(l) == LayoutOk <==> Sound(l)
  {
    if l.snapshotBase + l.snapshotSize <= UINT64_MAX && l.exitFaultBase + l.exitFaultSize <= UINT64_MAX &&
       l.segmentStart <= l.bssStart <= l.bssEnd {
      var segmentSize: uint64 := l.bssEnd - l.segmentStart;
      OverlapIsNotDisjoint(l.snapshotBase, l.snapshotSize, l.segmentStart, segmentSize);
      OverlapIsNotDisjoint(l.exitFaultBase, l.exitFaultSize, l.snapshotBase, l.snapshotSize);
      OverlapIsNotDisjoint(l.exitFaultBase, l.exitFaultSize, l.segmentStart, segmentSize);
    }
  }

  /** Which refusal comes when: the first of these that fails. */
  lemma LayoutFaultMeaning(l: Layout)
    ensures var fits := l.snapshotBase + l.snapshotSize <= UINT64_MAX
                        && l.exitFaultBase + l.exitFaultSize <= UINT64_MAX;
            var ordered := l.segmentStart <= l.bssStart <= l.bssEnd;
            var small := l.bssEnd - l.bssStart <= UINT32_MAX;
            var held := l.dataOff + (l.bssStart - l.segmentStart) <= l.snapshotSize;
            var apart := Disjoint(l.snapshotBase, l.snapshotSize, l.segmentStart, l.bssEnd - l.segmentStart);
            && (LayoutCheck(l) == ZeroBase <==> l.snapshotBase == 0)
            && (LayoutCheck(l) == RangeWraps <==> l.snapshotBase != 0 && !fits)
            && (LayoutCheck(l) == SegmentOrder <==> l.snapshotBase != 0 && fits && !ordered)
            && (LayoutCheck(l) == LayoutBssTooLarge <==> l.snapshotBase != 0 && fits && ordered && !small)
            && (LayoutCheck(l) == DataOverflow <==> l.snapshotBase != 0 && fits && ordered && small && !held)
            && (LayoutCheck(l) == SnapshotOverlapsSegment <==>
                  l.snapshotBase != 0 && fits && ordered && small && held && !apart)
  {
    if l.snapshotBase + l.snapshotSize <= UINT64_MAX && l.segmentStart <= l.bssStart <= l.bssEnd {
      OverlapIsNotDisjoint(l.snapshotBase, l.snapshotSize, l.segmentStart, l.bssEnd - l.segmentStart);
    }
  }

  lemma OverlapIsNotDisjoint(a: uint64, aSize: uint64, b: uint64, bSize: uint64)
    requires RangeFits(a, aSize) && RangeFits(b, bSize)
    ensures RangesOverlap(a, aSize, b, bSize) <==> !Disjoint(a, aSize, b, bSize)
  {
    OverlapMeansShared(a, aSize, b, bSize);
  }
}
