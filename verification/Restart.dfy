/** The cold-boot capture and warm-restart restore in flat memory (src/pd/beam/restart/restart.c). */
module Restart {
  import opened Words
  import opened Regions
  import opened SnapshotCodec
  import opened SurvivorReplay
  import opened RestartLayout

  /** Memory is indexed by address, so aliasing between the segment and the snapshot is visible. */
  const ADDRESS_SPACE := 0x1_0000_0000_0000_0000

  const SNAPSHOT_MAGIC: uint64 := 0x4348_5259_534E_5031
  const MAGIC_AT := 0
  const GENERATION_AT := 8
  const SAVED_SP_AT := 16
  const DATA_BYTES_AT := 24
  const SURVIVOR_BYTES_AT := 32
  const SNAPSHOT_HEADER_BYTES := 40

  /** The snapshot region's ABI constants. */
  datatype RegionConstants = RegionConstants(
    snapshotSize: uint64,
    resetStackOff: uint64,
    resetStackSize: uint64,
    survivorsOff: uint64,
    survivorsSize: uint64,
    dataOff: uint64,
    exitFaultBase: uint64,
    exitFaultSize: uint64)
  {
    function ResetStackTop(): int { resetStackOff + resetStackSize }

    /** The static assertions of restart.c. */
    predicate Checked() {
      && snapshotSize % 4096 == 0
      && SNAPSHOT_HEADER_BYTES <= resetStackOff
      && ResetStackTop() % 16 == 0 && ResetStackTop() <= 0xFFFF
      && survivorsOff >= ResetStackTop()
      && dataOff >= survivorsOff + survivorsSize
      && dataOff < snapshotSize
      && exitFaultSize >= 256
    }
  }

  type CheckedRegion = r: RegionConstants | r.Checked()
    witness RegionConstants(524288, 4096, 16384, 20480, 4096, 24576, 3198156800, 4096)

  const REGION: CheckedRegion
  const SURVIVOR_GAP_WORDS: nat

  /** The linker symbols, and the address of beam_snapshot_start, a word of .bss. */
  datatype ImageSymbols = ImageSymbols(segmentStart: uint64, bssStart: uint64, bssEnd: uint64, snapshotStartVar: uint64)

  type Image = i: ImageSymbols | i.bssStart <= i.snapshotStartVar && i.snapshotStartVar + 8 <= i.bssEnd
    witness ImageSymbols(0, 0, 8, 0)

  /** snapshot_base(): the patched global, read from memory. */
  function SnapshotBase(m: seq<byte>, image: Image): uint64
    requires |m| == ADDRESS_SPACE
  {
    Load64(m, image.snapshotStartVar)
  }

  function CurrentLayout(base: uint64, image: Image): Layout {
    Layout(base, REGION.snapshotSize, REGION.dataOff, image.segmentStart, image.bssStart, image.bssEnd,
           REGION.exitFaultBase, REGION.exitFaultSize)
  }

  function BssLen(image: Image): nat {
    image.bssEnd - image.bssStart
  }

  /** Where the layout check puts everything: the facts every later step needs. */
  ghost predicate Placed(base: uint64, image: Image) {
    && image.segmentStart <= image.bssStart
    && BssLen(image) <= UINT32_MAX
    && base + REGION.snapshotSize < ADDRESS_SPACE
    && REGION.dataOff + (image.bssStart - image.segmentStart) <= REGION.snapshotSize
    && (base + REGION.snapshotSize <= image.segmentStart || image.bssEnd <= base)
  }

  lemma LayoutPlaces(base: uint64, image: Image)
    requires LayoutCheck(CurrentLayout(base, image)) == LayoutOk
    ensures Placed(base, image) && base != 0
  {
  }

  function DataLen(image: Image): nat
    requires image.segmentStart <= image.bssStart
  {
    image.bssStart - image.segmentStart
  }

  // ----- validation -----

  datatype SnapshotStatus =
    | SnapshotOk
    | NotCaptured
    | BadGeneration
    | DataLengthMismatch
    | SurvivorLengthTooLarge
    | BadStackPointer
    | BadSurvivors(walk: WalkStatus)

  /** A usable cold-boot SP, given where the restore writes and runs. */
  predicate StackTopIsValid(sp: uint64, base: uint64, image: Image)
    requires image.segmentStart <= image.bssStart
  {
    && sp != 0 && sp % 16 == 0
    && !RangeHoldsStackTop(base, REGION.snapshotSize, sp)
    && !RangeHoldsStackTop(image.segmentStart, image.bssEnd - image.segmentStart, sp)
  }

  /** beam_snapshot_validate on the header and survivor area at base. */
  function Validate(m: seq<byte>, base: uint64, image: Image): SnapshotStatus
    requires |m| == ADDRESS_SPACE && Placed(base, image)
  {
    var generation := Load64(m, base + GENERATION_AT);
    var used := Load64(m, base + SURVIVOR_BYTES_AT);
    if Load64(m, base + MAGIC_AT) != SNAPSHOT_MAGIC then NotCaptured
    else if generation == 0 || generation == UINT64_MAX then BadGeneration
    else if Load64(m, base + DATA_BYTES_AT) != DataLen(image) then DataLengthMismatch
    else if used > REGION.survivorsSize then SurvivorLengthTooLarge
    else if !StackTopIsValid(Load64(m, base + SAVED_SP_AT), base, image) then BadStackPointer
    else
      var walk := Walk(Region(m, base + REGION.survivorsOff, used), BssLen(image), 0, 0);
      if walk == WalkOk then SnapshotOk else BadSurvivors(walk)
  }

  // ----- restore -----

  datatype Reason = BadLayout(layout: LayoutStatus) | BadSnapshot(snapshot: SnapshotStatus)
  datatype ResetResult = Resumed(sp: uint64) | Faulted(reason: Reason)

  function ResetOutcome(m: seq<byte>, image: Image): ResetResult
    requires |m| == ADDRESS_SPACE
  {
    var base := SnapshotBase(m, image);
    var layout := LayoutCheck(CurrentLayout(base, image));
    if layout != LayoutOk then Faulted(BadLayout(layout))
    else
      LayoutPlaces(base, image);
      var status := Validate(m, base, image);
      if status != SnapshotOk then Faulted(BadSnapshot(status)) else Resumed(Load64(m, base + SAVED_SP_AT))
  }

  /** The used part of the survivor area. */
  function Survivors(m: seq<byte>, base: uint64, image: Image): seq<byte>
    requires |m| == ADDRESS_SPACE && Placed(base, image)
    requires Load64(m, base + SURVIVOR_BYTES_AT) <= REGION.survivorsSize
  {
    Region(m, base + REGION.survivorsOff, Load64(m, base + SURVIVOR_BYTES_AT))
  }

  /** Memory after a restore that passed every check: data, then .bss, then the generation. */
  function Restored(m: seq<byte>, base: uint64, image: Image): (r: seq<byte>)
    requires |m| == ADDRESS_SPACE && Placed(base, image) && Validate(m, base, image) == SnapshotOk
    ensures |r| == |m|
  {
    var m1 := Blit(m, image.segmentStart, Region(m, base + REGION.dataOff, DataLen(image)));
    var bss := Replay(Survivors(m, base, image), BssLen(image), 0, Zeros(BssLen(image)));
    var m2 := Blit(m1, image.bssStart, bss);
    Blit(m2, base + GENERATION_AT, Bytes(8, Load64(m, base + GENERATION_AT) + 1))
  }

  /** What the survivor area of m makes of .bss, read and written in place. */
  function Replayed(m: seq<byte>, at: nat, used: nat, bssStart: nat, bssLen: nat): (r: seq<byte>)
    requires at + used <= |m| && bssStart + bssLen <= |m|
    ensures |r| == |m|
  {
    Blit(m, bssStart, Replay(Region(m, at, used), bssLen, 0, Region(m, bssStart, bssLen)))
  }

  /** What the replay loop keeps: the area and the rest of memory, and the .bss it will end with. */
  ghost predicate Replaying(
    before: seq<byte>, m: seq<byte>, at: nat, used: nat, bssStart: nat, bssLen: nat, cursor: nat, previousEnd: nat)
  {
    && at + used <= |before| && bssStart + bssLen <= |before|
    && (at + used <= bssStart || bssStart + bssLen <= at)
    && SameOutside(before, m, bssStart, bssLen) && cursor <= used
    && var input := Region(before, at, used);
       && Region(m, at, used) == input
       && Walk(input, bssLen, cursor, previousEnd) == WalkOk
       && Replay(input, bssLen, cursor, Region(m, bssStart, bssLen))
       == Replay(input, bssLen, 0, Region(before, bssStart, bssLen))
  }

  lemma ReplayBegins(m: seq<byte>, at: nat, used: nat, bssStart: nat, bssLen: nat)
    requires at + used <= |m| && bssStart + bssLen <= |m|
    requires at + used <= bssStart || bssStart + bssLen <= at
    requires Walk(Region(m, at, used), bssLen, 0, 0) == WalkOk
    ensures Replaying(m, m, at, used, bssStart, bssLen, 0, 0)
  {
  }

  /** One turn of the replay loop, on the memories before and after its write. */
  lemma ReplayStep(
    before: seq<byte>, m: seq<byte>, at: nat, used: nat, bssStart: nat, bssLen: nat, cursor: nat, previousEnd: nat)
    requires Replaying(before, m, at, used, bssStart, bssLen, cursor, previousEnd)
    requires ReadAt(Region(m, at, used), bssLen, cursor).Record?
    ensures var r := ReadAt(Region(m, at, used), bssLen, cursor);
            && bssStart + r.run.offset + |r.payload| <= |m| && cursor < r.next <= used
            && Replaying(before, Blit(m, bssStart + r.run.offset, r.payload), at, used, bssStart, bssLen,
                         r.next, r.run.offset + r.run.len)
  {
    hide Value, EncodeRun;
    var r := ReadAt(Region(before, at, used), bssLen, cursor);
    var m' := Blit(m, bssStart + r.run.offset, r.payload);
    BlitWithin(m, bssStart, bssLen, r.run.offset, r.payload);
    assert SameOutside(before, m', bssStart, bssLen);
    KeepRegion(before, m', bssStart, bssLen, at, used);
  }

  /** An accepted area can only stop the loop at its end, with .bss as the replay makes it. */
  lemma ReplayEnds(
    before: seq<byte>, m: seq<byte>, at: nat, used: nat, bssStart: nat, bssLen: nat, cursor: nat, previousEnd: nat)
    requires Replaying(before, m, at, used, bssStart, bssLen, cursor, previousEnd)
    requires !ReadAt(Region(m, at, used), bssLen, cursor).Record?
    ensures ReadAt(Region(m, at, used), bssLen, cursor) == End
    ensures m == Replayed(before, at, used, bssStart, bssLen)
  {
    BlitUnique(before, m, bssStart, Region(m, bssStart, bssLen));
  }

  /** The replay loop: it reads the live survivor area, writes .bss in place and stops at the end. */
  method ReplayInPlace(mem: array<byte>, at: nat, used: nat, bssStart: nat, bssLen: nat)
    requires at + used <= mem.Length && bssStart + bssLen <= mem.Length
    requires at + used <= bssStart || bssStart + bssLen <= at
    requires Walk(Region(mem[..], at, used), bssLen, 0, 0) == WalkOk
    modifies mem
    ensures mem[..] == Replayed(old(mem[..]), at, used, bssStart, bssLen)
  {
    hide *;
    ghost var before, previousEnd: nat := mem[..], 0;
    ReplayBegins(before, at, used, bssStart, bssLen);
    var cursor: nat := 0;
    var r := ReadAt(Region(mem[..], at, used), bssLen, cursor);
    while r.Record?
      invariant Replaying(before, mem[..], at, used, bssStart, bssLen, cursor, previousEnd)
      invariant r == ReadAt(Region(mem[..], at, used), bssLen, cursor)
      decreases used - cursor
    {
      ReplayStep(before, mem[..], at, used, bssStart, bssLen, cursor, previousEnd);
      var run, next := r.run, r.next;
      StoreBytes(mem, bssStart + run.offset, r.payload);
      r := ReadAt(Region(mem[..], at, used), bssLen, next);
      previousEnd, cursor := run.offset + run.len, next;
    }
    ReplayEnds(before, mem[..], at, used, bssStart, bssLen, cursor, previousEnd);
  }

  /**
   * beam_reset_restore: every check runs before the first write, so a reset that fails one leaves
   * all of memory as it was.
   */
  method ResetRestore(mem: array<byte>, image: Image) returns (result: ResetResult)
    requires mem.Length == ADDRESS_SPACE
    modifies mem
    ensures result == ResetOutcome(old(mem[..]), image)
    ensures result.Faulted? ==> mem[..] == old(mem[..])
    ensures result.Resumed? ==>
      var base := SnapshotBase(old(mem[..]), image);
      && Placed(base, image) && Validate(old(mem[..]), base, image) == SnapshotOk
      && mem[..] == Restored(old(mem[..]), base, image)
  {
    ghost var m := mem[..];
    var base: uint64 := SnapshotBase(mem[..], image);
    var layoutStatus := LayoutCheck(CurrentLayout(base, image));
    if layoutStatus != LayoutOk {
      return Faulted(BadLayout(layoutStatus));
    }
    LayoutPlaces(base, image);
    var status := Validate(mem[..], base, image);
    if status != SnapshotOk {
      return Faulted(BadSnapshot(status));
    }
    var sp := RestoreChecked(mem, base, image);
    return Resumed(sp);
  }

  /** The writing half of the restore, once every check has passed. */
  method RestoreChecked(mem: array<byte>, base: uint64, image: Image) returns (sp: uint64)
    requires mem.Length == ADDRESS_SPACE && Placed(base, image) && Validate(mem[..], base, image) == SnapshotOk
    modifies mem
    ensures sp == old(Load64(mem[..], base + SAVED_SP_AT))
    ensures mem[..] == Restored(old(mem[..]), base, image)
  {
    hide Load64, Bytes, Validate, Restored, Replayed, Zeroed, Placed, Walk, Region, Blit;
    SnapshotInMemory(base, image);
    SegmentSteps(mem[..], base, image);
    sp := Load64(mem[..], base + SAVED_SP_AT);
    var used := Load64(mem[..], base + SURVIVOR_BYTES_AT);
    CopyAndZero(mem, base, image);
    ReplayInPlace(mem, base + REGION.survivorsOff, used, image.bssStart, BssLen(image));
    var generation := Load64(mem[..], base + GENERATION_AT) + 1;
    StoreBytes(mem, base + GENERATION_AT, Bytes(8, generation));
  }

  /** The addresses the restore touches, as plain inequalities. */
  lemma SnapshotInMemory(base: uint64, image: Image)
    requires Placed(base, image)
    ensures base + SNAPSHOT_HEADER_BYTES <= base + REGION.survivorsOff
    ensures base + REGION.survivorsOff + REGION.survivorsSize <= base + REGION.dataOff
    ensures base + REGION.dataOff + DataLen(image) <= base + REGION.snapshotSize < ADDRESS_SPACE
    ensures image.segmentStart + DataLen(image) == image.bssStart
    ensures image.bssStart + BssLen(image) == image.bssEnd < ADDRESS_SPACE
    ensures base + REGION.snapshotSize <= image.segmentStart || image.bssEnd <= base
  {
  }

  /** Steps 3 and 4 of the restore: copy the data back and zero .bss. */
  method CopyAndZero(mem: array<byte>, base: uint64, image: Image)
    requires mem.Length == ADDRESS_SPACE && Placed(base, image)
    modifies mem
    ensures mem[..] == Zeroed(old(mem[..]), base, image)
  {
    hide Blit, Region;
    CopyWithin(mem, base + REGION.dataOff, image.segmentStart, DataLen(image));
    StoreBytes(mem, image.bssStart, Zeros(BssLen(image)));
  }

  /** Memory after the data is copied and .bss is zeroed. */
  function Zeroed(m: seq<byte>, base: uint64, image: Image): (r: seq<byte>)
    requires |m| == ADDRESS_SPACE && Placed(base, image)
    ensures |r| == |m|
  {
    var m1 := Blit(m, image.segmentStart, Region(m, base + REGION.dataOff, DataLen(image)));
    Blit(m1, image.bssStart, Zeros(BssLen(image)))
  }

  /** The memories the segment passes through, and what each keeps of the snapshot. */
  lemma SegmentSteps(m: seq<byte>, base: uint64, image: Image)
    requires |m| == ADDRESS_SPACE && Placed(base, image) && Validate(m, base, image) == SnapshotOk
    ensures var m2 := Zeroed(m, base, image);
            var at, used := base + REGION.survivorsOff, Load64(m, base + SURVIVOR_BYTES_AT);
            var m3 := Replayed(m2, at, used, image.bssStart, BssLen(image));
            && used <= REGION.survivorsSize
            && Walk(Region(m2, at, used), BssLen(image), 0, 0) == WalkOk
            && Load64(m3, base + GENERATION_AT) < UINT64_MAX
            && Load64(m3, base + GENERATION_AT) == Load64(m, base + GENERATION_AT)
            && Restored(m, base, image) == Blit(m3, base + GENERATION_AT, Bytes(8, Load64(m, base + GENERATION_AT) + 1))
  {
    hide Value, Bytes, Walk, Replay, ReadAt;
    var bssLen, data := BssLen(image), Region(m, base + REGION.dataOff, DataLen(image));
    var area := Survivors(m, base, image);
    var m1 := Blit(m, image.segmentStart, data);
    var m2 := Blit(m1, image.bssStart, Zeros(bssLen));
    var bss := Replay(area, bssLen, 0, Zeros(bssLen));
    BlitRegion(m, image.segmentStart, data);
    BlitRegion(m1, image.bssStart, Zeros(bssLen));
    BlitRegion(m2, image.bssStart, bss);
    KeepSnapshot(m, m1, image.segmentStart, DataLen(image), base, image);
    KeepSnapshot(m1, m2, image.bssStart, bssLen, base, image);
    KeepSnapshot(m2, Blit(m2, image.bssStart, bss), image.bssStart, bssLen, base, image);
    SubRegion(m, m2, base, base + REGION.survivorsOff, |area|);
    assert Region(m2, image.bssStart, bssLen) == Zeros(bssLen);
    BlitTwice(m1, image.bssStart, Zeros(bssLen), bss);
  }

  /** A write to the segment keeps the whole snapshot region. */
  lemma KeepSnapshot(m: seq<byte>, m': seq<byte>, at: nat, len: nat, base: uint64, image: Image)
    requires |m| == ADDRESS_SPACE && Placed(base, image) && SameOutside(m, m', at, len)
    requires image.segmentStart <= at && at + len <= image.bssEnd
    ensures Region(m', base, REGION.snapshotSize) == Region(m, base, REGION.snapshotSize)
    ensures Load64(m', base + GENERATION_AT) == Load64(m, base + GENERATION_AT)
  {
    KeepRegion(m, m', at, len, base, REGION.snapshotSize);
    KeepRegion(m, m', at, len, base + GENERATION_AT, 8);
  }

  /** Equal snapshot regions have equal parts. */
  lemma SubRegion(m: seq<byte>, m': seq<byte>, base: nat, from: nat, len: nat)
    requires |m| == |m'| && base + REGION.snapshotSize <= |m|
    requires Region(m', base, REGION.snapshotSize) == Region(m, base, REGION.snapshotSize)
    requires base <= from && from + len <= base + REGION.snapshotSize
    ensures Region(m', from, len) == Region(m, from, len)
  {
    SubSlice(m, base, base + REGION.snapshotSize, from - base, from - base + len);
    SubSlice(m', base, base + REGION.snapshotSize, from - base, from - base + len);
  }

  // ----- capture -----

  /** The file-backed data and the .bss of the running image. */
  function Data(m: seq<byte>, image: Image): seq<byte>
    requires |m| == ADDRESS_SPACE && image.segmentStart <= image.bssStart
  {
    Region(m, image.segmentStart, DataLen(image))
  }

  function Bss(m: seq<byte>, image: Image): seq<byte>
    requires |m| == ADDRESS_SPACE
  {
    Region(m, image.bssStart, BssLen(image))
  }

  /** The snapshot at base holds this data, .bss and cold-boot SP, in this generation. */
  ghost predicate Snapshot(
    m: seq<byte>, base: uint64, image: Image, sp: uint64, data: seq<byte>, bss: seq<byte>, generation: nat)
    requires |m| == ADDRESS_SPACE && Placed(base, image)
  {
    && |data| == DataLen(image) && |bss| == BssLen(image)
    && |Encode(bss, SURVIVOR_GAP_WORDS)| <= REGION.survivorsSize
    && Load64(m, base + MAGIC_AT) == SNAPSHOT_MAGIC
    && Load64(m, base + GENERATION_AT) == generation
    && Load64(m, base + SAVED_SP_AT) == sp
    && Load64(m, base + DATA_BYTES_AT) == |data|
    && Load64(m, base + SURVIVOR_BYTES_AT) == |Encode(bss, SURVIVOR_GAP_WORDS)|
    && Region(m, base + REGION.dataOff, |data|) == data
    && Region(m, base + REGION.survivorsOff, |Encode(bss, SURVIVOR_GAP_WORDS)|) == Encode(bss, SURVIVOR_GAP_WORDS)
  }

  datatype CaptureResult =
    | Unavailable
    | AlreadyCaptured
    | LayoutFault(layout: LayoutStatus)
    | SurvivorFault
    | Captured

  /** The snapshot header can be read at the patched base, as the mapped region guarantees. */
  ghost predicate BaseMapped(m: seq<byte>, image: Image) {
    |m| == ADDRESS_SPACE && SnapshotBase(m, image) + SNAPSHOT_HEADER_BYTES <= ADDRESS_SPACE
  }

  function CaptureOutcome(m: seq<byte>, image: Image): CaptureResult
    requires BaseMapped(m, image)
  {
    var base := SnapshotBase(m, image);
    var layout := LayoutCheck(CurrentLayout(base, image));
    if base == 0 then Unavailable
    else if Load64(m, base + MAGIC_AT) == SNAPSHOT_MAGIC then AlreadyCaptured
    else if layout != LayoutOk then LayoutFault(layout)
    else if |Encode(Bss(m, image), SURVIVOR_GAP_WORDS)| > REGION.survivorsSize then SurvivorFault
    else Captured
  }

  /** What a completed capture establishes: the snapshot is taken and nothing else has changed. */
  ghost predicate CaptureTaken(m: seq<byte>, m': seq<byte>, image: Image, sp: uint64)
    requires BaseMapped(m, image)
  {
    var base := SnapshotBase(m, image);
    && LayoutCheck(CurrentLayout(base, image)) == LayoutOk && Placed(base, image)
    && SameOutside(m, m', base, REGION.snapshotSize)
    && Snapshot(m', base, image, sp, Data(m, image), Bss(m, image), 1)
  }

  /** A capture under way: nothing outside the region has changed, and the region does not read as captured. */
  ghost predicate CaptureTorn(m: seq<byte>, m': seq<byte>, image: Image)
    requires BaseMapped(m, image)
  {
    var base := SnapshotBase(m, image);
    SameOutside(m, m', base, REGION.snapshotSize) && Load64(m', base + MAGIC_AT) != SNAPSHOT_MAGIC
  }

  /** One call of the capture: its result, and the memory it leaves. */
  ghost predicate CaptureStep(m: seq<byte>, m': seq<byte>, image: Image, sp: uint64, result: CaptureResult)
    requires BaseMapped(m, image)
  {
    && result == CaptureOutcome(m, image)
    && match result
       case Captured => CaptureTaken(m, m', image, sp)
       case SurvivorFault => CaptureTorn(m, m', image)
       case _ => m' == m
  }

  /**
   * beam_boot_capture: the magic is written last, so up to that store, and when the survivors do not
   * fit, the capture is torn: it still reads as cold and has changed nothing but the region.
   */
  method BootCapture(mem: array<byte>, image: Image, sp: uint64) returns (result: CaptureResult, ghost last: seq<byte>)
    requires mem.Length == ADDRESS_SPACE && BaseMapped(mem[..], image)
    modifies mem
    ensures CaptureStep(old(mem[..]), mem[..], image, sp, result)
    ensures result.Captured? ==>
      && CaptureTorn(old(mem[..]), last, image) && |last| == ADDRESS_SPACE
      && mem[..] == Blit(last, SnapshotBase(old(mem[..]), image) + MAGIC_AT, Bytes(8, SNAPSHOT_MAGIC))
  {
    var base: uint64 := SnapshotBase(mem[..], image);
    last := [];
    if base == 0 {
      return Unavailable, last;
    }
    if Load64(mem[..], base + MAGIC_AT) == SNAPSHOT_MAGIC {
      return AlreadyCaptured, last;
    }
    var layoutStatus := LayoutCheck(CurrentLayout(base, image));
    if layoutStatus != LayoutOk {
      return LayoutFault(layoutStatus), last;
    }
    LayoutPlaces(base, image);
    var ok, used := CaptureBody(mem, base, image, sp);
    if !ok {
      return SurvivorFault, last;
    }
    last := CaptureHeader(mem, base, image, sp, Data(old(mem[..]), image), Bss(old(mem[..]), image), used);
    return Captured, last;
  }

  /** The first half of a capture: everything but the survivor length, the generation and the magic. */
  ghost predicate BodyTaken(
    m: seq<byte>, base: uint64, image: Image, sp: uint64, data: seq<byte>, bss: seq<byte>, used: nat)
    requires |m| == ADDRESS_SPACE && Placed(base, image)
  {
    && |data| == DataLen(image) && |bss| == BssLen(image)
    && used == |Encode(bss, SURVIVOR_GAP_WORDS)| <= REGION.survivorsSize
    && Load64(m, base + SAVED_SP_AT) == sp
    && Load64(m, base + DATA_BYTES_AT) == |data|
    && Region(m, base + REGION.dataOff, |data|) == data
    && Region(m, base + REGION.survivorsOff, used) == Encode(bss, SURVIVOR_GAP_WORDS)
  }

  method CaptureBody(mem: array<byte>, base: uint64, image: Image, sp: uint64) returns (ok: bool, used: nat)
    requires mem.Length == ADDRESS_SPACE && Placed(base, image)
    modifies mem
    ensures ok <==> |Encode(Bss(old(mem[..]), image), SURVIVOR_GAP_WORDS)| <= REGION.survivorsSize
    ensures ok ==> BodyTaken(mem[..], base, image, sp, Data(old(mem[..]), image), Bss(old(mem[..]), image), used)
    ensures SameOutside(old(mem[..]), mem[..], base, REGION.snapshotSize)
    ensures Load64(mem[..], base + MAGIC_AT) == old(Load64(mem[..], base + MAGIC_AT))
  {
    hide Load64, Bytes, Blit, Encode, BodyTaken, SameOutside;
    SnapshotInMemory(base, image);
    ghost var m0 := mem[..];
    CopyWithin(mem, image.segmentStart, base + REGION.dataOff, DataLen(image));
    StoreBytes(mem, base + SAVED_SP_AT, Bytes(8, sp));
    StoreBytes(mem, base + DATA_BYTES_AT, Bytes(8, DataLen(image)));
    ghost var m3 := mem[..];
    BodyStores(m0, base, image, sp);
    var status;
    var bss := Bss(mem[..], image);
    status, used := SurvivorsEncode(bss, SURVIVOR_GAP_WORDS, mem, base + REGION.survivorsOff, REGION.survivorsSize);
    BodyEncoded(m0, m3, mem[..], base, image, sp);
    ok := status == EncodeOk;
  }

  function DataStored(m: seq<byte>, base: uint64, image: Image, sp: uint64): (r: seq<byte>)
    requires |m| == ADDRESS_SPACE && Placed(base, image)
    ensures |r| == |m|
  {
    var m1 := Blit(m, base + REGION.dataOff, Region(m, image.segmentStart, DataLen(image)));
    var m2 := Blit(m1, base + SAVED_SP_AT, Bytes(8, sp));
    Blit(m2, base + DATA_BYTES_AT, Bytes(8, DataLen(image)))
  }

  /** The data copy and the two header words before the survivors are encoded. */
  lemma BodyStores(m: seq<byte>, base: uint64, image: Image, sp: uint64)
    requires |m| == ADDRESS_SPACE && Placed(base, image)
    ensures var m3 := DataStored(m, base, image, sp);
            && SameOutside(m, m3, base, REGION.snapshotSize)
            && Load64(m3, base + MAGIC_AT) == Load64(m, base + MAGIC_AT)
            && Load64(m3, base + SAVED_SP_AT) == sp
            && Load64(m3, base + DATA_BYTES_AT) == DataLen(image)
            && Region(m3, base + REGION.dataOff, DataLen(image)) == Data(m, image)
            && Bss(m3, image) == Bss(m, image)
  {
    hide Load64, Bytes, Blit, Region, Value, SameOutside;
    var data := Region(m, image.segmentStart, DataLen(image));
    var m1 := Blit(m, base + REGION.dataOff, data);
    var m2 := Blit(m1, base + SAVED_SP_AT, Bytes(8, sp));
    var m3 := Blit(m2, base + DATA_BYTES_AT, Bytes(8, DataLen(image)));
    SnapshotInMemory(base, image);
    BlitRegion(m, base + REGION.dataOff, data);
    BlitRegion(m1, base + SAVED_SP_AT, Bytes(8, sp));
    BlitRegion(m2, base + DATA_BYTES_AT, Bytes(8, DataLen(image)));
    LoadStored(m1, base + SAVED_SP_AT, sp);
    LoadStored(m2, base + DATA_BYTES_AT, DataLen(image));
    KeepWord(m, m1, base + REGION.dataOff, |data|, base + MAGIC_AT);
    KeepWord(m1, m2, base + SAVED_SP_AT, 8, base + MAGIC_AT);
    KeepWord(m2, m3, base + DATA_BYTES_AT, 8, base + MAGIC_AT);
    KeepWord(m2, m3, base + DATA_BYTES_AT, 8, base + SAVED_SP_AT);
    KeepRegion(m1, m2, base + SAVED_SP_AT, 8, base + REGION.dataOff, |data|);
    KeepRegion(m2, m3, base + DATA_BYTES_AT, 8, base + REGION.dataOff, |data|);
    Widen(m, m1, base + REGION.dataOff, |data|, base, REGION.snapshotSize);
    Widen(m1, m2, base + SAVED_SP_AT, 8, base, REGION.snapshotSize);
    Widen(m2, m3, base + DATA_BYTES_AT, 8, base, REGION.snapshotSize);
    SameOutsideTransitive(m, m1, m2, base, REGION.snapshotSize);
    SameOutsideTransitive(m, m2, m3, base, REGION.snapshotSize);
    KeepRegion(m, m3, base, REGION.snapshotSize, image.bssStart, BssLen(image));
  }

  /** Encoding into the survivor area keeps the header words and the data copy. */
  lemma BodyEncoded(m: seq<byte>, m3: seq<byte>, m4: seq<byte>, base: uint64, image: Image, sp: uint64)
    requires |m| == ADDRESS_SPACE && Placed(base, image) && m3 == DataStored(m, base, image, sp)
    requires SameOutside(m3, m4, base + REGION.survivorsOff, REGION.survivorsSize)
    ensures SameOutside(m, m4, base, REGION.snapshotSize)
    ensures Load64(m4, base + MAGIC_AT) == Load64(m, base + MAGIC_AT)
    ensures var bss := Bss(m, image);
            var used := |Encode(bss, SURVIVOR_GAP_WORDS)|;
            used <= REGION.survivorsSize &&
            Region(m4, base + REGION.survivorsOff, used) == Encode(bss, SURVIVOR_GAP_WORDS) ==>
              BodyTaken(m4, base, image, sp, Data(m, image), bss, used)
  {
    hide Load64, Bytes, Blit, Region, Encode, SameOutside, DataStored;
    SnapshotInMemory(base, image);
    BodyStores(m, base, image, sp);
    var at, size := base + REGION.survivorsOff, REGION.survivorsSize;
    KeepWord(m3, m4, at, size, base + MAGIC_AT);
    KeepWord(m3, m4, at, size, base + SAVED_SP_AT);
    KeepWord(m3, m4, at, size, base + DATA_BYTES_AT);
    KeepRegion(m3, m4, at, size, base + REGION.dataOff, DataLen(image));
    Widen(m3, m4, at, size, base, REGION.snapshotSize);
    SameOutsideTransitive(m, m3, m4, base, REGION.snapshotSize);
  }

  /** The last three stores: survivor length, generation, and the magic that makes it count. */
  method CaptureHeader(
    mem: array<byte>, base: uint64, image: Image, ghost sp: uint64, ghost data: seq<byte>, ghost bss: seq<byte>,
    used: nat) returns (ghost last: seq<byte>)
    requires mem.Length == ADDRESS_SPACE && Placed(base, image)
    requires BodyTaken(mem[..], base, image, sp, data, bss, used)
    modifies mem
    ensures Snapshot(mem[..], base, image, sp, data, bss, 1)
    ensures SameOutside(old(mem[..]), mem[..], base, REGION.snapshotSize)
    ensures SameOutside(old(mem[..]), last, base, REGION.snapshotSize) && |last| == ADDRESS_SPACE
    ensures Load64(last, base + MAGIC_AT) == old(Load64(mem[..], base + MAGIC_AT))
    ensures mem[..] == Blit(last, base + MAGIC_AT, Bytes(8, SNAPSHOT_MAGIC))
  {
    HeaderStores(mem[..], base, image, sp, data, bss, used);
    hide Load64, Bytes, Blit, Snapshot, BodyTaken;
    StoreBytes(mem, base + SURVIVOR_BYTES_AT, Bytes(8, used));
    StoreBytes(mem, base + GENERATION_AT, Bytes(8, 1));
    last := mem[..];
    StoreBytes(mem, base + MAGIC_AT, Bytes(8, SNAPSHOT_MAGIC));
  }

  lemma HeaderStores(
    m: seq<byte>, base: uint64, image: Image, sp: uint64, data: seq<byte>, bss: seq<byte>, used: nat)
    requires |m| == ADDRESS_SPACE && Placed(base, image) && BodyTaken(m, base, image, sp, data, bss, used)
    ensures var m1 := Blit(m, base + SURVIVOR_BYTES_AT, Bytes(8, used));
            var m2 := Blit(m1, base + GENERATION_AT, Bytes(8, 1));
            var m3 := Blit(m2, base + MAGIC_AT, Bytes(8, SNAPSHOT_MAGIC));
            && Snapshot(m3, base, image, sp, data, bss, 1) && SameOutside(m, m3, base, REGION.snapshotSize)
            && SameOutside(m, m2, base, REGION.snapshotSize)
            && Load64(m2, base + MAGIC_AT) == Load64(m, base + MAGIC_AT)
  {
    hide Load64, Bytes, Blit, Region, Encode, SameOutside, Value;
    SnapshotInMemory(base, image);
    var m1 := Blit(m, base + SURVIVOR_BYTES_AT, Bytes(8, used));
    var m2 := Blit(m1, base + GENERATION_AT, Bytes(8, 1));
    var m3 := Blit(m2, base + MAGIC_AT, Bytes(8, SNAPSHOT_MAGIC));
    LoadStored(m, base + SURVIVOR_BYTES_AT, used);
    LoadStored(m1, base + GENERATION_AT, 1);
    LoadStored(m2, base + MAGIC_AT, SNAPSHOT_MAGIC);
    BlitRegion(m, base + SURVIVOR_BYTES_AT, Bytes(8, used));
    BlitRegion(m1, base + GENERATION_AT, Bytes(8, 1));
    BlitRegion(m2, base + MAGIC_AT, Bytes(8, SNAPSHOT_MAGIC));
    KeepWord(m, m1, base + SURVIVOR_BYTES_AT, 8, base + MAGIC_AT);
    KeepWord(m1, m2, base + GENERATION_AT, 8, base + MAGIC_AT);
    KeepWord(m1, m2, base + GENERATION_AT, 8, base + SURVIVOR_BYTES_AT);
    KeepWord(m2, m3, base + MAGIC_AT, 8, base + SURVIVOR_BYTES_AT);
    KeepWord(m2, m3, base + MAGIC_AT, 8, base + GENERATION_AT);
    KeepBody(m, m1, base + SURVIVOR_BYTES_AT, base, image, |data|, used);
    KeepBody(m1, m2, base + GENERATION_AT, base, image, |data|, used);
    KeepBody(m2, m3, base + MAGIC_AT, base, image, |data|, used);
    Widen(m, m1, base + SURVIVOR_BYTES_AT, 8, base, REGION.snapshotSize);
    Widen(m1, m2, base + GENERATION_AT, 8, base, REGION.snapshotSize);
    Widen(m2, m3, base + MAGIC_AT, 8, base, REGION.snapshotSize);
    SameOutsideTransitive(m, m1, m2, base, REGION.snapshotSize);
    SameOutsideTransitive(m, m2, m3, base, REGION.snapshotSize);
  }

  /** A store to another header word keeps the saved SP, the data length, the data and the survivors. */
  lemma KeepBody(m: seq<byte>, m': seq<byte>, at: nat, base: uint64, image: Image, dataLen: nat, used: nat)
    requires |m| == ADDRESS_SPACE && Placed(base, image) && SameOutside(m, m', at, 8)
    requires at + 8 <= base + SAVED_SP_AT || at == base + SURVIVOR_BYTES_AT
    requires dataLen == DataLen(image) && used <= REGION.survivorsSize
    ensures Load64(m', base + SAVED_SP_AT) == Load64(m, base + SAVED_SP_AT)
    ensures Load64(m', base + DATA_BYTES_AT) == Load64(m, base + DATA_BYTES_AT)
    ensures Region(m', base + REGION.dataOff, dataLen) == Region(m, base + REGION.dataOff, dataLen)
    ensures Region(m', base + REGION.survivorsOff, used) == Region(m, base + REGION.survivorsOff, used)
  {
    hide Load64, Region, SameOutside;
    SnapshotInMemory(base, image);
    KeepWord(m, m', at, 8, base + SAVED_SP_AT);
    KeepWord(m, m', at, 8, base + DATA_BYTES_AT);
    KeepRegion(m, m', at, 8, base + REGION.dataOff, dataLen);
    KeepRegion(m, m', at, 8, base + REGION.survivorsOff, used);
  }
}
