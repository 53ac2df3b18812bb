/** The reader side of Root's status page (src/lib/abi/root_status_reader.c). */
module StatusReader {
  import opened Words
  import opened Regions
  import opened SpecPage
  import opened StatusPage
  import opened StatusRules

  datatype ReadResult = ReadOk | ReadTorn | ReadInvalid | ReadSize

  function SeqWord(s: StatusBytes): uint64 { Load64(s, SEQ_WORD_AT) }

  predicate IsPublished(seqWord: uint64) { seqWord != 0 && seqWord % 2 == 0 }

  // ----- one quiet read -----

  /** What reading an unchanging page gives. */
  function QuietRead(s: StatusBytes, attempts: nat): ReadResult {
    if attempts == 0 || !IsPublished(SeqWord(s)) then ReadTorn
    else if StatusChecks(s) then ReadOk
    else ReadInvalid
  }

  method CopyAll(from: array<byte>, to: array<byte>)
    requires from.Length == to.Length && from != to
    modifies to
    ensures to[..] == from[..]
  {
    for i := 0 to from.Length
      invariant to[..i] == from[..i]
    {
      to[i] := from[i];
    }
    assert to[..] == to[..to.Length] && from[..] == from[..from.Length];
  }

  method CopyBegin(shared: array<byte>, scratch: array<byte>) returns (begun: bool, seqWord: uint64)
    requires shared.Length == scratch.Length == STATUS_BYTES && shared != scratch
    modifies scratch
    ensures begun <==> IsPublished(SeqWord(shared[..]))
    ensures begun ==> seqWord == SeqWord(shared[..]) && scratch[..] == shared[..]
    ensures !begun ==> scratch[..] == old(scratch[..])
  {
    seqWord := SeqWord(shared[..]);
    if seqWord == 0 || seqWord % 2 == 1 {
      return false, 0;
    }
    CopyAll(shared, scratch);
    return true, seqWord;
  }

  /** The sequence is read again; the copy is handed out only if it and its own sequence agree. */
  method CopyFinish(shared: array<byte>, scratch: array<byte>, output: array<byte>, seqWord: uint64)
    returns (result: ReadResult)
    requires shared.Length == scratch.Length == output.Length == STATUS_BYTES && output != shared && output != scratch
    modifies output
    ensures result == if SeqWord(shared[..]) != seqWord then ReadTorn
                      else if SeqWord(scratch[..]) != seqWord || !StatusChecks(scratch[..]) then ReadInvalid
                      else ReadOk
    ensures output[..] == if result == ReadOk then scratch[..] else old(output[..])
  {
    if SeqWord(shared[..]) != seqWord {
      return ReadTorn;
    }
    if SeqWord(scratch[..]) != seqWord || !StatusChecks(scratch[..]) {
      return ReadInvalid;
    }
    CopyAll(scratch, output);
    return ReadOk;
  }

  /** root_status_read with nobody storing meanwhile; output changes only on success. */
  method Read(shared: array?<byte>, scratch: array?<byte>, output: array?<byte>, len: nat, attempts: nat)
    returns (result: ReadResult)
    requires shared != null ==> shared.Length == STATUS_BYTES
    requires scratch != null ==> scratch.Length == STATUS_BYTES
    requires output != null ==> output.Length == STATUS_BYTES
    modifies if scratch == null then {} else {scratch}, if output == null then {} else {output}
    ensures var bad := shared == null || scratch == null || output == null ||
                       scratch == output || scratch == shared || output == shared || len != STATUS_BYTES;
            result == if bad then ReadSize else QuietRead(old(shared[..]), attempts)
    ensures result == ReadOk ==> output[..] == old(shared[..])
    ensures result != ReadOk && output != null && output != scratch ==> output[..] == old(output[..])
  {
    hide Load64;
    if shared == null || scratch == null || output == null || scratch == output || scratch == shared ||
       output == shared || len != STATUS_BYTES {
      return ReadSize;
    }
    for i := 0 to attempts
      invariant shared[..] == old(shared[..]) && output[..] == old(output[..])
      invariant i > 0 ==> !IsPublished(SeqWord(shared[..]))
    {
      var begun, seqWord := CopyBegin(shared, scratch);
      if begun {
        result := CopyFinish(shared, scratch, output, seqWord);
        return;
      }
    }
    return ReadTorn;
  }

  // ----- comparing two copies -----

  /** Events lost between two heads: those already overwritten. */
  function Missed(previousHead: uint64, currentHead: uint64): uint64 {
    var earliest := if currentHead > EVENT_COUNT then currentHead - EVENT_COUNT else 0;
    if earliest > previousHead then earliest - previousHead else 0
  }

  function Head(s: StatusBytes): uint64 { Load64(s, EVENT_HEAD_AT) }

  function Generation(s: StatusBytes): uint64 { Load64(s, ROOT_GENERATION_AT) }

  function Incarnation(s: StatusBytes): uint64 { Load64(s, BEAM_INCARNATION_AT) }

  function Lifetime(s: StatusBytes, child: nat): uint32
    requires child < CHILD_COUNT
  {
    Load32(s, RowAt(child) + LIFETIME_AT)
  }

  function DownTicks(s: StatusBytes, child: nat): uint64
    requires child < CHILD_COUNT
  {
    Load64(s, RowAt(child) + DOWN_TICKS_AT)
  }

  /** The counters of the first n children never went backwards. */
  ghost predicate RowsKeptUp(prior: StatusBytes, current: StatusBytes, n: nat)
    requires n <= CHILD_COUNT
  {
    forall i :: 0 <= i < n ==>
      Lifetime(prior, i) <= Lifetime(current, i) && DownTicks(prior, i) <= DownTicks(current, i)
  }

  ghost predicate WentBack(prior: StatusBytes, current: StatusBytes) {
    if Generation(current) != Generation(prior) then Generation(current) < Generation(prior)
    else if SeqWord(current) == SeqWord(prior) then prior != current
    else
      || SeqWord(current) < SeqWord(prior) || Head(current) < Head(prior) || Incarnation(current) < Incarnation(prior)
      || !RowsKeptUp(prior, current, CHILD_COUNT)
  }

  method CheckRegressed(prior: StatusBytes, current: StatusBytes) returns (regressed: bool)
    ensures regressed <==> WentBack(prior, current)
  {
    hide Load64, Load32;
    if Generation(current) < Generation(prior) {
      return true;
    }
    if Generation(current) != Generation(prior) {
      return false;
    }
    if SeqWord(current) == SeqWord(prior) {
      return prior != current;
    }
    if SeqWord(current) < SeqWord(prior) || Head(current) < Head(prior) || Incarnation(current) < Incarnation(prior) {
      return true;
    }
    for i := 0 to CHILD_COUNT
      invariant RowsKeptUp(prior, current, i)
    {
      if Lifetime(current, i) < Lifetime(prior, i) || DownTicks(current, i) < DownTicks(prior, i) {
        return true;
      }
    }
    return false;
  }

  datatype Freshness = Freshness(missedEvents: uint64, ageTicks: uint64, ageKnown: bool, changed: bool)

  function FreshnessOf(prior: Option<StatusBytes>, current: StatusBytes, readerTicks: uint64,
      readerFrequency: uint64): Freshness {
    var same := prior.Some? && Generation(current) == Generation(prior.value);
    var now, frequency := Load64(current, NOW_TICKS_AT), Load64(current, CNTFRQ_AT);
    var known := frequency != 0 && frequency == readerFrequency && readerTicks >= now;
    Freshness(if same then Missed(Head(prior.value), Head(current)) else 0,
              if known then readerTicks - now else 0,
              known,
              !same || SeqWord(current) != SeqWord(prior.value))
  }

  class FreshnessCell {
    var value: Freshness

    constructor ()
    {
      value := Freshness(0, 0, false, false);
    }
  }

  datatype ObserveResult = ObserveOk | ObserveRegressed

  /** root_status_observe: a missing current or out counts as regressed, and out is written only on ok. */
  method Observe(prior: Option<StatusBytes>, current: Option<StatusBytes>, readerTicks: uint64, readerFrequency: uint64,
                 out: FreshnessCell?) returns (result: ObserveResult)
    modifies out
    ensures result == ObserveOk <==>
      current.Some? && out != null && !(prior.Some? && WentBack(prior.value, current.value))
    ensures out != null ==>
      out.value == if result == ObserveOk then FreshnessOf(prior, current.value, readerTicks, readerFrequency)
                   else old(out.value)
  {
    hide Load64, WentBack;
    if current.None? || out == null {
      return ObserveRegressed;
    }
    if prior.Some? {
      var regressed := CheckRegressed(prior.value, current.value);
      if regressed {
        return ObserveRegressed;
      }
    }
    out.value := FreshnessOf(prior, current.value, readerTicks, readerFrequency);
    return ObserveOk;
  }
}
