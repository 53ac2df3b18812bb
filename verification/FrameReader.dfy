/** The console frame reader and the probe verdict (tools/testbed/src/chryso_testbed/frames.py). */
module FrameReader {
  import opened Words
  import opened FrameBody

  const MARKER := "@@CHRYSO|"

  datatype Event = Framed(frame: Frame) | Damaged(run: string, reason: Reason) | Pending

  datatype After = Plain | At

  datatype State = Outside(matched: nat) | Inside(body: string, after: After)

  type Reader = s: State | s.Outside? ==> s.matched < |MARKER| witness Outside(0)

  const START: Reader := Outside(0)

  // ----- the machine -----

  predicate EndsWith(s: string, suffix: string) {
    |suffix| <= |s| && s[|s| - |suffix|..] == suffix
  }

  /** The longest marker prefix of at most k bytes that ends seen, by brute force. */
  function Fallback(seen: string, k: nat): (r: nat)
    requires k <= |MARKER|
    ensures r <= k && EndsWith(seen, MARKER[..r])
    ensures forall j :: r < j <= k ==> !EndsWith(seen, MARKER[..j])
  {
    if k == 0 || EndsWith(seen, MARKER[..k]) then k else Fallback(seen, k - 1)
  }

  /** The loop of advance(). */
  method Advance(matched: nat, c: char) returns (r: nat)
    requires matched <= |MARKER|
    ensures r == Advanced(matched, c)
  {
    var seen := MARKER[..matched] + [c];
    var k: nat := if matched + 1 < |MARKER| then matched + 1 else |MARKER|;
    while !EndsWith(seen, MARKER[..k])
      invariant k <= |MARKER| && Fallback(seen, k) == Advanced(matched, c)
      decreases k
    {
      k := k - 1;
    }
    return k;
  }

  function Advanced(matched: nat, c: char): (r: nat)
    requires matched <= |MARKER|
    ensures r <= matched + 1
  {
    Fallback(MARKER[..matched] + [c], if matched + 1 < |MARKER| then matched + 1 else |MARKER|)
  }

  datatype Out = Out(events: seq<Event>, state: Reader)

  function Close(body: string): Event {
    var parsed := Parse(body);
    if parsed.Good? then Framed(parsed.frame) else Damaged(Guess(body), parsed.reason)
  }

  function Step(c: char, s: Reader): Out {
    match s
    case Outside(matched) =>
      var m := Advanced(matched, c);
      Out([], if m == |MARKER| then Inside("", Plain) else Outside(m))
    case Inside(body, after) =>
      if |body| >= MAX_BODY then Out([Damaged(Guess(body), Oversize)], Outside(0))
      else if after == Plain && c == '@' then Out([], Inside(body, At))
      else if c == '@' then Out([Close(body)], Outside(2))
      else if after == At then Out([], Inside(body + "@" + [c], Plain))
      else Out([], Inside(body + [c], Plain))
  }

  // ----- reading a log -----

  /** step() over every byte. */
  function Fed(data: string, s: Reader): Out
    decreases |data|
  {
    if data == [] then Out([], s)
    else
      var first := Step(data[0], s);
      var rest := Fed(data[1..], first.state);
      Out(first.events + rest.events, rest.state)
  }

  function Before(events: seq<Event>, rest: Out): Out {
    Out(events + rest.events, rest.state)
  }

  lemma BeforeMore(a: seq<Event>, b: seq<Event>, rest: Out)
    ensures Before(a, Before(b, rest)) == Before(a + b, rest)
  {
    assert a + (b + rest.events) == a + b + rest.events;
  }

  lemma BeforeNothing(rest: Out)
    ensures Before([], rest) == rest
  {
    assert [] + rest.events == rest.events;
  }

  method FeedBytewise(data: string, start: Reader) returns (r: Out)
    ensures r == Fed(data, start)
  {
    hide Step;
    var events: seq<Event>, state: Reader := [], start;
    assert data[0..] == data;
    BeforeNothing(Fed(data, start));
    for i := 0 to |data|
      invariant Fed(data, start) == Before(events, Fed(data[i..], state))
    {
      var out := Step(data[i], state);
      BeforeMore(events, out.events, Fed(data[i + 1..], out.state));
      assert data[i..][1..] == data[i + 1..];
      events, state := events + out.events, out.state;
    }
    assert events + [] == events;
    return Out(events, state);
  }

  // ----- skipping -----

  /** Outside a match only the marker's first byte moves the reader. */
  lemma StaysOutside(c: char)
    requires c != '@'
    ensures Step(c, Outside(0)) == Out([], Outside(0))
  {
    var seen := MARKER[..0] + [c];
    assert seen == [c];
    assert MARKER[..1] == "@";
    assert Fallback(seen, 1) == 0;
  }

  lemma {:induction false} SkipOutside(data: string, k: nat)
    requires k <= |data| && '@' !in data[..k]
    ensures Fed(data, Outside(0)) == Fed(data[k..], Outside(0))
    decreases k
  {
    hide Step;
    if k > 0 {
      assert data[0] == data[..k][0];
      StaysOutside(data[0]);
      assert data[..k][1..] == data[1..][..k - 1] && data[1..][k - 1..] == data[k..];
      SkipOutside(data[1..], k - 1);
      BeforeNothing(Fed(data[1..], Outside(0)));
    } else {
      assert data[0..] == data;
    }
  }

  /** In a plain body below the cap a run of other bytes is appended whole. */
  lemma {:induction false} SkipInside(data: string, body: string, k: nat)
    requires k <= |data| && '@' !in data[..k] && |body| + k <= MAX_BODY
    ensures Fed(data, Inside(body, Plain)) == Fed(data[k..], Inside(body + data[..k], Plain))
    decreases k
  {
    if k > 0 {
      assert data[0] == data[..k][0];
      assert Step(data[0], Inside(body, Plain)) == Out([], Inside(body + [data[0]], Plain));
      hide Step;
      assert data[..k][1..] == data[1..][..k - 1] && data[1..][k - 1..] == data[k..];
      SkipInside(data[1..], body + [data[0]], k - 1);
      assert body + [data[0]] + data[1..][..k - 1] == body + data[..k];
      BeforeNothing(Fed(data[1..], Inside(body + [data[0]], Plain)));
    } else {
      assert data[0..] == data && body + data[..0] == body;
    }
  }

  /** data.find(b"@", from, to): the first @ in the window, or -1. */
  method Find(data: string, from: nat, to: nat) returns (j: int)
    requires from <= to <= |data|
    ensures j < 0 ==> '@' !in data[from..to]
    ensures j >= 0 ==> from <= j < to && data[j] == '@' && '@' !in data[from..j]
  {
    for i := from to to
      invariant '@' !in data[from..i]
    {
      if data[i] == '@' {
        return i;
      }
    }
    return -1;
  }

  /** What feed() has read so far and what is left to read. */
  ghost predicate Reading(data: string, start: Reader, events: seq<Event>, state: Reader, i: nat) {
    i <= |data| && Fed(data, start) == Before(events, Fed(data[i..], state))
  }

  lemma ReadSkip(data: string, start: Reader, events: seq<Event>, i: nat, j: nat)
    requires Reading(data, start, events, Outside(0), i) && i <= j <= |data| && '@' !in data[i..j]
    ensures Reading(data, start, events, Outside(0), j)
  {
    hide Fed;
    SubSlice(data, i, |data|, 0, j - i);
    assert data[i..][..j - i] == data[i..j];
    SkipOutside(data[i..], j - i);
    assert data[i..][j - i..] == data[j..];
  }

  lemma ReadSlice(data: string, start: Reader, events: seq<Event>, body: string, i: nat, j: nat)
    requires Reading(data, start, events, Inside(body, Plain), i) && i <= j <= |data| && '@' !in data[i..j]
    requires |body| + (j - i) <= MAX_BODY
    ensures Reading(data, start, events, Inside(body + data[i..j], Plain), j)
  {
    hide Fed;
    assert data[i..][..j - i] == data[i..j];
    SkipInside(data[i..], body, j - i);
    assert data[i..][j - i..] == data[j..];
  }

  lemma ReadStep(data: string, start: Reader, events: seq<Event>, state: Reader, i: nat)
    requires Reading(data, start, events, state, i) && i < |data|
    ensures var out := Step(data[i], state); Reading(data, start, events + out.events, out.state, i + 1)
  {
    hide Step;
    var out := Step(data[i], state);
    assert data[i..][1..] == data[i + 1..];
    BeforeMore(events, out.events, Fed(data[i + 1..], out.state));
  }

  lemma ReadAll(data: string, start: Reader, events: seq<Event>, state: Reader)
    requires Reading(data, start, events, state, |data|)
    ensures Fed(data, start) == Out(events, state)
  {
    assert events + [] == events;
  }

  /** feed(): the fast reader, equal to the bytewise one on every input from every state. */
  method Feed(data: string, start: Reader) returns (r: Out)
    ensures r == Fed(data, start)
  {
    hide Fed, Step;
    var events: seq<Event>, state: Reader, i: nat := [], start, 0;
    assert Reading(data, start, events, state, i) by {
      assert data[0..] == data;
      BeforeNothing(Fed(data, start));
    }
    while i < |data|
      invariant Reading(data, start, events, state, i)
      decreases |data| - i
    {
      if state.Outside? && state.matched == 0 {
        var j := Find(data, i, |data|);
        if j < 0 {
          ReadSkip(data, start, events, i, |data|);
          ReadAll(data, start, events, state);
          return Out(events, state);
        }
        ReadSkip(data, start, events, i, j);
        i := j;
      } else if state.Inside? && state.after == Plain && |state.body| < MAX_BODY {
        var room := MAX_BODY - |state.body|;
        var to := if i + room < |data| then i + room else |data|;
        var j := Find(data, i, to);
        var stop := if j >= 0 then j else to;
        if stop > i {
          ReadSlice(data, start, events, state.body, i, stop);
          state, i := Inside(state.body + data[i..stop], Plain), stop;
          continue;
        }
      }
      ReadStep(data, start, events, state, i);
      var out := Step(data[i], state);
      events, state, i := events + out.events, out.state, i + 1;
    }
    ReadAll(data, start, events, state);
    return Out(events, state);
  }

  // ----- chunks -----

  /** Reading a + b is reading a, then b from the state a left. */
  lemma {:induction false} FedConcat(a: string, b: string, s: Reader)
    ensures Fed(a + b, s) == Before(Fed(a, s).events, Fed(b, Fed(a, s).state))
    decreases |a|
  {
    hide Step;
    if a == [] {
      assert a + b == b;
      BeforeNothing(Fed(b, s));
    } else {
      var first := Step(a[0], s);
      assert (a + b)[0] == a[0] && (a + b)[1..] == a[1..] + b;
      FedConcat(a[1..], b, first.state);
      BeforeMore(first.events, Fed(a[1..], first.state).events, Fed(b, Fed(a[1..], first.state).state));
    }
  }

  function Flat(chunks: seq<string>): string {
    if chunks == [] then [] else chunks[0] + Flat(chunks[1..])
  }

  /** Feeding chunk by chunk. */
  function FedChunks(chunks: seq<string>, s: Reader): Out {
    if chunks == [] then Out([], s)
    else
      var first := Fed(chunks[0], s);
      Before(first.events, FedChunks(chunks[1..], first.state))
  }

  /** Any chunking of a log gives the same events and the same state. */
  lemma {:induction false} ChunksDoNotMatter(chunks: seq<string>, s: Reader)
    ensures FedChunks(chunks, s) == Fed(Flat(chunks), s)
    decreases |chunks|
  {
    hide Fed;
    if chunks == [] {
      FedNothing(s);
    } else {
      FedConcat(chunks[0], Flat(chunks[1..]), s);
      ChunksDoNotMatter(chunks[1..], Fed(chunks[0], s).state);
    }
  }

  lemma FedNothing(s: Reader)
    ensures Fed([], s) == Out([], s)
  {
  }

  // ----- the probe verdict -----

  function Finish(s: Reader): seq<Event> {
    if s.Inside? then [Pending] else []
  }

  function Collect(log: string): seq<Event> {
    Fed(log, START).events + Finish(Fed(log, START).state)
  }

  datatype Verdict =
    | StillPending
    | Pass(frames: seq<Frame>, unexpected: nat)
    | DamagedRun(run: string, reason: Reason)
    | LostFrames(run: string, missing: seq<nat>)

  function Range(n: nat): (r: seq<nat>)
    ensures |r| == n && forall i :: 0 <= i < n ==> r[i] == i
  {
    seq(n, i => i)
  }

  function Numbers(frames: seq<Frame>): (r: seq<nat>)
    ensures |r| == |frames| && forall i :: 0 <= i < |frames| ==> r[i] == frames[i].n
  {
    seq(|frames|, i requires 0 <= i < |frames| => frames[i].n)
  }

  /** The last field of that key wins, as in a dictionary; a missing one reads as empty. */
  function Lookup(fields: seq<Field>, key: string): string {
    if fields == [] then ""
    else if fields[|fields| - 1].key == key then fields[|fields| - 1].value
    else Lookup(fields[..|fields| - 1], key)
  }

  /** The last field of a name is the one that counts, and a missing one reads as empty. */
  lemma {:induction false} LookupIsLast(fields: seq<Field>, key: string, i: nat)
    requires i < |fields| && forall j :: i < j < |fields| ==> fields[j].key != key
    ensures fields[i].key == key ==> Lookup(fields, key) == fields[i].value
    ensures i == 0 && fields[0].key != key ==> Lookup(fields, key) == ""
  {
    if i < |fields| - 1 {
      LookupIsLast(fields[..|fields| - 1], key, i);
    }
  }

  function NotIn(expected: seq<nat>, got: seq<nat>): seq<nat> {
    if expected == [] then []
    else if expected[0] in got then NotIn(expected[1..], got)
    else [expected[0]] + NotIn(expected[1..], got)
  }

  /** The numbers reported lost are exactly the expected ones that did not arrive. */
  lemma {:induction false} LostExactly(expected: seq<nat>, got: seq<nat>, n: nat)
    ensures n in NotIn(expected, got) <==> n in expected && n !in got
  {
    if expected != [] {
      LostExactly(expected[1..], got, n);
    }
  }

  function VerdictOf(final: Frame, run: string, seen: seq<Frame>): Verdict {
    var expected, got := Range(final.n), Numbers(seen);
    var count, unexpected := Digits(Lookup(final.fields, "frames")), Digits(Lookup(final.fields, "unexpected"));
    if count == Some(final.n) && unexpected.Some? && got == expected then Pass(seen, unexpected.value)
    else LostFrames(run, if count == Some(final.n) then NotIn(expected, got) else expected)
  }

  function ObservedFrom(events: seq<Event>, run: string, seen: seq<Frame>): Verdict {
    if events == [] then StillPending
    else
      match events[0]
      case Pending => StillPending
      case Damaged(guessed, reason) => DamagedRun(guessed, reason)
      case Framed(frame) =>
        if frame.run != run then ObservedFrom(events[1..], run, seen)
        else if frame.kind == "verdict" then VerdictOf(frame, run, seen)
        else ObservedFrom(events[1..], run, seen + [frame])
  }

  /** observe(): decided at the first damaged frame or the run's verdict. */
  method Observe(events: seq<Event>, run: string) returns (verdict: Verdict)
    ensures verdict == ObservedFrom(events, run, [])
  {
    hide VerdictOf;
    var seen: seq<Frame> := [];
    assert events[0..] == events;
    for i := 0 to |events|
      invariant ObservedFrom(events, run, []) == ObservedFrom(events[i..], run, seen)
    {
      assert events[i..][1..] == events[i + 1..];
      match events[i] {
        case Pending => return StillPending;
        case Damaged(guessed, reason) => return DamagedRun(guessed, reason);
        case Framed(frame) =>
          if frame.run == run {
            if frame.kind == "verdict" {
              return VerdictOf(frame, run, seen);
            }
            seen := seen + [frame];
          }
      }
    }
    return StillPending;
  }

  /** More events never change a verdict that was already reached. */
  lemma {:induction false} VerdictStands(a: seq<Event>, b: seq<Event>, run: string, seen: seq<Frame>)
    ensures ObservedFrom(a, run, seen) == StillPending || ObservedFrom(a + b, run, seen) == ObservedFrom(a, run, seen)
    decreases |a|
  {
    hide VerdictOf;
    if a != [] {
      assert (a + b)[0] == a[0] && (a + b)[1..] == a[1..] + b;
      VerdictStands(a[1..], b, run, seen);
      if a[0].Framed? {
        VerdictStands(a[1..], b, run, seen + [a[0].frame]);
      }
    }
  }

  /** A trailing pending mark decides nothing. */
  lemma {:induction false} PendingDecidesNothing(a: seq<Event>, run: string, seen: seq<Frame>)
    ensures ObservedFrom(a + [Pending], run, seen) == ObservedFrom(a, run, seen)
    decreases |a|
  {
    hide VerdictOf;
    if a == [] {
      assert a + [Pending] == [Pending];
    } else {
      assert (a + [Pending])[0] == a[0] && (a + [Pending])[1..] == a[1..] + [Pending];
      PendingDecidesNothing(a[1..], run, seen);
      if a[0].Framed? {
        PendingDecidesNothing(a[1..], run, seen + [a[0].frame]);
      }
    }
  }

  /** A prefix of a log is pending or decides as the whole log does. */
  lemma PrefixNeverDisagrees(prefix: string, rest: string, run: string)
    ensures var early := ObservedFrom(Collect(prefix), run, []);
            early == StillPending || early == ObservedFrom(Collect(prefix + rest), run, [])
  {
    hide Fed, ObservedFrom;
    var first := Fed(prefix, START);
    var whole := Fed(prefix + rest, START);
    var later := Fed(rest, first.state).events + Finish(whole.state);
    FedConcat(prefix, rest, START);
    assert Collect(prefix + rest) == first.events + later;
    VerdictStands(first.events, later, run, []);
    PendingDecidesNothing(first.events, run, []);
    assert first.events + [] == first.events;
  }

  /** The run's own frames before its verdict, in order. */
  function FramesOf(events: seq<Event>, run: string): seq<Frame> {
    if events == [] || !events[0].Framed? || (events[0].frame.run == run && events[0].frame.kind == "verdict") then []
    else if events[0].frame.run != run then FramesOf(events[1..], run)
    else [events[0].frame] + FramesOf(events[1..], run)
  }

  /** The verdict that ends a run, unless a damaged frame comes first. */
  function FinalVerdict(events: seq<Event>, run: string): Option<Frame> {
    if events == [] || !events[0].Framed? then None
    else if events[0].frame.run == run && events[0].frame.kind == "verdict" then Some(events[0].frame)
    else FinalVerdict(events[1..], run)
  }

  /**
   * A pass means the run's frames arrived once each, in order, and that they are as many as its
   * verdict is numbered: none is missing, not even at the end.
   */
  lemma {:induction false} PassIsComplete(events: seq<Event>, run: string, seen: seq<Frame>)
    requires ObservedFrom(events, run, seen).Pass?
    ensures var frames := ObservedFrom(events, run, seen).frames;
            && frames == seen + FramesOf(events, run) && (forall i :: 0 <= i < |frames| ==> frames[i].n == i)
            && FinalVerdict(events, run).Some? && |frames| == FinalVerdict(events, run).value.n
    decreases |events|
  {
    hide Lookup, Digits, NotIn;
    if events[0].frame.run != run {
      PassIsComplete(events[1..], run, seen);
    } else if events[0].frame.kind != "verdict" {
      PassIsComplete(events[1..], run, seen + [events[0].frame]);
      assert seen + [events[0].frame] + FramesOf(events[1..], run) == seen + FramesOf(events, run);
    } else {
      assert Numbers(seen) == Range(events[0].frame.n);
      assert forall i :: 0 <= i < |seen| ==> Numbers(seen)[i] == seen[i].n;
      assert seen + [] == seen;
    }
  }

  /** The damage or the pending mark that ends a run before its verdict. */
  function Spoiled(events: seq<Event>, run: string): Option<Event> {
    if events == [] then None
    else if !events[0].Framed? then Some(events[0])
    else if events[0].frame.run == run && events[0].frame.kind == "verdict" then None
    else Spoiled(events[1..], run)
  }

  /** The verdict frame states its own number, and how many records were unexpected. */
  predicate StatesCounts(final: Frame, unexpected: nat) {
    Digits(Lookup(final.fields, "frames")) == Some(final.n)
    && Digits(Lookup(final.fields, "unexpected")) == Some(unexpected)
  }

  lemma {:induction false} DecidedBy(events: seq<Event>, run: string, seen: seq<Frame>)
    ensures var verdict, final := ObservedFrom(events, run, seen), FinalVerdict(events, run);
            && (final.Some? ==> verdict == VerdictOf(final.value, run, seen + FramesOf(events, run)))
            && (final.None? ==>
                  verdict == match Spoiled(events, run)
                             case Some(Damaged(guessed, reason)) => DamagedRun(guessed, reason)
                             case _ => StillPending)
            && (final.Some? ==> Spoiled(events, run).None? && final.value.run == run && final.value.kind == "verdict")
    decreases |events|
  {
    hide VerdictOf;
    if events == [] || !events[0].Framed? {
    } else if events[0].frame.run != run {
      DecidedBy(events[1..], run, seen);
    } else if events[0].frame.kind != "verdict" {
      DecidedBy(events[1..], run, seen + [events[0].frame]);
      assert seen + [events[0].frame] + FramesOf(events[1..], run) == seen + FramesOf(events, run);
    } else {
      assert seen + [] == seen;
    }
  }

  /** The verdict frame and the frames before it agree. */
  predicate Agrees(final: Frame, frames: seq<Frame>, unexpected: nat) {
    && StatesCounts(final, unexpected) && |frames| == final.n && forall i :: 0 <= i < |frames| ==> frames[i].n == i
  }

  lemma VerdictExactly(final: Frame, run: string, frames: seq<Frame>)
    ensures var verdict := VerdictOf(final, run, frames);
            && (forall unexpected :: verdict == Pass(frames, unexpected) <==> Agrees(final, frames, unexpected))
            && (!verdict.Pass? ==> verdict.LostFrames? && verdict.run == run)
            && (verdict.Pass? ==> verdict.frames == frames)
            && (verdict.LostFrames? ==> forall n: nat ::
                  n in verdict.missing <==>
                    n < final.n && (Digits(Lookup(final.fields, "frames")) != Some(final.n) || n !in Numbers(frames)))
  {
    hide Lookup, Digits, NotIn;
    forall n: nat
      ensures n in NotIn(Range(final.n), Numbers(frames)) <==> n in Range(final.n) && n !in Numbers(frames)
      ensures n in Range(final.n) <==> n < final.n
    {
      LostExactly(Range(final.n), Numbers(frames), n);
      assert n < final.n ==> Range(final.n)[n] == n;
    }
    if |frames| == final.n && forall i :: 0 <= i < |frames| ==> frames[i].n == i {
      assert Numbers(frames) == Range(final.n);
    }
  }

  /**
   * What a log is observed as, exactly: a pass when the run's verdict comes before any damage and agrees
   * with the frames before it; their missing numbers when it does not; the damage when that comes first.
   */
  lemma ObservedExactly(events: seq<Event>, run: string)
    ensures var verdict, frames := ObservedFrom(events, run, []), FramesOf(events, run);
            match FinalVerdict(events, run)
            case Some(final) =>
              && (verdict.Pass? || verdict.LostFrames?)
              && (forall unexpected :: verdict == Pass(frames, unexpected) <==> Agrees(final, frames, unexpected))
              && (verdict.Pass? ==> verdict.frames == frames)
              && (verdict.LostFrames? ==> verdict.run == run && forall n: nat ::
                    n in verdict.missing <==>
                      n < final.n && (Digits(Lookup(final.fields, "frames")) != Some(final.n) || n !in Numbers(frames)))
            case None =>
              verdict == match Spoiled(events, run)
                         case Some(Damaged(guessed, reason)) => DamagedRun(guessed, reason)
                         case _ => StillPending
  {
    hide VerdictOf, Agrees, Lookup, Digits;
    DecidedBy(events, run, []);
    var frames := FramesOf(events, run);
    assert [] + frames == frames;
    if FinalVerdict(events, run).Some? {
      VerdictExactly(FinalVerdict(events, run).value, run, frames);
    }
  }
}
