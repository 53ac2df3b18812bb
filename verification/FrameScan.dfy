/** What a whole log holds, found by searching instead of byte by byte (tools/testbed/src/chryso_testbed/frames.py). */
module FrameScan {
  import opened Words
  import opened FrameBody
  import opened FrameReader

  // ----- first occurrences -----

  predicate OccursAt(text: string, what: string, i: nat) {
    i + |what| <= |text| && text[i..i + |what|] == what
  }

  /** Where it first occurs from here on. */
  function FirstFrom(text: string, what: string, from: nat): (r: Option<nat>)
    requires from <= |text|
    ensures r.Some? ==> from <= r.value && OccursAt(text, what, r.value)
    ensures forall i :: from <= i <= |text| && OccursAt(text, what, i) ==> r.Some? && r.value <= i
    decreases |text| - from
  {
    if OccursAt(text, what, from) then Some(from)
    else if from == |text| then None
    else FirstFrom(text, what, from + 1)
  }

  function First(text: string, what: string): Option<nat> {
    FirstFrom(text, what, 0)
  }

  lemma FirstIs(text: string, what: string, at: nat)
    requires OccursAt(text, what, at) && forall i :: 0 <= i < at ==> !OccursAt(text, what, i)
    ensures First(text, what) == Some(at)
  {
    hide OccursAt;
    assert at <= |text| by {
      OccursWithin(text, what, at);
    }
  }

  lemma OccursWithin(text: string, what: string, at: nat)
    ensures OccursAt(text, what, at) ==> at + |what| <= |text|
  {
  }

  // ----- the events of a log -----

  const PAIR := "@@"

  /** Where a body that is not closed stops being read: at the cap, or one byte on when a lone @ stands there. */
  function Cap(text: string): nat {
    if |text| >= MAX_BODY && text[MAX_BODY - 1] == '@' then MAX_BODY + 1 else MAX_BODY
  }

  /** Outside a body: search the marker. */
  function EventsIn(text: string): seq<Event>
    decreases |text|
  {
    var i := First(text, MARKER);
    if i.None? then [] else EventsInBody(text[i.value + |MARKER|..])
  }

  /** Inside one: search the pair that closes it, short of the cap. What follows may begin within that pair. */
  function EventsInBody(text: string): seq<Event>
    decreases |text| + 1
  {
    var j := First(text, PAIR);
    if j.Some? && j.value < MAX_BODY then [Close(text[..j.value])] + EventsIn(PAIR + text[j.value + 2..])
    else if |text| > Cap(text) then
      [Damaged(Guess(text[..Cap(text)]), Oversize)] + EventsIn(text[Cap(text) + 1..])
    else [Pending]
  }

  // ----- the reader finds the same -----

  /** What is still to come from here, the end of the log included. */
  function Rest(data: string, s: Reader): seq<Event> {
    Fed(data, s).events + Finish(Fed(data, s).state)
  }

  lemma RestStep(c: char, data: string, s: Reader)
    ensures Rest([c] + data, s) == Step(c, s).events + Rest(data, Step(c, s).state)
  {
    hide Step;
    assert ([c] + data)[0] == c && ([c] + data)[1..] == data;
  }

  /** The longest beginning of the marker that ends what was seen, which does not hold all of it. */
  ghost predicate Matched(seen: string, m: nat) {
    && m < |MARKER| && EndsWith(seen, MARKER[..m])
    && (forall j :: m < j <= |MARKER| ==> !EndsWith(seen, MARKER[..j]))
    && forall i :: 0 <= i <= |seen| ==> !OccursAt(seen, MARKER, i)
  }

  /** A beginning of the marker ends the text with one byte more only if the one before it ended the text. */
  lemma EndsOneMore(seen: string, m: nat, c: char, j: nat)
    requires m < |MARKER| && EndsWith(seen, MARKER[..m]) && 0 < j <= |MARKER|
    requires forall k :: m < k <= |MARKER| ==> !EndsWith(seen, MARKER[..k])
    ensures EndsWith(seen + [c], MARKER[..j]) <==> j <= m + 1 && EndsWith(MARKER[..m] + [c], MARKER[..j])
  {
    var more, short := seen + [c], MARKER[..m] + [c];
    assert more[|more| - |short|..] == short;
    if j <= m + 1 {
      assert more[|more| - j..] == short[|short| - j..];
    } else {
      EndedBefore(seen, c, j);
    }
  }

  lemma EndedBefore(seen: string, c: char, j: nat)
    requires 0 < j <= |MARKER|
    ensures EndsWith(seen + [c], MARKER[..j]) ==> EndsWith(seen, MARKER[..j - 1])
  {
    var more := seen + [c];
    if EndsWith(more, MARKER[..j]) {
      assert MARKER[..j][..j - 1] == MARKER[..j - 1];
      assert seen[|seen| - (j - 1)..] == more[|more| - j..][..j - 1];
    }
  }

  /** One byte more: the longest such beginning now, which is the whole marker exactly when one just ended. */
  lemma MatchedStep(seen: string, m: nat, c: char)
    requires m < |MARKER| && Matched(seen, m)
    ensures Advanced(m, c) < |MARKER| ==> Matched(seen + [c], Advanced(m, c))
    ensures Advanced(m, c) == |MARKER| ==>
              |seen| + 1 >= |MARKER| && OccursAt(seen + [c], MARKER, |seen| + 1 - |MARKER|)
  {
    hide EndsWith, OccursAt;
    var more, r := seen + [c], Advanced(m, c);
    forall j | 0 < j <= |MARKER|
      ensures EndsWith(more, MARKER[..j]) <==> j <= m + 1 && EndsWith(MARKER[..m] + [c], MARKER[..j])
    {
      EndsOneMore(seen, m, c, j);
    }
    EndsWithNothing(more);
    if r < |MARKER| {
      assert !EndsWith(more, MARKER[..|MARKER|]);
      NoneMore(seen, c);
    } else {
      EndMeansOccurs(more);
    }
  }

  lemma EndsWithNothing(text: string)
    ensures EndsWith(text, MARKER[..0])
  {
  }

  lemma EndMeansOccurs(text: string)
    ensures EndsWith(text, MARKER[..|MARKER|]) <==>
            |text| >= |MARKER| && OccursAt(text, MARKER, |text| - |MARKER|)
  {
    assert MARKER[..|MARKER|] == MARKER;
    if |text| >= |MARKER| {
      assert text[|text| - |MARKER|..] == text[|text| - |MARKER|..|text|];
    }
  }

  lemma NoneMore(seen: string, c: char)
    requires forall i :: 0 <= i <= |seen| ==> !OccursAt(seen, MARKER, i)
    requires !EndsWith(seen + [c], MARKER[..|MARKER|])
    ensures forall i :: 0 <= i <= |seen + [c]| ==> !OccursAt(seen + [c], MARKER, i)
  {
    hide EndsWith;
    var more := seen + [c];
    EndMeansOccurs(more);
    forall i | 0 <= i <= |more|
      ensures !OccursAt(more, MARKER, i)
    {
      OccursBefore(seen, [c], MARKER, i);
      OccursWithin(more, MARKER, i);
    }
  }

  /** An occurrence that ends within the first part is one of that part. */
  lemma OccursBefore(a: string, b: string, what: string, i: nat)
    ensures i + |what| <= |a| ==> (OccursAt(a + b, what, i) <==> OccursAt(a, what, i))
  {
    if i + |what| <= |a| {
      assert (a + b)[i..i + |what|] == a[i..i + |what|];
    }
  }

  /** What has been read of a body that is still open. */
  ghost predicate Open(read: string) {
    && (forall i :: 0 <= i <= |read| ==> !OccursAt(read, PAIR, i))
    && |read| <= Cap(read)
  }

  function Reading(read: string): Reader {
    if |read| > 0 && read[|read| - 1] == '@' then Inside(read[..|read| - 1], At) else Inside(read, Plain)
  }

  lemma {:induction false} OutsideIs(seen: string, m: nat, data: string)
    requires m < |MARKER| && Matched(seen, m)
    ensures Rest(data, Outside(m)) == EventsIn(seen + data)
    decreases |data|, 1
  {
    hide Advanced, EventsInBody, Rest, OccursAt, Matched;
    if data == [] {
      assert seen + data == seen;
      NothingMatched(seen, m);
      RestOfNothing(Outside(m));
    } else {
      var c, rest := data[0], data[1..];
      assert data == [c] + rest && seen + data == seen + [c] + rest;
      MatchedStep(seen, m, c);
      RestStep(c, rest, Outside(m));
      if Advanced(m, c) < |MARKER| {
        OutsideIs(seen + [c], Advanced(m, c), rest);
      } else {
        MarkerEnds(seen, m, c, rest);
        NothingIsOpen();
        InsideIs("", rest);
        assert "" + rest == rest;
      }
    }
  }

  lemma RestOfNothing(s: Reader)
    ensures Rest([], s) == Finish(s)
  {
  }

  lemma NothingIsOpen()
    ensures Open("") && Reading("") == Inside("", Plain)
  {
  }

  lemma NothingMatched(seen: string, m: nat)
    requires Matched(seen, m)
    ensures First(seen, MARKER).None?
  {
  }

  lemma MarkerEnds(seen: string, m: nat, c: char, rest: string)
    requires Matched(seen, m) && |seen| + 1 >= |MARKER| && OccursAt(seen + [c], MARKER, |seen| + 1 - |MARKER|)
    ensures var text := seen + [c] + rest;
            First(text, MARKER) == Some(|seen| + 1 - |MARKER|) && text[|seen| + 1..] == rest
  {
    hide OccursAt, EndsWith;
    var more, at := seen + [c], |seen| + 1 - |MARKER|;
    OccursBefore(more, rest, MARKER, at);
    forall i | 0 <= i < at
      ensures !OccursAt(more + rest, MARKER, i)
    {
      OccursBefore(more, rest, MARKER, i);
      OccursBefore(seen, [c], MARKER, i);
    }
    FirstIs(more + rest, MARKER, at);
  }

  lemma {:induction false} InsideIs(read: string, data: string)
    requires Open(read)
    ensures Rest(data, Reading(read)) == EventsInBody(read + data)
    decreases |data|, 0
  {
    hide Rest, OccursAt, Open, First, EventsIn, Close, Guess, Advanced;
    if data == [] {
      assert read + data == read;
      OpenIsPending(read);
      RestOfNothing(Reading(read));
    } else {
      var c, rest := data[0], data[1..];
      assert data == [c] + rest && read + data == read + [c] + rest;
      RestStep(c, rest, Reading(read));
      OneMore(read, c, rest);
      if Reading(read).body == read && |read| >= MAX_BODY {
        NothingIsMatched();
        OutsideIs("", 0, rest);
        assert "" + rest == rest;
      } else if Reading(read).after == At && c == '@' {
        PairIsMatched();
        OutsideIs(PAIR, 2, rest);
      } else {
        InsideIs(read + [c], rest);
        assert [] + Rest(rest, Reading(read + [c])) == Rest(rest, Reading(read + [c]));
      }
    }
  }

  lemma OpenIsPending(read: string)
    requires Open(read)
    ensures EventsInBody(read) == [Pending]
  {
  }

  lemma NothingIsMatched()
    ensures Matched("", 0)
  {
  }

  lemma PairIsMatched()
    ensures Matched(PAIR, 2)
  {
    assert MARKER[..2] == PAIR;
    assert PAIR[0..] == PAIR;
  }

  /** One byte more of an open body: over the cap, closed, or still open. */
  lemma OneMore(read: string, c: char, rest: string)
    requires Open(read)
    ensures var text, s := read + [c] + rest, Reading(read);
            if s.body == read && |read| >= MAX_BODY then
              && Step(c, s) == Out([Damaged(Guess(read), Oversize)], Outside(0))
              && EventsInBody(text) == [Damaged(Guess(read), Oversize)] + EventsIn(rest)
            else if s.after == At && c == '@' then
              && Step(c, s) == Out([Close(s.body)], Outside(2))
              && EventsInBody(text) == [Close(s.body)] + EventsIn(PAIR + rest)
            else Step(c, s) == Out([], Reading(read + [c])) && Open(read + [c])
  {
    hide EventsIn, EventsInBody, Close, Guess, Open, First, OccursAt;
    var s := Reading(read);
    WithinCap(read);
    if s.body == read && |read| >= MAX_BODY {
      CapIsReached(read, c, rest);
    } else if s.after == At && c == '@' {
      PairCloses(read, rest);
    } else {
      StaysOpen(read, c);
      if s.after == At {
        assert s.body + "@" + [c] == read + [c];
      }
    }
  }

  lemma WithinCap(read: string)
    requires Open(read)
    ensures |read| <= MAX_BODY || Reading(read) == Inside(read, Plain)
  {
    if |read| > MAX_BODY {
      assert !OccursAt(read, PAIR, MAX_BODY - 1);
      assert read[MAX_BODY - 1..MAX_BODY + 1] == ['@', read[MAX_BODY]];
    }
  }

  lemma CapIsReached(read: string, c: char, rest: string)
    requires Open(read) && |read| >= MAX_BODY && Reading(read).body == read
    ensures EventsInBody(read + [c] + rest) == [Damaged(Guess(read), Oversize)] + EventsIn(rest)
  {
    hide EventsIn, Close, Guess, Open, OccursAt, Reading;
    var text := read + [c] + rest;
    CapIsLength(read, c, rest);
    assert text[..|read|] == read && text[|read| + 1..] == rest;
    assert read + [c] + rest == read + ([c] + rest);
    NoPairBeforeCap(read, [c] + rest);
  }

  lemma CapIsLength(read: string, c: char, rest: string)
    requires Open(read) && |read| >= MAX_BODY && Reading(read).body == read
    ensures Cap(read + [c] + rest) == |read|
  {
    hide OccursAt;
    var text := read + [c] + rest;
    assert text[MAX_BODY - 1] == read[MAX_BODY - 1];
  }

  lemma NoPairBeforeCap(read: string, more: string)
    requires Open(read) && |read| >= MAX_BODY && Reading(read).body == read && more != []
    ensures forall i :: 0 <= i < MAX_BODY ==> !OccursAt(read + more, PAIR, i)
  {
    forall i | 0 <= i < MAX_BODY
      ensures !OccursAt(read + more, PAIR, i)
    {
      OccursBefore(read, more, PAIR, i);
      if i + 2 > |read| {
        assert (read + more)[i] == read[MAX_BODY - 1];
        assert (read + more)[i..i + 2][0] == read[MAX_BODY - 1];
      }
    }
  }

  lemma PairCloses(read: string, rest: string)
    requires Open(read) && Reading(read).after == At && |read| <= MAX_BODY
    ensures EventsInBody(read + ['@'] + rest) == [Close(Reading(read).body)] + EventsIn(PAIR + rest)
  {
    hide EventsIn, Close, Guess, Open, OccursAt, First, Cap;
    var text, j := read + ['@'] + rest, |read| - 1;
    FirstPair(read, rest);
    assert text[..j] == read[..j] && text[j + 2..] == rest;
  }

  lemma FirstPair(read: string, rest: string)
    requires Open(read) && Reading(read).after == At
    ensures First(read + ['@'] + rest, PAIR) == Some(|read| - 1)
  {
    hide First, OccursAt;
    var more, j := ['@'] + rest, |read| - 1;
    assert read + ['@'] + rest == read + more;
    PairHere(read, more);
    forall i | 0 <= i < j
      ensures !OccursAt(read + more, PAIR, i)
    {
      OccursBefore(read, more, PAIR, i);
    }
    FirstIs(read + more, PAIR, j);
  }

  lemma PairHere(read: string, more: string)
    requires read != [] && more != [] && read[|read| - 1] == '@' && more[0] == '@'
    ensures OccursAt(read + more, PAIR, |read| - 1)
  {
    assert (read + more)[|read| - 1..|read| + 1] == [read[|read| - 1], more[0]];
  }

  lemma StaysOpen(read: string, c: char)
    requires Open(read) && !(Reading(read).body == read && |read| >= MAX_BODY)
    requires !(Reading(read).after == At && c == '@')
    ensures Open(read + [c])
  {
    var more := read + [c];
    WithinCap(read);
    assert |read| >= MAX_BODY ==> more[MAX_BODY - 1] == read[MAX_BODY - 1];
    forall i | 0 <= i <= |more|
      ensures !OccursAt(more, PAIR, i)
    {
      OccursBefore(read, [c], PAIR, i);
      if i + 2 == |more| {
        assert more[i..i + 2] == [read[i], c];
      }
    }
  }

  /**
   * For every log: reading it byte by byte gives exactly the bodies that a search finds. A body begins
   * behind the first marker and ends at the first pair of @ if that comes before the cap; the search goes
   * on from that pair, which may begin the next marker; an open end is pending.
   */
  lemma CollectIsSearch(log: string)
    ensures Collect(log) == EventsIn(log)
  {
    hide Fed, EventsIn, Advanced;
    NothingIsMatched();
    OutsideIs("", 0, log);
    assert "" + log == log;
  }
}
