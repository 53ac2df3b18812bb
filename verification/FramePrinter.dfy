/**
 * A printer of the documented frame format (apps/chryso_core's chryso_frame, described at the head of
 * tools/testbed/src/chryso_testbed/frames.py) followed by the reader: round trip and resynchronisation.
 */
module FramePrinter {
  import opened Words
  import opened FrameBody
  import opened FrameReader

  // ----- printing -----

  function Decimal(n: nat): (s: string)
    ensures |s| >= 1
  {
    if n < 10 then [('0' as int + n) as char] else Decimal(n / 10) + [('0' as int + n % 10) as char]
  }

  predicate IsByte(c: char) { c as int < 256 }

  predicate NeedsEscape(c: char) {
    !IsPrintable(c) || c == '%' || c == '|' || c == '@' || c == '='
  }

  function UpperHex(d: nat): (c: char)
    requires d < 16
    ensures IsUpperHex(c) && HexValue(c) == d
  {
    if d < 10 then ('0' as int + d) as char else ('A' as int + d - 10) as char
  }

  function Escaped(s: string): string
    requires forall i :: 0 <= i < |s| ==> IsByte(s[i])
  {
    if s == [] then []
    else
      assert IsByte(s[0]);
      (if NeedsEscape(s[0]) then ['%', UpperHex(s[0] as int / 16), UpperHex(s[0] as int % 16)] else [s[0]])
          + Escaped(s[1..])
  }

  predicate ReservedKey(key: string) {
    key == "n" || key == "k" || key == "len" || key == "crc"
  }

  predicate GoodField(f: Field) {
    IsName(f.key) && !ReservedKey(f.key) && forall i :: 0 <= i < |f.value| ==> IsByte(f.value[i])
  }

  /** What the printer accepts: a run name, a kind, and fields under unreserved names. */
  ghost predicate Printable(frame: Frame) {
    && IsRun(frame.run) && IsName(frame.kind)
    && forall i :: 0 <= i < |frame.fields| ==> GoodField(frame.fields[i])
  }

  type Sent = f: Frame | Printable(f) ghost witness Frame("R", 0, "k", [])

  function FieldText(f: Field): string
    requires GoodField(f)
  {
    f.key + "=" + Escaped(f.value)
  }

  ghost function FieldTexts(fields: seq<Field>): (texts: seq<string>)
    requires forall i :: 0 <= i < |fields| ==> GoodField(fields[i])
    ensures |texts| == |fields| && forall i :: 0 <= i < |fields| ==> texts[i] == FieldText(fields[i])
  {
    seq(|fields|, i requires 0 <= i < |fields| => FieldText(fields[i]))
  }

  ghost function HeadParts(frame: Sent): seq<string> {
    [frame.run, "n=" + Decimal(frame.n), "k=" + frame.kind] + FieldTexts(frame.fields)
  }

  ghost function Prefix(frame: Sent): string {
    Join(HeadParts(frame))
  }

  ghost function Covered(frame: Sent): string {
    Prefix(frame) + "|len=" + Decimal(|Prefix(frame)|)
  }

  ghost function Sealed(frame: Sent): string {
    Covered(frame) + "|crc=" + Hex8(Crc32(Covered(frame)))
  }

  ghost function Printed(frame: Sent): string {
    MARKER + Sealed(frame) + "@@\n"
  }

  ghost function Parts(frame: Sent): seq<string> {
    HeadParts(frame) + ["len=" + Decimal(|Prefix(frame)|)] + ["crc=" + Hex8(Crc32(Covered(frame)))]
  }

  // ----- clean text -----

  /** Text that splits and frames leave alone. */
  predicate Clean(s: string) {
    forall i :: 0 <= i < |s| ==> IsPrintable(s[i]) && s[i] != '|' && s[i] != '@'
  }

  lemma {:induction false} DecimalDigits(n: nat)
    ensures var s := Decimal(n);
            && (forall i :: 0 <= i < |s| ==> IsDigit(s[i]))
            && DecimalValue(s) == n && (n > 0 ==> s[0] != '0') && (n == 0 ==> s == "0")
  {
    if n >= 10 {
      DecimalDigits(n / 10);
      var s := Decimal(n);
      assert s[..|s| - 1] == Decimal(n / 10);
    } else {
      assert Decimal(n)[..0] == [];
    }
  }

  function Pow10(k: nat): nat {
    if k == 0 then 1 else 10 * Pow10(k - 1)
  }

  lemma {:induction false} DecimalLength(n: nat, k: nat)
    requires k >= 1
    ensures |Decimal(n)| <= k <==> n < Pow10(k)
    decreases k
  {
    assert Pow10(k) == 10 * Pow10(k - 1);
    if n < 10 {
      PowPositive(k - 1);
    } else if k == 1 {
      assert Pow10(1) == 10 * Pow10(0);
    } else {
      DecimalLength(n / 10, k - 1);
    }
  }

  lemma {:induction false} PowPositive(k: nat)
    ensures Pow10(k) >= 1
  {
    if k > 0 {
      PowPositive(k - 1);
    }
  }

  /** Ten digits are what the reader's grammar admits. */
  lemma DigitsOfDecimal(n: nat)
    ensures Digits(Decimal(n)) == if |Decimal(n)| <= 10 then Some(n) else None
  {
    DecimalDigits(n);
  }

  lemma {:induction false} EscapedReads(s: string)
    requires forall i :: 0 <= i < |s| ==> IsByte(s[i])
    ensures Unescaped(Escaped(s)) == Some(s)
    ensures Clean(Escaped(s))
  {
    if s != [] {
      var rest := Escaped(s[1..]);
      EscapedReads(s[1..]);
      if NeedsEscape(s[0]) {
        var head := ['%', UpperHex(s[0] as int / 16), UpperHex(s[0] as int % 16)];
        assert Escaped(s) == head + rest;
        assert (head + rest)[3..] == rest;
        assert [s[0]] + s[1..] == s;
      } else {
        assert ([s[0]] + rest)[1..] == rest;
        assert [s[0]] + s[1..] == s;
      }
    }
  }

  lemma FieldReads(f: Field)
    requires GoodField(f)
    ensures FieldOf(FieldText(f)) == Some(f) && Clean(FieldText(f))
  {
    EscapedReads(f.value);
    var text := FieldText(f);
    assert text[..|f.key|] == f.key;
    IndexIs(text, '=', |f.key|);
    assert text[|f.key| + 1..] == Escaped(f.value);
  }

  lemma {:induction false} FieldsRead(fields: seq<Field>)
    requires forall i :: 0 <= i < |fields| ==> GoodField(fields[i])
    ensures FieldsOf(FieldTexts(fields)) == Some(fields)
  {
    hide FieldOf, FieldText, GoodField;
    if fields != [] {
      var n := |fields| - 1;
      FieldsRead(fields[..n]);
      FieldReads(fields[n]);
      assert FieldTexts(fields)[..n] == FieldTexts(fields[..n]);
      assert fields[..n] + [fields[n]] == fields;
    }
  }

  lemma {:induction false} JoinLast(parts: seq<string>, last: string)
    requires |parts| >= 1
    ensures Join(parts + [last]) == Join(parts) + "|" + last
  {
    if |parts| == 1 {
      assert (parts + [last])[1..] == [last];
    } else {
      assert (parts + [last])[1..] == parts[1..] + [last];
      JoinLast(parts[1..], last);
      assert parts[0] + "|" + (Join(parts[1..]) + "|" + last) == parts[0] + "|" + Join(parts[1..]) + "|" + last;
    }
  }

  lemma {:induction false} CleanJoin(parts: seq<string>)
    requires |parts| >= 1 && forall i :: 0 <= i < |parts| ==> Clean(parts[i])
    ensures AllPrintable(Join(parts)) && '@' !in Join(parts) && NoBars(parts)
  {
    if |parts| > 1 {
      CleanJoin(parts[1..]);
    }
  }

  lemma PartsAreClean(frame: Sent)
    ensures forall i :: 0 <= i < |Parts(frame)| ==> Clean(Parts(frame)[i])
  {
    hide Decimal, Hex8, Escaped, Join, Covered, Prefix, FieldText;
    DecimalDigits(frame.n);
    DecimalDigits(|Prefix(frame)|);
    CleanDigits("n=", Decimal(frame.n));
    CleanDigits("len=", Decimal(|Prefix(frame)|));
    CleanHex(Crc32(Covered(frame)));
    forall i | 0 <= i < |frame.fields|
      ensures Clean(FieldText(frame.fields[i]))
    {
      FieldReads(frame.fields[i]);
    }
  }

  lemma CleanDigits(name: string, s: string)
    requires Clean(name) && forall i :: 0 <= i < |s| ==> IsDigit(s[i])
    ensures Clean(name + s)
  {
  }

  lemma CleanHex(v: uint32)
    ensures Clean("crc=" + Hex8(v)) && |Hex8(v)| == 8 && IsHex8(Hex8(v))
  {
    hide Hex;
  }

  /** The printed body is its parts between bars, clean and free of the frame's own @. */
  lemma SealedParts(frame: Sent)
    ensures Sealed(frame) == Join(Parts(frame)) && Split(Sealed(frame)) == Parts(frame)
    ensures AllPrintable(Sealed(frame)) && '@' !in Sealed(frame)
  {
    hide Decimal, Hex8, Join, Split, Clean;
    PartsAreClean(frame);
    CleanJoin(Parts(frame));
    SplitJoin(Parts(frame));
    var lenPart := "len=" + Decimal(|Prefix(frame)|);
    JoinLast(HeadParts(frame), lenPart);
    JoinLast(HeadParts(frame) + [lenPart], "crc=" + Hex8(Crc32(Covered(frame))));
    assert Prefix(frame) + "|" + lenPart == Covered(frame);
    assert Covered(frame) + "|" + ("crc=" + Hex8(Crc32(Covered(frame)))) == Sealed(frame);
  }

  /** The parser reads a printed body back exactly, unless its number has more than ten digits. */
  lemma SealedParses(frame: Sent)
    requires |Sealed(frame)| <= MAX_BODY
    ensures Parse(Sealed(frame)) == if |Decimal(frame.n)| <= 10 then Good(frame) else Bad(Syntax)
  {
    hide Decimal, Hex8, Join, Split, FieldText, Digits, FieldsOf, FieldTexts, Prefix;
    var body, parts, head := Sealed(frame), Parts(frame), HeadParts(frame);
    var m := |parts|;
    SealedParts(frame);
    DigitsOfDecimal(frame.n);
    DigitsOfDecimal(|Prefix(frame)|);
    SmallLength(|Prefix(frame)|);
    FieldsRead(frame.fields);
    CleanHex(Crc32(Covered(frame)));
    assert parts[1][2..] == Decimal(frame.n) && parts[2][2..] == frame.kind;
    assert parts[m - 2] == "len=" + Decimal(|Prefix(frame)|) && parts[m - 2][4..] == Decimal(|Prefix(frame)|);
    assert parts[m - 1] == "crc=" + Hex8(Crc32(Covered(frame))) && parts[m - 1][4..] == Hex8(Crc32(Covered(frame)));
    assert parts[3..m - 2] == FieldTexts(frame.fields);
    assert body[..|body| - 13] == Covered(frame);
  }

  lemma SmallLength(n: nat)
    requires n <= MAX_BODY
    ensures |Decimal(n)| <= 10
  {
    DecimalLength(n, 4);
    assert Pow10(4) == 10 * (10 * (10 * (10 * Pow10(0))));
  }

  lemma GuessSealed(frame: Sent)
    ensures Guess(Sealed(frame)) == frame.run
  {
    hide Split;
    SealedParts(frame);
  }

  // ----- reading the marker -----

  lemma MarkerAdvances(m: nat)
    requires m < |MARKER|
    ensures Advanced(m, MARKER[m]) == m + 1
  {
    assert MARKER[..m] + [MARKER[m]] == MARKER[..m + 1];
    assert EndsWith(MARKER[..m] + [MARKER[m]], MARKER[..m + 1]);
  }

  /** From the second byte of the marker on, the rest of it enters a body. */
  lemma {:induction false} MarkerEnters(m: nat)
    requires 2 <= m < |MARKER|
    ensures Fed(MARKER[m..], Outside(m)) == Out([], Inside("", Plain))
    decreases |MARKER| - m
  {
    hide Advanced;
    MarkerAdvances(m);
    var next := Step(MARKER[m], Outside(m)).state;
    assert MARKER[m..][1..] == MARKER[m + 1..];
    BeforeNothing(Fed(MARKER[m + 1..], next));
    if m + 1 < |MARKER| {
      MarkerEnters(m + 1);
    } else {
      assert MARKER[m + 1..] == [];
    }
  }

  lemma LastMatches(seen: string, r: nat)
    requires 1 <= r <= |MARKER| && EndsWith(seen, MARKER[..r])
    ensures seen[|seen| - 1] == MARKER[r - 1]
  {
    assert seen[|seen| - r..][r - 1] == MARKER[..r][r - 1];
  }

  /** The marker's only @ are its first two bytes, and it holds no line end. */
  lemma MarkerChars(r: nat)
    requires 1 <= r <= |MARKER|
    ensures MARKER[r - 1] == '@' <==> r <= 2
    ensures MARKER[r - 1] != '\n'
  {
  }

  lemma AtLeast(m: nat, c: char, j: nat)
    requires j <= m + 1 <= |MARKER| && EndsWith(MARKER[..m] + [c], MARKER[..j])
    ensures Advanced(m, c) >= j
  {
    hide EndsWith;
  }

  lemma LastIs(m: nat, c: char)
    requires m < |MARKER|
    ensures Advanced(m, c) >= 1 ==> MARKER[Advanced(m, c) - 1] == c
  {
    hide EndsWith;
    var r := Advanced(m, c);
    if r >= 1 {
      LastMatches(MARKER[..m] + [c], r);
    }
  }

  lemma AtEnds(m: nat)
    requires m < |MARKER|
    ensures EndsWith(MARKER[..m] + ['@'], MARKER[..1])
    ensures m == 1 || m == 2 ==> EndsWith(MARKER[..m] + ['@'], MARKER[..2])
  {
    var seen := MARKER[..m] + ['@'];
    assert MARKER[..1] == "@" && seen[m..] == "@";
    if m == 1 || m == 2 {
      assert MARKER[..2] == "@@" && seen[m - 1..] == "@@";
    }
  }

  /** One @ leaves the matcher at 1 or 2 wherever it was, and at 2 from there. */
  lemma AtAdvances(m: nat)
    requires m < |MARKER|
    ensures 1 <= Advanced(m, '@') <= 2
    ensures m == 1 || m == 2 ==> Advanced(m, '@') == 2
  {
    hide EndsWith, Advanced;
    AtEnds(m);
    AtLeast(m, '@', 1);
    if m == 1 || m == 2 {
      AtLeast(m, '@', 2);
    }
    LastIs(m, '@');
    MarkerChars(Advanced(m, '@'));
  }

  lemma OtherAdvances(m: nat, c: char)
    requires m <= 2 && c == '\n'
    ensures Advanced(m, c) == 0
  {
    hide Advanced;
    LastIs(m, c);
    if Advanced(m, c) >= 1 {
      MarkerChars(Advanced(m, c));
    }
  }

  lemma TwoBytes(a: char, b: char, rest: string, s: Reader)
    ensures var first := Step(a, s);
            var second := Step(b, first.state);
            Fed([a, b] + rest, s) == Before(first.events + second.events, Fed(rest, second.state))
  {
    hide Step;
    var first := Step(a, s);
    var second := Step(b, first.state);
    assert ([a, b] + rest)[1..] == [b] + rest && ([b] + rest)[1..] == rest;
    BeforeMore(first.events, second.events, Fed(rest, second.state));
  }

  /** The marker enters a body from any state outside one. */
  lemma MarkerFrom(m: nat, rest: string)
    requires m < |MARKER|
    ensures Fed(MARKER + rest, Outside(m)) == Fed(rest, Inside("", Plain))
  {
    hide Fed, Advanced;
    var tail := MARKER[2..] + rest;
    AtAdvances(m);
    AtAdvances(Advanced(m, '@'));
    assert MARKER + rest == ['@', '@'] + tail;
    TwoBytes('@', '@', tail, Outside(m));
    FedConcat(MARKER[2..], rest, Outside(2));
    MarkerEnters(2);
    BeforeNothing(Fed(rest, Inside("", Plain)));
    BeforeNothing(Fed(tail, Outside(2)));
  }

  /** Clean text below the cap is appended whole. */
  lemma BodyFrom(text: string, rest: string)
    requires '@' !in text && |text| <= MAX_BODY
    ensures Fed(text + rest, Inside("", Plain)) == Fed(rest, Inside(text, Plain))
  {
    hide Fed;
    assert (text + rest)[..|text|] == text && (text + rest)[|text|..] == rest && "" + text == text;
    SkipInside(text + rest, "", |text|);
  }

  // ----- round trip -----

  lemma SecondAtCloses(body: string, rest: string)
    requires |body| < MAX_BODY
    ensures Fed("@@" + rest, Inside(body, Plain)) == Before([Close(body)], Fed(rest, Outside(2)))
  {
    hide Close, Fed;
    assert "@@" + rest == ['@', '@'] + rest;
    TwoBytes('@', '@', rest, Inside(body, Plain));
    assert [] + [Close(body)] == [Close(body)];
  }

  lemma OversizeDrops(body: string)
    requires |body| >= MAX_BODY
    ensures Fed("@@\n", Inside(body, Plain)) == Out([Damaged(Guess(body), Oversize)], Outside(0))
  {
    hide Fed, Guess, Advanced;
    AtAdvances(0);
    OtherAdvances(Advanced(0, '@'), '\n');
    assert "@@\n" == ['@', '@'] + "\n";
    TwoBytes('@', '@', "\n", Inside(body, Plain));
    OneByte('\n', Outside(Advanced(0, '@')));
  }

  lemma OneByte(c: char, s: Reader)
    ensures Fed([c], s) == Step(c, s)
  {
    hide Step;
    assert [c][1..] == [];
    assert Step(c, s).events + [] == Step(c, s).events;
  }

  /** What the reader answers to a printed frame. */
  ghost function Answer(frame: Sent): Event {
    if |Sealed(frame)| >= MAX_BODY then Damaged(frame.run, Oversize)
    else if |Decimal(frame.n)| > 10 then Damaged(frame.run, Syntax)
    else Framed(frame)
  }

  /**
   * A printed frame gives exactly one event from any state outside a body and leaves the reader at
   * rest. The event is the frame itself if and only if its body is shorter than MAX_BODY and its
   * number at most ten digits; the printer lets a body of exactly MAX_BODY out, which the reader
   * reports as oversize.
   */
  lemma RoundTrip(frame: Sent, m: nat)
    requires m < |MARKER| && |Sealed(frame)| <= MAX_BODY
    ensures Fed(Printed(frame), Outside(m)) == Out([Answer(frame)], Outside(0))
    ensures Answer(frame) == Framed(frame) <==> |Sealed(frame)| < MAX_BODY && frame.n < 10_000_000_000
  {
    hide Fed, Parse, Sealed, Guess, Decimal, Advanced;
    var body := Sealed(frame);
    SealedParts(frame);
    SealedParses(frame);
    GuessSealed(frame);
    TenDigits(frame.n);
    assert Printed(frame) == MARKER + (body + "@@\n");
    MarkerFrom(m, body + "@@\n");
    BodyFrom(body, "@@\n");
    if |body| >= MAX_BODY {
      OversizeDrops(body);
    } else {
      assert "@@\n" == "@@" + "\n";
      SecondAtCloses(body, "\n");
      OtherAdvances(2, '\n');
      OneByte('\n', Outside(2));
    }
  }

  lemma TenDigits(n: nat)
    ensures |Decimal(n)| <= 10 <==> n < 10_000_000_000
  {
    DecimalLength(n, 10);
    assert Pow10(5) == 10 * (10 * (10 * (10 * (10 * Pow10(0)))));
    assert Pow10(10) == 10 * (10 * (10 * (10 * (10 * Pow10(5)))));
  }

  // ----- frames that are printed but not read -----

  lemma {:induction false} PlainText(s: string)
    requires forall i :: 0 <= i < |s| ==> IsByte(s[i]) && !NeedsEscape(s[i])
    ensures Escaped(s) == s
  {
    if s != [] {
      PlainText(s[1..]);
    }
  }

  function Letters(n: nat): (s: string)
    ensures |s| == n && forall i :: 0 <= i < n ==> s[i] == 'x'
  {
    seq(n, i => 'x')
  }

  const LONGEST := Frame("R", 0, "k", [Field("v", Letters(990))])

  /** A frame whose body is exactly MAX_BODY long is printed, and comes back as oversize. */
  lemma LongestIsOversize()
    ensures Printable(LONGEST) && |Sealed(LONGEST)| == MAX_BODY
    ensures Fed(Printed(LONGEST), START) == Out([Damaged("R", Oversize)], Outside(0))
  {
    hide Fed, Printed, Escaped, Decimal;
    var f := LONGEST.fields[0];
    PlainText(f.value);
    assert FieldTexts(LONGEST.fields) == [f.key + "=" + f.value];
    var head := HeadParts(LONGEST);
    JoinFour(head[0], head[1], head[2], head[3]);
    assert head == [head[0], head[1], head[2], head[3]];
    DecimalLength(0, 1);
    DecimalLength(1002, 4);
    DecimalLength(1002, 3);
    assert Pow10(4) == 10 * Pow10(3) && Pow10(3) == 10 * (10 * (10 * Pow10(0))) && Pow10(1) == 10 * Pow10(0);
    assert |Prefix(LONGEST)| == 1002;
    RoundTrip(LONGEST, 0);
  }

  lemma JoinFour(a: string, b: string, c: string, d: string)
    ensures Join([a, b, c, d]) == a + "|" + (b + "|" + (c + "|" + d))
  {
    JoinThree(b, c, d);
    assert [a, b, c, d][1..] == [b, c, d];
  }

  const OVERNUMBERED := Frame("R", 10_000_000_000, "k", [])

  /** A frame numbered ten billion is printed, and comes back as a syntax error. */
  lemma OvernumberedIsDamaged()
    ensures Printable(OVERNUMBERED) && |Sealed(OVERNUMBERED)| < MAX_BODY
    ensures Fed(Printed(OVERNUMBERED), START) == Out([Damaged("R", Syntax)], Outside(0))
  {
    hide Fed, Printed, Decimal;
    var head := HeadParts(OVERNUMBERED);
    assert head == [head[0], head[1], head[2]];
    JoinThree(head[0], head[1], head[2]);
    DecimalLength(10_000_000_000, 11);
    DecimalLength(|Prefix(OVERNUMBERED)|, 2);
    assert Pow10(5) == 10 * (10 * (10 * (10 * (10 * Pow10(0))))) && Pow10(2) == 10 * (10 * Pow10(0));
    assert Pow10(10) == 10 * (10 * (10 * (10 * (10 * Pow10(5))))) && Pow10(11) == 10 * Pow10(10);
    RoundTrip(OVERNUMBERED, 0);
    TenDigits(10_000_000_000);
  }

  lemma JoinThree(a: string, b: string, c: string)
    ensures Join([a, b, c]) == a + "|" + (b + "|" + c)
  {
    assert [a, b, c][1..] == [b, c] && [b, c][1..] == [c];
    assert Join([b, c]) == b + "|" + Join([c]);
  }

  // ----- a frame cut short -----

  /** A cut splits into whole parts and one partial part. */
  lemma {:induction false} SplitCut(parts: seq<string>, j: nat) returns (i: nat, l: nat)
    requires |parts| >= 1 && NoBars(parts) && j < |Join(parts)|
    ensures i < |parts| && l <= |parts[i]| && Split(Join(parts)[..j]) == parts[..i] + [parts[i][..l]]
    ensures i == |parts| - 1 ==> l < |parts[i]|
  {
    hide Split;
    var s, head := Join(parts), parts[0];
    if j <= |head| {
      assert s[..j] == head[..j];
      i, l := 0, j;
      SplitOne(head[..j]);
    } else {
      var rest := Join(parts[1..]);
      assert s == head + "|" + rest;
      assert s[..j] == head + "|" + rest[..j - |head| - 1];
      i, l := SplitCut(parts[1..], j - |head| - 1);
      SplitFirst(head, rest[..j - |head| - 1]);
      assert [head] + parts[1..][..i] == parts[..i + 1];
      i := i + 1;
    }
  }

  /** Without a whole crc field last, a body fails its syntax. */
  lemma NoCrcField(body: string)
    requires var parts := Split(body);
             !StartsWith(parts[|parts| - 1], "crc=") || |parts[|parts| - 1]| != 12
    ensures Parse(body) == Bad(Syntax)
  {
    hide Split, FieldsOf, Digits;
  }

  /** Only the last part of a printed body starts like a crc field. */
  lemma OnlyLastIsCrc(frame: Sent, i: nat, l: nat)
    requires i < |Parts(frame)| - 1 && l <= |Parts(frame)[i]|
    ensures !StartsWith(Parts(frame)[i][..l], "crc=")
  {
    hide Decimal, Hex8, Join, Covered, Escaped, Prefix;
    var part := Parts(frame)[i];
    if StartsWith(part[..l], "crc=") {
      assert part[..l][0] == 'c' && part[..l][..4] == "crc=";
      assert part[..4] == "crc=";
      if 3 <= i < 3 + |frame.fields| {
        var f := frame.fields[i - 3];
        assert part == FieldText(f);
        CrcKey(f);
      }
      assert false;
    }
  }

  lemma CrcKey(f: Field)
    requires GoodField(f)
    ensures !StartsWith(FieldText(f), "crc=")
  {
    hide Escaped;
    if StartsWith(FieldText(f), "crc=") {
      CrcMeansKey(f.key, Escaped(f.value));
    }
  }

  lemma CrcMeansKey(key: string, value: string)
    requires IsName(key) && StartsWith(key + "=" + value, "crc=")
    ensures key == "crc"
  {
    var text := key + "=" + value;
    assert text[..4] == "crc=" && text[..|key|] == key && text[|key|] == '=';
    IndexIs(text, '=', |key|);
    assert text[..3] == "crc" && text[3] == '=';
    IndexIs(text, '=', 3);
  }

  /** A printed body cut anywhere before its end is damaged, by its syntax. */
  lemma CutBodyIsDamaged(frame: Sent, j: nat)
    requires j < |Sealed(frame)|
    ensures Close(Sealed(frame)[..j]) == Damaged(Guess(Sealed(frame)[..j]), Syntax)
  {
    hide Split, Parse, Sealed, Guess, Join;
    SealedParts(frame);
    var parts := Parts(frame);
    PartsAreClean(frame);
    CleanJoin(parts);
    var i, l := SplitCut(parts, j);
    LastPartLength(frame);
    if i < |parts| - 1 {
      OnlyLastIsCrc(frame, i, l);
    }
    NoCrcField(Sealed(frame)[..j]);
  }

  lemma LastPartLength(frame: Sent)
    ensures var parts := Parts(frame); |parts[|parts| - 1]| == 12
  {
    hide Join, Decimal, Covered, Prefix;
    CleanHex(Crc32(Covered(frame)));
  }

  /** The text of a frame whose end was lost: some of its body, or the body and one closing @. */
  ghost function CutText(frame: Sent, j: nat): string
    requires j <= |Sealed(frame)| + 1
  {
    MARKER + (Sealed(frame) + "@")[..j]
  }

  ghost function CutBody(frame: Sent, j: nat): string {
    if j >= |Sealed(frame)| then Sealed(frame) else Sealed(frame)[..j]
  }

  /** From inside the cut body, the next marker closes it and opens the next frame. */
  lemma NextMarkerCloses(body: string, at: bool, rest: string)
    requires |body| < MAX_BODY
    ensures Fed(MARKER + rest, Inside(body, if at then At else Plain)) ==
        Before([Close(body)], Fed(rest, Inside("", Plain)))
  {
    hide Fed, Close, Advanced;
    var tail := MARKER[2..] + rest;
    assert MARKER + rest == ['@', '@'] + tail && MARKER + rest == "@@" + tail;
    FedConcat(MARKER[2..], rest, Outside(2));
    MarkerEnters(2);
    BeforeNothing(Fed(rest, Inside("", Plain)));
    if at {
      AtAdvances(2);
      TwoBytes('@', '@', tail, Inside(body, At));
      assert [Close(body)] + [] == [Close(body)];
    } else {
      SecondAtCloses(body, tail);
    }
  }

  lemma CutLeaves(frame: Sent, j: nat, m: nat)
    requires m < |MARKER| && j <= |Sealed(frame)| + 1 && |Sealed(frame)| < MAX_BODY
    ensures Fed(CutText(frame, j), Outside(m)) ==
        Out([], Inside(CutBody(frame, j), if j > |Sealed(frame)| then At else Plain))
  {
    hide Fed, Sealed, Advanced;
    SealedParts(frame);
    var body, cut := Sealed(frame), CutBody(frame, j);
    var rest := if j > |body| then "@" else "";
    assert (body + "@")[..j] == cut + rest;
    assert '@' !in cut;
    MarkerFrom(m, cut + rest);
    BodyFrom(cut, rest);
    if j > |body| {
      OneByte('@', Inside(cut, Plain));
    } else {
      FedNothing(Inside(cut, Plain));
    }
  }

  /**
   * Resynchronisation: a frame cut anywhere after its marker and followed by an intact frame gives
   * one event for the cut one, damaged by its syntax unless its whole body arrived, and then exactly
   * the intact frame. A whole body is answered as if it had been terminated.
   */
  lemma Resynchronises(cut: Sent, j: nat, intact: Sent, m: nat)
    requires m < |MARKER| && j <= |Sealed(cut)| + 1
    requires |Sealed(cut)| < MAX_BODY && |Sealed(intact)| < MAX_BODY
    requires intact.n < 10_000_000_000
    ensures var first := if j >= |Sealed(cut)| then Answer(cut) else Damaged(Guess(Sealed(cut)[..j]), Syntax);
            Fed(CutText(cut, j) + Printed(intact), Outside(m)) == Out([first, Framed(intact)], Outside(0))
  {
    hide Fed, Sealed, Close, Guess, Parse, Decimal, CutText, CutBody;
    var body := Sealed(intact);
    var rest := body + "@@\n";
    var left := CutBody(cut, j);
    assert Printed(intact) == MARKER + rest;
    FedConcat(CutText(cut, j), Printed(intact), Outside(m));
    CutLeaves(cut, j, m);
    CutBodyFits(cut, j);
    NextMarkerCloses(left, j > |Sealed(cut)|, rest);
    IntactFollows(intact);
    CutEvent(cut, j);
    assert [] + ([Close(left)] + [Framed(intact)]) == [Close(left), Framed(intact)];
  }

  lemma CutBodyFits(frame: Sent, j: nat)
    ensures |CutBody(frame, j)| <= |Sealed(frame)|
  {
    hide Sealed;
  }

  lemma CutEvent(frame: Sent, j: nat)
    requires |Sealed(frame)| < MAX_BODY
    ensures Close(CutBody(frame, j)) ==
            if j >= |Sealed(frame)| then Answer(frame) else Damaged(Guess(Sealed(frame)[..j]), Syntax)
  {
    hide Sealed, Parse, Guess, Decimal;
    GuessSealed(frame);
    SealedParses(frame);
    if j < |Sealed(frame)| {
      CutBodyIsDamaged(frame, j);
    }
  }

  lemma IntactFollows(frame: Sent)
    requires |Sealed(frame)| < MAX_BODY && frame.n < 10_000_000_000
    ensures Fed(Sealed(frame) + "@@\n", Inside("", Plain)) == Out([Framed(frame)], Outside(0))
  {
    hide Fed, Sealed, Parse, Decimal, Advanced;
    var body := Sealed(frame);
    RoundTrip(frame, 0);
    MarkerFrom(0, body + "@@\n");
    assert Printed(frame) == MARKER + (body + "@@\n");
  }

  // ----- a whole run -----

  /** A frame the printer sends whole and the reader accepts. */
  ghost predicate Fits(frame: Sent) {
    |Sealed(frame)| < MAX_BODY && frame.n < 10_000_000_000
  }

  ghost function RunLog(frames: seq<Sent>): string {
    if frames == [] then [] else Printed(frames[0]) + RunLog(frames[1..])
  }

  function AsEvents(frames: seq<Frame>): (events: seq<Event>)
    ensures |events| == |frames| && forall i :: 0 <= i < |frames| ==> events[i] == Framed(frames[i])
  {
    seq(|frames|, i requires 0 <= i < |frames| => Framed(frames[i]))
  }

  /** Printed frames are collected one event each, in order. */
  lemma {:induction false} RunCollects(frames: seq<Sent>)
    requires forall i :: 0 <= i < |frames| ==> Fits(frames[i])
    ensures Fed(RunLog(frames), START) == Out(AsEvents(frames), Outside(0))
  {
    hide Fed, Sealed, Decimal, Printed;
    if frames == [] {
      FedNothing(START);
    } else {
      RoundTrip(frames[0], 0);
      RunCollects(frames[1..]);
      FedConcat(Printed(frames[0]), RunLog(frames[1..]), START);
      assert [Framed(frames[0])] + AsEvents(frames[1..]) == AsEvents(frames);
    }
  }

  /** Frames of one run before its verdict are only gathered. */
  lemma {:induction false} FramesAreGathered(frames: seq<Frame>, rest: seq<Event>, run: string, seen: seq<Frame>)
    requires forall i :: 0 <= i < |frames| ==> frames[i].run == run && frames[i].kind != "verdict"
    ensures ObservedFrom(AsEvents(frames) + rest, run, seen) == ObservedFrom(rest, run, seen + frames)
    decreases |frames|
  {
    hide VerdictOf;
    if frames == [] {
      assert AsEvents(frames) + rest == rest && seen + frames == seen;
    } else {
      var events := AsEvents(frames) + rest;
      assert events[0] == Framed(frames[0]) && events[1..] == AsEvents(frames[1..]) + rest;
      FramesAreGathered(frames[1..], rest, run, seen + [frames[0]]);
      assert seen + [frames[0]] + frames[1..] == seen + frames;
    }
  }

  function VerdictFrame(run: string, count: nat, unexpected: nat): Frame {
    Frame(run, count, "verdict", [Field("frames", Decimal(count)), Field("unexpected", Decimal(unexpected))])
  }

  /**
   * A run printed whole, its frames numbered from zero and its verdict last, is observed as a pass
   * with exactly those frames, whatever the record values.
   */
  lemma CompleteRunPasses(frames: seq<Sent>, run: string, unexpected: nat)
    requires unexpected < 10_000_000_000 && Printable(VerdictFrame(run, |frames|, unexpected))
    requires forall i :: 0 <= i < |frames| ==> Fits(frames[i])
    requires forall i :: 0 <= i < |frames| ==> frames[i].run == run && frames[i].kind != "verdict" && frames[i].n == i
    requires Fits(VerdictFrame(run, |frames|, unexpected))
    ensures var log := RunLog(frames + [VerdictFrame(run, |frames|, unexpected)]);
            ObservedFrom(Collect(log), run, []) == Pass(frames, unexpected)
  {
    hide Fed, RunLog, Decimal, Printable, Sealed, Digits, ObservedFrom;
    var final: Sent := VerdictFrame(run, |frames|, unexpected);
    RunCollects(frames + [final]);
    assert AsEvents(frames + [final]) == AsEvents(frames) + [Framed(final)];
    assert AsEvents(frames + [final]) + [] == AsEvents(frames + [final]);
    FramesAreGathered(frames, [Framed(final)], run, []);
    assert [] + frames == frames;
    VerdictPasses(final, run, frames, unexpected);
  }

  lemma VerdictPasses(final: Frame, run: string, frames: seq<Frame>, unexpected: nat)
    requires final == VerdictFrame(run, |frames|, unexpected)
    requires |frames| < 10_000_000_000 && unexpected < 10_000_000_000
    requires forall i :: 0 <= i < |frames| ==> frames[i].n == i
    ensures ObservedFrom([Framed(final)], run, frames) == Pass(frames, unexpected)
  {
    hide Decimal, Digits;
    DigitsOfDecimal(|frames|);
    DigitsOfDecimal(unexpected);
    TenDigits(|frames|);
    TenDigits(unexpected);
    assert final.fields[..1] == [Field("frames", Decimal(|frames|))];
    assert Lookup(final.fields, "unexpected") == Decimal(unexpected);
    assert Lookup(final.fields, "frames") == Lookup(final.fields[..1], "frames") == Decimal(|frames|);
    assert Numbers(frames) == Range(|frames|);
  }
}
