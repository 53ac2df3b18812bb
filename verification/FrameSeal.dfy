/** Which frame bodies the reader believes, and why it refuses the rest (tools/testbed/src/chryso_testbed/frames.py). */
module FrameSeal {
  import opened Words
  import opened FrameBody
  import opened FrameReader
  import opened FramePrinter

  // ----- a body as its writer meant it -----

  /** Text that names this frame: its run, number and kind, then its fields. */
  ghost predicate Names(prefix: string, frame: Frame) {
    var parts := Split(prefix);
    && AllPrintable(prefix) && |parts| >= 3
    && IsRun(frame.run) && IsName(frame.kind) && |Decimal(frame.n)| <= 10
    && parts[0] == frame.run && parts[1] == "n=" + Decimal(frame.n) && parts[2] == "k=" + frame.kind
    && FieldsOf(parts[3..]) == Some(frame.fields)
  }

  function WithLength(prefix: string, declared: nat): string {
    prefix + "|len=" + Decimal(declared)
  }

  /** A prefix, a declared length and a claimed checksum. */
  function Claimed(prefix: string, declared: nat, crc: string): string {
    WithLength(prefix, declared) + "|crc=" + crc
  }

  /** The prefix under its own length and the checksum of what comes before it. */
  function Seal(prefix: string): string {
    Claimed(prefix, |prefix|, Hex8(Crc32(WithLength(prefix, |prefix|))))
  }

  // ----- canonical numbers -----

  lemma {:induction false} CanonicalDigits(s: string)
    requires |s| >= 1 && s[0] != '0' && forall i :: 0 <= i < |s| ==> IsDigit(s[i])
    ensures DecimalValue(s) >= 1 && Decimal(DecimalValue(s)) == s
  {
    var n := |s| - 1;
    if n == 0 {
      assert s[..0] == [];
    } else {
      CanonicalDigits(s[..n]);
      assert s[..n] + [s[n]] == s;
    }
  }

  /** A number that reads has one spelling. */
  lemma DigitsAreDecimal(s: string)
    requires Digits(s).Some?
    ensures s == Decimal(Digits(s).value) && |s| <= 10
  {
    if s != "0" {
      CanonicalDigits(s);
    }
  }

  // ----- parts of a claimed body -----

  lemma ClaimedParts(prefix: string, declared: nat, crc: string)
    requires AllPrintable(prefix) && IsHex8(crc)
    ensures Split(Claimed(prefix, declared, crc)) == Split(prefix) + ["len=" + Decimal(declared)] + ["crc=" + crc]
    ensures AllPrintable(Claimed(prefix, declared, crc))
  {
    hide Split, Join, Decimal;
    var parts, lenPart, crcPart := Split(prefix), "len=" + Decimal(declared), "crc=" + crc;
    JoinSplit(prefix);
    DecimalDigits(declared);
    JoinLast(parts, lenPart);
    JoinLast(parts + [lenPart], crcPart);
    assert prefix + "|" + lenPart == WithLength(prefix, declared);
    assert WithLength(prefix, declared) + "|" + crcPart == Claimed(prefix, declared, crc);
    SplitJoin(parts + [lenPart] + [crcPart]);
  }

  /** A body made of readable parts: the length is judged first, then the checksum. */
  lemma ClaimIsJudged(prefix: string, declared: nat, crc: string, frame: Frame)
    requires Names(prefix, frame) && |Decimal(declared)| <= 10 && IsHex8(crc)
    ensures Parse(Claimed(prefix, declared, crc)) ==
            if declared != |prefix| then Bad(Length)
            else if crc != Hex8(Crc32(WithLength(prefix, declared))) then Bad(CrcMismatch)
            else Good(frame)
  {
    hide Split, Decimal, Digits, FieldsOf, Hex8, AllPrintable;
    var body, parts, head := Claimed(prefix, declared, crc), Split(Claimed(prefix, declared, crc)), Split(prefix);
    var m := |parts|;
    ClaimedParts(prefix, declared, crc);
    DigitsOfDecimal(frame.n);
    DigitsOfDecimal(declared);
    assert parts[0] == head[0] && parts[1] == head[1] && parts[2] == head[2];
    assert parts[1][2..] == Decimal(frame.n) && parts[2][2..] == frame.kind;
    assert parts[m - 2] == "len=" + Decimal(declared) && parts[m - 2][4..] == Decimal(declared);
    assert parts[m - 1] == "crc=" + crc && parts[m - 1][4..] == crc;
    assert parts[3..m - 2] == head[3..];
    assert body[..|body| - 13] == WithLength(prefix, declared);
  }

  /** Conversely, a body that is not refused for its syntax is made of such parts. */
  lemma ReadableIsClaim(body: string) returns (prefix: string, declared: nat, crc: string, frame: Frame)
    requires Parse(body) != Bad(Syntax)
    ensures Names(prefix, frame) && |Decimal(declared)| <= 10 && IsHex8(crc) && body == Claimed(prefix, declared, crc)
  {
    hide Split, Join, Decimal, Digits, FieldsOf, Hex8;
    var parts := Split(body);
    var m := |parts|;
    var n, length := Digits(parts[1][2..]), Digits(parts[m - 2][4..]);
    prefix, declared, crc := Join(parts[..m - 2]), length.value, parts[m - 1][4..];
    frame := Frame(parts[0], n.value, parts[2][2..], FieldsOf(parts[3..m - 2]).value);
    JoinSplit(body);
    JoinLast(parts[..m - 2], parts[m - 2]);
    JoinLast(parts[..m - 1], parts[m - 1]);
    assert parts[..m - 2] + [parts[m - 2]] == parts[..m - 1] && parts[..m - 1] + [parts[m - 1]] == parts;
    SplitJoin(parts[..m - 2]);
    DigitsAreDecimal(parts[1][2..]);
    DigitsAreDecimal(parts[m - 2][4..]);
    assert parts[1] == "n=" + parts[1][2..] && parts[2] == "k=" + frame.kind;
    assert parts[m - 2] == "len=" + parts[m - 2][4..] && parts[m - 1] == "crc=" + crc;
    assert body == prefix + "|" + parts[m - 2] + "|" + parts[m - 1];
    assert forall i :: 0 <= i < |prefix| ==> prefix[i] == body[i];
    assert parts[..m - 2][3..] == parts[3..m - 2];
  }

  // ----- exactly the sealed bodies are believed -----

  /**
   * A body gives a frame if and only if it is text that names the frame, under its own length and the
   * checksum of all that.
   */
  lemma ParsesExactly(body: string, frame: Frame)
    ensures Parse(body) == Good(frame) <==>
            exists prefix: string :: Names(prefix, frame) && |Decimal(|prefix|)| <= 10 && body == Seal(prefix)
  {
    hide Parse, Names, Decimal, Hex8;
    if Parse(body) == Good(frame) {
      var prefix, declared, crc, named := ReadableIsClaim(body);
      ClaimIsJudged(prefix, declared, crc, named);
      assert body == Seal(prefix);
    }
    if prefix: string :| Names(prefix, frame) && |Decimal(|prefix|)| <= 10 && body == Seal(prefix) {
      CleanHex(Crc32(WithLength(prefix, |prefix|)));
      ClaimIsJudged(prefix, |prefix|, Hex8(Crc32(WithLength(prefix, |prefix|))), frame);
    }
  }

  /** A body is refused for its length, or for its checksum, if and only if only that is wrong. */
  lemma RefusedExactly(body: string)
    ensures Parse(body) == Bad(Length) <==>
            exists prefix: string, declared: nat, crc: string, frame: Frame ::
              Names(prefix, frame) && |Decimal(declared)| <= 10 && IsHex8(crc) && body == Claimed(prefix, declared, crc)
              && declared != |prefix|
    ensures Parse(body) == Bad(CrcMismatch) <==>
            exists prefix: string, crc: string, frame: Frame ::
              Names(prefix, frame) && |Decimal(|prefix|)| <= 10 && IsHex8(crc)
              && body == Claimed(prefix, |prefix|, crc) && crc != Hex8(Crc32(WithLength(prefix, |prefix|)))
  {
    hide Parse, Names, Decimal, Hex8, IsHex8;
    if Parse(body) == Bad(Length) || Parse(body) == Bad(CrcMismatch) {
      var prefix, declared, crc, frame := ReadableIsClaim(body);
      ClaimIsJudged(prefix, declared, crc, frame);
    }
    if prefix: string, declared: nat, crc: string, frame: Frame :|
        Names(prefix, frame) && |Decimal(declared)| <= 10 && IsHex8(crc) && body == Claimed(prefix, declared, crc)
        && declared != |prefix| {
      ClaimIsJudged(prefix, declared, crc, frame);
    }
    if prefix: string, crc: string, frame: Frame :|
        Names(prefix, frame) && |Decimal(|prefix|)| <= 10 && IsHex8(crc)
        && body == Claimed(prefix, |prefix|, crc) && crc != Hex8(Crc32(WithLength(prefix, |prefix|))) {
      ClaimIsJudged(prefix, |prefix|, crc, frame);
    }
  }

  // ----- printed bodies, tampered with -----

  /** What the printer writes names its frame. */
  lemma PrintedNames(frame: Sent)
    requires |Decimal(frame.n)| <= 10
    ensures Names(Prefix(frame), frame) && Sealed(frame) == Seal(Prefix(frame)) && '@' !in Prefix(frame)
  {
    hide Split, Join, Decimal, Hex8, FieldsOf, FieldText, Clean;
    PartsAreClean(frame);
    var head := HeadParts(frame);
    assert forall i :: 0 <= i < |head| ==> head[i] == Parts(frame)[i];
    CleanJoin(head);
    SplitJoin(head);
    FieldsRead(frame.fields);
    assert head[3..] == FieldTexts(frame.fields);
  }

  /** A body without the closing mark in it, sent whole, gives exactly what it parses to. */
  lemma WholeBodyCloses(body: string, m: nat)
    requires m < |MARKER| && |body| < MAX_BODY && '@' !in body
    ensures Fed(MARKER + body + "@@\n", Outside(m)) == Out([Close(body)], Outside(0))
  {
    hide Fed, Parse, Guess, Advanced, Close;
    assert MARKER + body + "@@\n" == MARKER + (body + "@@\n");
    MarkerFrom(m, body + "@@\n");
    BodyFrom(body, "@@\n");
    assert "@@\n" == "@@" + "\n";
    SecondAtCloses(body, "\n");
    OtherAdvances(2, '\n');
    OneByte('\n', Outside(2));
  }

  /** A printed frame under any other checksum is damaged by its checksum. */
  lemma WrongChecksum(frame: Sent, crc: string, m: nat)
    requires m < |MARKER| && |Sealed(frame)| < MAX_BODY && frame.n < 10_000_000_000
    requires IsHex8(crc) && crc != Hex8(Crc32(Covered(frame)))
    ensures Fed(MARKER + Claimed(Prefix(frame), |Prefix(frame)|, crc) + "@@\n", Outside(m)) ==
            Out([Damaged(frame.run, CrcMismatch)], Outside(0))
  {
    hide Fed, Parse, Prefix, Decimal, Hex8, Names;
    TenDigits(frame.n);
    PrintedNames(frame);
    SmallLength(|Prefix(frame)|);
    CleanHex(Crc32(Covered(frame)));
    TamperedBody(frame, |Prefix(frame)|, crc, m);
  }

  /** Under any other length it is damaged by its length, whatever checksum it carries. */
  lemma WrongLength(frame: Sent, declared: nat, crc: string, m: nat)
    requires m < |MARKER| && frame.n < 10_000_000_000 && declared < 10_000_000_000 && declared != |Prefix(frame)|
    requires IsHex8(crc) && |Claimed(Prefix(frame), declared, crc)| < MAX_BODY
    ensures Fed(MARKER + Claimed(Prefix(frame), declared, crc) + "@@\n", Outside(m)) ==
            Out([Damaged(frame.run, Length)], Outside(0))
  {
    hide Fed, Parse, Prefix, Decimal, Hex8, Names;
    TenDigits(frame.n);
    TenDigits(declared);
    TamperedBody(frame, declared, crc, m);
  }

  lemma TamperedBody(frame: Sent, declared: nat, crc: string, m: nat)
    requires m < |MARKER| && |Decimal(frame.n)| <= 10 && |Decimal(declared)| <= 10 && IsHex8(crc)
    requires |Claimed(Prefix(frame), declared, crc)| < MAX_BODY
    ensures var body := Claimed(Prefix(frame), declared, crc);
            && Fed(MARKER + body + "@@\n", Outside(m)) == Out([Close(body)], Outside(0))
            && Guess(body) == frame.run
            && Parse(body) == if declared != |Prefix(frame)| then Bad(Length)
                              else if crc != Hex8(Crc32(WithLength(Prefix(frame), declared))) then Bad(CrcMismatch)
                              else Good(frame)
  {
    hide Fed, Parse, Prefix, Decimal, Hex8, Close, Split, FieldsOf;
    PrintedNames(frame);
    ClaimIsJudged(Prefix(frame), declared, crc, frame);
    ClaimedParts(Prefix(frame), declared, crc);
    DecimalDigits(declared);
    WholeBodyCloses(Claimed(Prefix(frame), declared, crc), m);
  }

  // ----- the checksum's spelling -----

  /** The value of lower-case hex digits, most significant first. */
  function HexNumber(s: string): nat
    requires forall i :: 0 <= i < |s| ==> IsDigit(s[i]) || 'a' <= s[i] <= 'f'
  {
    if s == [] then 0
    else
      var c := s[|s| - 1];
      16 * HexNumber(s[..|s| - 1]) + if IsDigit(c) then c as int - '0' as int else c as int - 'a' as int + 10
  }

  function Pow16(n: nat): nat {
    if n == 0 then 1 else 16 * Pow16(n - 1)
  }

  lemma {:induction false} HexReads(n: nat, v: nat)
    requires v < Pow16(n)
    ensures HexNumber(Hex(n, v)) == v
  {
    if n > 0 {
      HexReads(n - 1, v / 16);
      var s := Hex(n, v);
      assert s[..n - 1] == Hex(n - 1, v / 16);
    }
  }

  /** Eight hex digits tell all 32 bits: another checksum is another spelling. */
  lemma ChecksumReads(v: uint32)
    ensures HexNumber(Hex8(v)) == v
  {
    assert Pow16(8) == 16 * (16 * (16 * (16 * Pow16(4)))) && Pow16(4) == 16 * (16 * (16 * (16 * Pow16(0))));
    HexReads(8, v);
  }

  // ----- the spelling of fields -----

  const DIGITS := "0123456789ABCDEF"

  /** A character stands for itself unless it is %, @ or =, and any can be spelled as % and two digits. */
  ghost predicate SpellsChar(unit: string, c: char) {
    || (unit == [c] && c !in {'%', '@', '='})
    || exists high: nat, low: nat ::
         high < 16 && low < 16 && unit == ['%', DIGITS[high], DIGITS[low]] && c as int == 16 * high + low
  }

  ghost predicate SpellsAll(units: seq<string>, value: string) {
    |units| == |value| && forall i :: 0 <= i < |units| ==> SpellsChar(units[i], value[i])
  }

  /** The text spells the value, character by character. */
  ghost predicate Spells(text: string, value: string) {
    exists units: seq<string> :: Flat(units) == text && SpellsAll(units, value)
  }

  /** The part is a name, the first =, and a value spelled. */
  ghost predicate SpellsField(part: string, field: Field) {
    IsName(field.key) && exists text: string :: part == field.key + "=" + text && Spells(text, field.value)
  }

  /** The sixteen digits, by value. */
  lemma UpperDigits(c: char)
    ensures IsUpperHex(c) ==> DIGITS[HexValue(c)] == c
    ensures forall d: nat :: d < 16 && c == DIGITS[d] ==> IsUpperHex(c) && HexValue(c) == d
  {
  }

  /** The first character that a text spells, and what is left of it. */
  lemma UnitReads(unit: string, c: char, rest: string)
    requires SpellsChar(unit, c)
    ensures Unescaped(unit + rest) == Prepended([c], Unescaped(rest))
  {
    hide Prepended;
    var s := unit + rest;
    if |unit| == 3 {
      assert s[3..] == rest && s[0] == unit[0] && s[1] == unit[1] && s[2] == unit[2];
      UpperDigits(s[1]);
      UpperDigits(s[2]);
    } else {
      assert s[1..] == rest && s[0] == c;
    }
    PrependedIs([c], Unescaped(rest));
  }

  lemma PrependedIs(head: string, rest: Option<string>)
    ensures Prepended(head, rest) == if rest.None? then None else Some(head + rest.value)
  {
  }

  lemma {:induction false} SpelledReads(units: seq<string>, value: string)
    requires SpellsAll(units, value)
    ensures Unescaped(Flat(units)) == Some(value)
  {
    hide SpellsChar;
    if units != [] {
      SpelledReads(units[1..], value[1..]);
      UnitReads(units[0], value[0], Flat(units[1..]));
      assert value == [value[0]] + value[1..];
    }
  }

  /** Conversely, text that reads is made of such units. */
  lemma {:induction false} UnitsOf(text: string) returns (units: seq<string>)
    requires Unescaped(text).Some?
    ensures Flat(units) == text && SpellsAll(units, Unescaped(text).value)
    decreases |text|
  {
    if text == [] {
      units := [];
    } else {
      var unit := FirstUnit(text);
      var rest := UnitsOf(text[|unit|..]);
      units := [unit] + rest;
      assert units[1..] == rest && text == unit + text[|unit|..];
    }
  }

  lemma FirstUnit(text: string) returns (unit: string)
    requires text != [] && Unescaped(text).Some?
    ensures unit <= text && unit != []
    ensures var value, rest := Unescaped(text).value, Unescaped(text[|unit|..]);
            rest.Some? && value != [] && SpellsChar(unit, value[0]) && value == [value[0]] + rest.value
  {
    if text[0] == '%' {
      unit := text[..3];
      UpperDigits(text[1]);
      UpperDigits(text[2]);
      assert unit == ['%', DIGITS[HexValue(text[1])], DIGITS[HexValue(text[2])]];
    } else {
      unit := text[..1];
      assert unit == [text[0]];
    }
  }

  /** A field value is accepted, and reads as this, if and only if it spells this. */
  lemma UnescapesExactly(text: string, value: string)
    ensures Unescaped(text) == Some(value) <==> Spells(text, value)
  {
    hide Unescaped, SpellsAll;
    if Unescaped(text) == Some(value) {
      var units := UnitsOf(text);
    }
    if units: seq<string> :| Flat(units) == text && SpellsAll(units, value) {
      SpelledReads(units, value);
    }
  }

  /** The fields of a body are accepted, and are these, if and only if each part spells its field. */
  lemma {:induction false} FieldsExactly(parts: seq<string>, fields: seq<Field>)
    ensures FieldsOf(parts) == Some(fields) <==>
            |fields| == |parts| && forall i :: 0 <= i < |parts| ==> SpellsField(parts[i], fields[i])
  {
    hide FieldOf, SpellsField;
    if parts != [] {
      var n := |parts| - 1;
      if |fields| == |parts| {
        FieldExactly(parts[n], fields[n]);
        FieldsExactly(parts[..n], fields[..n]);
        assert fields == fields[..n] + [fields[n]];
      }
      if FieldsOf(parts).Some? {
        FieldsExactly(parts[..n], FieldsOf(parts[..n]).value);
      }
    }
  }

  lemma FieldExactly(part: string, field: Field)
    ensures FieldOf(part) == Some(field) <==> SpellsField(part, field)
  {
    hide Unescaped, Spells;
    var i := IndexOf(part, '=');
    if FieldOf(part) == Some(field) {
      UnescapesExactly(part[i + 1..], field.value);
      assert part == part[..i] + "=" + part[i + 1..];
    }
    if IsName(field.key) {
      if text: string :| part == field.key + "=" + text && Spells(text, field.value) {
        assert part[..|field.key|] == field.key;
        IndexIs(part, '=', |field.key|);
        UnescapesExactly(text, field.value);
        assert part[|field.key| + 1..] == text;
      }
    }
  }

  // ----- the grammar's letters -----

  /** The characters of runs and names by their codes: capitals, or small letters, digits, and _ or . beside. */
  lemma Letters(c: char)
    ensures var code := c as int;
            && (IsRunChar(c) <==> 65 <= code <= 90 || 48 <= code <= 57 || code == 95 || code == 46)
            && (IsNameChar(c) <==> 97 <= code <= 122 || 48 <= code <= 57 || code == 95)
            && (IsPrintable(c) <==> 33 <= code <= 126)
  {
  }

  /** A run name has one to 48 characters, a name at least one, a checksum eight. */
  lemma LengthsExactly(s: string)
    ensures IsRun(s) <==> 1 <= |s| <= 48 && forall i :: 0 <= i < |s| ==> IsRunChar(s[i])
    ensures IsName(s) <==> |s| >= 1 && forall i :: 0 <= i < |s| ==> IsNameChar(s[i])
    ensures IsHex8(s) <==> |s| == 8 && forall i :: 0 <= i < |s| ==> s[i] in "0123456789abcdef"
  {
    if |s| == 8 {
      forall i | 0 <= i < |s|
        ensures s[i] in "0123456789abcdef" <==> IsDigit(s[i]) || 'a' <= s[i] <= 'f'
      {
        HexLetter(s[i]);
      }
    }
  }

  lemma HexLetter(c: char)
    ensures c in "0123456789abcdef" <==> IsDigit(c) || 'a' <= c <= 'f'
  {
    var all := "0123456789abcdef";
    if IsDigit(c) {
      assert all[c as int - 48] == c;
    } else if 'a' <= c <= 'f' {
      assert all[c as int - 87] == c;
    }
  }

  /** A damaged body is laid to the run it names first, and to none when it names none. */
  lemma GuessExactly(body: string, run: string)
    requires '|' !in run
    ensures Guess(run + "|" + body) == (if IsRun(run) then run else "?")
    ensures Guess(run) == (if IsRun(run) then run else "?")
  {
    hide Split;
    SplitFirst(run, body);
    SplitOne(run);
  }
}
