/** Closed console frame bodies: the parser and its grammar (tools/testbed/src/chryso_testbed/frames.py). */
module FrameBody {
  import opened Words

  const MAX_BODY := 1024
  const MAX_RUN := 48

  /** CRC-32 as any function of the bytes: nothing below depends on which. */
  const Crc32: string -> uint32

  datatype Reason = Oversize | Syntax | Length | CrcMismatch

  datatype Field = Field(key: string, value: string)

  datatype Frame = Frame(run: string, n: nat, kind: string, fields: seq<Field>)

  datatype Parsed = Good(frame: Frame) | Bad(reason: Reason)

  // ----- characters and names -----

  predicate IsPrintable(c: char) { '!' <= c <= '~' }

  predicate IsDigit(c: char) { '0' <= c <= '9' }

  predicate IsRunChar(c: char) { 'A' <= c <= 'Z' || IsDigit(c) || c == '_' || c == '.' }

  predicate IsNameChar(c: char) { 'a' <= c <= 'z' || IsDigit(c) || c == '_' }

  predicate IsRun(s: string) {
    1 <= |s| <= MAX_RUN && forall i :: 0 <= i < |s| ==> IsRunChar(s[i])
  }

  predicate IsName(s: string) {
    1 <= |s| && forall i :: 0 <= i < |s| ==> IsNameChar(s[i])
  }

  predicate IsHex8(s: string) {
    |s| == 8 && forall i :: 0 <= i < |s| ==> IsDigit(s[i]) || 'a' <= s[i] <= 'f'
  }

  predicate AllPrintable(s: string) {
    forall i :: 0 <= i < |s| ==> IsPrintable(s[i])
  }

  // ----- splitting -----

  /** Where c first occurs, or the length. */
  function IndexOf(s: string, c: char): (i: nat)
    ensures i <= |s| && c !in s[..i] && (i < |s| ==> s[i] == c)
  {
    if s == [] || s[0] == c then 0 else
      var i := IndexOf(s[1..], c) + 1;
      assert s[..i] == [s[0]] + s[1..][..i - 1];
      i
  }

  lemma {:induction false} IndexIs(s: string, c: char, i: nat)
    requires i <= |s| && c !in s[..i] && (i < |s| ==> s[i] == c)
    ensures IndexOf(s, c) == i
  {
    if i > 0 {
      assert s[..i] == [s[0]] + s[1..][..i - 1];
      IndexIs(s[1..], c, i - 1);
    }
  }

  /** The parts between bars. */
  function Split(s: string): (parts: seq<string>)
    ensures |parts| >= 1
    decreases |s|
  {
    var i := IndexOf(s, '|');
    if i == |s| then [s] else [s[..i]] + Split(s[i + 1..])
  }

  function Join(parts: seq<string>): string
    requires |parts| >= 1
  {
    if |parts| == 1 then parts[0] else parts[0] + "|" + Join(parts[1..])
  }

  ghost predicate NoBars(parts: seq<string>) {
    forall i :: 0 <= i < |parts| ==> '|' !in parts[i]
  }

  lemma SplitFirst(head: string, rest: string)
    requires '|' !in head
    ensures Split(head + "|" + rest) == [head] + Split(rest)
  {
    var s := head + "|" + rest;
    assert s[..|head|] == head && s[|head| + 1..] == rest && s[|head|] == '|';
    IndexIs(s, '|', |head|);
    hide IndexOf;
  }

  lemma SplitOne(s: string)
    requires '|' !in s
    ensures Split(s) == [s]
  {
    assert s[..|s|] == s;
    IndexIs(s, '|', |s|);
  }

  lemma {:induction false} SplitJoin(parts: seq<string>)
    requires |parts| >= 1 && NoBars(parts)
    ensures Split(Join(parts)) == parts
  {
    hide Split;
    if |parts| == 1 {
      SplitOne(parts[0]);
    } else {
      SplitJoin(parts[1..]);
      SplitFirst(parts[0], Join(parts[1..]));
      assert [parts[0]] + parts[1..] == parts;
    }
  }

  lemma {:induction false} JoinSplit(s: string)
    ensures Join(Split(s)) == s && NoBars(Split(s))
    decreases |s|
  {
    var i := IndexOf(s, '|');
    if i == |s| {
      assert s[..i] == s;
    } else {
      JoinSplit(s[i + 1..]);
      assert s == s[..i] + "|" + s[i + 1..];
      assert Split(s)[1..] == Split(s[i + 1..]);
    }
  }

  // ----- numbers -----

  function DigitValue(c: char): nat
    requires IsDigit(c)
  {
    c as int - '0' as int
  }

  function DecimalValue(s: string): nat
    requires forall i :: 0 <= i < |s| ==> IsDigit(s[i])
  {
    if s == [] then 0 else 10 * DecimalValue(s[..|s| - 1]) + DigitValue(s[|s| - 1])
  }

  /** Decimal without a sign or a redundant leading zero, in at most ten digits. */
  function Digits(s: string): Option<nat> {
    if s == "0" then Some(0)
    else if 1 <= |s| <= 10 && s[0] != '0' && (forall i :: 0 <= i < |s| ==> IsDigit(s[i])) then Some(DecimalValue(s))
    else None
  }

  // ----- fields -----

  predicate IsUpperHex(c: char) { IsDigit(c) || 'A' <= c <= 'F' }

  function HexValue(c: char): (v: nat)
    requires IsUpperHex(c)
    ensures v < 16
  {
    if IsDigit(c) then c as int - '0' as int else c as int - 'A' as int + 10
  }

  /** A value with its %XX pairs decoded; a bare @ or =, or a broken pair, is refused. */
  function Unescaped(s: string): Option<string>
    decreases |s|
  {
    if s == [] then Some([])
    else if s[0] == '%' then
      if |s| < 3 || !IsUpperHex(s[1]) || !IsUpperHex(s[2]) then None
      else
        var rest := Unescaped(s[3..]);
        if rest.None? then None else Some([(HexValue(s[1]) * 16 + HexValue(s[2])) as char] + rest.value)
    else if s[0] == '@' || s[0] == '=' then None
    else
      var rest := Unescaped(s[1..]);
      if rest.None? then None else Some([s[0]] + rest.value)
  }

  function Prepended(head: string, rest: Option<string>): Option<string> {
    if rest.None? then None else Some(head + rest.value)
  }

  /** The loop of unescape(). */
  method Unescape(s: string) returns (r: Option<string>)
    ensures r == Unescaped(s)
  {
    var out: string := [];
    var i: nat := 0;
    assert s[0..] == s;
    PrependNothing(Unescaped(s));
    while i < |s|
      invariant i <= |s| && Unescaped(s) == Prepended(out, Unescaped(s[i..]))
      decreases |s| - i
    {
      var c := s[i];
      if c == '%' {
        if i + 3 > |s| || !IsUpperHex(s[i + 1]) || !IsUpperHex(s[i + 2]) {
          return None;
        }
        var decoded := (HexValue(s[i + 1]) * 16 + HexValue(s[i + 2])) as char;
        PrependMore(out, [decoded], Unescaped(s[i + 3..]));
        assert s[i..][3..] == s[i + 3..];
        out, i := out + [decoded], i + 3;
      } else if c == '@' || c == '=' {
        return None;
      } else {
        PrependMore(out, [c], Unescaped(s[i + 1..]));
        assert s[i..][1..] == s[i + 1..];
        out, i := out + [c], i + 1;
      }
    }
    assert s[i..] == [] && out + [] == out;
    return Some(out);
  }

  lemma PrependNothing(rest: Option<string>)
    ensures Prepended([], rest) == rest
  {
    if rest.Some? {
      assert [] + rest.value == rest.value;
    }
  }

  lemma PrependMore(a: string, b: string, rest: Option<string>)
    ensures Prepended(a, Prepended(b, rest)) == Prepended(a + b, rest)
  {
    if rest.Some? {
      assert a + (b + rest.value) == a + b + rest.value;
    }
  }

  /** key=value with the first = as the separator. */
  function FieldOf(part: string): Option<Field> {
    var i := IndexOf(part, '=');
    var key := part[..i];
    if i == |part| || !IsName(key) then None
    else
      var value := Unescaped(part[i + 1..]);
      if value.None? then None else Some(Field(key, value.value))
  }

  function FieldsOf(parts: seq<string>): Option<seq<Field>> {
    if parts == [] then Some([])
    else
      var front, last := FieldsOf(parts[..|parts| - 1]), FieldOf(parts[|parts| - 1]);
      if front.None? || last.None? then None else Some(front.value + [last.value])
  }

  lemma {:induction false} OneBadField(parts: seq<string>, i: nat)
    requires i < |parts| && FieldOf(parts[i]).None?
    ensures FieldsOf(parts).None?
  {
    if i < |parts| - 1 {
      OneBadField(parts[..|parts| - 1], i);
    }
  }

  /** The loop of fields(): the first bad field ends it. */
  method Fields(parts: seq<string>) returns (r: Option<seq<Field>>)
    ensures r == FieldsOf(parts)
  {
    var out := [];
    for i := 0 to |parts|
      invariant FieldsOf(parts[..i]) == Some(out)
    {
      var at := IndexOf(parts[i], '=');
      if at == |parts[i]| || !IsName(parts[i][..at]) {
        OneBadField(parts, i);
        return None;
      }
      var value := Unescape(parts[i][at + 1..]);
      if value.None? {
        OneBadField(parts, i);
        return None;
      }
      assert parts[..i + 1][..i] == parts[..i];
      out := out + [Field(parts[i][..at], value.value)];
    }
    assert parts[..|parts|] == parts;
    return Some(out);
  }

  // ----- bodies -----

  predicate StartsWith(s: string, prefix: string) {
    prefix <= s
  }

  /** The n low hex digits of v, lower case. */
  function Hex(n: nat, v: nat): (s: string)
    ensures |s| == n && forall i :: 0 <= i < n ==> IsDigit(s[i]) || 'a' <= s[i] <= 'f'
  {
    if n == 0 then []
    else
      var d := v % 16;
      Hex(n - 1, v / 16) + [if d < 10 then ('0' as int + d) as char else ('a' as int + d - 10) as char]
  }

  function Hex8(v: uint32): string { Hex(8, v) }

  /** Syntax, then length, then crc: the first failure is the reason. */
  function Parse(body: string): Parsed {
    var parts := Split(body);
    if !AllPrintable(body) || |parts| < 5 then Bad(Syntax)
    else
      var m := |parts|;
      var run, nField, kField, lenField, crcField := parts[0], parts[1], parts[2], parts[m - 2], parts[m - 1];
      if !StartsWith(nField, "n=") || !StartsWith(kField, "k=") || !StartsWith(lenField, "len=")
          || !StartsWith(crcField, "crc=")
      then Bad(Syntax)
      else
        var kind, crc := kField[2..], crcField[4..];
        var n, declared, decoded := Digits(nField[2..]), Digits(lenField[4..]), FieldsOf(parts[3..m - 2]);
        if !(IsRun(run) && IsName(kind) && IsHex8(crc) && n.Some? && declared.Some? && decoded.Some?) then Bad(Syntax)
        else
          var covered := |body| - 5 - 8;
          var prefix := covered - 5 - (|lenField| - 4);
          LastPartsFit(body);
          if prefix != declared.value then Bad(Length)
          else if Hex8(Crc32(body[..covered])) != crc then Bad(CrcMismatch)
          else Good(Frame(run, n.value, kind, decoded.value))
  }

  /** The last part and its bar are within the body. */
  lemma LastPartsFit(body: string)
    ensures |Split(body)| >= 2 ==> |Split(body)[|Split(body)| - 1]| + 1 <= |body|
    decreases |body|
  {
    var i := IndexOf(body, '|');
    if i < |body| {
      LastPartsFit(body[i + 1..]);
    }
  }

  function Guess(body: string): string {
    var first := Split(body)[0];
    if IsRun(first) then first else "?"
  }
}
