/** The honeypot's RESP command parser against an encoder of RESP arrays (internal/honeypot/redis_handler.go). */
module Resp {

  // ---------------------------------------------------------------- library calls of the parser

  /** unicode.IsSpace, which both strings.Fields and the scanner use. */
  predicate IsSpace(c: char) {
    var n := c as int;
    || 0x09 <= n <= 0x0D || n == 0x20 || n == 0x85 || n == 0xA0 || n == 0x1680 || 0x2000 <= n <= 0x200A
    || n == 0x2028 || n == 0x2029 || n == 0x202F || n == 0x205F || n == 0x3000
  }

  predicate IsDigit(c: char) {
    '0' <= c <= '9'
  }

  predicate CrlfAt(s: string, i: nat) {
    i + 1 < |s| && s[i] == '\r' && s[i + 1] == '\n'
  }

  predicate CrlfFree(s: string) {
    forall i :: 0 <= i < |s| ==> !CrlfAt(s, i)
  }

  /** Index of the first CRLF at or after i, or the length. */
  function FindCrlf(s: string, i: nat): (k: nat)
    requires i <= |s|
    ensures i <= k <= |s|
    ensures k < |s| ==> CrlfAt(s, k)
    ensures forall j :: i <= j < k ==> !CrlfAt(s, j)
    decreases |s| - i
  {
    if i == |s| || CrlfAt(s, i) then i else FindCrlf(s, i + 1)
  }

  /** strings.Split(s, "\r\n"). */
  function Split(s: string): (lines: seq<string>)
    ensures |lines| > 0
    decreases |s|
  {
    var k := FindCrlf(s, 0);
    if k == |s| then [s] else [s[..k]] + Split(s[k + 2..])
  }

  function SkipSpaces(s: string): (r: string)
    ensures |r| <= |s|
  {
    if s != "" && IsSpace(s[0]) then SkipSpaces(s[1..]) else s
  }

  function WordLength(s: string): (n: nat)
    ensures n <= |s|
    ensures forall i :: 0 <= i < n ==> !IsSpace(s[i])
    ensures s != "" && !IsSpace(s[0]) ==> n > 0
  {
    if s == "" || IsSpace(s[0]) then 0 else 1 + WordLength(s[1..])
  }

  lemma SkipSpacesStops(s: string)
    ensures SkipSpaces(s) != "" ==> !IsSpace(SkipSpaces(s)[0])
  {
  }

  /** strings.Fields. */
  function Fields(s: string): seq<string>
    decreases |s|
  {
    var t := SkipSpaces(s);
    SkipSpacesStops(s);
    if t == "" then [] else [t[..WordLength(t)]] + Fields(t[WordLength(t)..])
  }

  function DigitCount(s: string): (n: nat)
    ensures n <= |s|
    ensures forall i :: 0 <= i < n ==> IsDigit(s[i])
  {
    if s == "" || !IsDigit(s[0]) then 0 else 1 + DigitCount(s[1..])
  }

  function DecimalValue(s: string): nat
    requires forall i :: 0 <= i < |s| ==> IsDigit(s[i])
  {
    if s == "" then 0 else 10 * DecimalValue(s[..|s| - 1]) + Digit(s[|s| - 1])
  }

  function Digit(c: char): nat
    requires IsDigit(c)
  {
    c as int - '0' as int
  }

  /** Spaces before a number are skipped, but a newline makes the scan fail. */
  function SkipBlanks(s: string): string {
    if s == "" || s[0] == '\n' then "" else if IsSpace(s[0]) then SkipBlanks(s[1..]) else s
  }

  /** What fmt.Sscanf(line, "*%d", &count) leaves in count: zero unless a 64-bit integer follows the first character. */
  function ScanCount(line: string): int
    requires line != ""
  {
    var t := SkipBlanks(line[1..]);
    var signed := t != "" && (t[0] == '+' || t[0] == '-');
    var body := if signed then t[1..] else t;
    var magnitude: int := DecimalValue(body[..DigitCount(body)]);
    var value := if signed && t[0] == '-' then -magnitude else magnitude;
    if -0x8000_0000_0000_0000 <= value < 0x8000_0000_0000_0000 then value else 0
  }

  // ---------------------------------------------------------------- the parser on lines

  predicate StartsWith(line: string, c: char) {
    line != "" && line[0] == c
  }

  datatype Taken = Taken(parts: seq<string>, rest: seq<string>)

  /** The inner loop: up to `count` lines, each bulk header with the line after it. Declared lengths are not used. */
  function TakeBulks(lines: seq<string>, count: int): (t: Taken)
    ensures |t.rest| <= |lines|
    decreases |lines|
  {
    if count <= 0 || lines == [] then Taken([], lines)
    else if !StartsWith(lines[0], '$') then TakeBulks(lines[1..], count - 1)
    else if |lines| == 1 then Taken([], [])
    else
      var t := TakeBulks(lines[2..], count - 1);
      Taken([lines[1]] + t.parts, t.rest)
  }

  function ParseLines(lines: seq<string>): seq<string>
    decreases |lines|
  {
    if lines == [] then []
    else if lines[0] == "" then ParseLines(lines[1..])
    else if lines[0][0] == '*' then
      var t := TakeBulks(lines[1..], ScanCount(lines[0]));
      t.parts + ParseLines(t.rest)
    else if lines[0][0] == '$' then
      if |lines| == 1 then [] else [lines[1]] + ParseLines(lines[2..])
    else if lines[0][0] == '+' || lines[0][0] == '-' then [lines[0][1..]] + ParseLines(lines[1..])
    else Fields(lines[0]) + ParseLines(lines[1..])
  }

  function ParseInput(input: string): seq<string> {
    var parts := ParseLines(Split(input));
    if parts == [] then Fields(input) else parts
  }

  /** The lines from index k on, nothing when k is past the end. */
  function From(lines: seq<string>, k: nat): seq<string> {
    if k <= |lines| then lines[k..] else []
  }

  /** The parser's case distinction on line i, in terms of what is left after it. */
  lemma ParseFrom(lines: seq<string>, i: nat)
    requires i < |lines|
    ensures var line, all := lines[i], ParseLines(From(lines, i));
            && (line == "" ==> all == ParseLines(From(lines, i + 1)))
            && (StartsWith(line, '*') ==>
                  var t := TakeBulks(From(lines, i + 1), ScanCount(line));
                  all == t.parts + ParseLines(t.rest))
            && (StartsWith(line, '$') ==>
                  all == (if i + 1 < |lines| then [lines[i + 1]] else []) + ParseLines(From(lines, i + 2)))
            && (StartsWith(line, '+') || StartsWith(line, '-') ==>
                  all == [line[1..]] + ParseLines(From(lines, i + 1)))
            && (line != "" && line[0] !in "*$+-" ==> all == Fields(line) + ParseLines(From(lines, i + 1)))
  {
    var suffix := lines[i..];
    assert suffix[1..] == From(lines, i + 1);
    if i + 1 < |lines| {
      assert suffix[2..] == From(lines, i + 2) && suffix[1] == lines[i + 1];
    }
  }

  lemma TakeFrom(lines: seq<string>, i: nat, count: int)
    requires i < |lines| && count > 0
    ensures var t := TakeBulks(From(lines, i), count);
            && (!StartsWith(lines[i], '$') ==> t == TakeBulks(From(lines, i + 1), count - 1))
            && (StartsWith(lines[i], '$') && i + 1 == |lines| ==> t == Taken([], []))
            && (StartsWith(lines[i], '$') && i + 1 < |lines| ==>
                  var rest := TakeBulks(From(lines, i + 2), count - 1);
                  t == Taken([lines[i + 1]] + rest.parts, rest.rest))
  {
    var suffix := lines[i..];
    assert suffix[1..] == From(lines, i + 1);
    if i + 1 < |lines| {
      assert suffix[2..] == From(lines, i + 2) && suffix[1] == lines[i + 1];
    }
  }

  lemma Reassociate(a: seq<string>, b: seq<string>, c: seq<string>)
    ensures a + (b + c) == a + b + c
  {
  }

  /** The shared index can step one past the end; it never reads there. */
  method ParseResp(input: string) returns (parts: seq<string>)
    ensures parts == ParseInput(input)
  {
    hide TakeBulks, ParseLines, Fields, ScanCount, Split;
    parts := [];
    var lines := Split(input);
    var i := 0;
    while i < |lines|
      invariant parts + ParseLines(From(lines, i)) == ParseLines(lines)
    {
      var line := lines[i];
      ghost var before, at := parts, i;
      ParseFrom(lines, i);
      ghost var taken: seq<string> := [];
      if |line| == 0 {
        i := i + 1;
        continue;
      }
      if line[0] == '*' {
        ghost var bulks := TakeBulks(From(lines, i + 1), ScanCount(line));
        i, parts := ParseArray(lines, i, parts, bulks);
        taken := bulks.parts;
      } else if line[0] == '$' {
        i := i + 1;
        if i < |lines| {
          parts := parts + [lines[i]];
          taken := [lines[i]];
        }
      } else if line[0] == '+' || line[0] == '-' {
        parts := parts + [line[1..]];
        taken := [line[1..]];
      } else {
        parts := parts + Fields(line);
        taken := Fields(line);
      }
      i := i + 1;
      assert ParseLines(From(lines, at)) == taken + ParseLines(From(lines, i));
      Reassociate(before, taken, ParseLines(From(lines, i)));
    }
    assert From(lines, i) == [] && parts + [] == parts;
    NothingParsed();
    if |parts| == 0 {
      parts := Fields(input);
    }
  }

  lemma NothingParsed()
    ensures ParseLines([]) == []
  {
  }

  /** The array branch: from the header at index `at` to the last line it consumes; `all` is what it must take. */
  method ParseArray(lines: seq<string>, at: nat, sofar: seq<string>, ghost all: Taken)
    returns (i: nat, parts: seq<string>)
    requires at < |lines| && StartsWith(lines[at], '*')
    requires all == TakeBulks(From(lines, at + 1), ScanCount(lines[at]))
    ensures at <= i && parts == sofar + all.parts && From(lines, i + 1) == all.rest
  {
    hide TakeBulks, ScanCount;
    i, parts := at, sofar;
    var count := ScanCount(lines[at]);
    ghost var todo := all;
    var j := 0;
    while j < count && i + 1 < |lines|
      invariant at <= i && 0 <= j
      invariant todo == TakeBulks(From(lines, i + 1), count - j)
      invariant parts + todo.parts == sofar + all.parts && todo.rest == all.rest
      decreases |lines| - i
    {
      i, parts, todo := ParseBulk(lines, i, parts, count - j, todo);
      j := j + 1;
    }
    NothingTaken(From(lines, i + 1), count - j);
  }

  lemma NothingTaken(lines: seq<string>, count: int)
    requires count <= 0 || lines == []
    ensures TakeBulks(lines, count) == Taken([], lines)
  {
  }

  /** One round of the inner loop; `todo` is what the remaining rounds take. */
  method ParseBulk(lines: seq<string>, at: nat, sofar: seq<string>, ghost left: int, ghost todo: Taken)
    returns (i: nat, parts: seq<string>, ghost todo': Taken)
    requires at + 1 < |lines| && left > 0 && todo == TakeBulks(From(lines, at + 1), left)
    ensures at < i && todo' == TakeBulks(From(lines, i + 1), left - 1)
    ensures parts + todo'.parts == sofar + todo.parts && todo'.rest == todo.rest
  {
    TakeFrom(lines, at + 1, left);
    i, parts := at + 1, sofar;
    if i < |lines| && |lines[i]| > 0 && lines[i][0] == '$' {
      i := i + 1;
      if i < |lines| {
        parts := parts + [lines[i]];
        Reassociate(sofar, [lines[i]], TakeBulks(From(lines, i + 1), left - 1).parts);
      }
    }
    todo' := TakeBulks(From(lines, i + 1), left - 1);
  }

  // ---------------------------------------------------------------- the encoder

  function Decimal(n: nat): (s: string)
    ensures |s| > 0 && forall i :: 0 <= i < |s| ==> IsDigit(s[i])
  {
    var digit := '0' + (n % 10) as char;
    if n < 10 then [digit] else Decimal(n / 10) + [digit]
  }

  const CRLF := "\r\n"

  function EncodeBulks(args: seq<string>): string {
    if args == [] then "" else "$" + Decimal(|args[0]|) + CRLF + args[0] + CRLF + EncodeBulks(args[1..])
  }

  function EncodeArray(args: seq<string>): string {
    "*" + Decimal(|args|) + CRLF + EncodeBulks(args)
  }

  function EncodeAll(commands: seq<seq<string>>): string {
    if commands == [] then "" else EncodeArray(commands[0]) + EncodeAll(commands[1..])
  }

  function Flatten(commands: seq<seq<string>>): seq<string> {
    if commands == [] then [] else commands[0] + Flatten(commands[1..])
  }

  /** Argument lists whose length a 64-bit count can hold. */
  predicate Commands(commands: seq<seq<string>>) {
    forall i :: 0 <= i < |commands| ==> |commands[i]| < 0x8000_0000_0000_0000
  }

  ghost predicate AllCrlfFree(args: seq<string>) {
    forall i :: 0 <= i < |args| ==> CrlfFree(args[i])
  }

  // ---------------------------------------------------------------- printing then scanning a count

  lemma {:induction false} DecimalRoundTrip(n: nat)
    ensures DecimalValue(Decimal(n)) == n
  {
    var s := Decimal(n);
    if n >= 10 {
      DecimalRoundTrip(n / 10);
      assert s[..|s| - 1] == Decimal(n / 10);
    } else {
      assert s[..|s| - 1] == "";
    }
  }

  lemma {:induction false} AllDigits(s: string)
    requires forall i :: 0 <= i < |s| ==> IsDigit(s[i])
    ensures DigitCount(s) == |s|
  {
    if s != "" {
      AllDigits(s[1..]);
    }
  }

  lemma ScanPrinted(n: nat)
    requires n < 0x8000_0000_0000_0000
    ensures ScanCount("*" + Decimal(n)) == n
  {
    var d := Decimal(n);
    assert ("*" + d)[1..] == d;
    assert IsDigit(d[0]);
    AllDigits(d);
    assert d[..|d|] == d;
    DecimalRoundTrip(n);
  }

  function Signed(sign: string, magnitude: nat): int {
    if sign == "-" then -(magnitude as int) else magnitude
  }

  /** Blanks before the number, a sign, leading zeros and trailing text are all fine; an overflow counts as 0. */
  lemma ScanExactly(c: char, blanks: string, sign: string, digits: string, rest: string)
    requires forall i :: 0 <= i < |blanks| ==> IsSpace(blanks[i]) && blanks[i] != '\n'
    requires sign in {"", "+", "-"} && digits != "" && forall i :: 0 <= i < |digits| ==> IsDigit(digits[i])
    requires rest == "" || !IsDigit(rest[0])
    ensures var value := Signed(sign, DecimalValue(digits));
            ScanCount([c] + (blanks + (sign + (digits + rest))))
            == if -0x8000_0000_0000_0000 <= value < 0x8000_0000_0000_0000 then value else 0
  {
    hide SkipBlanks, DigitCount, DecimalValue, IsSpace, IsDigit;
    var tail := sign + (digits + rest);
    var line := [c] + (blanks + tail);
    assert line[1..] == blanks + tail;
    assert IsDigit(digits[0]) && (digits + rest)[0] == digits[0];
    NumberStarts(digits[0]);
    if sign == "" {
      assert tail == digits + rest;
    } else {
      assert tail[0] == sign[0] && tail[1..] == digits + rest;
    }
    SkipBlanksExactly(blanks, tail);
    DigitsExactly(digits, rest);
    assert (digits + rest)[..|digits|] == digits;
  }

  lemma NumberStarts(c: char)
    ensures IsDigit(c) ==> !IsSpace(c) && c != '+' && c != '-'
    ensures !IsSpace('+') && !IsSpace('-')
  {
  }

  lemma {:induction false} SkipBlanksExactly(blanks: string, t: string)
    requires forall i :: 0 <= i < |blanks| ==> IsSpace(blanks[i]) && blanks[i] != '\n'
    requires t != "" && !IsSpace(t[0])
    ensures SkipBlanks(blanks + t) == t
  {
    if blanks == "" {
      assert blanks + t == t;
    } else {
      assert (blanks + t)[1..] == blanks[1..] + t;
      SkipBlanksExactly(blanks[1..], t);
    }
  }

  lemma {:induction false} DigitsExactly(digits: string, rest: string)
    requires forall i :: 0 <= i < |digits| ==> IsDigit(digits[i])
    requires rest == "" || !IsDigit(rest[0])
    ensures DigitCount(digits + rest) == |digits|
  {
    if digits == "" {
      assert digits + rest == rest;
    } else {
      assert (digits + rest)[1..] == digits[1..] + rest;
      DigitsExactly(digits[1..], rest);
    }
  }

  // ---------------------------------------------------------------- splitting what was joined

  /** A CRLF-free line followed by CRLF is split off whole, even when it ends in a carriage return. */
  lemma SplitLine(line: string, s: string)
    requires CrlfFree(line)
    ensures Split(line + CRLF + s) == [line] + Split(s)
  {
    var t := line + CRLF + s;
    assert CrlfAt(t, |line|);
    forall k | 0 <= k < |line|
      ensures !CrlfAt(t, k)
    {
      assert t[k] == line[k];
      if k + 1 < |line| {
        assert t[k + 1] == line[k + 1] && !CrlfAt(line, k);
      }
    }
    assert FindCrlf(t, 0) == |line|;
    assert t[..|line|] == line && t[|line| + 2..] == s;
  }

  lemma HeaderCrlfFree(c: char, n: nat)
    requires c == '*' || c == '$'
    ensures CrlfFree([c] + Decimal(n))
  {
    var s := [c] + Decimal(n);
    forall i | 0 <= i < |s|
      ensures !CrlfAt(s, i)
    {
      if i > 0 {
        assert IsDigit(s[i]);
      }
    }
  }

  function BulkLines(args: seq<string>): seq<string> {
    if args == [] then [] else ["$" + Decimal(|args[0]|), args[0]] + BulkLines(args[1..])
  }

  lemma {:induction false} SplitBulks(args: seq<string>, s: string)
    requires AllCrlfFree(args)
    ensures Split(EncodeBulks(args) + s) == BulkLines(args) + Split(s)
  {
    if args == [] {
      assert EncodeBulks(args) + s == s;
    } else {
      var header, rest := "$" + Decimal(|args[0]|), EncodeBulks(args[1..]) + s;
      HeaderCrlfFree('$', |args[0]|);
      assert EncodeBulks(args) + s == header + CRLF + (args[0] + CRLF + rest);
      SplitLine(header, args[0] + CRLF + rest);
      SplitLine(args[0], rest);
      assert AllCrlfFree(args[1..]);
      SplitBulks(args[1..], s);
      TwoThen(header, args[0], BulkLines(args[1..]), Split(s));
    }
  }

  lemma TwoThen(a: string, b: string, c: seq<string>, d: seq<string>)
    ensures [a] + ([b] + (c + d)) == [a, b] + c + d
  {
  }

  /** Whatever characters the arguments start with, the inner loop takes exactly them. */
  lemma {:induction false} TakeEncoded(args: seq<string>, tail: seq<string>)
    ensures TakeBulks(BulkLines(args) + tail, |args|) == Taken(args, tail)
  {
    hide TakeBulks, Decimal;
    if args == [] {
      assert BulkLines(args) + tail == tail;
      NothingTaken(tail, 0);
    } else {
      var rest := BulkLines(args[1..]) + tail;
      TakeEncoded(args[1..], tail);
      var header := "$" + Decimal(|args[0]|);
      TakeOne(header, args[0], rest, |args|);
      assert BulkLines(args) + tail == [header, args[0]] + rest;
      assert args == [args[0]] + args[1..];
    }
  }

  lemma TakeOne(header: string, arg: string, rest: seq<string>, count: int)
    requires StartsWith(header, '$') && count > 0
    ensures var t := TakeBulks(rest, count - 1);
            TakeBulks([header, arg] + rest, count) == Taken([arg] + t.parts, t.rest)
  {
    var lines := [header, arg] + rest;
    assert lines[2..] == rest && lines[0] == header && lines[1] == arg;
  }

  lemma ParseEncodedArray(args: seq<string>, s: string)
    requires AllCrlfFree(args) && |args| < 0x8000_0000_0000_0000
    ensures ParseLines(Split(EncodeArray(args) + s)) == args + ParseLines(Split(s))
  {
    var header := "*" + Decimal(|args|);
    HeaderCrlfFree('*', |args|);
    assert EncodeArray(args) + s == header + CRLF + (EncodeBulks(args) + s);
    SplitLine(header, EncodeBulks(args) + s);
    SplitBulks(args, s);
    ScanPrinted(|args|);
    TakeEncoded(args, Split(s));
    var lines := [header] + (BulkLines(args) + Split(s));
    assert lines[1..] == BulkLines(args) + Split(s);
  }

  lemma {:induction false} ParseEncodedCommands(commands: seq<seq<string>>)
    requires Commands(commands) && AllCrlfFree(Flatten(commands))
    ensures ParseLines(Split(EncodeAll(commands))) == Flatten(commands)
  {
    if commands == [] {
      assert Split("") == [""];
      assert ParseLines([""]) == [];
    } else {
      var args, rest := commands[0], commands[1..];
      FlattenCrlfFree(args, Flatten(rest));
      ParseEncodedArray(args, EncodeAll(rest));
      ParseEncodedCommands(rest);
    }
  }

  lemma FlattenCrlfFree(a: seq<string>, b: seq<string>)
    ensures AllCrlfFree(a + b) <==> AllCrlfFree(a) && AllCrlfFree(b)
  {
    if AllCrlfFree(a + b) {
      forall i | 0 <= i < |a| ensures CrlfFree(a[i]) { assert (a + b)[i] == a[i]; }
      forall i | 0 <= i < |b| ensures CrlfFree(b[i]) { assert (a + b)[|a| + i] == b[i]; }
    }
  }

  // ---------------------------------------------------------------- no part ever contains CRLF

  lemma {:induction false} SplitCrlfFree(s: string)
    ensures AllCrlfFree(Split(s))
    decreases |s|
  {
    var k := FindCrlf(s, 0);
    if k < |s| {
      SplitCrlfFree(s[k + 2..]);
      SubstringCrlfFree(s, k);
    }
  }

  lemma SubstringCrlfFree(s: string, k: nat)
    requires k <= |s| && forall j :: 0 <= j < k ==> !CrlfAt(s, j)
    ensures CrlfFree(s[..k])
  {
    forall i | 0 <= i < k
      ensures !CrlfAt(s[..k], i)
    {
      assert !CrlfAt(s, i);
    }
  }

  lemma TailCrlfFree(s: string)
    requires CrlfFree(s) && s != ""
    ensures CrlfFree(s[1..])
  {
    forall i | 0 <= i < |s| - 1
      ensures !CrlfAt(s[1..], i)
    {
      assert !CrlfAt(s, i + 1);
    }
  }

  lemma {:induction false} FieldsCrlfFree(s: string)
    ensures AllCrlfFree(Fields(s))
    decreases |s|
  {
    var t := SkipSpaces(s);
    SkipSpacesStops(s);
    if t != "" {
      var w := t[..WordLength(t)];
      assert forall i :: 0 <= i < |w| ==> !IsSpace(w[i]);
      assert CrlfFree(w);
      FieldsCrlfFree(t[WordLength(t)..]);
    }
  }

  lemma {:induction false} TakeCrlfFree(lines: seq<string>, count: int)
    requires AllCrlfFree(lines)
    ensures AllCrlfFree(TakeBulks(lines, count).parts) && AllCrlfFree(TakeBulks(lines, count).rest)
    decreases |lines|
  {
    if count > 0 && lines != [] {
      if !StartsWith(lines[0], '$') {
        TakeCrlfFree(lines[1..], count - 1);
      } else if |lines| > 1 {
        TakeCrlfFree(lines[2..], count - 1);
      }
    }
  }

  lemma {:induction false} PartsCrlfFree(lines: seq<string>)
    requires AllCrlfFree(lines)
    ensures AllCrlfFree(ParseLines(lines))
    decreases |lines|
  {
    if lines != [] && lines[0] != "" {
      if lines[0][0] == '*' {
        var count := ScanCount(lines[0]);
        var t := TakeBulks(lines[1..], count);
        TakeCrlfFree(lines[1..], count);
        PartsCrlfFree(t.rest);
        FlattenCrlfFree(t.parts, ParseLines(t.rest));
      } else if lines[0][0] == '$' {
        if |lines| > 1 {
          PartsCrlfFree(lines[2..]);
        }
      } else if lines[0][0] == '+' || lines[0][0] == '-' {
        TailCrlfFree(lines[0]);
        PartsCrlfFree(lines[1..]);
      } else {
        FieldsCrlfFree(lines[0]);
        PartsCrlfFree(lines[1..]);
        FlattenCrlfFree(Fields(lines[0]), ParseLines(lines[1..]));
      }
    } else if lines != [] {
      PartsCrlfFree(lines[1..]);
    }
  }

  // ---------------------------------------------------------------- round trip

  /** Without a single part the parser falls back on the fields of the input, of which encoded commands have some. */
  lemma FallbackHasFields(commands: seq<seq<string>>)
    requires commands != []
    ensures Fields(EncodeAll(commands)) != []
  {
    assert EncodeAll(commands)[0] == '*';
  }

  /**
   * Parsing what was encoded gives back all arguments in order, if and only if no argument contains CRLF and the
   * commands, if there are any, have some argument: the parser goes by lines, not by the declared lengths.
   */
  lemma RoundTripExactly(commands: seq<seq<string>>)
    requires Commands(commands)
    ensures ParseInput(EncodeAll(commands)) == Flatten(commands)
            <==> AllCrlfFree(Flatten(commands)) && (commands != [] ==> Flatten(commands) != [])
  {
    hide Split, ParseLines;
    var input := EncodeAll(commands);
    if AllCrlfFree(Flatten(commands)) {
      ParseEncodedCommands(commands);
      if commands == [] {
        assert Fields("") == [];
      } else {
        FallbackHasFields(commands);
      }
    }
    SplitCrlfFree(input);
    PartsCrlfFree(Split(input));
    FieldsCrlfFree(input);
  }

  // ---------------------------------------------------------------- inline commands

  /** Among the ASCII characters: tab, line feed, vertical tab, form feed, carriage return and space. */
  lemma AsciiSpaces(c: char)
    requires c < 128 as char
    ensures IsSpace(c) <==> c as int in {9, 10, 11, 12, 13, 32}
  {
  }

  ghost predicate IsBlank(s: string) {
    forall i :: 0 <= i < |s| ==> IsSpace(s[i])
  }

  ghost predicate IsWord(s: string) {
    s != "" && forall i :: 0 <= i < |s| ==> !IsSpace(s[i])
  }

  /** Words with a gap before each of them and one after the last. */
  function Spaced(words: seq<string>, gaps: seq<string>): string {
    if gaps == [] then "" else if words == [] then gaps[0] else gaps[0] + (words[0] + Spaced(words[1..], gaps[1..]))
  }

  /** Gaps are runs of spaces, non-empty between two words; words are non-empty and free of spaces. */
  ghost predicate WellSpaced(words: seq<string>, gaps: seq<string>) {
    && |gaps| == |words| + 1
    && (forall i :: 0 <= i < |words| ==> IsWord(words[i]))
    && (forall i :: 0 <= i < |gaps| ==> IsBlank(gaps[i]))
    && (forall i :: 0 < i < |words| ==> gaps[i] != "")
  }

  lemma {:induction false} SkipGap(gap: string, t: string)
    requires IsBlank(gap) && (t == "" || !IsSpace(t[0]))
    ensures SkipSpaces(gap + t) == t
  {
    if gap == "" {
      assert gap + t == t;
    } else {
      assert (gap + t)[1..] == gap[1..] + t;
      SkipGap(gap[1..], t);
    }
  }

  lemma {:induction false} WordEnds(w: string, t: string)
    requires (forall i :: 0 <= i < |w| ==> !IsSpace(w[i])) && (t == "" || IsSpace(t[0]))
    ensures WordLength(w + t) == |w|
  {
    if w == "" {
      assert w + t == t;
    } else {
      assert (w + t)[1..] == w[1..] + t;
      WordEnds(w[1..], t);
    }
  }

  /** Splitting into fields gives back the words, however they are spaced. */
  lemma {:induction false} FieldsOfSpaced(words: seq<string>, gaps: seq<string>)
    requires WellSpaced(words, gaps)
    ensures Fields(Spaced(words, gaps)) == words
  {
    if words == [] {
      SkipGap(gaps[0], "");
      assert gaps[0] + "" == gaps[0];
    } else {
      var w, rest := words[0], Spaced(words[1..], gaps[1..]);
      assert IsWord(w);
      assert rest == "" || IsSpace(rest[0]) by {
        assert IsBlank(gaps[1]) && (|words| > 1 ==> gaps[1] != "");
      }
      SkipGap(gaps[0], w + rest);
      WordEnds(w, rest);
      assert (w + rest)[..|w|] == w && (w + rest)[|w|..] == rest;
      FieldsOfSpaced(words[1..], gaps[1..]);
    }
  }

  lemma {:induction false} SkippedIsBlank(s: string)
    ensures var t := SkipSpaces(s);
            s == s[..|s| - |t|] + t && IsBlank(s[..|s| - |t|]) && (s != "" && IsSpace(s[0]) ==> |t| < |s|)
  {
    hide IsSpace;
    var t := SkipSpaces(s);
    if s != "" && IsSpace(s[0]) {
      var u := s[1..];
      SkippedIsBlank(u);
      assert t == SkipSpaces(u);
      OneMoreBlank(s, |u| - |t|);
    } else {
      assert s[..0] == "";
    }
  }

  lemma OneMoreBlank(s: string, n: nat)
    requires s != "" && n < |s| && IsSpace(s[0]) && IsBlank(s[1..][..n])
    ensures IsBlank(s[..n + 1]) && s[..n + 1] + s[1..][n..] == s
  {
    hide IsSpace;
    assert s[..n + 1] == [s[0]] + s[1..][..n];
  }

  lemma {:induction false} WordIsMaximal(s: string)
    ensures WordLength(s) == |s| || IsSpace(s[WordLength(s)])
  {
    if s != "" && !IsSpace(s[0]) {
      WordIsMaximal(s[1..]);
    }
  }

  /** The first field of a string, with the gap before it and what follows it. */
  lemma NextField(s: string) returns (gap: string, w: string, u: string)
    requires Fields(s) != []
    ensures s == gap + (w + u) && IsBlank(gap) && IsWord(w) && |u| < |s| && Fields(s) == [w] + Fields(u)
    ensures u == "" || IsSpace(u[0])
    ensures s != "" && IsSpace(s[0]) ==> gap != ""
  {
    var t := SkipSpaces(s);
    var n := WordLength(t);
    SkipSpacesStops(s);
    SkippedIsBlank(s);
    WordIsMaximal(t);
    gap, w, u := s[..|s| - |t|], t[..n], t[n..];
    assert t == w + u;
  }

  lemma NoField(s: string)
    requires Fields(s) == []
    ensures WellSpaced([], [s]) && Spaced([], [s]) == s
  {
    SkippedIsBlank(s);
  }

  /** Every string is the well-spaced sequence of its fields. */
  lemma {:induction false} SpacedFields(s: string) returns (gaps: seq<string>)
    ensures gaps != [] && WellSpaced(Fields(s), gaps) && Spaced(Fields(s), gaps) == s
    ensures Fields(s) != [] && s != "" && IsSpace(s[0]) ==> gaps[0] != ""
    decreases |s|
  {
    hide WellSpaced, Spaced, IsWord, IsBlank, IsSpace;
    if Fields(s) == [] {
      NoField(s);
      gaps := [s];
    } else {
      var gap, w, u := NextField(s);
      var inner := SpacedFields(u);
      OneWordMore(gap, w, Fields(u), inner);
      gaps := [gap] + inner;
    }
  }

  lemma OneWordMore(gap: string, w: string, words: seq<string>, gaps: seq<string>)
    requires IsBlank(gap) && IsWord(w) && gaps != [] && WellSpaced(words, gaps) && (words != [] ==> gaps[0] != "")
    ensures WellSpaced([w] + words, [gap] + gaps)
    ensures Spaced([w] + words, [gap] + gaps) == gap + (w + Spaced(words, gaps))
  {
    assert ([w] + words)[1..] == words && ([gap] + gaps)[1..] == gaps;
  }

  /** strings.Fields, exactly: the fields of a string are the only words it is a spacing of. */
  lemma FieldsExactly(s: string, words: seq<string>)
    ensures Fields(s) == words <==> exists gaps :: WellSpaced(words, gaps) && Spaced(words, gaps) == s
  {
    if Fields(s) == words {
      var gaps := SpacedFields(s);
    }
    if exists gaps :: WellSpaced(words, gaps) && Spaced(words, gaps) == s {
      var gaps :| WellSpaced(words, gaps) && Spaced(words, gaps) == s;
      FieldsOfSpaced(words, gaps);
    }
  }

  // ---------------------------------------------------------------- every kind of line

  /** What a client can send: an array, a bulk string, a simple string, an error, or words on a line. */
  datatype Item =
    | Array(args: seq<string>)
    | Bulk(arg: string)
    | Simple(text: string)
    | Failure(text: string)
    | Inline(words: seq<string>, gaps: seq<string>)

  ghost predicate Sendable(item: Item) {
    match item
    case Array(args) => AllCrlfFree(args) && |args| < 0x8000_0000_0000_0000
    case Bulk(arg) => CrlfFree(arg)
    case Simple(text) => CrlfFree(text)
    case Failure(text) => CrlfFree(text)
    case Inline(words, gaps) =>
      && WellSpaced(words, gaps) && CrlfFree(Spaced(words, gaps))
      && (Spaced(words, gaps) != "" ==> Spaced(words, gaps)[0] !in "*$+-")
  }

  function EncodeItem(item: Item): string {
    match item
    case Array(args) => EncodeArray(args)
    case Bulk(arg) => "$" + Decimal(|arg|) + CRLF + arg + CRLF
    case Simple(text) => "+" + text + CRLF
    case Failure(text) => "-" + text + CRLF
    case Inline(words, gaps) => Spaced(words, gaps) + CRLF
  }

  /** What the parser should make of it. */
  function Meant(item: Item): seq<string> {
    match item
    case Array(args) => args
    case Bulk(arg) => [arg]
    case Simple(text) => [text]
    case Failure(text) => [text]
    case Inline(words, _) => words
  }

  lemma PrefixedCrlfFree(c: char, text: string)
    requires c != '\r'
    ensures CrlfFree([c] + text) <==> CrlfFree(text)
  {
    var s := [c] + text;
    forall i | 0 <= i < |text|
      ensures CrlfAt(text, i) <==> CrlfAt(s, i + 1)
    {
    }
    if CrlfFree(text) {
      forall i | 0 <= i < |s|
        ensures !CrlfAt(s, i)
      {
        assert i > 0 ==> !CrlfAt(text, i - 1);
      }
    }
    if CrlfFree(s) {
      forall i | 0 <= i < |text|
        ensures !CrlfAt(text, i)
      {
        assert !CrlfAt(s, i + 1);
      }
    }
  }

  lemma ParseFirstLine(line: string, rest: seq<string>)
    ensures line == "" ==> ParseLines([line] + rest) == ParseLines(rest)
    ensures StartsWith(line, '+') || StartsWith(line, '-') ==>
              ParseLines([line] + rest) == [line[1..]] + ParseLines(rest)
    ensures line != "" && line[0] !in "*$+-" ==> ParseLines([line] + rest) == Fields(line) + ParseLines(rest)
  {
    assert ([line] + rest)[1..] == rest;
  }

  lemma ParseBulkLines(header: string, arg: string, rest: seq<string>)
    requires StartsWith(header, '$')
    ensures ParseLines([header] + ([arg] + rest)) == [arg] + ParseLines(rest)
  {
    var lines := [header] + ([arg] + rest);
    assert lines[2..] == rest && lines[1] == arg;
  }

  /** One item in front of anything else. */
  lemma ParseItem(item: Item, s: string)
    requires Sendable(item)
    ensures ParseLines(Split(EncodeItem(item) + s)) == Meant(item) + ParseLines(Split(s))
  {
    hide ParseLines, Split, Fields, Spaced;
    match item
    case Array(args) => ParseEncodedArray(args, s);
    case Bulk(arg) =>
      var header := "$" + Decimal(|arg|);
      HeaderCrlfFree('$', |arg|);
      assert EncodeItem(item) + s == header + CRLF + (arg + CRLF + s);
      SplitLine(header, arg + CRLF + s);
      SplitLine(arg, s);
      ParseBulkLines(header, arg, Split(s));
    case Simple(text) =>
      PrefixedCrlfFree('+', text);
      SplitLine("+" + text, s);
      ParseFirstLine("+" + text, Split(s));
      assert ("+" + text)[1..] == text;
    case Failure(text) =>
      PrefixedCrlfFree('-', text);
      SplitLine("-" + text, s);
      ParseFirstLine("-" + text, Split(s));
      assert ("-" + text)[1..] == text;
    case Inline(words, gaps) =>
      var line := Spaced(words, gaps);
      SplitLine(line, s);
      ParseFirstLine(line, Split(s));
      FieldsOfSpaced(words, gaps);
      if line == "" {
        NoFields();
      }
  }

  lemma NoFields()
    ensures Fields("") == []
  {
  }

  function EncodeItems(items: seq<Item>): string {
    if items == [] then "" else EncodeItem(items[0]) + EncodeItems(items[1..])
  }

  function AllMeant(items: seq<Item>): seq<string> {
    if items == [] then [] else Meant(items[0]) + AllMeant(items[1..])
  }

  lemma {:induction false} ParseItems(items: seq<Item>)
    requires forall i :: 0 <= i < |items| ==> Sendable(items[i])
    ensures ParseLines(Split(EncodeItems(items))) == AllMeant(items)
  {
    if items == [] {
      assert Split("") == [""];
      assert ParseLines([""]) == [];
    } else {
      assert Sendable(items[0]);
      ParseItem(items[0], EncodeItems(items[1..]));
      ParseItems(items[1..]);
    }
  }

  /** Whatever is sent, mixed in any order, comes back word for word, unless it amounts to nothing at all. */
  lemma MixedRoundTrip(items: seq<Item>)
    requires forall i :: 0 <= i < |items| ==> Sendable(items[i])
    ensures ParseInput(EncodeItems(items))
            == if AllMeant(items) != [] then AllMeant(items) else Fields(EncodeItems(items))
  {
    ParseItems(items);
  }

  /** A line of words comes back as the words, however they are spaced. */
  lemma InlineRoundTrip(words: seq<string>, gaps: seq<string>)
    requires Sendable(Inline(words, gaps))
    ensures ParseInput(Spaced(words, gaps) + CRLF) == words
  {
    var line := Spaced(words, gaps);
    ParseItem(Inline(words, gaps), "");
    assert line + CRLF + "" == line + CRLF;
    assert Split("") == [""] && ParseLines([""]) == [];
    if words == [] {
      SkipGap(line + CRLF, "");
      assert line + CRLF + "" == line + CRLF;
    }
  }

  /** A bulk string, a simple string and an error come back if and only if they do not contain CRLF. */
  lemma SingleRoundTripExactly(text: string)
    ensures ParseInput("$" + Decimal(|text|) + CRLF + text + CRLF) == [text] <==> CrlfFree(text)
    ensures ParseInput("+" + text + CRLF) == [text] <==> CrlfFree(text)
    ensures ParseInput("-" + text + CRLF) == [text] <==> CrlfFree(text)
  {
    SingleItemExactly(Bulk(text), text);
    SingleItemExactly(Simple(text), text);
    SingleItemExactly(Failure(text), text);
  }

  lemma SingleItemExactly(item: Item, text: string)
    requires item in {Bulk(text), Simple(text), Failure(text)}
    ensures ParseInput(EncodeItem(item)) == [text] <==> CrlfFree(text)
  {
    var input := EncodeItem(item);
    if CrlfFree(text) {
      ParseItem(item, "");
      assert input + "" == input;
      assert Split("") == [""] && ParseLines([""]) == [];
    }
    SplitCrlfFree(input);
    PartsCrlfFree(Split(input));
    FieldsCrlfFree(input);
    if ParseInput(input) == [text] {
      assert CrlfFree([text][0]);
    }
  }
}
