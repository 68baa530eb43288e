/** The pieces of Rust's string library that the puzzle programs lean on: `str::lines`,
    `str::split` on one character, `str::split_whitespace`, `str::starts_with` and
    `str::parse` for unsigned and signed integers. Strings are sequences of characters. */
module Text {
  import opened Options

  const USIZE_MAX: nat := 0xFFFF_FFFF_FFFF_FFFF
  const I32_MIN: int := -0x8000_0000
  const I32_MAX: int := 0x7FFF_FFFF
  const I64_MIN: int := -0x8000_0000_0000_0000
  const I64_MAX: int := 0x7FFF_FFFF_FFFF_FFFF

  predicate IsDigit(c: char) { '0' <= c <= '9' }

  predicate AllDigits(s: string) { forall i :: 0 <= i < |s| ==> IsDigit(s[i]) }

  /** The whitespace that `split_whitespace` and `char::is_whitespace` separate on: the
      characters with Unicode's White_Space property. */
  predicate IsWhitespace(c: char) {
    || c == ' ' || c == '\t' || c == '\n' || c == '\r' || c == '\U{0B}' || c == '\U{0C}'
    || c == '\U{85}' || c == '\U{A0}' || c == '\U{1680}'
    || ('\U{2000}' <= c <= '\U{200A}')
    || c == '\U{2028}' || c == '\U{2029}' || c == '\U{202F}' || c == '\U{205F}' || c == '\U{3000}'
  }

  predicate StartsWith(s: string, prefix: string) {
    |prefix| <= |s| && s[..|prefix|] == prefix
  }

  function DigitValue(c: char): (d: nat)
    requires IsDigit(c)
    ensures d < 10
  {
    (c as int) - ('0' as int)
  }

  function DigitChar(d: nat): (c: char)
    requires d < 10
    ensures IsDigit(c) && DigitValue(c) == d
  {
    (('0' as int) + d) as char
  }

  /** The decimal value of a run of digits, most significant first. */
  function DigitsValue(s: string): nat
    requires AllDigits(s)
  {
    if s == [] then 0 else DigitsValue(s[..|s| - 1]) * 10 + DigitValue(s[|s| - 1])
  }

  /** `s.parse::<uN>()`: an optional `+`, then at least one digit, and a value within `max`. */
  function ParseUnsigned(s: string, max: nat): (r: Option<nat>)
    ensures r.Some? ==> r.value <= max
    ensures r.Some? ==> |s| > 0 && (s[0] == '+' || IsDigit(s[0])) && IsDigit(s[|s| - 1])
  {
    var digits := if |s| > 0 && s[0] == '+' then s[1..] else s;
    if digits == [] || !AllDigits(digits) then None
    else if DigitsValue(digits) > max then None
    else Some(DigitsValue(digits))
  }

  /** `s.parse::<iN>()`: an optional sign, then at least one digit, and a value within range. */
  function ParseSigned(s: string, min: int, max: int): (r: Option<int>)
    requires min <= 0 <= max
    ensures r.Some? ==> min <= r.value <= max
    ensures r.Some? && r.value < 0 ==> |s| > 0 && s[0] == '-'
    ensures r.Some? ==> |s| > 0 && IsDigit(s[|s| - 1])
  {
    if |s| > 0 && s[0] == '-' then
      var digits := s[1..];
      if digits == [] || !AllDigits(digits) then None
      else
        var v: int := DigitsValue(digits);
        if -v < min then None else Some(-v)
    else
      match ParseUnsigned(s, max)
      case None => None
      case Some(v) => Some(v)
  }

  /** The decimal spelling of a natural number, as `to_string` writes it. */
  function NatToString(n: nat): (s: string)
    ensures |s| > 0 && AllDigits(s)
  {
    if n < 10 then [DigitChar(n)] else NatToString(n / 10) + [DigitChar(n % 10)]
  }

  function IntToString(i: int): (s: string)
    ensures |s| > 0
    ensures forall j :: 0 <= j < |s| ==> s[j] == '-' || IsDigit(s[j])
  {
    if i < 0 then "-" + NatToString(-i) else NatToString(i)
  }

  lemma {:induction false} DigitsValueOfNatToString(n: nat)
    ensures DigitsValue(NatToString(n)) == n
  {
    var s := NatToString(n);
    if n >= 10 {
      DigitsValueOfNatToString(n / 10);
      assert s[..|s| - 1] == NatToString(n / 10);
    }
  }

  /** Parsing undoes printing, for every value the integer type can hold. */
  lemma ParseUnsignedNatToString(n: nat, max: nat)
    requires n <= max
    ensures ParseUnsigned(NatToString(n), max) == Some(n)
  {
    DigitsValueOfNatToString(n);
  }

  lemma ParseSignedIntToString(i: int, min: int, max: int)
    requires min <= i <= max && min <= 0 <= max
    ensures ParseSigned(IntToString(i), min, max) == Some(i)
  {
    if i < 0 {
      DigitsValueOfNatToString(-i);
      assert IntToString(i)[1..] == NatToString(-i);
    } else {
      DigitsValueOfNatToString(i);
    }
  }

  /** Index of the first `c` in `s`, or `|s|` when there is none. */
  function IndexOf(s: string, c: char): (i: nat)
    ensures i <= |s|
    ensures i < |s| ==> s[i] == c
    ensures forall j :: 0 <= j < i ==> s[j] != c
  {
    if s == [] then 0 else if s[0] == c then 0 else 1 + IndexOf(s[1..], c)
  }

  /** `s.split(c)`: the pieces between occurrences of `c`; always at least one piece. */
  function Split(s: string, c: char): (r: seq<string>)
    ensures |r| > 0
    ensures forall k :: 0 <= k < |r| ==> c !in r[k]
    decreases |s|
  {
    var i := IndexOf(s, c);
    if i == |s| then [s] else [s[..i]] + Split(s[i + 1..], c)
  }

  /** The inverse of `Split`: the pieces glued back together with `c` between them. */
  function Join(parts: seq<string>, c: char): string
  {
    if parts == [] then [] else if |parts| == 1 then parts[0] else parts[0] + [c] + Join(parts[1..], c)
  }

  lemma {:induction false} JoinSplit(s: string, c: char)
    ensures Join(Split(s, c), c) == s
    decreases |s|
  {
    var i := IndexOf(s, c);
    if i < |s| {
      var pieces := Split(s[i + 1..], c);
      JoinSplit(s[i + 1..], c);
      assert Split(s, c) == [s[..i]] + pieces;
      JoinCons(s[..i], pieces, c);
      assert s == s[..i] + [c] + s[i + 1..];
    }
  }

  /** A separator at the end of the text adds one empty piece after the others. */
  lemma SplitTrailingSeparator(s: string, c: char)
    ensures Split(s + [c], c) == Split(s, c) + [[]]
  {
    var parts := Split(s, c);
    JoinSplit(s, c);
    JoinSnoc(parts, [], c);
    assert Join(parts + [[]], c) == s + [c];
    assert forall k :: 0 <= k < |parts + [[]]| ==> c !in (parts + [[]])[k];
    SplitJoin(parts + [[]], c);
  }

  lemma {:induction false} JoinSnoc(parts: seq<string>, p: string, c: char)
    requires |parts| > 0
    ensures Join(parts + [p], c) == Join(parts, c) + [c] + p
  {
    var q := parts + [p];
    if |parts| > 1 {
      JoinSnoc(parts[1..], p, c);
      assert q[1..] == parts[1..] + [p];
      calc {
        Join(q, c);
        parts[0] + [c] + Join(parts[1..] + [p], c);
        parts[0] + [c] + (Join(parts[1..], c) + [c] + p);
        (parts[0] + [c] + Join(parts[1..], c)) + [c] + p;
      }
    } else {
      assert q[1..] == [p];
      assert Join(q, c) == parts[0] + [c] + Join([p], c);
    }
  }

  /** Joining a piece in front of a non-empty list puts one separator after it. */
  lemma JoinCons(p: string, pieces: seq<string>, c: char)
    requires |pieces| > 0
    ensures Join([p] + pieces, c) == p + [c] + Join(pieces, c)
  {
    assert ([p] + pieces)[1..] == pieces;
  }

  lemma {:induction false} SplitJoin(parts: seq<string>, c: char)
    requires |parts| > 0
    requires forall k :: 0 <= k < |parts| ==> c !in parts[k]
    ensures Split(Join(parts, c), c) == parts
  {
    if |parts| > 1 {
      var rest := Join(parts[1..], c);
      var s := parts[0] + [c] + rest;
      assert Join(parts, c) == s;
      SplitJoin(parts[1..], c);
      IndexOfPrefix(parts[0], c, rest);
      SplitAtFirst(parts[0], c, rest);
      assert parts == [parts[0]] + parts[1..];
    } else {
      assert IndexOf(parts[0], c) == |parts[0]| by { IndexOfAbsent(parts[0], c); }
    }
  }

  /** Splitting at the first separator leaves the piece before it and splits what follows. */
  lemma SplitAtFirst(p: string, c: char, rest: string)
    requires IndexOf(p + [c] + rest, c) == |p|
    ensures Split(p + [c] + rest, c) == [p] + Split(rest, c)
  {
    var s := p + [c] + rest;
    assert s[..|p|] == p;
    assert s[|p| + 1..] == rest;
  }

  lemma {:induction false} IndexOfAbsent(s: string, c: char)
    requires c !in s
    ensures IndexOf(s, c) == |s|
  {
    if s != [] {
      IndexOfAbsent(s[1..], c);
    }
  }

  lemma IndexOfPrefix(p: string, c: char, rest: string)
    requires c !in p
    ensures IndexOf(p + [c] + rest, c) == |p|
  {
    var s := p + [c] + rest;
    assert s[|p|] == c;
    assert forall j :: 0 <= j < |p| ==> s[j] == p[j];
  }

  /** A line as `str::lines` yields it: a `\r` right before the `\n` is dropped. */
  function StripCarriageReturn(line: string): string
  {
    if |line| > 0 && line[|line| - 1] == '\r' then line[..|line| - 1] else line
  }

  /** `s.lines()`: pieces ended by `\n` (or `\r\n`); the last line needs no terminator and an
      empty string after the last terminator is not a line. */
  function Lines(s: string): (r: seq<string>)
    ensures forall k :: 0 <= k < |r| ==> '\n' !in r[k]
    decreases |s|
  {
    if s == [] then []
    else
      var i := IndexOf(s, '\n');
      if i == |s| then [s] else [StripCarriageReturn(s[..i])] + Lines(s[i + 1..])
  }

  /** Every line printed with a trailing newline comes back as it was. */
  lemma {:induction false} LinesOfTerminated(lines: seq<string>)
    requires forall k :: 0 <= k < |lines| ==> '\n' !in lines[k]
    requires forall k :: 0 <= k < |lines| ==> lines[k] == [] || lines[k][|lines[k]| - 1] != '\r'
    ensures Lines(Terminated(lines)) == lines
  {
    if lines != [] {
      var rest := lines[1..];
      assert Terminated(lines) == lines[0] + "\n" + Terminated(rest);
      assert '\n' !in lines[0] && (lines[0] == [] || lines[0][|lines[0]| - 1] != '\r');
      LinesOfLine(lines[0], Terminated(rest));
      assert forall k :: 0 <= k < |rest| ==> rest[k] == lines[k + 1];
      LinesOfTerminated(rest);
      assert lines == [lines[0]] + rest;
    }
  }

  /** A line ended by a newline comes first, whatever follows. */
  lemma LinesOfLine(line: string, rest: string)
    requires '\n' !in line && (line == [] || line[|line| - 1] != '\r')
    ensures Lines(line + "\n" + rest) == [line] + Lines(rest)
  {
    IndexOfPrefix(line, '\n', rest);
    var s := line + "\n" + rest;
    assert s == line + ['\n'] + rest;
    assert s[..|line|] == line;
    assert s[|line| + 1..] == rest;
  }

  /** Text without a newline is one line. */
  lemma LinesOfLastLine(line: string)
    requires '\n' !in line && line != []
    ensures Lines(line) == [line]
  {
    IndexOfAbsent(line, '\n');
  }

  /** Each line followed by a newline, as a text file holds them. */
  function Terminated(lines: seq<string>): string
  {
    if lines == [] then [] else lines[0] + "\n" + Terminated(lines[1..])
  }

  /** Length of the leading run of non-whitespace characters. */
  function TokenLength(s: string): (n: nat)
    ensures n <= |s|
    ensures forall j :: 0 <= j < n ==> !IsWhitespace(s[j])
    ensures n < |s| ==> IsWhitespace(s[n])
  {
    if s == [] || IsWhitespace(s[0]) then 0 else 1 + TokenLength(s[1..])
  }

  /** `s.split_whitespace()`: the maximal runs of non-whitespace characters, in order. */
  function SplitWhitespace(s: string): (r: seq<string>)
    ensures forall k :: 0 <= k < |r| ==> r[k] != [] && forall j :: 0 <= j < |r[k]| ==> !IsWhitespace(r[k][j])
    decreases |s|
  {
    if s == [] then []
    else if IsWhitespace(s[0]) then SplitWhitespace(s[1..])
    else
      var n := TokenLength(s);
      [s[..n]] + SplitWhitespace(s[n..])
  }

  /** Two tokens separated by one space are split back apart. */
  lemma SplitWhitespaceOfPair(a: string, b: string)
    requires a != [] && b != []
    requires forall j :: 0 <= j < |a| ==> !IsWhitespace(a[j])
    requires forall j :: 0 <= j < |b| ==> !IsWhitespace(b[j])
    ensures SplitWhitespace(a + " " + b) == [a, b]
  {
    SplitWhitespaceOfToken(a, " " + b);
    assert a + " " + b == a + (" " + b);
    assert SplitWhitespace(" " + b) == SplitWhitespace(b) by {
      assert (" " + b)[1..] == b;
    }
    SplitWhitespaceOfToken(b, []);
    assert b + [] == b;
  }

  lemma SplitWhitespaceOfToken(a: string, rest: string)
    requires a != []
    requires forall j :: 0 <= j < |a| ==> !IsWhitespace(a[j])
    requires rest == [] || IsWhitespace(rest[0])
    ensures SplitWhitespace(a + rest) == [a] + SplitWhitespace(rest)
  {
    var s := a + rest;
    TokenLengthOf(a, rest);
    assert s[0] == a[0];
    assert s[..|a|] == a;
    assert s[|a|..] == rest;
  }

  lemma {:induction false} TokenLengthOf(a: string, rest: string)
    requires forall j :: 0 <= j < |a| ==> !IsWhitespace(a[j])
    requires rest == [] || IsWhitespace(rest[0])
    ensures TokenLength(a + rest) == |a|
  {
    if a != [] {
      assert (a + rest)[1..] == a[1..] + rest;
      TokenLengthOf(a[1..], rest);
    } else {
      assert a + rest == rest;
    }
  }
}
