/** Day 5: reading the drawing of crate stacks that heads the puzzle input. */
module SupplyStacks {
  import opened Options
  import opened Text

  /** Whether a blank line (`\n\n`) starts at position `k`. */
  predicate BlankAt(s: string, k: nat)
  {
    k + 1 < |s| && s[k] == '\n' && s[k + 1] == '\n'
  }

  /** Position of the first `\n\n`, or `|s|` when there is none. */
  function FindBlank(s: string): (k: nat)
    ensures k <= |s|
    ensures k < |s| ==> BlankAt(s, k)
    ensures forall j :: 0 <= j < k ==> !BlankAt(s, j)
    ensures k == |s| ==> forall j :: 0 <= j < |s| ==> !BlankAt(s, j)
  {
    if |s| < 2 then |s|
    else if s[0] == '\n' && s[1] == '\n' then 0
    else
      var k := FindBlank(s[1..]);
      assert forall j :: 1 <= j < 1 + k ==> (BlankAt(s, j) <==> BlankAt(s[1..], j - 1));
      assert k == |s[1..]| ==> forall j :: 1 <= j < |s| ==> (BlankAt(s, j) <==> BlankAt(s[1..], j - 1));
      if k == |s| - 1 then |s| else 1 + k
  }

  predicate HasBlank(s: string) { exists k :: 0 <= k < |s| && BlankAt(s, k) }

  /** `separate_box_instructions`: the text before the first blank line and the text between
      the first and the second (or the end). Without a blank line the source indexes past the
      pieces and panics (`None`). */
  function SeparateBoxInstructions(input: string): (r: Option<(string, string)>)
    ensures r.Some? <==> HasBlank(input)
    ensures r.Some? ==> !HasBlank(r.value.0) && !HasBlank(r.value.1)
    ensures r.Some? ==> StartsWith(input, r.value.0 + "\n\n" + r.value.1)
    ensures r.Some? ==> |r.value.0| == FindBlank(input)
    ensures r.Some? ==> var e := |r.value.0| + 2 + |r.value.1|; e == |input| || BlankAt(input, e)
  {
    var i := FindBlank(input);
    if i == |input| then None
    else
      var rest := input[i + 2..];
      var j := FindBlank(rest);
      var boxes, instructions := input[..i], rest[..j];
      assert forall k :: BlankAt(boxes, k) ==> BlankAt(input, k);
      assert forall k :: BlankAt(instructions, k) ==> BlankAt(rest, k);
      assert (boxes + "\n\n" + instructions) == input[..i + 2 + j];
      Some((boxes, instructions))
  }

  /** The split is at the first blank line, and a third newline in a row stays with the
      instructions, as `split("\n\n")` leaves it. */
  lemma SeparateAtFirstBlank()
    ensures SeparateBoxInstructions("a\n\n\nb") == Some(("a", "\nb"))
  {
    var s := "a\n\n\nb";
    assert BlankAt(s, 1) && !BlankAt(s, 0) && !BlankAt(s, 3);
    var r := SeparateBoxInstructions(s).value;
    assert s[..3 + |r.1|] == r.0 + "\n\n" + r.1;
    assert r.0 == s[..1] && r.1 == s[3..3 + |r.1|];
    assert |r.1| == 2 && s[3..5] == "\nb" && s[..1] == "a";
    assert r == ("a", "\nb");
  }

  /** Text after a second blank line is dropped. */
  lemma SeparateDropsAfterSecondBlank()
    ensures SeparateBoxInstructions("a\n\nb\n\nc") == Some(("a", "b"))
  {
    var t := "a\n\nb\n\nc";
    assert BlankAt(t, 1) && !BlankAt(t, 0) && BlankAt(t, 4) && !BlankAt(t, 3);
    var q := SeparateBoxInstructions(t).value;
    assert t[..3 + |q.1|] == q.0 + "\n\n" + q.1;
    assert q.0 == t[..1] && q.1 == t[3..3 + |q.1|];
    assert !BlankAt(t, 5);
    assert |q.1| == 1 && t[3..4] == "b" && t[..1] == "a";
    assert q == ("a", "b");
  }

  /** Without a blank line the source panics. */
  lemma SeparateNeedsBlank()
    ensures SeparateBoxInstructions("a\nb") == None
  {
    var u := "a\nb";
    assert !BlankAt(u, 0) && !BlankAt(u, 1) && !BlankAt(u, 2);
  }

  /** The crate letters of one drawing line from position `i` on: positions `i` with
      `(i + 1) % 4 == 0` or `i % 2 == 0` are brackets and gaps and are skipped, and a digit in a
      kept position ends the line (it is the row of stack numbers). */
  function KeepFrom(line: string, i: nat): string
    decreases |line| - i
  {
    if i >= |line| then []
    else if (i + 1) % 4 == 0 || i % 2 == 0 then KeepFrom(line, i + 1)
    else if IsDigit(line[i]) then []
    else [line[i]] + KeepFrom(line, i + 1)
  }

  /** Kept positions are exactly those at `4k + 1`. */
  lemma KeptPositions(i: nat)
    ensures !((i + 1) % 4 == 0 || i % 2 == 0) <==> i % 4 == 1
  {
    var q, r := i / 4, i % 4;
    assert i == 4 * q + r;
    assert i + 1 == 4 * q + (r + 1);
    assert i == 2 * (2 * q) + r;
    if r == 0 { assert i % 2 == 0; }
    else if r == 1 { assert i % 2 == 1; assert (i + 1) % 4 == 2; }
    else if r == 2 { assert i % 2 == 0; }
    else { assert (i + 1) % 4 == 0; }
  }

  /** No digit at a kept position from `4m` on: then the next kept character is at `4m + 1`. */
  lemma {:induction false} KeepFromBlock(line: string, m: nat)
    requires 4 * m + 1 < |line| && !IsDigit(line[4 * m + 1])
    ensures KeepFrom(line, 4 * m) == [line[4 * m + 1]] + KeepFrom(line, 4 * m + 4)
  {
    BlockHead(line, m);
    BlockTail(line, m);
  }

  /** The first two positions of block `m` contribute the character at `4m + 1`. */
  lemma BlockHead(line: string, m: nat)
    requires 4 * m + 1 < |line| && !IsDigit(line[4 * m + 1])
    ensures KeepFrom(line, 4 * m) == [line[4 * m + 1]] + KeepFrom(line, 4 * m + 2)
  {
    SkipPosition(line, m, 0);
    TakePosition(line, m);
  }

  /** The last two positions of block `m` contribute nothing. */
  lemma BlockTail(line: string, m: nat)
    ensures KeepFrom(line, 4 * m + 2) == KeepFrom(line, 4 * m + 4)
  {
    SkipPosition(line, m, 2);
    SkipPosition(line, m, 3);
  }

  /** Positions `4m`, `4m + 2` and `4m + 3` contribute nothing. */
  lemma SkipPosition(line: string, m: nat, r: nat)
    requires r == 0 || r == 2 || r == 3
    ensures KeepFrom(line, 4 * m + r) == KeepFrom(line, 4 * m + r + 1)
  {
    var i := 4 * m + r;
    assert i % 4 == r;
    KeptPositions(i);
  }

  /** Position `4m + 1`, holding no digit, contributes its character. */
  lemma TakePosition(line: string, m: nat)
    requires 4 * m + 1 < |line| && !IsDigit(line[4 * m + 1])
    ensures KeepFrom(line, 4 * m + 1) == [line[4 * m + 1]] + KeepFrom(line, 4 * m + 2)
  {
    var i := 4 * m + 1;
    assert i % 4 == 1;
    KeptPositions(i);
  }

  /** The crate row of a drawing: characters at `4k + 1` while no digit appears among them. */
  predicate NoKeptDigit(line: string)
  {
    forall k :: 0 <= k < |line| && 4 * k + 1 < |line| ==> !IsDigit(line[4 * k + 1])
  }

  /** The characters at positions `4k + 1` from `k = m` on. */
  function CrateLetters(line: string, m: nat): string
    decreases |line| - 4 * m
  {
    if 4 * m + 1 < |line| then [line[4 * m + 1]] + CrateLetters(line, m + 1) else []
  }

  /** On a crate row, the kept characters are exactly those at positions `4k + 1`, in order. */
  lemma {:induction false} KeepFromCrateRow(line: string, m: nat)
    requires NoKeptDigit(line)
    ensures KeepFrom(line, 4 * m) == CrateLetters(line, m)
    decreases |line| - 4 * m
  {
    if 4 * m + 1 < |line| {
      KeepFromCrateRow(line, m + 1);
      CrateRowStep(line, m);
    } else {
      CrateRowEnd(line, m);
    }
  }

  lemma CrateRowStep(line: string, m: nat)
    requires 4 * m + 1 < |line| && !IsDigit(line[4 * m + 1])
    requires KeepFrom(line, 4 * (m + 1)) == CrateLetters(line, m + 1)
    ensures KeepFrom(line, 4 * m) == CrateLetters(line, m)
  {
    KeepFromBlock(line, m);
    assert 4 * (m + 1) == 4 * m + 4;
  }

  lemma CrateRowEnd(line: string, m: nat)
    requires 4 * m + 1 >= |line|
    ensures KeepFrom(line, 4 * m) == CrateLetters(line, m) == []
  {
    if 4 * m < |line| {
      KeptPositions(4 * m);
      assert KeepFrom(line, 4 * m) == KeepFrom(line, 4 * m + 1);
    }
  }

  /** One letter per four positions from `4m + 1` on. */
  lemma {:induction false} CrateLettersLength(line: string, m: nat)
    ensures |CrateLetters(line, m)| == if 4 * m + 1 < |line| then (|line| - 4 * m + 2) / 4 else 0
    decreases |line| - 4 * m
  {
    if 4 * m + 1 < |line| {
      CrateLettersLength(line, m + 1);
      var d := |line| - 4 * m;
      assert (d + 2) / 4 == (if d >= 6 then (d - 2) / 4 + 1 else 1);
    }
  }

  /** The `k`-th letter is the character at `4(m + k) + 1`. */
  lemma {:induction false} CrateLettersAt(line: string, m: nat, k: nat)
    requires k < |CrateLetters(line, m)|
    ensures 4 * (m + k) + 1 < |line| && CrateLetters(line, m)[k] == line[4 * (m + k) + 1]
    decreases k
  {
    if k > 0 {
      CrateLettersAt(line, m + 1, k - 1);
      assert 4 * (m + 1 + (k - 1)) == 4 * (m + k);
    }
  }

  /** The row of stack numbers contributes nothing. */
  lemma KeepFromNumberRow(line: string)
    requires |line| >= 2 && IsDigit(line[1])
    ensures KeepFrom(line, 0) == []
  {
  }

  /** The columns of a line, as the inner loop of `parse_boxes` collects them. */
  method ParseLine(line: string) returns (parsedLine: seq<char>)
    ensures parsedLine == KeepFrom(line, 0)
  {
    parsedLine := [];
    var i := 0;
    while i < |line|
      invariant 0 <= i <= |line|
      invariant parsedLine + KeepFrom(line, i) == KeepFrom(line, 0)
    {
      var c := line[i];
      if (i + 1) % 4 == 0 || i % 2 == 0 {
        i := i + 1;
        continue;
      }
      if IsDigit(c) {
        assert KeepFrom(line, i) == [];
        break;
      }
      parsedLine := parsedLine + [c];
      i := i + 1;
    }
  }

  /** The drawing lines that keep at least one character, each reduced to its kept characters. */
  function ParsedLines(lines: seq<string>): (r: seq<string>)
    ensures forall k :: 0 <= k < |r| ==> r[k] != []
  {
    if lines == [] then []
    else
      var rest := ParsedLines(lines[..|lines| - 1]);
      var parsed := KeepFrom(lines[|lines| - 1], 0);
      if parsed == [] then rest else rest + [parsed]
  }

  /** Stack `i`: the non-space characters of column `i`, the last line's first. */
  function StackOf(parsedLines: seq<string>, i: nat): (r: seq<char>)
    requires forall k :: 0 <= k < |parsedLines| ==> i < |parsedLines[k]|
    ensures ' ' !in r && |r| <= |parsedLines|
  {
    if parsedLines == [] then []
    else
      var last := parsedLines[|parsedLines| - 1];
      (if last[i] == ' ' then [] else [last[i]]) + StackOf(parsedLines[..|parsedLines| - 1], i)
  }

  predicate SameLength(parsedLines: seq<string>)
  {
    forall k :: 0 <= k < |parsedLines| ==> |parsedLines[k]| == |parsedLines[0]|
  }

  /** The outer loop of `parse_boxes` that reduces each line and drops the empty results. */
  method ParseLines(lines: seq<string>) returns (parsedLines: seq<string>)
    ensures parsedLines == ParsedLines(lines)
  {
    parsedLines := [];
    for j := 0 to |lines|
      invariant parsedLines == ParsedLines(lines[..j])
    {
      assert lines[..j + 1][..j] == lines[..j];
      var parsedLine := ParseLine(lines[j]);
      if |parsedLine| == 0 {
        continue;
      }
      parsedLines := parsedLines + [parsedLine];
    }
    assert lines[..|lines|] == lines;
  }

  /** One line of the stacking loop of `parse_boxes`: each non-space character goes in front of
      its column's stack. */
  method PushLine(parsedBoxes: seq<seq<char>>, line: string) returns (pushed: seq<seq<char>>)
    requires |line| == |parsedBoxes|
    ensures |pushed| == |parsedBoxes|
    ensures forall i :: 0 <= i < |line| ==> pushed[i] == (if line[i] == ' ' then [] else [line[i]]) + parsedBoxes[i]
  {
    pushed := parsedBoxes;
    for i := 0 to |line|
      invariant |pushed| == |parsedBoxes|
      invariant forall i' :: 0 <= i' < i ==> pushed[i'] == (if line[i'] == ' ' then [] else [line[i']]) + parsedBoxes[i']
      invariant forall i' :: i <= i' < |line| ==> pushed[i'] == parsedBoxes[i']
    {
      var c := line[i];
      if c == ' ' {
        continue;
      }
      pushed := pushed[i := [c] + pushed[i]];
    }
  }

  /** `parse_boxes`: the stacks of the drawing, one per column of its crate rows. `None` when no
      line keeps a character (the source unwraps an empty first line) or when the kept lines
      differ in length (the source's assertion). */
  method ParseBoxes(boxes: string) returns (r: Option<seq<seq<char>>>)
    ensures r.Some? <==> ParsedLines(Lines(boxes)) != [] && SameLength(ParsedLines(Lines(boxes)))
    ensures r.Some? ==> |r.value| == |ParsedLines(Lines(boxes))[0]|
    ensures r.Some? ==> forall i :: 0 <= i < |r.value| ==> r.value[i] == StackOf(ParsedLines(Lines(boxes)), i)
  {
    var parsedLines := ParseLines(Lines(boxes));
    if parsedLines == [] || !SameLength(parsedLines) {
      return None;
    }
    var lineLen := |parsedLines[0]|;
    var parsedBoxes: seq<seq<char>> := seq(lineLen, _ => []);
    for j := 0 to |parsedLines|
      invariant Stacked(parsedLines[..j], lineLen, parsedBoxes)
    {
      var before := parsedBoxes;
      parsedBoxes := PushLine(parsedBoxes, parsedLines[j]);
      StacksGrow(parsedLines, j, lineLen, before, parsedBoxes);
    }
    assert parsedLines[..|parsedLines|] == parsedLines;
    return Some(parsedBoxes);
  }

  /** `boxes` holds the stack of each of the `width` columns of `lines`. */
  ghost predicate Stacked(lines: seq<string>, width: nat, boxes: seq<seq<char>>)
  {
    && |boxes| == width
    && (forall k :: 0 <= k < |lines| ==> |lines[k]| == width)
    && (forall i :: 0 <= i < width ==> boxes[i] == StackOf(lines, i))
  }

  /** Pushing line `j` onto the stacks of the lines before it gives the stacks of the lines up
      to it. */
  lemma StacksGrow(parsedLines: seq<string>, j: nat, width: nat, before: seq<seq<char>>, after: seq<seq<char>>)
    requires j < |parsedLines| && SameLength(parsedLines) && width == |parsedLines[0]|
    requires Stacked(parsedLines[..j], width, before) && |after| == width
    requires forall i :: 0 <= i < width ==>
      after[i] == (if parsedLines[j][i] == ' ' then [] else [parsedLines[j][i]]) + before[i]
    ensures Stacked(parsedLines[..j + 1], width, after)
  {
    var upTo := parsedLines[..j + 1];
    assert upTo[..j] == parsedLines[..j];
    assert upTo[j] == parsedLines[j];
    forall i | 0 <= i < width
      ensures after[i] == StackOf(upTo, i)
    {
      assert after[i] == (if upTo[j][i] == ' ' then [] else [upTo[j][i]]) + StackOf(upTo[..j], i);
    }
  }
}
