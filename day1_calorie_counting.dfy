/** Day 1: summing the calories each elf carries and keeping the three largest sums. */
module CalorieCounting {
  import opened Options
  import opened Text

  /** `parse_calories`: the line as an `i32`; anything else panics (`None`). In particular a
      blank line, and a line that keeps the `\r` of a CRLF file, panic. */
  function ParseCalories(line: string): (r: Option<int>)
    ensures r.Some? ==> I32_MIN <= r.value <= I32_MAX
    ensures r.Some? ==> |line| > 0 && IsDigit(line[|line| - 1])
  {
    ParseSigned(line, I32_MIN, I32_MAX)
  }

  /** Every count the program can meet is read back exactly. */
  lemma ParseCaloriesRoundTrip(calories: int)
    requires I32_MIN <= calories <= I32_MAX
    ensures ParseCalories(IntToString(calories)) == Some(calories)
  {
    ParseSignedIntToString(calories, I32_MIN, I32_MAX);
  }

  predicate Descending(s: seq<int>)
  {
    forall i, j :: 0 <= i < j < |s| ==> s[i] >= s[j]
  }

  /** Where `rank_in_top3` puts a new sum among three: in front, in the middle, last, or nowhere. */
  function Rank(inventory: int, top3: seq<int>): (r: seq<int>)
    requires |top3| == 3
    ensures |r| == 3
    ensures r == top3 <==> inventory <= top3[0] && inventory <= top3[1] && inventory <= top3[2]
    ensures r != top3 ==> inventory in r
    ensures forall k :: 0 <= k < 3 ==> r[k] in top3 || r[k] == inventory
  {
    if inventory > top3[0] then [inventory, top3[0], top3[1]]
    else if inventory > top3[1] then [top3[0], inventory, top3[1]]
    else if inventory > top3[2] then [top3[0], top3[1], inventory]
    else top3
  }

  /** `rank_in_top3`: panics (`None`) unless there are exactly three entries, and otherwise edits a
      copy slot by slot; the argument itself is a value and stays as it was. */
  method RankInTop3(inventory: int, top3: seq<int>) returns (r: Option<seq<int>>)
    ensures r.None? <==> |top3| != 3
    ensures r.Some? ==> |r.value| == 3 && r.value == Rank(inventory, top3)
  {
    if |top3| != 3 {
      return None;
    }
    var newTop3 := top3;
    if inventory > newTop3[0] {
      newTop3 := newTop3[2 := newTop3[1]];
      newTop3 := newTop3[1 := newTop3[0]];
      newTop3 := newTop3[0 := inventory];
    } else if inventory > newTop3[1] {
      newTop3 := newTop3[2 := newTop3[1]];
      newTop3 := newTop3[1 := inventory];
    } else if inventory > newTop3[2] {
      newTop3 := newTop3[2 := inventory];
    }
    return Some(newTop3);
  }

  /** `after` holds three of the four values `top3` and `inventory`, and the one it dropped is no
      larger than any it kept. */
  predicate KeepsLargest(top3: seq<int>, inventory: int, after: seq<int>, dropped: int)
    requires |after| == 3
  {
    multiset(after) + multiset{dropped} == multiset(top3) + multiset{inventory}
    && dropped <= after[0] && dropped <= after[1] && dropped <= after[2]
  }

  /** Ranking into a descending top three keeps it descending ... */
  lemma RankStaysDescending(inventory: int, top3: seq<int>)
    requires |top3| == 3 && Descending(top3)
    ensures Descending(Rank(inventory, top3))
  {
  }

  function Min(a: int, b: int): int { if a < b then a else b }

  /** ... and keeps the three largest of the four values, dropping the smaller of the new sum
      and the old third. */
  lemma RankKeepsLargest(inventory: int, top3: seq<int>)
    requires |top3| == 3 && Descending(top3)
    ensures KeepsLargest(top3, inventory, Rank(inventory, top3), Min(inventory, top3[2]))
  {
    assert top3[0] >= top3[1] >= top3[2];
    if inventory > top3[2] {
      RankInserts(inventory, top3);
    }
  }

  /** A sum larger than the third pushes the third out. */
  lemma RankInserts(inventory: int, top3: seq<int>)
    requires |top3| == 3 && inventory > top3[2]
    ensures multiset(Rank(inventory, top3)) + multiset{top3[2]} == multiset(top3) + multiset{inventory}
  {
    if inventory > top3[0] {
      assert Rank(inventory, top3) == top3[..0] + [inventory] + top3[0..2];
      Inserted(top3, 0, inventory);
    } else if inventory > top3[1] {
      assert Rank(inventory, top3) == top3[..1] + [inventory] + top3[1..2];
      Inserted(top3, 1, inventory);
    } else {
      assert Rank(inventory, top3) == top3[..2] + [inventory] + top3[2..2];
      Inserted(top3, 2, inventory);
    }
  }

  /** Inserting `v` at position `k` among the first two entries and dropping the third loses
      nothing else. */
  lemma Inserted(top3: seq<int>, k: nat, v: int)
    requires |top3| == 3 && k <= 2
    ensures multiset(top3[..k] + [v] + top3[k..2]) + multiset{top3[2]} == multiset(top3) + multiset{v}
  {
    var front, back := top3[..k], top3[k..2];
    assert top3 == front + back + [top3[2]];
    assert multiset(front + [v] + back) == multiset(front) + multiset([v]) + multiset(back);
    assert multiset(front + back + [top3[2]]) == multiset(front) + multiset(back) + multiset([top3[2]]);
  }

  /** A line `main` gets past: blank, or a calorie count. */
  predicate Parses(line: string)
  {
    line == "" || ParseCalories(line).Some?
  }

  /** The lines holding a calorie count (every non-blank line) all parse. */
  predicate AllParse(lines: seq<string>)
  {
    forall k :: 0 <= k < |lines| ==> Parses(lines[k])
  }

  /** The running sums after one more line: a blank line closes the current group and opens a
      new one at 0, a count adds to the current group. */
  function Tallied(inventories: seq<int>, line: string): (r: seq<int>)
    requires |inventories| >= 1 && Parses(line)
    ensures |r| >= 1
  {
    if line == "" then inventories + [0]
    else
      var index := |inventories| - 1;
      inventories[..index] + [inventories[index] + ParseCalories(line).value]
  }

  /** The running sums of `main`: one entry per group. */
  function Inventories(lines: seq<string>): (r: seq<int>)
    requires AllParse(lines)
    ensures |r| >= 1
  {
    if lines == [] then [0] else Tallied(Inventories(lines[..|lines| - 1]), lines[|lines| - 1])
  }

  /** One more line extends the tally by one step. */
  lemma InventoriesStep(lines: seq<string>, i: nat)
    requires i < |lines| && AllParse(lines[..i]) && Parses(lines[i])
    ensures AllParse(lines[..i + 1])
    ensures Inventories(lines[..i + 1]) == Tallied(Inventories(lines[..i]), lines[i])
  {
    assert lines[..i + 1][..i] == lines[..i];
  }

  /** The top three after ranking each of `groups` in turn, starting from `[0, 0, 0]`. */
  function RankAll(groups: seq<int>): (r: seq<int>)
    ensures |r| == 3
  {
    if groups == [] then [0, 0, 0] else Rank(groups[|groups| - 1], RankAll(groups[..|groups| - 1]))
  }

  function Max(a: int, b: int): int { if a < b then b else a }

  function MaxOf(groups: seq<int>): int
  {
    if groups == [] then 0 else Max(MaxOf(groups[..|groups| - 1]), groups[|groups| - 1])
  }

  /** The top three stays descending, and its first entry is the largest ranked sum (or 0). */
  lemma {:induction false} RankAllIsDescending(groups: seq<int>)
    ensures Descending(RankAll(groups))
    ensures RankAll(groups)[0] == MaxOf(groups)
  {
    if groups != [] {
      RankAllIsDescending(groups[..|groups| - 1]);
      RankStaysDescending(groups[|groups| - 1], RankAll(groups[..|groups| - 1]));
    }
  }

  /** Ranking one more group ranks it into the top three of the groups before it. */
  lemma RankAllSnoc(groups: seq<int>, last: int)
    ensures RankAll(groups + [last]) == Rank(last, RankAll(groups))
  {
    assert (groups + [last])[..|groups|] == groups;
  }

  /** The loop of `main` over the file's text split at every `\n`: `None` when a count fails to
      parse (a panic); otherwise the per-group sums and the top three of every group that a
      blank line closed. The final group is ranked only if a blank line follows it, which a
      trailing `\n` provides (see `TrailingNewlineClosesGroup`). */
  method TallyCalories(text: string) returns (r: Option<(seq<int>, seq<int>)>)
    ensures r.Some? <==> AllParse(Split(text, '\n'))
    ensures r.Some? ==> r.value.0 == Inventories(Split(text, '\n'))
    ensures r.Some? ==> r.value.1 == RankAll(r.value.0[..|r.value.0| - 1])
  {
    var lines := Split(text, '\n');
    var inventories := [0];
    var top3 := [0, 0, 0];
    ghost var closed: seq<int> := [];
    for i := 0 to |lines|
      invariant AllParse(lines[..i])
      invariant inventories == Inventories(lines[..i])
      invariant closed == inventories[..|inventories| - 1] && top3 == RankAll(closed)
    {
      var ok;
      ok, inventories, top3, closed := TallyLine(lines[i], inventories, top3, closed);
      if !ok {
        return None;
      }
      InventoriesStep(lines, i);
    }
    assert lines[..|lines|] == lines;
    return Some((inventories, top3));
  }

  /** A `\n` at the end of the file yields one more, empty, piece: it closes the last group, so
      that group's sum is ranked too. */
  lemma TrailingNewlineClosesGroup(text: string)
    requires AllParse(Split(text, '\n'))
    ensures AllParse(Split(text + "\n", '\n'))
    ensures Inventories(Split(text + "\n", '\n')) == Inventories(Split(text, '\n')) + [0]
  {
    var lines := Split(text, '\n');
    SplitTrailingSeparator(text, '\n');
    assert Split(text + "\n", '\n') == lines + [""];
    assert (lines + [""])[..|lines|] == lines;
  }

  /** The body of that loop for one line: `ok` is false where the line makes `main` panic. A
      blank line ranks the group it closes into the top three. */
  method TallyLine(line: string, inventories: seq<int>, top3: seq<int>, ghost closed: seq<int>)
    returns (ok: bool, inventories': seq<int>, top3': seq<int>, ghost closed': seq<int>)
    requires |inventories| >= 1 && closed == inventories[..|inventories| - 1] && top3 == RankAll(closed)
    ensures ok <==> Parses(line)
    ensures ok ==> inventories' == Tallied(inventories, line)
    ensures ok ==> closed' == inventories'[..|inventories'| - 1] && top3' == RankAll(closed')
  {
    var index := |inventories| - 1;
    if line == "" {
      var ranked := RankInTop3(inventories[index], top3);
      RankAllSnoc(closed, inventories[index]);
      assert inventories == closed + [inventories[index]];
      closed' := closed + [inventories[index]];
      inventories' := inventories + [0];
      assert inventories'[..|inventories'| - 1] == closed';
      return true, inventories', ranked.value, closed';
    }
    var calories := ParseCalories(line);
    if calories.None? {
      return false, inventories, top3, closed;
    }
    inventories' := inventories[index := inventories[index] + calories.value];
    assert inventories' == inventories[..index] + [inventories[index] + calories.value];
    assert inventories'[..index] == closed;
    return true, inventories', top3, closed;
  }
}
