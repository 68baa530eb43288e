/** Day 8: a grid of tree heights, which trees are visible from outside the grid, and each
    tree's scenic score. The forest is indexed `forest[x][y]`: `x` picks a line of the input,
    `y` a character of it. */
module Treetop {
  import opened Text
  import opened Options

  type Forest = seq<seq<nat>>

  /** `c.to_digit(10).unwrap_or(0)`. */
  function HeightOf(c: char): (h: nat)
    ensures h < 10
    ensures IsDigit(c) ==> h == DigitValue(c)
  {
    if IsDigit(c) then DigitValue(c) else 0
  }

  /** `parse_forest`: one row per line of the input, one height per character. */
  function ParseForest(input: string): (forest: Forest)
    ensures |forest| == |Lines(input)|
    ensures forall x :: 0 <= x < |forest| ==> |forest[x]| == |Lines(input)[x]|
  {
    var lines := Lines(input);
    seq(|lines|, x requires 0 <= x < |lines| => seq(|lines[x]|, y requires 0 <= y < |lines[x]| => HeightOf(lines[x][y])))
  }

  predicate DigitHeights(forest: Forest)
  {
    forall x, y :: 0 <= x < |forest| && 0 <= y < |forest[x]| ==> forest[x][y] < 10
  }

  /** The input file a forest of single-digit heights is written as. */
  function ShowForest(forest: Forest): string
    requires DigitHeights(forest)
  {
    Terminated(seq(|forest|, x requires 0 <= x < |forest| => ShowRow(forest[x])))
  }

  function ShowRow(row: seq<nat>): (s: string)
    requires forall y :: 0 <= y < |row| ==> row[y] < 10
    ensures |s| == |row| && AllDigits(s)
    ensures forall y :: 0 <= y < |row| ==> DigitValue(s[y]) == row[y]
  {
    seq(|row|, y requires 0 <= y < |row| => DigitChar(row[y]))
  }

  /** Parsing the written forest gives the forest back. */
  lemma ParseForestRoundTrip(forest: Forest)
    requires DigitHeights(forest)
    ensures ParseForest(ShowForest(forest)) == forest
  {
    var rows := seq(|forest|, x requires 0 <= x < |forest| => ShowRow(forest[x]));
    forall k | 0 <= k < |rows| ensures '\n' !in rows[k] && (rows[k] == [] || rows[k][|rows[k]| - 1] != '\r') {
      assert AllDigits(rows[k]);
    }
    LinesOfTerminated(rows);
    var parsed := ParseForest(ShowForest(forest));
    assert |parsed| == |forest|;
    forall x | 0 <= x < |forest| ensures parsed[x] == forest[x] {
      assert |parsed[x]| == |forest[x]|;
      forall y | 0 <= y < |forest[x]| ensures parsed[x][y] == forest[x][y] {
        assert IsDigit(rows[x][y]);
      }
    }
  }

  predicate TreeDefined(forest: Forest, x: nat, y: nat)
  {
    x < |forest| && y < |forest[x]|
  }

  /** The height at line `i`, character `y`, or `None` where indexing the forest there panics
      (the forest may be ragged, and the south and east scans run to swapped bounds). */
  function At(forest: Forest, i: nat, y: nat): (cell: Option<nat>)
    ensures cell.Some? <==> TreeDefined(forest, i, y)
  {
    if i < |forest| && y < |forest[i]| then Some(forest[i][y]) else None
  }

  /** Column `y` from line `lo` up to just before line `hi`, in the order a downward scan
      reads it. */
  function Down(forest: Forest, lo: nat, hi: nat, y: nat): (cells: seq<Option<nat>>)
    ensures |cells| == if lo < hi then hi - lo else 0
    decreases hi - lo
  {
    if lo >= hi then [] else [At(forest, lo, y)] + Down(forest, lo + 1, hi, y)
  }

  /** Column `y` above line `i`, nearest first. */
  function Up(forest: Forest, i: nat, y: nat): (cells: seq<Option<nat>>)
    ensures |cells| == i
  {
    if i == 0 then [] else [At(forest, i - 1, y)] + Up(forest, i - 1, y)
  }

  /** Line `x` from position `lo` up to just before position `hi`, left to right. */
  function Right(forest: Forest, x: nat, lo: nat, hi: nat): (cells: seq<Option<nat>>)
    ensures |cells| == if lo < hi then hi - lo else 0
    decreases hi - lo
  {
    if lo >= hi then [] else [At(forest, x, lo)] + Right(forest, x, lo + 1, hi)
  }

  /** Line `x` before position `i`, nearest first. */
  function Left(forest: Forest, x: nat, i: nat): (cells: seq<Option<nat>>)
    ensures |cells| == i
  {
    if i == 0 then [] else [At(forest, x, i - 1)] + Left(forest, x, i - 1)
  }

  /** The loop shared by the `is_visible_from_*` functions: false at the first tree at least
      `height` tall, a panic (`None`) at a missing tree reached before that, true when the scan
      runs out. */
  function Clear(cells: seq<Option<nat>>, height: nat): Option<bool>
  {
    if cells == [] then Some(true)
    else match cells[0]
      case None => None
      case Some(current) => if current >= height then Some(false) else Clear(cells[1..], height)
  }

  /** A tree that is there and lower than `height`. */
  predicate Lower(cell: Option<nat>, height: nat)
  {
    cell.Some? && cell.value < height
  }

  /** Every tree before position `k` is there and lower than `height`. */
  predicate LowerBefore(cells: seq<Option<nat>>, height: nat, k: nat)
    requires k <= |cells|
  {
    forall j :: 0 <= j < k ==> Lower(cells[j], height)
  }

  /** A scan sees out exactly when every tree on its line is lower, and panics exactly when a
      missing tree comes before any tree that blocks the view. */
  lemma {:induction false} ClearMeans(cells: seq<Option<nat>>, height: nat)
    ensures Clear(cells, height) == Some(true) <==> LowerBefore(cells, height, |cells|)
    ensures Clear(cells, height) == None <==> exists k :: 0 <= k < |cells| && cells[k].None? && LowerBefore(cells, height, k)
  {
    if cells != [] {
      ClearMeans(cells[1..], height);
      if Clear(cells, height) == None && cells[0].Some? {
        var k :| 0 <= k < |cells| - 1 && cells[1..][k].None? && LowerBefore(cells[1..], height, k);
        assert cells[k + 1].None? && LowerBefore(cells, height, k + 1);
      }
      if LowerBefore(cells, height, |cells|) {
        assert Lower(cells[0], height);
        assert LowerBefore(cells[1..], height, |cells| - 1);
      }
      if exists k :: 0 <= k < |cells| && cells[k].None? && LowerBefore(cells, height, k) {
        var k :| 0 <= k < |cells| && cells[k].None? && LowerBefore(cells, height, k);
        if k > 0 {
          assert Lower(cells[0], height);
          assert cells[1..][k - 1].None? && LowerBefore(cells[1..], height, k - 1);
        }
      }
    }
  }

  /** `is_visible_from_north`. */
  method IsVisibleFromNorth(forest: Forest, x: nat, y: nat) returns (visible: Option<bool>)
    requires TreeDefined(forest, x, y)
    ensures visible == Clear(Down(forest, 0, x, y), forest[x][y])
  {
    var height := forest[x][y];
    for i := 0 to x
      invariant Clear(Down(forest, 0, x, y), height) == Clear(Down(forest, i, x, y), height)
    {
      if y >= |forest[i]| {
        return None;
      }
      if forest[i][y] >= height {
        return Some(false);
      }
    }
    return Some(true);
  }

  /** `is_visible_from_south`: the scan runs to the LENGTH OF THE TREE'S LINE, not to the number
      of lines. */
  method IsVisibleFromSouth(forest: Forest, x: nat, y: nat) returns (visible: Option<bool>)
    requires TreeDefined(forest, x, y)
    ensures visible == Clear(Down(forest, x + 1, |forest[x]|, y), forest[x][y])
  {
    var height := forest[x][y];
    var i := x + 1;
    while i < |forest[x]|
      invariant x + 1 <= i
      invariant Clear(Down(forest, x + 1, |forest[x]|, y), height) == Clear(Down(forest, i, |forest[x]|, y), height)
      decreases |forest[x]| - i
    {
      if i >= |forest| || y >= |forest[i]| {
        return None;
      }
      if forest[i][y] >= height {
        return Some(false);
      }
      i := i + 1;
    }
    return Some(true);
  }

  /** `is_visible_from_east`: the scan runs to the NUMBER OF LINES, not to the length of the
      tree's line. */
  method IsVisibleFromEast(forest: Forest, x: nat, y: nat) returns (visible: Option<bool>)
    requires TreeDefined(forest, x, y)
    ensures visible == Clear(Right(forest, x, y + 1, |forest|), forest[x][y])
  {
    var height := forest[x][y];
    var i := y + 1;
    while i < |forest|
      invariant y + 1 <= i
      invariant Clear(Right(forest, x, y + 1, |forest|), height) == Clear(Right(forest, x, i, |forest|), height)
      decreases |forest| - i
    {
      if i >= |forest[x]| {
        return None;
      }
      if forest[x][i] >= height {
        return Some(false);
      }
      i := i + 1;
    }
    return Some(true);
  }

  /** `is_visible_from_west`. */
  method IsVisibleFromWest(forest: Forest, x: nat, y: nat) returns (visible: Option<bool>)
    requires TreeDefined(forest, x, y)
    ensures visible == Clear(Right(forest, x, 0, y), forest[x][y])
  {
    var height := forest[x][y];
    for i := 0 to y
      invariant Clear(Right(forest, x, 0, y), height) == Clear(Right(forest, x, i, y), height)
    {
      if forest[x][i] >= height {
        return Some(false);
      }
    }
    return Some(true);
  }

  /** Rust's `a || b` on results that may be panics: `b` is evaluated only when `a` is false. */
  function OrElse(a: Option<bool>, b: Option<bool>): Option<bool>
  {
    if a == Some(false) then b else a
  }

  /** The condition of the first loop of `main`: north, south, east, west, each scan run only
      when the ones before it said no. */
  function VisibleAt(forest: Forest, x: nat, y: nat): Option<bool>
    requires TreeDefined(forest, x, y)
  {
    var h := forest[x][y];
    OrElse(Clear(Down(forest, 0, x, y), h),
      OrElse(Clear(Down(forest, x + 1, |forest[x]|, y), h),
        OrElse(Clear(Right(forest, x, y + 1, |forest|), h), Clear(Right(forest, x, 0, y), h))))
  }

  predicate Square(forest: Forest)
  {
    forall x :: 0 <= x < |forest| ==> |forest[x]| == |forest|
  }

  /** Visible from at least one side of a square forest: every tree between it and that edge
      is lower. */
  predicate VisibleFromOutside(forest: Forest, x: nat, y: nat)
    requires Square(forest) && TreeDefined(forest, x, y)
  {
    var h := forest[x][y];
    (forall i :: 0 <= i < x ==> forest[i][y] < h)
    || (forall i :: x < i < |forest| ==> forest[i][y] < h)
    || (forall i :: y < i < |forest| ==> forest[x][i] < h)
    || (forall i :: 0 <= i < y ==> forest[x][i] < h)
  }

  /** A column scan over trees that are all there sees out exactly when all are lower. */
  lemma {:induction false} DownClear(forest: Forest, lo: nat, hi: nat, y: nat, h: nat)
    requires hi <= |forest| && forall i :: lo <= i < hi ==> y < |forest[i]|
    ensures Clear(Down(forest, lo, hi, y), h) == Some(forall i :: lo <= i < hi ==> forest[i][y] < h)
    decreases hi - lo
  {
    if lo < hi {
      DownClear(forest, lo + 1, hi, y, h);
    }
  }

  /** A line scan over trees that are all there sees out exactly when all are lower. */
  lemma {:induction false} RightClear(forest: Forest, x: nat, lo: nat, hi: nat, h: nat)
    requires x < |forest| && hi <= |forest[x]|
    ensures Clear(Right(forest, x, lo, hi), h) == Some(forall i :: lo <= i < hi ==> forest[x][i] < h)
    decreases hi - lo
  {
    if lo < hi {
      RightClear(forest, x, lo + 1, hi, h);
    }
  }

  /** On a square forest the swapped bounds do no harm: no scan panics and the short-circuit
      chain decides exactly `VisibleFromOutside`. */
  lemma SquareVisibility(forest: Forest, x: nat, y: nat)
    requires Square(forest) && TreeDefined(forest, x, y)
    ensures VisibleAt(forest, x, y) == Some(VisibleFromOutside(forest, x, y))
  {
    var h := forest[x][y];
    assert |forest[x]| == |forest|;
    DownClear(forest, 0, x, y, h);
    DownClear(forest, x + 1, |forest[x]|, y, h);
    RightClear(forest, x, y + 1, |forest|, h);
    RightClear(forest, x, 0, y, h);
  }

  /** The top line is always visible: its north scan reads nothing. */
  lemma EdgeTreesVisible(forest: Forest, x: nat, y: nat)
    requires TreeDefined(forest, x, y) && x == 0
    ensures VisibleAt(forest, x, y) == Some(true)
  {
  }

  /** Adds 1 to a running count for a visible tree; a panic anywhere is a panic. */
  function Tally(count: Option<nat>, visible: Option<bool>): (r: Option<nat>)
    ensures r.Some? <==> count.Some? && visible.Some?
  {
    if count.None? || visible.None? then None
    else Some(if visible.value then count.value + 1 else count.value)
  }

  /** The sum of two counts; a panic in either is a panic. */
  function Plus(a: Option<nat>, b: Option<nat>): (r: Option<nat>)
    ensures r.Some? <==> a.Some? && b.Some?
  {
    if a.None? || b.None? then None else Some(a.value + b.value)
  }

  /** Visible trees among the first `n` of line `x` (`None`: one of their scans panics). */
  function CountInRow(forest: Forest, x: nat, n: nat): Option<nat>
    requires x < |forest| && n <= |forest[x]|
  {
    if n == 0 then Some(0) else Tally(CountInRow(forest, x, n - 1), VisibleAt(forest, x, n - 1))
  }

  /** Visible trees in the first `m` lines. */
  function CountInRows(forest: Forest, m: nat): Option<nat>
    requires m <= |forest|
  {
    if m == 0 then Some(0) else Plus(CountInRows(forest, m - 1), CountInRow(forest, m - 1, |forest[m - 1]|))
  }

  /** The first loop of `main`: how many trees are visible from some side, or a panic. */
  method CountVisibleTrees(forest: Forest) returns (visibleTrees: Option<nat>)
    ensures visibleTrees == CountInRows(forest, |forest|)
  {
    var count := 0;
    for x := 0 to |forest|
      invariant CountInRows(forest, x) == Some(count)
    {
      var inRow := CountVisibleInRow(forest, x);
      if inRow.None? {
        RowsPanic(forest, x, |forest|);
        return None;
      }
      RowsStep(forest, x, count, inRow.value);
      count := count + inRow.value;
    }
    return Some(count);
  }

  /** The inner loop of the first loop of `main`, over line `x`. */
  method CountVisibleInRow(forest: Forest, x: nat) returns (visibleTrees: Option<nat>)
    requires x < |forest|
    ensures visibleTrees == CountInRow(forest, x, |forest[x]|)
  {
    var count := 0;
    for y := 0 to |forest[x]|
      invariant CountInRow(forest, x, y) == Some(count)
    {
      var visible := IsVisible(forest, x, y);
      if visible.None? {
        RowPanics(forest, x, y, |forest[x]|);
        return None;
      }
      RowStep(forest, x, y, count, visible.value);
      if visible.value {
        count := count + 1;
      }
    }
    return Some(count);
  }

  /** One more tree of line `x` adds 1 to the count when it is visible. */
  lemma RowStep(forest: Forest, x: nat, y: nat, count: nat, visible: bool)
    requires x < |forest| && y < |forest[x]|
    requires CountInRow(forest, x, y) == Some(count) && VisibleAt(forest, x, y) == Some(visible)
    ensures CountInRow(forest, x, y + 1) == Some(if visible then count + 1 else count)
  {
  }

  /** One more line adds its count. */
  lemma RowsStep(forest: Forest, x: nat, above: nat, inRow: nat)
    requires x < |forest| && CountInRows(forest, x) == Some(above)
    requires CountInRow(forest, x, |forest[x]|) == Some(inRow)
    ensures CountInRows(forest, x + 1) == Some(above + inRow)
  {
  }

  /** The `||` chain of the first loop of `main`, evaluated left to right. */
  method IsVisible(forest: Forest, x: nat, y: nat) returns (visible: Option<bool>)
    requires TreeDefined(forest, x, y)
    ensures visible == VisibleAt(forest, x, y)
  {
    visible := IsVisibleFromNorth(forest, x, y);
    if visible == Some(false) {
      visible := IsVisibleFromSouth(forest, x, y);
    }
    if visible == Some(false) {
      visible := IsVisibleFromEast(forest, x, y);
    }
    if visible == Some(false) {
      visible := IsVisibleFromWest(forest, x, y);
    }
  }

  /** A panic at tree `y` is a panic of every longer prefix of its line. */
  lemma {:induction false} RowPanics(forest: Forest, x: nat, y: nat, n: nat)
    requires x < |forest| && y < n <= |forest[x]| && VisibleAt(forest, x, y).None?
    ensures CountInRow(forest, x, n).None?
  {
    if y < n - 1 {
      RowPanics(forest, x, y, n - 1);
    }
  }

  /** A panic on line `x` is a panic of the whole count. */
  lemma {:induction false} RowsPanic(forest: Forest, x: nat, m: nat)
    requires x < m <= |forest| && CountInRow(forest, x, |forest[x]|).None?
    ensures CountInRows(forest, m).None?
  {
    if x < m - 1 {
      RowsPanic(forest, x, m - 1);
    }
  }

  function CellCount(forest: Forest, m: nat): nat
    requires m <= |forest|
  {
    if m == 0 then 0 else CellCount(forest, m - 1) + |forest[m - 1]|
  }

  /** The count never exceeds the number of trees. */
  lemma {:induction false} CountBounded(forest: Forest, m: nat)
    requires m <= |forest| && CountInRows(forest, m).Some?
    ensures CountInRows(forest, m).value <= CellCount(forest, m)
  {
    if m > 0 {
      CountBounded(forest, m - 1);
      RowCountBounded(forest, m - 1, |forest[m - 1]|);
    }
  }

  lemma {:induction false} RowCountBounded(forest: Forest, x: nat, n: nat)
    requires x < |forest| && n <= |forest[x]| && CountInRow(forest, x, n).Some?
    ensures CountInRow(forest, x, n).value <= n
  {
    if n > 0 {
      RowCountBounded(forest, x, n - 1);
    }
  }

  /** On a square forest the count is defined: no visibility scan panics. */
  lemma {:induction false} SquareCounted(forest: Forest, m: nat)
    requires Square(forest) && m <= |forest|
    ensures CountInRows(forest, m).Some?
  {
    if m > 0 {
      SquareCounted(forest, m - 1);
      SquareRowCounted(forest, m - 1, |forest[m - 1]|);
    }
  }

  lemma {:induction false} SquareRowCounted(forest: Forest, x: nat, n: nat)
    requires Square(forest) && x < |forest| && n <= |forest[x]|
    ensures CountInRow(forest, x, n).Some?
  {
    if n > 0 {
      SquareRowCounted(forest, x, n - 1);
      SquareVisibility(forest, x, n - 1);
    }
  }

  /** The counting loop shared by the `los_*` functions: `los` grows by one per tree passed, and
      the scan stops at a tree at least `height` tall, which for the north and south scans
      (`capped`) must also be no taller than the tallest tree passed so far (`max`, from 0). A
      missing tree reached before the stop is a panic. */
  function Scan(cells: seq<Option<nat>>, height: nat, max: nat, los: nat, capped: bool): Option<nat>
  {
    if cells == [] then Some(los)
    else match cells[0]
      case None => None
      case Some(current) =>
        if current >= height && (!capped || current <= max) then Some(los)
        else Scan(cells[1..], height, if current > max then current else max, los + 1, capped)
  }

  /** The tallest tree among `cells` (missing ones count as 0). */
  function MaxOf(cells: seq<Option<nat>>): nat
  {
    if cells == [] then 0
    else
      var m := MaxOf(cells[..|cells| - 1]);
      var last := cells[|cells| - 1];
      if last.Some? && last.value > m then last.value else m
  }

  /** Whether the scan stops at tree `j`: tall enough, and for a capped scan not above every
      tree before it. */
  predicate StopsAt(cells: seq<Option<nat>>, height: nat, capped: bool, j: nat)
    requires j < |cells| && cells[j].Some?
  {
    cells[j].value >= height && (!capped || cells[j].value <= MaxOf(cells[..j]))
  }

  /** Tree `j` is there and the scan goes past it. */
  predicate Passes(cells: seq<Option<nat>>, height: nat, capped: bool, j: nat)
    requires j < |cells|
  {
    cells[j].Some? && !StopsAt(cells, height, capped, j)
  }

  /** What a scan counts: the trees passed before the first stop (all of them if none stops),
      added to the starting value; and it panics exactly when a missing tree comes before the
      stop. */
  lemma ScanCountsUntilStop(cells: seq<Option<nat>>, height: nat, los: nat, capped: bool)
    ensures Scan(cells, height, 0, los, capped).Some? ==>
      var k := Scan(cells, height, 0, los, capped).value - los;
      0 <= k <= |cells|
      && (forall j :: 0 <= j < k ==> Passes(cells, height, capped, j))
      && (k < |cells| ==> cells[k].Some? && StopsAt(cells, height, capped, k))
    ensures Scan(cells, height, 0, los, capped).None? <==>
      exists k :: 0 <= k < |cells| && cells[k].None? && forall j :: 0 <= j < k ==> Passes(cells, height, capped, j)
  {
    assert cells[0..] == cells;
    assert cells[..0] == [];
    ScanCountFrom(cells, 0, height, los, capped);
    ScanPanicFrom(cells, 0, height, los, capped);
  }

  /** The count of a scan resumed at `start`, in terms of the whole line. */
  lemma {:induction false} ScanCountFrom(cells: seq<Option<nat>>, start: nat, height: nat, los: nat, capped: bool)
    requires start <= |cells|
    ensures Scan(cells[start..], height, MaxOf(cells[..start]), los, capped).Some? ==>
      var k := Scan(cells[start..], height, MaxOf(cells[..start]), los, capped).value - los;
      0 <= k <= |cells| - start
      && (forall j :: start <= j < start + k ==> Passes(cells, height, capped, j))
      && (start + k < |cells| ==> cells[start + k].Some? && StopsAt(cells, height, capped, start + k))
    decreases |cells| - start
  {
    if start < |cells| {
      var m := MaxOf(cells[..start]);
      assert cells[start..][0] == cells[start];
      if cells[start].Some? && !(cells[start].value >= height && (!capped || cells[start].value <= m)) {
        ResumeScan(cells, start, height, los, capped);
        ScanCountFrom(cells, start + 1, height, los + 1, capped);
        ScanShift(cells[start + 1..], height, MaxOf(cells[..start + 1]), los, capped);
        assert Passes(cells, height, capped, start);
      } else if cells[start].Some? {
        assert !Passes(cells, height, capped, start);
      }
    }
  }

  /** When the scan resumed at `start` passes that tree, it goes on as the scan resumed one
      further with one more counted. */
  lemma ResumeScan(cells: seq<Option<nat>>, start: nat, height: nat, los: nat, capped: bool)
    requires start < |cells| && cells[start].Some?
    requires var m := MaxOf(cells[..start]); !(cells[start].value >= height && (!capped || cells[start].value <= m))
    ensures Scan(cells[start..], height, MaxOf(cells[..start]), los, capped)
      == Scan(cells[start + 1..], height, MaxOf(cells[..start + 1]), los + 1, capped)
  {
    var m := MaxOf(cells[..start]);
    var current := cells[start].value;
    assert cells[..start + 1][..start] == cells[..start];
    assert MaxOf(cells[..start + 1]) == if current > m then current else m;
    assert cells[start..][0] == cells[start];
    assert cells[start..][1..] == cells[start + 1..];
  }

  /** A scan resumed at `start` panics exactly when a missing tree comes before its stop. */
  lemma {:induction false} ScanPanicFrom(cells: seq<Option<nat>>, start: nat, height: nat, los: nat, capped: bool)
    requires start <= |cells|
    ensures Scan(cells[start..], height, MaxOf(cells[..start]), los, capped).None? <==>
      exists k :: start <= k < |cells| && cells[k].None? && forall j :: start <= j < k ==> Passes(cells, height, capped, j)
    decreases |cells| - start
  {
    if start < |cells| {
      var m := MaxOf(cells[..start]);
      assert cells[start..][0] == cells[start];
      if cells[start].Some? && !(cells[start].value >= height && (!capped || cells[start].value <= m)) {
        ResumeScan(cells, start, height, los, capped);
        ScanPanicFrom(cells, start + 1, height, los + 1, capped);
        assert Passes(cells, height, capped, start);
        ScanPanicsFrom(cells, start, height, capped);
      } else if cells[start].Some? {
        assert !Passes(cells, height, capped, start);
      }
    }
  }

  /** Passing tree `start` moves the first missing tree's witness by one. */
  lemma ScanPanicsFrom(cells: seq<Option<nat>>, start: nat, height: nat, capped: bool)
    requires start < |cells| && Passes(cells, height, capped, start)
    ensures (exists k :: start + 1 <= k < |cells| && cells[k].None? && forall j :: start + 1 <= j < k ==> Passes(cells, height, capped, j))
      <==> (exists k :: start <= k < |cells| && cells[k].None? && forall j :: start <= j < k ==> Passes(cells, height, capped, j))
  {
    if exists k :: start <= k < |cells| && cells[k].None? && forall j :: start <= j < k ==> Passes(cells, height, capped, j) {
      var k :| start <= k < |cells| && cells[k].None? && forall j :: start <= j < k ==> Passes(cells, height, capped, j);
      assert k != start;
      assert forall j :: start + 1 <= j < k ==> Passes(cells, height, capped, j);
    }
  }

  /** Starting the count one higher ends it one higher. */
  lemma {:induction false} ScanShift(cells: seq<Option<nat>>, height: nat, max: nat, los: nat, capped: bool)
    ensures Scan(cells, height, max, los + 1, capped).Some? <==> Scan(cells, height, max, los, capped).Some?
    ensures Scan(cells, height, max, los, capped).Some? ==>
      Scan(cells, height, max, los + 1, capped).value == Scan(cells, height, max, los, capped).value + 1
      && Scan(cells, height, max, los, capped).value >= los
  {
    if cells != [] && cells[0].Some? {
      var current := cells[0].value;
      ScanShift(cells[1..], height, if current > max then current else max, los + 1, capped);
    }
  }

  /** `los_north`: starts at 1, capped scan upwards. */
  method LosNorth(forest: Forest, x: nat, y: nat) returns (los: Option<nat>)
    requires TreeDefined(forest, x, y)
    ensures los == Scan(Up(forest, x, y), forest[x][y], 0, 1, true)
  {
    var count := 1;
    var height := forest[x][y];
    var max := 0;
    var i := x;
    while i > 0
      invariant 0 <= i <= x
      invariant Scan(Up(forest, x, y), height, 0, 1, true) == Scan(Up(forest, i, y), height, max, count, true)
    {
      i := i - 1;
      if y >= |forest[i]| {
        return None;
      }
      var current := forest[i][y];
      if current >= height && current <= max {
        return Some(count);
      }
      count := count + 1;
      if current > max {
        max := current;
      }
    }
    return Some(count);
  }

  /** `los_south`: starts at 1, capped scan downwards up to the length of the tree's line. */
  method LosSouth(forest: Forest, x: nat, y: nat) returns (los: Option<nat>)
    requires TreeDefined(forest, x, y)
    ensures los == Scan(Down(forest, x + 1, |forest[x]|, y), forest[x][y], 0, 1, true)
  {
    var count := 1;
    var height := forest[x][y];
    var max := 0;
    var i := x + 1;
    while i < |forest[x]|
      invariant x + 1 <= i
      invariant Scan(Down(forest, x + 1, |forest[x]|, y), height, 0, 1, true)
        == Scan(Down(forest, i, |forest[x]|, y), height, max, count, true)
      decreases |forest[x]| - i
    {
      if i >= |forest| || y >= |forest[i]| {
        return None;
      }
      var current := forest[i][y];
      i := i + 1;
      if current >= height && current <= max {
        return Some(count);
      }
      count := count + 1;
      if current > max {
        max := current;
      }
    }
    return Some(count);
  }

  /** `los_east`: starts at 1, uncapped scan rightwards up to the number of lines. */
  method LosEast(forest: Forest, x: nat, y: nat) returns (los: Option<nat>)
    requires TreeDefined(forest, x, y)
    ensures los == Scan(Right(forest, x, y + 1, |forest|), forest[x][y], 0, 1, false)
  {
    var count := 1;
    var height := forest[x][y];
    var max := 0;
    var i := y + 1;
    while i < |forest|
      invariant y + 1 <= i
      invariant Scan(Right(forest, x, y + 1, |forest|), height, 0, 1, false)
        == Scan(Right(forest, x, i, |forest|), height, max, count, false)
      decreases |forest| - i
    {
      if i >= |forest[x]| {
        return None;
      }
      var current := forest[x][i];
      i := i + 1;
      if current >= height {
        return Some(count);
      }
      count := count + 1;
      if current > max {
        max := current;
      }
    }
    return Some(count);
  }

  /** `los_west`: starts at 0, uncapped scan leftwards. */
  method LosWest(forest: Forest, x: nat, y: nat) returns (los: Option<nat>)
    requires TreeDefined(forest, x, y)
    ensures los == Scan(Left(forest, x, y), forest[x][y], 0, 0, false)
  {
    var count := 0;
    var height := forest[x][y];
    var max := 0;
    var i := y;
    while i > 0
      invariant 0 <= i <= y
      invariant Scan(Left(forest, x, y), height, 0, 0, false) == Scan(Left(forest, x, i), height, max, count, false)
    {
      i := i - 1;
      var current := forest[x][i];
      if current >= height {
        return Some(count);
      }
      count := count + 1;
      if current > max {
        max := current;
      }
    }
    return Some(count);
  }

  predicate OnBorder(forest: Forest, x: nat, y: nat)
    requires x < |forest|
  {
    x == 0 || y == 0 || x + 1 == |forest| || y + 1 == |forest[x]|
  }

  /** The scenic score of one tree: 0 on the border, without scanning; otherwise the product of
      the four scans, or a panic when one of them panics. */
  function ScenicScore(forest: Forest, x: nat, y: nat): Option<nat>
    requires TreeDefined(forest, x, y)
  {
    if OnBorder(forest, x, y) then Some(0)
    else
      var h := forest[x][y];
      var north := Scan(Up(forest, x, y), h, 0, 1, true);
      var south := Scan(Down(forest, x + 1, |forest[x]|, y), h, 0, 1, true);
      var east := Scan(Right(forest, x, y + 1, |forest|), h, 0, 1, false);
      var west := Scan(Left(forest, x, y), h, 0, 0, false);
      if north.None? || south.None? || east.None? || west.None? then None
      else Some(Times(Times(Times(north.value, south.value), east.value), west.value))
  }

  /** `a * b`, written as repeated addition so that reasoning about scores stays linear. */
  function Times(a: nat, b: nat): nat
  {
    if a == 0 then 0 else Times(a - 1, b) + b
  }

  lemma {:induction false} TimesIsProduct(a: nat, b: nat)
    ensures Times(a, b) == a * b
  {
    if a > 0 {
      TimesIsProduct(a - 1, b);
    }
  }

  /** `calculate_los`. */
  method CalculateLos(forest: Forest, x: nat, y: nat) returns (los: Option<nat>)
    requires TreeDefined(forest, x, y)
    ensures los == ScenicScore(forest, x, y)
    ensures OnBorder(forest, x, y) ==> los == Some(0)
  {
    if x == 0 || y == 0 || x + 1 == |forest| || y + 1 == |forest[x]| {
      return Some(0);
    }
    var north := LosNorth(forest, x, y);
    var south := LosSouth(forest, x, y);
    var east := LosEast(forest, x, y);
    var west := LosWest(forest, x, y);
    if north.None? || south.None? || east.None? || west.None? {
      return None;
    }
    TimesIsProduct(north.value, south.value);
    var northSouth := north.value * south.value;
    TimesIsProduct(northSouth, east.value);
    var withEast := northSouth * east.value;
    TimesIsProduct(withEast, west.value);
    los := Some(withEast * west.value);
  }

  /** Every cell of `cells` holds a tree. */
  predicate AllThere(cells: seq<Option<nat>>)
  {
    forall k :: 0 <= k < |cells| ==> cells[k].Some?
  }

  lemma {:induction false} UpThere(forest: Forest, i: nat, y: nat)
    requires forall r :: 0 <= r < i ==> TreeDefined(forest, r, y)
    ensures AllThere(Up(forest, i, y))
  {
    if i > 0 {
      UpThere(forest, i - 1, y);
    }
  }

  lemma {:induction false} DownThere(forest: Forest, lo: nat, hi: nat, y: nat)
    requires forall r :: lo <= r < hi ==> TreeDefined(forest, r, y)
    ensures AllThere(Down(forest, lo, hi, y))
    decreases hi - lo
  {
    if lo < hi {
      DownThere(forest, lo + 1, hi, y);
    }
  }

  lemma {:induction false} RightThere(forest: Forest, x: nat, lo: nat, hi: nat)
    requires x < |forest| && hi <= |forest[x]|
    ensures AllThere(Right(forest, x, lo, hi))
    decreases hi - lo
  {
    if lo < hi {
      RightThere(forest, x, lo + 1, hi);
    }
  }

  lemma {:induction false} LeftThere(forest: Forest, x: nat, i: nat)
    requires x < |forest| && i <= |forest[x]|
    ensures AllThere(Left(forest, x, i))
  {
    if i > 0 {
      LeftThere(forest, x, i - 1);
    }
  }

  /** A scan over trees that are all there never panics. */
  lemma ScanThere(cells: seq<Option<nat>>, height: nat, los: nat, capped: bool)
    requires AllThere(cells)
    ensures Scan(cells, height, 0, los, capped).Some?
  {
    ScanCountsUntilStop(cells, height, los, capped);
  }

  /** On a square forest no sight-line scan panics. */
  lemma SquareScored(forest: Forest, x: nat, y: nat)
    requires Square(forest) && TreeDefined(forest, x, y)
    ensures ScenicScore(forest, x, y).Some?
  {
    if !OnBorder(forest, x, y) {
      var h := forest[x][y];
      assert |forest[x]| == |forest|;
      UpThere(forest, x, y);
      DownThere(forest, x + 1, |forest[x]|, y);
      RightThere(forest, x, y + 1, |forest|);
      LeftThere(forest, x, y);
      ScanThere(Up(forest, x, y), h, 1, true);
      ScanThere(Down(forest, x + 1, |forest[x]|, y), h, 1, true);
      ScanThere(Right(forest, x, y + 1, |forest|), h, 1, false);
      ScanThere(Left(forest, x, y), h, 0, false);
    }
  }

  /** The second loop of `main`: the largest scenic score, which is one of the trees' scores
      (or 0); a panic when the score of some tree panics. */
  method MaxScenicScore(forest: Forest) returns (maxLos: Option<nat>)
    ensures maxLos.None? ==> exists x: nat, y: nat :: TreeDefined(forest, x, y) && ScenicScore(forest, x, y).None?
    ensures maxLos.Some? ==> forall x: nat, y: nat :: TreeDefined(forest, x, y) ==> ScoredAtMost(forest, x, y, maxLos.value)
    ensures maxLos.Some? && maxLos.value > 0 ==> exists x: nat, y: nat :: TreeDefined(forest, x, y) && ScenicScore(forest, x, y) == maxLos
  {
    var best := 0;
    ghost var bestX: nat, bestY: nat := 0, 0;
    ghost var table: seq<seq<nat>> := [];
    for x := 0 to |forest|
      invariant |table| == x && TableOf(forest, table) && TableMax(table, best, bestX, bestY)
    {
      var rowMax, scores, bestInRow := MaxScenicScoreInRow(forest, x);
      if rowMax.None? {
        return None;
      }
      TableOfStep(forest, table, scores);
      best, bestX, bestY := ScoreRow(table, scores, rowMax.value, bestInRow, best, bestX, bestY);
      table := table + [scores];
    }
    forall x: nat, y: nat | TreeDefined(forest, x, y)
      ensures ScoredAtMost(forest, x, y, best)
    {
      assert RowTable(forest, x, table[x]) && RowBelow(table[x], best);
      assert ScoreIs(forest, x, y, table[x][y]);
    }
    if best > 0 {
      assert ScoreIs(forest, bestX, bestY, table[bestX][bestY]);
    }
    return Some(best);
  }

  /** Tree `x`, `y` has a score, and it is at most `bound`. */
  ghost predicate ScoredAtMost(forest: Forest, x: nat, y: nat, bound: nat)
    requires TreeDefined(forest, x, y)
  {
    ScenicScore(forest, x, y).Some? && ScenicScore(forest, x, y).value <= bound
  }

  /** Tree `x`, `y` scores `score`. */
  ghost predicate ScoreIs(forest: Forest, x: nat, y: nat, score: nat)
    requires x < |forest|
  {
    y < |forest[x]| && ScenicScore(forest, x, y) == Some(score)
  }

  /** `scores` are the scores of the first trees of line `x`, in order. */
  ghost predicate ScoresOf(forest: Forest, x: nat, scores: seq<nat>)
    requires x < |forest|
  {
    forall y :: 0 <= y < |scores| ==> ScoreIs(forest, x, y, scores[y])
  }

  /** `row` holds the scores of all trees of line `x`. */
  ghost predicate RowTable(forest: Forest, x: nat, row: seq<nat>)
    requires x < |forest|
  {
    |row| == |forest[x]| && ScoresOf(forest, x, row)
  }

  /** `table` holds the scores of all trees of its first lines. */
  ghost predicate TableOf(forest: Forest, table: seq<seq<nat>>)
  {
    |table| <= |forest| && forall x :: 0 <= x < |table| ==> RowTable(forest, x, table[x])
  }

  lemma TableOfStep(forest: Forest, table: seq<seq<nat>>, row: seq<nat>)
    requires TableOf(forest, table) && |table| < |forest| && RowTable(forest, |table|, row)
    ensures TableOf(forest, table + [row])
  {
    forall x | 0 <= x < |table| + 1 ensures RowTable(forest, x, (table + [row])[x]) {
      if x < |table| {
        assert (table + [row])[x] == table[x];
      }
    }
  }

  /** Every score of `row` is at most `bound`. */
  ghost predicate RowBelow(row: seq<nat>, bound: nat)
  {
    forall y :: 0 <= y < |row| ==> row[y] <= bound
  }

  /** `best` bounds every score of `table` and is one of them (or 0). */
  ghost predicate TableMax(table: seq<seq<nat>>, best: nat, bestX: nat, bestY: nat)
  {
    && (forall x :: 0 <= x < |table| ==> RowBelow(table[x], best))
    && (best == 0 || (bestX < |table| && bestY < |table[bestX]| && table[bestX][bestY] == best))
  }

  /** The bookkeeping of one turn of the outer loop: the best of the next line replaces the best
      so far when it is higher. */
  method ScoreRow(ghost table: seq<seq<nat>>, ghost row: seq<nat>, rowMax: nat, ghost bestInRow: nat,
                  best: nat, ghost bestX: nat, ghost bestY: nat)
    returns (best': nat, ghost bestX': nat, ghost bestY': nat)
    requires TableMax(table, best, bestX, bestY) && MaxSoFar(row, rowMax, bestInRow)
    ensures TableMax(table + [row], best', bestX', bestY')
    ensures best' == if rowMax > best then rowMax else best
  {
    best', bestX', bestY' := best, bestX, bestY;
    if rowMax > best {
      best', bestX', bestY' := rowMax, |table|, bestInRow;
    }
    var table' := table + [row];
    forall x | 0 <= x < |table'| ensures RowBelow(table'[x], best') {
      if x < |table| {
        assert table'[x] == table[x] && RowBelow(table[x], best);
      }
    }
    assert best' == 0 || table'[bestX'][bestY'] == best';
  }

  /** The inner loop of the second loop of `main`, over one line: the scores of its trees and
      their maximum, or a panic. */
  method MaxScenicScoreInRow(forest: Forest, x: nat) returns (rowMax: Option<nat>, ghost scores: seq<nat>, ghost best: nat)
    requires x < |forest|
    ensures rowMax.None? ==> exists y :: 0 <= y < |forest[x]| && ScenicScore(forest, x, y).None?
    ensures rowMax.Some? ==> RowTable(forest, x, scores) && MaxSoFar(scores, rowMax.value, best)
  {
    var maxLos := 0;
    best := 0;
    scores := [];
    for y := 0 to |forest[x]|
      invariant |scores| == y && ScoresOf(forest, x, scores)
      invariant MaxSoFar(scores, maxLos, best)
    {
      var los := CalculateLos(forest, x, y);
      if los.None? {
        return None, scores, best;
      }
      ghost var best' := if los.value > maxLos then y else best;
      MaxSoFarStep(scores, maxLos, best, los.value, if los.value > maxLos then los.value else maxLos, best');
      ScoresOfStep(forest, x, scores, los.value);
      if los.value > maxLos {
        maxLos := los.value;
      }
      best, scores := best', scores + [los.value];
    }
    return Some(maxLos), scores, best;
  }

  /** Appending the score of the next tree keeps `ScoresOf`. */
  lemma ScoresOfStep(forest: Forest, x: nat, scores: seq<nat>, los: nat)
    requires x < |forest| && ScoresOf(forest, x, scores) && ScoreIs(forest, x, |scores|, los)
    ensures ScoresOf(forest, x, scores + [los])
  {
    var scores' := scores + [los];
    forall y | 0 <= y < |scores'| ensures ScoreIs(forest, x, y, scores'[y]) {
      if y < |scores| {
        assert scores'[y] == scores[y];
      }
    }
  }

  /** Appending a score keeps `MaxSoFar` when the maximum moves to it exactly when it is
      higher. */
  lemma MaxSoFarStep(scores: seq<nat>, maxLos: nat, best: nat, los: nat, maxLos': nat, best': nat)
    requires MaxSoFar(scores, maxLos, best)
    requires if los > maxLos then maxLos' == los && best' == |scores| else maxLos' == maxLos && best' == best
    ensures MaxSoFar(scores + [los], maxLos', best')
  {
    var s' := scores + [los];
    forall k | 0 <= k < |s'|
      ensures s'[k] <= maxLos'
    {
      if k < |scores| {
        assert s'[k] == scores[k];
      }
    }
  }

  /** `maxLos` is the highest of `scores`, found at `best`, or 0 with nothing higher. */
  ghost predicate MaxSoFar(scores: seq<nat>, maxLos: nat, best: nat)
  {
    RowBelow(scores, maxLos) && (maxLos == 0 || (best < |scores| && scores[best] == maxLos))
  }
}
