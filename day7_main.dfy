/** Day 7: the answers `main` computes from the parsed directory tree. */
module SpaceReport {
  import opened Options
  import opened Text
  import opened Directories
  import opened SessionParser

  const SMALL_DIRECTORY: nat := 100000
  const DISK_SIZE: nat := 70000000
  const NEEDED_SPACE: nat := 30000000

  datatype Report = Report(total: nat, smallSum: nat, smallest: nat)

  /** The total size of a list of directories, as `main` folds it. */
  function SumSizes(ds: seq<Directory>): nat
  {
    if ds == [] then 0 else SumSizes(ds[..|ds| - 1]) + ds[|ds| - 1].size
  }

  /** The total of two lists joined is the sum of their totals. */
  lemma {:induction false} SumSizesAppend(ds: seq<Directory>, es: seq<Directory>)
    ensures SumSizes(ds + es) == SumSizes(ds) + SumSizes(es)
    decreases |es|
  {
    if es != [] {
      assert (ds + es)[..|ds + es| - 1] == ds + es[..|es| - 1];
      SumSizesAppend(ds, es[..|es| - 1]);
    } else {
      assert ds + es == ds;
    }
  }

  /** A list of small directories totals at most the small bound per directory. */
  lemma {:induction false} SmallSumBounded(ds: seq<Directory>)
    requires forall k :: 0 <= k < |ds| ==> ds[k].size <= SMALL_DIRECTORY
    ensures SumSizes(ds) <= SMALL_DIRECTORY * |ds|
  {
    if ds != [] {
      SmallSumBounded(ds[..|ds| - 1]);
    }
  }

  /** `30000000 - (70000000 - total)` in `usize`: `None` where either subtraction underflows. */
  function RequiredSpace(total: nat): (r: Option<nat>)
    ensures r.Some? <==> DISK_SIZE - NEEDED_SPACE <= total <= DISK_SIZE
    ensures r.Some? ==> r.value + DISK_SIZE == total + NEEDED_SPACE && r.value <= NEEDED_SPACE
  {
    if total > DISK_SIZE then None
    else
      var free := DISK_SIZE - total;
      if free > NEEDED_SPACE then None else Some(NEEDED_SPACE - free)
  }

  /** The smallest directory size that is at least `required`, or `usize::MAX` when none is. */
  method SmallestCandidate(arena: seq<Directory>, required: nat) returns (smallest: nat)
    ensures smallest <= USIZE_MAX
    ensures forall k :: 0 <= k < |arena| && arena[k].size >= required ==> smallest <= arena[k].size
    ensures smallest == USIZE_MAX || exists k :: 0 <= k < |arena| && arena[k].size >= required && arena[k].size == smallest
  {
    smallest := USIZE_MAX;
    for i := 0 to |arena|
      invariant smallest <= USIZE_MAX
      invariant forall k :: 0 <= k < i && arena[k].size >= required ==> smallest <= arena[k].size
      invariant smallest == USIZE_MAX || exists k :: 0 <= k < i && arena[k].size >= required && arena[k].size == smallest
    {
      if arena[i].size >= required && arena[i].size < smallest {
        smallest := arena[i].size;
      }
    }
  }

  predicate IsSmall(d: Directory)
  {
    d.size <= SMALL_DIRECTORY
  }

  /** `main` after reading the input: parse the session, then report the root's size, the total
      of the small directories and the smallest directory big enough to free the space needed.
      `None` where the source panics. */
  method Solve(input: string) returns (parser: Parser, report: Option<Report>)
    requires NoBareCommand(Lines(input))
    ensures fresh(parser) && parser.Valid()
    ensures report.Some? ==> Accepts(Lines(input))
    ensures report.Some? ==> (report.value.total == parser.arena[0].size
                              && report.value.smallSum == SumSizes(Filter(parser.arena, IsSmall))
                              && RequiredSpace(report.value.total).Some?)
    ensures report.Some? ==> var required := RequiredSpace(report.value.total).value;
      && (forall k :: 0 <= k < |parser.arena| && parser.arena[k].size >= required ==> report.value.smallest <= parser.arena[k].size)
      && (report.value.smallest == USIZE_MAX
          || exists k :: 0 <= k < |parser.arena| && parser.arena[k].size >= required && parser.arena[k].size == report.value.smallest)
    ensures report.Some? ==> (parser.arena, parser.cursor) == Session(ROOT_ONLY, 0, Lines(input))
    ensures Accepts(Lines(input)) && RequiredSpace(parser.arena[0].size).Some? ==> report.Some?
  {
    parser := new Parser(input);
    var ok := parser.Parse();
    if !ok {
      return parser, None;
    }
    var root := parser.GetRoot();
    var total := root.value.size;
    var small := parser.FindDirectories(IsSmall);
    var smallSum := SumSizes(small);
    var required := RequiredSpace(total);
    if required.None? {
      return parser, None;
    }
    var smallest := SmallestCandidate(parser.arena, required.value);
    report := Some(Report(total, smallSum, smallest));
  }
}
