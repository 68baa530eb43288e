/** Day 12, `main`: reads the height map, builds its graph, runs A* from `S` to `E` and
    prints the number of steps of the path found, or 0 when none is. */
module HillClimbing {
  import opened Options
  import opened Text
  import opened HeightMaps
  import opened Pathfinding

  /** The text split into lines, and each line into its characters. */
  method ParseHeightMap(data: string) returns (grid: seq<seq<char>>)
    ensures grid == Lines(data)
    ensures forall y :: 0 <= y < |grid| ==> '\n' !in grid[y]
  {
    var lines := Lines(data);
    grid := [];
    for i := 0 to |lines|
      invariant grid == lines[..i]
    {
      var row: seq<char> := [];
      for k := 0 to |lines[i]|
        invariant row == lines[i][..k]
      {
        row := row + [lines[i][k]];
      }
      assert lines[i][..|lines[i]|] == lines[i];
      grid := grid + [row];
    }
    assert lines[..|lines|] == lines;
  }

  /** A grid the height map can be built from: there is a first row to take the row length
      from, and when that row is empty no cell anywhere needs a column (a remainder by 0). */
  predicate Buildable(grid: seq<seq<char>>) {
    |grid| > 0 && (|grid[0]| == 0 ==> forall y :: 0 <= y < |grid| ==> grid[y] == [])
  }

  /** The graph the height map holds once built. */
  function Graph(grid: seq<seq<char>>): seq<Node>
    requires Buildable(grid)
  {
    Linked(Cells(grid, |grid|), |grid[0]|)
  }

  function StartOf(grid: seq<seq<char>>): nat
    requires |grid| > 0
  {
    MarkerIndex(grid, 'S', |grid[0]|, |grid|)
  }

  function EndOf(grid: seq<seq<char>>): nat
    requires |grid| > 0
  {
    MarkerIndex(grid, 'E', |grid[0]|, |grid|)
  }

  /** The grids `main` gets through before the search: it can be built, and both marker
      indices name a node, as printing `arena[start]` and `arena[end]` needs. */
  predicate Searchable(grid: seq<seq<char>>) {
    Buildable(grid) && StartOf(grid) < |Graph(grid)| && EndOf(grid) < |Graph(grid)|
  }

  /** What the printed step count means: `steps + 1` nodes walk the graph from start to
      end, and on a rectangular grid of fewer than `i32::MAX` cells no walk is shorter; or
      the count is 0 because A* found no path, which in a graph of fewer than `i32::MAX`
      nodes means none exists. */
  ghost predicate Explains(grid: seq<seq<char>>, steps: nat)
    requires Searchable(grid)
  {
    var arena, s, e := Graph(grid), StartOf(grid), EndOf(grid);
    || (&& (exists path :: IsWalk(arena, path, s, e) && |path| == steps + 1)
        && (Rectangular(grid, |grid[0]|) && |arena| < I32_MAX ==>
              forall path :: IsWalk(arena, path, s, e) ==> steps + 1 <= |path|))
    || (steps == 0 && (|arena| < I32_MAX ==> forall path :: !IsWalk(arena, path, s, e)))
  }

  /** The number `main` prints, or `None` where it panics before printing it. */
  method StepCount(data: string) returns (r: Option<nat>)
    ensures r.Some? <==> Searchable(Lines(data))
    ensures r.Some? ==> Explains(Lines(data), r.value)
  {
    var grid := ParseHeightMap(data);
    if |grid| == 0 {
      return None;
    }
    if |grid[0]| == 0 && exists y :: 0 <= y < |grid| && grid[y] != [] {
      return None;
    }
    var heightMap := new HeightMap(grid);
    CellsFresh(grid, |grid|);
    LinkedShape(Cells(grid, |grid|), |grid[0]|);
    if heightMap.start >= |heightMap.arena| || heightMap.end >= |heightMap.arena| {
      return None;
    }
    assert |grid[0]| > 0;
    if Rectangular(grid, |grid[0]|) {
      RectangularUnitEdges(grid, |grid[0]|);
    }
    var pathfinder := new Pathfinder(heightMap);
    var found := pathfinder.AStar();
    var path := if found.Some? then found.value else [0];
    return Some(|path| - 1);
  }
}
