/** Day 12, the height map: the puzzle grid is flattened row by row into an arena of
    nodes, and every node lists the orthogonal grid neighbours whose height differs from
    its own by at most one. */
module HeightMaps {
  import opened Options

  /** A grid cell: coordinates, height letter, and the arena indices it has an edge to. */
  datatype Node = Node(x: nat, y: nat, height: char, neighbors: seq<nat>)

  /** The height stored for a grid character: the start marker `S` sits at height `a`,
      the end marker `E` at height `z`, everything else is its own height. */
  function Converted(c: char): (h: char)
    ensures c == 'S' ==> h == 'a'
    ensures c == 'E' ==> h == 'z'
    ensures c != 'S' && c != 'E' ==> h == c
  {
    if c == 'S' then 'a' else if c == 'E' then 'z' else c
  }

  /** Appending one edge to a node changes nothing but the end of its neighbour list. */
  function AddNeighbor(n: Node, neighbor: nat): (r: Node)
    ensures r.x == n.x && r.y == n.y && r.height == n.height
    ensures |r.neighbors| == |n.neighbors| + 1
    ensures r.neighbors[..|n.neighbors|] == n.neighbors
    ensures r.neighbors[|n.neighbors|] == neighbor
  {
    n.(neighbors := n.neighbors + [neighbor])
  }

  // ---------------------------------------------------------------------------------
  // Building the arena

  /** The fresh nodes of row `y`, one per character, in order. */
  function RowNodes(row: seq<char>, y: nat): (r: seq<Node>)
    ensures |r| == |row|
    ensures forall x :: 0 <= x < |row| ==> r[x] == Node(x, y, Converted(row[x]), [])
  {
    if |row| == 0 then []
    else RowNodes(row[..|row| - 1], y) + [Node(|row| - 1, y, Converted(row[|row| - 1]), [])]
  }

  /** The index the source computes for cell (x, y): `y * rowLength + x`. */
  function RowMajor(y: nat, rowLength: nat, x: nat): nat {
    y * rowLength + x
  }

  lemma RowNodesStep(row: seq<char>, x: nat, y: nat)
    requires x < |row|
    ensures RowNodes(row[..x + 1], y) == RowNodes(row[..x], y) + [Node(x, y, Converted(row[x]), [])]
  {
    assert row[..x + 1][..x] == row[..x];
  }

  /** The fresh nodes of the first `rows` rows, in row-major order. */
  function Cells(grid: seq<seq<char>>, rows: nat): (r: seq<Node>)
    requires rows <= |grid|
    ensures (forall y :: 0 <= y < rows ==> grid[y] == []) ==> r == []
  {
    if rows == 0 then [] else Cells(grid, rows - 1) + RowNodes(grid[rows - 1], rows - 1)
  }

  /** Every node the flattening builds starts out with no neighbours. */
  lemma {:induction false} CellsFresh(grid: seq<seq<char>>, rows: nat)
    requires rows <= |grid|
    ensures forall i :: 0 <= i < |Cells(grid, rows)| ==> Cells(grid, rows)[i].neighbors == []
  {
    if rows > 0 {
      CellsFresh(grid, rows - 1);
    }
  }

  /** The column of the last occurrence of `c` in `row`, if any. */
  function LastIn(row: seq<char>, c: char): (r: Option<nat>)
    ensures r.None? <==> c !in row
    ensures r.Some? ==> r.value < |row| && row[r.value] == c
    ensures r.Some? ==> forall x :: r.value < x < |row| ==> row[x] != c
  {
    if |row| == 0 then None
    else if row[|row| - 1] == c then Some(|row| - 1)
    else LastIn(row[..|row| - 1], c)
  }

  /** The marker index after scanning row `y`, which held `prev` before it. */
  function MarkerAfterRow(prev: nat, row: seq<char>, c: char, rowLength: nat, y: nat): nat
  {
    match LastIn(row, c)
    case Some(x) => RowMajor(y, rowLength, x)
    case None => prev
  }

  lemma MarkerAfterRowStep(prev: nat, row: seq<char>, x: nat, c: char, rowLength: nat, y: nat)
    requires x < |row|
    ensures MarkerAfterRow(prev, row[..x + 1], c, rowLength, y)
      == if row[x] == c then RowMajor(y, rowLength, x) else MarkerAfterRow(prev, row[..x], c, rowLength, y)
  {
    assert row[..x + 1][..x] == row[..x];
  }

  predicate NoMarker(grid: seq<seq<char>>, c: char, rows: nat)
    requires rows <= |grid|
  {
    forall y, x :: 0 <= y < rows && 0 <= x < |grid[y]| ==> grid[y][x] != c
  }

  /** Cell (x, y) holds `c` and no cell after it in row-major order (within `rows`) does. */
  predicate LastMarkerAt(grid: seq<seq<char>>, c: char, rows: nat, y: nat, x: nat)
    requires rows <= |grid|
  {
    && y < rows && x < |grid[y]| && grid[y][x] == c
    && (forall x' :: x < x' < |grid[y]| ==> grid[y][x'] != c)
    && (forall y', x' :: y < y' < rows && 0 <= x' < |grid[y']| ==> grid[y'][x'] != c)
  }

  /** `index` is `y * rowLength + x` for the last occurrence (x, y) of `c` in the first `rows` rows. */
  ghost predicate MarkerAt(grid: seq<seq<char>>, c: char, rowLength: nat, rows: nat, index: nat)
    requires rows <= |grid|
  {
    exists y: nat, x: nat :: LastMarkerAt(grid, c, rows, y, x) && index == RowMajor(y, rowLength, x)
  }

  /** The index `y * rowLength + x` recorded for marker `c` after the first `rows` rows:
      that of its last occurrence, or 0 when it does not occur. */
  function MarkerIndex(grid: seq<seq<char>>, c: char, rowLength: nat, rows: nat): (r: nat)
    requires rows <= |grid|
    ensures NoMarker(grid, c, rows) ==> r == 0
    ensures !NoMarker(grid, c, rows) ==> MarkerAt(grid, c, rowLength, rows, r)
  {
    if rows == 0 then 0
    else
      var prev := MarkerIndex(grid, c, rowLength, rows - 1);
      MarkerStep(grid, c, rowLength, rows, prev);
      MarkerAfterRow(prev, grid[rows - 1], c, rowLength, rows - 1)
  }

  /** One more row keeps the marker index describing the last occurrence. */
  lemma MarkerStep(grid: seq<seq<char>>, c: char, rowLength: nat, rows: nat, prev: nat)
    requires 0 < rows <= |grid|
    requires NoMarker(grid, c, rows - 1) ==> prev == 0
    requires !NoMarker(grid, c, rows - 1) ==> MarkerAt(grid, c, rowLength, rows - 1, prev)
    ensures NoMarker(grid, c, rows) ==> MarkerAfterRow(prev, grid[rows - 1], c, rowLength, rows - 1) == 0
    ensures !NoMarker(grid, c, rows) ==>
      MarkerAt(grid, c, rowLength, rows, MarkerAfterRow(prev, grid[rows - 1], c, rowLength, rows - 1))
  {
    match LastIn(grid[rows - 1], c)
    case Some(x) =>
      assert LastMarkerAt(grid, c, rows, rows - 1, x);
    case None =>
      if !NoMarker(grid, c, rows) {
        assert !NoMarker(grid, c, rows - 1);
        var y: nat, x: nat :| LastMarkerAt(grid, c, rows - 1, y, x) && prev == RowMajor(y, rowLength, x);
        assert LastMarkerAt(grid, c, rows, y, x);
      }
  }

  // ---------------------------------------------------------------------------------
  // Edges

  /** The climbing rule: heights, as code points, differ by at most one either way. */
  predicate Climbable(from: char, to: char) {
    -1 <= to as int - from as int <= 1
  }

  /** The column of `node` in rows of `rowLength` cells (the source computes it with
      `%`, see `ColumnIsMod`). */
  function Column(node: nat, rowLength: nat): (c: nat)
    requires rowLength > 0
    ensures c < rowLength && c <= node
  {
    if node < rowLength then node else Column(node - rowLength, rowLength)
  }

  /** `candidate` is one of the grid steps the source tries from `node`: north (only past
      the first `rowLength` indices, strictly), south, west (not from the first column),
      east (not from the last column). */
  predicate GridStep(node: nat, candidate: nat, rowLength: nat, len: nat)
    requires rowLength > 0
  {
    || (node > rowLength && candidate + rowLength == node)
    || (node + rowLength < len && candidate == node + rowLength)
    || (Column(node, rowLength) >= 1 && candidate + 1 == node)
    || (node + 1 < len && Column(node, rowLength) + 1 < rowLength && candidate == node + 1)
  }

  /** The edge list one direction contributes. */
  function Edge(arena: seq<Node>, node: nat, candidate: nat): seq<nat>
    requires node < |arena| && candidate < |arena|
  {
    if Climbable(arena[node].height, arena[candidate].height) then [candidate] else []
  }

  /** The edges `node` gains, in the order north, south, west, east. */
  function NodeNeighbors(arena: seq<Node>, node: nat, rowLength: nat): seq<nat>
    requires node < |arena| && rowLength > 0
  {
    North(arena, node, rowLength) + South(arena, node, rowLength)
    + West(arena, node, rowLength) + East(arena, node, rowLength)
  }

  /** North is tried only when `node > rowLength`, the strict form of the source's test. */
  function North(arena: seq<Node>, node: nat, rowLength: nat): seq<nat>
    requires node < |arena|
  {
    if node > rowLength then Edge(arena, node, node - rowLength) else []
  }

  function South(arena: seq<Node>, node: nat, rowLength: nat): seq<nat>
    requires node < |arena|
  {
    if node + rowLength < |arena| then Edge(arena, node, node + rowLength) else []
  }

  function West(arena: seq<Node>, node: nat, rowLength: nat): seq<nat>
    requires node < |arena| && rowLength > 0
  {
    if Column(node, rowLength) >= 1 then Edge(arena, node, node - 1) else []
  }

  function East(arena: seq<Node>, node: nat, rowLength: nat): seq<nat>
    requires node < |arena| && rowLength > 0
  {
    if node + 1 < |arena| && Column(node, rowLength) + 1 < rowLength then Edge(arena, node, node + 1) else []
  }

  /** Every node of `cells` with its edges appended. */
  function Linked(cells: seq<Node>, rowLength: nat): seq<Node>
    requires |cells| == 0 || rowLength > 0
  {
    seq(|cells|, (i: int) requires 0 <= i < |cells| =>
      cells[i].(neighbors := cells[i].neighbors + NodeNeighbors(cells, i, rowLength)))
  }

  predicate SameHeights(a: seq<Node>, b: seq<Node>) {
    |a| == |b| && forall i :: 0 <= i < |a| ==> a[i].height == b[i].height
  }

  /** Every edge of the arena points into the arena. */
  predicate EdgesInBounds(arena: seq<Node>) {
    forall i, k :: 0 <= i < |arena| && 0 <= k < |arena[i].neighbors| ==> arena[i].neighbors[k] < |arena|
  }

  /** The state the source keeps: one row length, and (once non-empty) a positive one. */
  class HeightMap {
    var arena: seq<Node>
    const start: nat
    const end: nat
    const rowLength: nat

    /** Flattens `grid` row by row (the length of row 0 is the row length), records the
        last `S` and `E`, then links every node. An empty grid and a zero row length with
        non-empty later rows panic in the source. */
    constructor (grid: seq<seq<char>>)
      requires |grid| > 0
      requires |grid[0]| == 0 ==> forall y :: 0 <= y < |grid| ==> grid[y] == []
      ensures rowLength == |grid[0]|
      ensures start == MarkerIndex(grid, 'S', rowLength, |grid|)
      ensures end == MarkerIndex(grid, 'E', rowLength, |grid|)
      ensures arena == Linked(Cells(grid, |grid|), rowLength)
    {
      var cells, s, e := Flatten(grid);
      arena := cells;
      start := s;
      end := e;
      rowLength := |grid[0]|;
      new;
      FindNeighbors();
    }

    /** The nested loops of the constructor: the fresh nodes in row-major order and the
        indices of the last `S` and `E`. */
    static method Flatten(grid: seq<seq<char>>) returns (cells: seq<Node>, s: nat, e: nat)
      requires |grid| > 0
      ensures cells == Cells(grid, |grid|)
      ensures s == MarkerIndex(grid, 'S', |grid[0]|, |grid|)
      ensures e == MarkerIndex(grid, 'E', |grid[0]|, |grid|)
    {
      cells, s, e := [], 0, 0;
      var rl := |grid[0]|;
      for y := 0 to |grid|
        invariant cells == Cells(grid, y)
        invariant s == MarkerIndex(grid, 'S', rl, y)
        invariant e == MarkerIndex(grid, 'E', rl, y)
      {
        cells, s, e := PushRow(grid[y], y, rl, cells, s, e);
      }
    }

    /** One pass of the inner loop: pushes the nodes of row `y` and moves the marker
        indices to the last `S` and `E` of the row, if any. */
    static method PushRow(row: seq<char>, y: nat, rl: nat, cells0: seq<Node>, s0: nat, e0: nat)
      returns (cells: seq<Node>, s: nat, e: nat)
      ensures cells == cells0 + RowNodes(row, y)
      ensures s == MarkerAfterRow(s0, row, 'S', rl, y)
      ensures e == MarkerAfterRow(e0, row, 'E', rl, y)
    {
      cells, s, e := cells0, s0, e0;
      for x := 0 to |row|
        invariant cells == cells0 + RowNodes(row[..x], y)
        invariant s == MarkerAfterRow(s0, row[..x], 'S', rl, y)
        invariant e == MarkerAfterRow(e0, row[..x], 'E', rl, y)
      {
        var height := row[x];
        if height == 'S' {
          s := RowMajor(y, rl, x);
        } else if height == 'E' {
          e := RowMajor(y, rl, x);
        }
        RowNodesStep(row, x, y);
        MarkerAfterRowStep(s0, row, x, 'S', rl, y);
        MarkerAfterRowStep(e0, row, x, 'E', rl, y);
        cells := cells + [Node(x, y, Converted(height), [])];
      }
      assert row[..|row|] == row;
    }

    /** Links every node of the arena in index order. */
    method FindNeighbors()
      requires |arena| == 0 || rowLength > 0
      modifies this
      ensures arena == Linked(old(arena), rowLength)
    {
      ghost var before := arena;
      for i := 0 to |arena|
        invariant |arena| == |before|
        invariant SameHeights(arena, before)
        invariant forall j :: 0 <= j < i ==>
          arena[j] == before[j].(neighbors := before[j].neighbors + NodeNeighbors(before, j, rowLength))
        invariant forall j :: i <= j < |arena| ==> arena[j] == before[j]
      {
        SameHeightsSameNeighbors(arena, before, i, rowLength);
        FindNodeNeighbors(i);
      }
    }

    /** Tries the four grid steps from `node`, in the order north, south, west, east. */
    method FindNodeNeighbors(node: nat)
      requires node < |arena| && rowLength > 0
      modifies this
      ensures arena == Appended(old(arena), node, NodeNeighbors(old(arena), node, rowLength))
    {
      ghost var before := arena;
      var height := arena[node].height;
      var len, column := |arena|, Column(node, rowLength);
      AppendedNothing(before, node);
      ghost var mid := arena;
      if node > rowLength {
        EvaluateNeighbor(node, node - rowLength, height);
      }
      DirectionStep(before, mid, arena, node, node - rowLength, node > rowLength, [], North(before, node, rowLength), height);
      ghost var added := North(before, node, rowLength);
      assert [] + added == added;
      mid := arena;
      if node + rowLength < len {
        EvaluateNeighbor(node, node + rowLength, height);
      }
      DirectionStep(before, mid, arena, node, node + rowLength, node + rowLength < len, added, South(before, node, rowLength), height);
      added := added + South(before, node, rowLength);
      mid := arena;
      if column >= 1 {
        EvaluateNeighbor(node, node - 1, height);
      }
      DirectionStep(before, mid, arena, node, node - 1, column >= 1, added, West(before, node, rowLength), height);
      added := added + West(before, node, rowLength);
      mid := arena;
      if node + 1 < len && column + 1 < rowLength {
        EvaluateNeighbor(node, node + 1, height);
      }
      DirectionStep(before, mid, arena, node, node + 1, node + 1 < len && column + 1 < rowLength, added,
        East(before, node, rowLength), height);
    }

    /** Adds the edge `node -> candidate` when the heights differ by at most one. */
    method EvaluateNeighbor(node: nat, candidate: nat, height: char)
      requires node < |arena| && candidate < |arena|
      modifies this
      ensures arena == Appended(old(arena), node,
        if Climbable(height, old(arena)[candidate].height) then [candidate] else [])
    {
      var candidateHeight := arena[candidate].height;
      if -1 <= candidateHeight as int - height as int <= 1 {
        arena := arena[node := AddNeighbor(arena[node], candidate)];
      } else {
        AppendedNothing(arena, node);
      }
    }
  }

  /** The arena after `extra` is appended to the neighbour list of `node`. */
  function Appended(arena: seq<Node>, node: nat, extra: seq<nat>): seq<Node>
    requires node < |arena|
  {
    arena[node := arena[node].(neighbors := arena[node].neighbors + extra)]
  }

  /** One direction of `FindNodeNeighbors`: when its test passes, the `EvaluateNeighbor`
      call extends what has been appended so far by that direction's edge list. */
  lemma DirectionStep(before: seq<Node>, mid: seq<Node>, after: seq<Node>, node: nat, candidate: int,
                      tried: bool, added: seq<nat>, part: seq<nat>, height: char)
    requires node < |before| && height == before[node].height
    requires mid == Appended(before, node, added)
    requires tried ==> 0 <= candidate < |before|
    requires tried ==>
      after == Appended(mid, node, if Climbable(height, mid[candidate].height) then [candidate] else [])
    requires !tried ==> after == mid
    requires part == if tried then Edge(before, node, candidate) else []
    ensures after == Appended(before, node, added + part)
  {
    if tried {
      assert mid[candidate].height == before[candidate].height;
      AppendedTwice(before, node, added, Edge(before, node, candidate));
    } else {
      assert added + [] == added;
    }
  }

  lemma AppendedNothing(arena: seq<Node>, node: nat)
    requires node < |arena|
    ensures Appended(arena, node, []) == arena
  {
    assert arena[node].neighbors + [] == arena[node].neighbors;
  }

  lemma AppendedTwice(arena: seq<Node>, node: nat, p: seq<nat>, q: seq<nat>)
    requires node < |arena|
    ensures Appended(Appended(arena, node, p), node, q) == Appended(arena, node, p + q)
  {
    assert arena[node].neighbors + p + q == arena[node].neighbors + (p + q);
  }

  // ---------------------------------------------------------------------------------
  // Lemmas

  /** Edges depend only on the heights and the arena length. */
  lemma SameHeightsSameNeighbors(a: seq<Node>, b: seq<Node>, node: nat, rowLength: nat)
    requires SameHeights(a, b) && node < |a| && rowLength > 0
    ensures NodeNeighbors(a, node, rowLength) == NodeNeighbors(b, node, rowLength)
  {
    assert North(a, node, rowLength) == North(b, node, rowLength);
    assert South(a, node, rowLength) == South(b, node, rowLength);
    assert West(a, node, rowLength) == West(b, node, rowLength);
    assert East(a, node, rowLength) == East(b, node, rowLength);
  }

  /** An edge `node -> c` exists exactly when `c` is one of the tried grid steps and the
      climb between the two heights is at most one. */
  lemma NeighborIff(arena: seq<Node>, node: nat, rowLength: nat, c: nat)
    requires node < |arena| && rowLength > 0
    ensures c in NodeNeighbors(arena, node, rowLength) <==>
      (GridStep(node, c, rowLength, |arena|) && c < |arena| && Climbable(arena[node].height, arena[c].height))
  {
    var h := arena[node].height;
    var n, so, w, e := North(arena, node, rowLength), South(arena, node, rowLength),
      West(arena, node, rowLength), East(arena, node, rowLength);
    assert c in n + so + w + e <==> c in n || c in so || c in w || c in e;
    assert c in n <==> node > rowLength && c + rowLength == node && Climbable(h, arena[c].height);
    assert c in so <==> node + rowLength < |arena| && c == node + rowLength && Climbable(h, arena[c].height);
    assert c in w <==> Column(node, rowLength) >= 1 && c + 1 == node && Climbable(h, arena[c].height);
    assert c in e <==> (node + 1 < |arena| && Column(node, rowLength) + 1 < rowLength && c == node + 1
      && Climbable(h, arena[c].height));
  }

  lemma MulAtLeast(d: int, n: int)
    requires d >= 1 && n > 0
    ensures d * n >= n
  {
    assert d * n == (d - 1) * n + n;
  }

  /** A node never links to itself, and each of the four directions adds at most one
      edge, so its list holds at most four distinct indices. */
  lemma NeighborsDistinct(arena: seq<Node>, node: nat, rowLength: nat)
    requires node < |arena| && rowLength > 0
    ensures |NodeNeighbors(arena, node, rowLength)| <= 4
    ensures node !in NodeNeighbors(arena, node, rowLength)
    ensures forall j, k :: 0 <= j < k < |NodeNeighbors(arena, node, rowLength)| ==>
      NodeNeighbors(arena, node, rowLength)[j] != NodeNeighbors(arena, node, rowLength)[k]
  {
    var n, so, w, e := North(arena, node, rowLength), South(arena, node, rowLength),
      West(arena, node, rowLength), East(arena, node, rowLength);
    var r := NodeNeighbors(arena, node, rowLength);
    assert r == n + so + w + e;
    assert |n| <= 1 && |so| <= 1 && |w| <= 1 && |e| <= 1;
    assert rowLength == 1 ==> w == [] && e == [];
    // Every index of `r` comes from one direction, and the four candidates differ.
    forall j, k | 0 <= j < k < |r| ensures r[j] != r[k] {
      NeighborIff(arena, node, rowLength, r[j]);
      NeighborIff(arena, node, rowLength, r[k]);
    }
    NeighborIff(arena, node, rowLength, node);
  }

  lemma ModUnique(a: int, n: int, q: int, r: int)
    requires n > 0 && 0 <= r < n && a == q * n + r
    ensures a % n == r
  {
    var q', r' := a / n, a % n;
    assert a == q' * n + r';
    if q > q' {
      assert (q - q') * n == r' - r;
      MulAtLeast(q - q', n);
    } else if q < q' {
      assert (q' - q) * n == r - r';
      MulAtLeast(q' - q, n);
    }
  }

  /** `Column` is the source's `node % rowLength`. */
  lemma {:induction false} ColumnIsMod(node: nat, rowLength: nat)
    requires rowLength > 0
    ensures Column(node, rowLength) == node % rowLength
  {
    if node < rowLength {
      ModUnique(node, rowLength, 0, node);
    } else {
      ColumnIsMod(node - rowLength, rowLength);
      ModUnique(node, rowLength, (node - rowLength) / rowLength + 1, (node - rowLength) % rowLength);
    }
  }

  lemma {:induction false} ColumnPred(node: nat, rowLength: nat)
    requires rowLength > 0 && Column(node, rowLength) >= 1
    ensures Column(node - 1, rowLength) == Column(node, rowLength) - 1
  {
    if node >= rowLength {
      ColumnPred(node - rowLength, rowLength);
    }
  }

  lemma {:induction false} ColumnSucc(node: nat, rowLength: nat)
    requires rowLength > 0 && Column(node, rowLength) + 1 < rowLength
    ensures Column(node + 1, rowLength) == Column(node, rowLength) + 1
  {
    if node >= rowLength {
      ColumnSucc(node - rowLength, rowLength);
    }
  }

  /** Edges go both ways, except south from index 0 to index `rowLength`: the strict
      north test never lets index `rowLength` link back to 0. */
  lemma EdgesSymmetric(arena: seq<Node>, node: nat, c: nat, rowLength: nat)
    requires node < |arena| && rowLength > 0
    requires c in NodeNeighbors(arena, node, rowLength)
    requires !(node == 0 && c == rowLength)
    ensures c < |arena| && node in NodeNeighbors(arena, c, rowLength)
  {
    NeighborIff(arena, node, rowLength, c);
    NeighborIff(arena, c, rowLength, node);
    if node > rowLength && c + rowLength == node {
      assert c + rowLength < |arena| && node == c + rowLength;
    } else if node + rowLength < |arena| && c == node + rowLength {
      assert c > rowLength && node + rowLength == c;
    } else if Column(node, rowLength) >= 1 && c + 1 == node {
      ColumnPred(node, rowLength);
    } else {
      ColumnSucc(node, rowLength);
    }
  }

  /** The one-way pair: 0 reaches `rowLength` but never the other way round. */
  lemma NorthAsymmetry(arena: seq<Node>, rowLength: nat)
    requires 0 < rowLength < |arena|
    requires Climbable(arena[0].height, arena[rowLength].height)
    ensures rowLength in NodeNeighbors(arena, 0, rowLength)
    ensures 0 !in NodeNeighbors(arena, rowLength, rowLength)
  {
    NeighborIff(arena, 0, rowLength, rowLength);
    NeighborIff(arena, rowLength, rowLength, 0);
  }

  /** Linking fresh cells keeps their coordinates and heights and adds in-bounds edges. */
  lemma LinkedShape(cells: seq<Node>, rowLength: nat)
    requires |cells| == 0 || rowLength > 0
    requires forall i :: 0 <= i < |cells| ==> cells[i].neighbors == []
    ensures |Linked(cells, rowLength)| == |cells|
    ensures SameHeights(Linked(cells, rowLength), cells)
    ensures forall i :: 0 <= i < |cells| ==>
      Linked(cells, rowLength)[i].x == cells[i].x && Linked(cells, rowLength)[i].y == cells[i].y
    ensures forall i :: 0 <= i < |cells| ==>
      Linked(cells, rowLength)[i].neighbors == NodeNeighbors(cells, i, rowLength)
    ensures EdgesInBounds(Linked(cells, rowLength))
  {
    var linked := Linked(cells, rowLength);
    forall i | 0 <= i < |cells|
      ensures linked[i].neighbors == NodeNeighbors(cells, i, rowLength)
    {
      assert cells[i].neighbors + NodeNeighbors(cells, i, rowLength) == NodeNeighbors(cells, i, rowLength);
    }
    forall i, k | 0 <= i < |linked| && 0 <= k < |linked[i].neighbors|
      ensures linked[i].neighbors[k] < |linked|
    {
      NeighborIff(cells, i, rowLength, linked[i].neighbors[k]);
    }
  }

  predicate Rectangular(grid: seq<seq<char>>, rowLength: nat) {
    forall y :: 0 <= y < |grid| ==> |grid[y]| == rowLength
  }

  lemma RowMajorBelow(y: nat, x: nat, rows: nat, rowLength: nat)
    requires y < rows && x < rowLength
    ensures y * rowLength + x < rows * rowLength
  {
    assert rows * rowLength == (y + 1) * rowLength + (rows - y - 1) * rowLength;
    assert (rows - y - 1) * rowLength >= 0;
  }

  /** For a rectangular grid the arena has one node per cell. */
  lemma {:induction false} RectangularLength(grid: seq<seq<char>>, rowLength: nat, rows: nat)
    requires Rectangular(grid, rowLength) && rows <= |grid|
    ensures |Cells(grid, rows)| == rows * rowLength
  {
    if rows > 0 {
      RectangularLength(grid, rowLength, rows - 1);
      assert rows * rowLength == (rows - 1) * rowLength + rowLength;
    }
  }

  /** For a rectangular grid the node at index `RowMajor(y, rowLength, x)` is cell (x, y). */
  lemma {:induction false} RectangularCell(grid: seq<seq<char>>, rowLength: nat, rows: nat, y: nat, x: nat)
    requires Rectangular(grid, rowLength) && rows <= |grid| && y < rows && x < rowLength
    ensures RowMajor(y, rowLength, x) < |Cells(grid, rows)|
    ensures Cells(grid, rows)[RowMajor(y, rowLength, x)] == Node(x, y, Converted(grid[y][x]), [])
  {
    RectangularLength(grid, rowLength, rows - 1);
    if y < rows - 1 {
      RectangularCell(grid, rowLength, rows - 1, y, x);
    } else {
      assert y * rowLength + x == |Cells(grid, rows - 1)| + x;
    }
  }

  /** In a rectangular grid holding an `S`, `start` is the index of a cell that holds the
      last `S` and is stored at height `a`. */
  lemma StartCell(grid: seq<seq<char>>, rowLength: nat)
    requires Rectangular(grid, rowLength) && !NoMarker(grid, 'S', |grid|)
    ensures MarkerIndex(grid, 'S', rowLength, |grid|) < |Cells(grid, |grid|)|
    ensures Cells(grid, |grid|)[MarkerIndex(grid, 'S', rowLength, |grid|)].height == 'a'
  {
    assert MarkerAt(grid, 'S', rowLength, |grid|, MarkerIndex(grid, 'S', rowLength, |grid|));
    var y: nat, x: nat :| LastMarkerAt(grid, 'S', |grid|, y, x)
      && MarkerIndex(grid, 'S', rowLength, |grid|) == RowMajor(y, rowLength, x);
    RectangularCell(grid, rowLength, |grid|, y, x);
  }

  // ---------------------------------------------------------------------------------
  // Edges of a rectangular grid

  /** Cells `a` and `b` are one step apart along a row or a column. */
  predicate Adjacent(a: Node, b: Node) {
    || (a.x == b.x && (a.y + 1 == b.y || b.y + 1 == a.y))
    || (a.y == b.y && (a.x + 1 == b.x || b.x + 1 == a.x))
  }

  /** Every edge of the arena joins two adjacent cells. */
  predicate UnitEdges(arena: seq<Node>) {
    forall i, k :: 0 <= i < |arena| && 0 <= k < |arena[i].neighbors| ==>
      arena[i].neighbors[k] < |arena| && Adjacent(arena[i], arena[arena[i].neighbors[k]])
  }

  /** A row-major index has one row and one column. */
  lemma DivUnique(y: nat, x: nat, y': nat, x': nat, n: nat)
    requires n > 0 && x < n && x' < n && y * n + x == y' * n + x'
    ensures y == y' && x == x'
  {
    if y > y' {
      assert (y - y') * n == x' - x;
      MulAtLeast(y - y', n);
    } else if y < y' {
      assert (y' - y) * n == x - x';
      MulAtLeast(y' - y, n);
    }
  }

  /** The row of `node` in rows of `rowLength` cells: with `Column`, its row-major position. */
  function RowOf(node: nat, rowLength: nat): (r: nat)
    requires rowLength > 0
    ensures RowMajor(r, rowLength, Column(node, rowLength)) == node
  {
    if node < rowLength then 0
    else
      var r := RowOf(node - rowLength, rowLength);
      assert (r + 1) * rowLength == r * rowLength + rowLength;
      r + 1
  }

  lemma {:induction false} RowBelow(node: nat, rowLength: nat, rows: nat)
    requires rowLength > 0 && node < rows * rowLength
    ensures RowOf(node, rowLength) < rows
  {
    assert rows * rowLength == (rows - 1) * rowLength + rowLength;
    if node >= rowLength {
      RowBelow(node - rowLength, rowLength, rows - 1);
    }
  }

  /** In a rectangular grid, node `i` sits in column `Column(i)` and at row-major index `i`. */
  lemma CellCoordinates(grid: seq<seq<char>>, rowLength: nat, i: nat)
    requires Rectangular(grid, rowLength) && rowLength > 0 && i < |Cells(grid, |grid|)|
    ensures Cells(grid, |grid|)[i].x == Column(i, rowLength)
    ensures RowMajor(Cells(grid, |grid|)[i].y, rowLength, Cells(grid, |grid|)[i].x) == i
  {
    var y, x := RowOf(i, rowLength), Column(i, rowLength);
    RectangularLength(grid, rowLength, |grid|);
    RowBelow(i, rowLength, |grid|);
    RectangularCell(grid, rowLength, |grid|, y, x);
  }

  /** Two cells in one column whose positions differ by a row length are in adjacent rows. */
  lemma SameColumnStep(a: Node, b: Node, rowLength: nat)
    requires a.x == b.x < rowLength && RowMajor(b.y, rowLength, b.x) + rowLength == RowMajor(a.y, rowLength, a.x)
    ensures b.y + 1 == a.y
  {
    assert (b.y + 1) * rowLength == b.y * rowLength + rowLength;
    DivUnique(b.y + 1, b.x, a.y, a.x, rowLength);
  }

  /** Two cells in neighbouring columns whose positions differ by one are in the same row. */
  lemma SameRowStep(a: Node, b: Node, rowLength: nat)
    requires b.x + 1 == a.x < rowLength && RowMajor(b.y, rowLength, b.x) + 1 == RowMajor(a.y, rowLength, a.x)
    ensures b.y == a.y
  {
    DivUnique(b.y, b.x + 1, a.y, a.x, rowLength);
  }

  /** Every step the source tries joins two cells one row or one column apart, when each
      index is its cell's row-major position. */
  lemma GridStepAdjacent(i: nat, c: nat, rowLength: nat, len: nat, a: Node, b: Node)
    requires rowLength > 0 && GridStep(i, c, rowLength, len)
    requires a.x == Column(i, rowLength) && RowMajor(a.y, rowLength, a.x) == i
    requires b.x == Column(c, rowLength) && RowMajor(b.y, rowLength, b.x) == c
    ensures Adjacent(a, b)
  {
    if i > rowLength && c + rowLength == i {
      assert Column(i, rowLength) == Column(c, rowLength);
      SameColumnStep(a, b, rowLength);
    } else if i + rowLength < len && c == i + rowLength {
      assert Column(c, rowLength) == Column(i, rowLength);
      SameColumnStep(b, a, rowLength);
    } else if Column(i, rowLength) >= 1 && c + 1 == i {
      ColumnPred(i, rowLength);
      SameRowStep(a, b, rowLength);
    } else {
      ColumnSucc(i, rowLength);
      SameRowStep(b, a, rowLength);
    }
  }

  /** Edge `k` out of node `i` of a rectangular grid's graph joins adjacent cells. */
  lemma LinkedEdgeAdjacent(grid: seq<seq<char>>, rowLength: nat, i: nat, k: nat)
    requires Rectangular(grid, rowLength) && rowLength > 0
    requires |Linked(Cells(grid, |grid|), rowLength)| == |Cells(grid, |grid|)|
    requires forall j :: 0 <= j < |Cells(grid, |grid|)| ==> Cells(grid, |grid|)[j].neighbors == []
    requires i < |Cells(grid, |grid|)| && k < |Linked(Cells(grid, |grid|), rowLength)[i].neighbors|
    ensures var linked := Linked(Cells(grid, |grid|), rowLength);
      linked[i].neighbors[k] < |linked| && Adjacent(linked[i], linked[linked[i].neighbors[k]])
  {
    var cells := Cells(grid, |grid|);
    var c := Linked(cells, rowLength)[i].neighbors[k];
    NeighborIff(cells, i, rowLength, c);
    CellCoordinates(grid, rowLength, i);
    CellCoordinates(grid, rowLength, c);
    GridStepAdjacent(i, c, rowLength, |cells|, cells[i], cells[c]);
  }

  /** The graph of a rectangular grid has only edges between adjacent cells. */
  lemma RectangularUnitEdges(grid: seq<seq<char>>, rowLength: nat)
    requires Rectangular(grid, rowLength) && rowLength > 0
    ensures UnitEdges(Linked(Cells(grid, |grid|), rowLength))
  {
    var cells := Cells(grid, |grid|);
    CellsFresh(grid, |grid|);
    LinkedShape(cells, rowLength);
    var linked := Linked(cells, rowLength);
    forall i, k | 0 <= i < |linked| && 0 <= k < |linked[i].neighbors|
      ensures linked[i].neighbors[k] < |linked| && Adjacent(linked[i], linked[linked[i].neighbors[k]])
    {
      LinkedEdgeAdjacent(grid, rowLength, i, k);
    }
  }
}
