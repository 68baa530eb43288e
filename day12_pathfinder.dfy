/** Day 12, the search: A* over the height-map graph from `start` to `end`, with unit
    edge costs and the rounded straight-line distance to `end` as heuristic. Scores are
    `i32` in the source; a node missing from `g_score` counts as `i32::MAX`. */
module Pathfinding {
  import opened Options
  import opened HeightMaps
  import opened Text

  // ---------------------------------------------------------------------------------
  // Heuristic

  /** The square root of `n` rounded to the nearest integer: `r` lies within one half of
      the real root, which for a whole number `n` is never exactly halfway. */
  function RoundSqrt(n: nat): (r: nat)
    ensures 4 * n < (2 * r + 1) * (2 * r + 1)
    ensures r > 0 ==> (2 * r - 1) * (2 * r - 1) <= 4 * n
  {
    RoundSqrtFrom(n, 0)
  }

  /** The least `r' >= r` whose upper bound exceeds `n`. */
  function RoundSqrtFrom(n: nat, r: nat): (s: nat)
    requires r == 0 || (2 * r - 1) * (2 * r - 1) <= 4 * n
    ensures 4 * n < (2 * s + 1) * (2 * s + 1)
    ensures s > 0 ==> (2 * s - 1) * (2 * s - 1) <= 4 * n
    decreases 4 * n + 2 - 2 * r
  {
    if 4 * n < (2 * r + 1) * (2 * r + 1) then r
    else
      SquareAtLeast(2 * r + 1);
      RoundSqrtFrom(n, r + 1)
  }

  lemma SquareAtLeast(a: nat)
    requires a >= 1
    ensures a * a >= a
  {
    assert a * a == (a - 1) * a + a;
  }

  function Square(d: int): nat {
    d * d
  }

  /** The rounded Euclidean distance between two cells. */
  function Distance(a: Node, b: Node): nat {
    RoundSqrt(Square(a.x - b.x) + Square(a.y - b.y))
  }

  /** A node is at distance 0 from itself, so the heuristic of `end` is 0. */
  lemma DistanceToSelf(a: Node)
    ensures Distance(a, a) == 0
  {
    assert Square(a.x - a.x) + Square(a.y - a.y) == 0;
  }

  lemma SquareMono(a: nat, b: nat)
    requires a <= b
    ensures a * a <= b * b
  {
    assert b * b == a * a + (b - a) * (b + a);
  }

  /** The contrapositive of `SquareMono`. */
  lemma SquareLess(a: nat, b: nat)
    requires a * a < b * b
    ensures a < b
  {
    if a >= b {
      SquareMono(b, a);
    }
  }

  lemma SquareOfDouble(p: nat)
    ensures (2 * p) * (2 * p) == 4 * (p * p)
  {
  }

  lemma SquareOfNextOdd(r: nat)
    ensures (2 * r + 3) * (2 * r + 3) == (2 * r + 1) * (2 * r + 1) + 8 * r + 8
  {
  }

  /** Growing the radicand by at most `2p + 1`, where `p * p` is at most the old radicand,
      grows the rounded root by at most one. */
  lemma RoundSqrtNear(n: nat, m: nat, p: nat)
    requires p * p <= n && m <= n + 2 * p + 1
    ensures RoundSqrt(m) <= RoundSqrt(n) + 1
  {
    var r, s := RoundSqrt(n), RoundSqrt(m);
    SquareOfDouble(p);
    SquareLess(2 * p, 2 * r + 1);
    if s > 0 {
      SquareOfNextOdd(r);
      SquareLess(2 * s - 1, 2 * r + 3);
    }
  }

  /** Moving one step along a row or a column changes a square by at most `2|d| + 1`. */
  lemma SquareStep(d: int, d': int)
    requires d' == d + 1 || d' == d - 1
    ensures Square(d') <= Square(d) + 2 * (if d < 0 then -d else d) + 1
  {
    if d' == d + 1 {
      assert Square(d') == Square(d) + 2 * d + 1;
    } else {
      assert Square(d') == Square(d) - 2 * d + 1;
    }
  }

  /** One unit step along one axis changes the rounded root of a sum of squares by at
      most one. */
  lemma AxisStep(u: int, v: int, v': int)
    requires v' == v + 1 || v' == v - 1
    ensures RoundSqrt(Square(u) + Square(v')) <= RoundSqrt(Square(u) + Square(v)) + 1
  {
    var p: nat := if v < 0 then -v else v;
    assert Square(v) == p * p;
    SquareStep(v, v');
    RoundSqrtNear(Square(u) + Square(v), Square(u) + Square(v'), p);
  }

  /** A step along a column changes the rounded distance to `e` by at most one. */
  lemma ColumnStep(a: Node, b: Node, e: Node)
    requires a.x == b.x && (a.y == b.y + 1 || a.y + 1 == b.y)
    ensures Distance(a, e) <= Distance(b, e) + 1
  {
    var u, v, v' := b.x - e.x, b.y - e.y, a.y - e.y;
    assert Distance(a, e) == RoundSqrt(Square(u) + Square(v'));
    assert Distance(b, e) == RoundSqrt(Square(u) + Square(v));
    AxisStep(u, v, v');
  }

  /** A step along a row changes the rounded distance to `e` by at most one. */
  lemma RowStep(a: Node, b: Node, e: Node)
    requires a.y == b.y && (a.x == b.x + 1 || a.x + 1 == b.x)
    ensures Distance(a, e) <= Distance(b, e) + 1
  {
    var u, v, v' := b.y - e.y, b.x - e.x, a.x - e.x;
    assert Distance(a, e) == RoundSqrt(Square(u) + Square(v'));
    assert Distance(b, e) == RoundSqrt(Square(u) + Square(v));
    AxisStep(u, v, v');
  }

  /** The heuristic is consistent: one step to an adjacent cell changes the rounded distance
      to any cell by at most one. */
  lemma DistanceStep(a: Node, b: Node, e: Node)
    requires Adjacent(a, b)
    ensures Distance(a, e) <= Distance(b, e) + 1
  {
    if a.x == b.x {
      ColumnStep(a, b, e);
    } else {
      RowStep(a, b, e);
    }
  }

  // ---------------------------------------------------------------------------------
  // Search state

  /** `rank` strictly decreases along every `came_from` link, so following the links
      from any node stops. */
  ghost predicate Ranked(cameFrom: map<nat, nat>, rank: map<nat, nat>) {
    forall n :: n in cameFrom ==> n in rank && cameFrom[n] in rank && rank[cameFrom[n]] < rank[n]
  }

  /** Every `came_from` link `n -> c` follows an edge `c -> n` of the height map. */
  ghost predicate LinksAreEdges(arena: seq<Node>, cameFrom: map<nat, nat>) {
    forall n :: n in cameFrom ==> cameFrom[n] < |arena| && n in arena[cameFrom[n]].neighbors
  }

  /** `path` walks the height map from `from` to `to` along its edges. */
  ghost predicate IsWalk(arena: seq<Node>, path: seq<nat>, from: nat, to: nat) {
    && |path| > 0 && path[0] == from && path[|path| - 1] == to
    && (forall i :: 0 <= i < |path| ==> path[i] < |arena|)
    && (forall i :: 0 <= i < |path| - 1 ==> path[i + 1] in arena[path[i]].neighbors)
  }

  /** What holds of the per-call maps and the `came_from` field between iterations of the
      search loop, for a search that started with an empty `came_from`: among others, every f
      score is the g score plus the heuristic, as the source's comment on `f_score` says. */
  ghost predicate SearchState(arena: seq<Node>, start: nat, end: nat, open: set<nat>, g: map<nat, nat>,
                              f: map<nat, int>, cameFrom: map<nat, nat>)
  {
    && open <= g.Keys && open <= f.Keys && end < |arena|
    && (forall n :: n in g ==> n < |arena| && g[n] < I32_MAX && g[n] < |g.Keys|)
    && (forall n :: n in f ==> n in g && f[n] == g[n] + Distance(arena[n], arena[end]))
    && start in g && g[start] == 0
    && start !in cameFrom
    && Ranked(cameFrom, g)
    && LinksAreEdges(arena, cameFrom)
    && (forall n :: n in g ==> n == start || n in cameFrom)
  }

  /** Node `n` has been expanded at its present g score: every successor of it has a g
      score at most one above it. */
  ghost predicate Expanded(arena: seq<Node>, n: nat, g: map<nat, nat>) {
    && n < |arena| && n in g
    && forall k :: 0 <= k < |arena[n].neighbors| ==>
         arena[n].neighbors[k] in g && g[arena[n].neighbors[k]] <= g[n] + 1
  }

  /** Every node of `nodes` has a g score of at most `bound`. */
  ghost predicate Scored(nodes: seq<nat>, g: map<nat, nat>, bound: nat) {
    forall k :: 0 <= k < |nodes| ==> nodes[k] in g && g[nodes[k]] <= bound
  }

  lemma ScoredStep(nodes: seq<nat>, j: nat, g: map<nat, nat>, g': map<nat, nat>, bound: nat)
    requires j < |nodes| && Scored(nodes[..j], g, bound)
    requires g.Keys <= g'.Keys && (forall n :: n in g ==> g'[n] <= g[n])
    requires nodes[j] in g' && g'[nodes[j]] <= bound
    ensures Scored(nodes[..j + 1], g', bound)
  {
    assert nodes[..j + 1] == nodes[..j] + [nodes[j]];
  }

  /** Every scored node that is no longer open, other than `skip`, has been expanded. */
  ghost predicate ClosedExcept(arena: seq<Node>, open: set<nat>, g: map<nat, nat>, skip: int) {
    forall n :: n in g && n !in open && n != skip ==> Expanded(arena, n, g)
  }

  /** A g score as the source reads it: `i32::MAX` when absent. */
  function GScore(g: map<nat, nat>, n: nat): nat {
    if n in g then g[n] else I32_MAX
  }

  /** The sum of the g scores of nodes `0 .. size - 1`. */
  ghost function GSum(g: map<nat, nat>, size: nat): nat {
    if size == 0 then 0 else GSum(g, size - 1) + GScore(g, size - 1)
  }

  /** Lowering one g score lowers the sum by the same amount. */
  lemma {:induction false} GSumLower(g: map<nat, nat>, size: nat, k: nat, v: nat)
    requires k < size && v <= GScore(g, k)
    ensures GSum(g[k := v], size) + GScore(g, k) == GSum(g, size) + v
  {
    if k < size - 1 {
      GSumLower(g, size - 1, k, v);
    } else {
      GSumSame(g, size - 1, k, v);
    }
  }

  lemma {:induction false} GSumSame(g: map<nat, nat>, size: nat, k: nat, v: nat)
    requires size <= k
    ensures GSum(g[k := v], size) == GSum(g, size)
  {
    if size > 0 {
      GSumSame(g, size - 1, k, v);
    }
  }

  /** What the search loop spends: every pop removes one open node, every relaxation
      lowers one g score by at least one and opens at most one node. */
  ghost function Potential(g: map<nat, nat>, open: set<nat>, size: nat): nat {
    GSum(g, size) + |open|
  }

  /** Lowering the g score of node `k` and opening it does not raise the potential. */
  lemma RelaxLowersPotential(g: map<nat, nat>, open: set<nat>, size: nat, k: nat, v: nat)
    requires k < size && v < GScore(g, k)
    ensures Potential(g[k := v], open + {k}, size) <= Potential(g, open, size)
  {
    GSumLower(g, size, k, v);
    if k in open {
      assert open + {k} == open;
    } else {
      assert |open + {k}| == |open| + 1;
    }
  }

  // ---------------------------------------------------------------------------------
  // The pathfinder

  class Pathfinder {
    const heightMap: HeightMap
    var cameFrom: map<nat, nat>

    constructor (heightMap: HeightMap)
      ensures this.heightMap == heightMap && cameFrom == map[]
    {
      this.heightMap := heightMap;
      cameFrom := map[];
    }

    /** The rounded distance from node `idx` to the end node. */
    function Heuristic(idx: nat): (h: nat)
      reads this, heightMap
      requires idx < |heightMap.arena| && heightMap.end < |heightMap.arena|
      ensures idx == heightMap.end ==> h == 0
    {
      DistanceToSelf(heightMap.arena[idx]);
      Distance(heightMap.arena[idx], heightMap.arena[heightMap.end])
    }

    /** Follows `came_from` back from `current` and returns the nodes visited, first to
        last. The source loops forever on a cycle, so the links must be ranked. */
    method ReconstructPath(current: nat, ghost rank: map<nat, nat>) returns (path: seq<nat>)
      requires Ranked(cameFrom, rank) && current in rank
      ensures |path| > 0 && path[|path| - 1] == current
      ensures path[0] !in cameFrom
      ensures forall i :: 0 < i < |path| ==> path[i] in cameFrom && cameFrom[path[i]] == path[i - 1]
      ensures forall i :: 0 <= i < |path| ==> path[i] in rank
    {
      var totalPath := [current];
      var node := current;
      while node in cameFrom
        invariant node in rank
        invariant |totalPath| > 0 && totalPath[0] == current && totalPath[|totalPath| - 1] == node
        invariant forall i :: 0 <= i < |totalPath| - 1 ==>
          totalPath[i] in cameFrom && cameFrom[totalPath[i]] == totalPath[i + 1]
        invariant forall i :: 0 <= i < |totalPath| ==> totalPath[i] in rank
        decreases rank[node]
      {
        node := cameFrom[node];
        totalPath := totalPath + [node];
      }
      path := Reversed(totalPath);
    }

    /** A* from `start`: repeatedly pops an open node of least f score, stops at `end`,
        and otherwise relaxes the edges out of the popped node. */
    method AStar() returns (result: Option<seq<nat>>)
      requires heightMap.start < |heightMap.arena| && heightMap.end < |heightMap.arena|
      requires EdgesInBounds(heightMap.arena)
      requires cameFrom == map[]
      modifies this
      ensures result.Some? ==> IsWalk(heightMap.arena, result.value, heightMap.start, heightMap.end)
      ensures result.None? && |heightMap.arena| < I32_MAX ==>
        forall path :: !IsWalk(heightMap.arena, path, heightMap.start, heightMap.end)
      ensures result.Some? && |heightMap.arena| < I32_MAX && UnitEdges(heightMap.arena) ==>
        forall path :: IsWalk(heightMap.arena, path, heightMap.start, heightMap.end) ==> |result.value| <= |path|
      ensures heightMap.start !in cameFrom && LinksAreEdges(heightMap.arena, cameFrom)
    {
      var start, end, arena := heightMap.start, heightMap.end, heightMap.arena;
      var openSet: set<nat> := {start};
      var gScore: map<nat, nat> := map[start := 0];
      var fScore: map<nat, int> := map[start := Heuristic(start)];
      ghost var small := |arena| < I32_MAX;
      while openSet != {}
        invariant SearchState(arena, start, end, openSet, gScore, fScore, cameFrom)
        invariant end in gScore ==> end in openSet
        invariant small ==> ClosedExcept(arena, openSet, gScore, -1)
        decreases Potential(gScore, openSet, |arena|)
      {
        var current := LowestFScore(openSet, fScore);
        PopKeepsState(arena, start, end, openSet, gScore, fScore, cameFrom, current);
        ghost var open0 := openSet;
        openSet := openSet - {current};
        if current == end {
          var path := ReconstructPath(current, gScore);
          PathFromStart(arena, start, gScore, cameFrom, path);
          if small && UnitEdges(arena) {
            ShortestAtPop(arena, start, end, open0, gScore, fScore, cameFrom, path);
          }
          return Some(path);
        }
        openSet, gScore, fScore, cameFrom := ExpandNode(current, openSet, gScore, fScore, cameFrom);
      }
      if small {
        NoWalkOut(arena, start, end, gScore);
      }
      return None;
    }

    /** One expansion step of the search: relaxes each edge out of `current`, which has
        just left the open set. A neighbour is reached on strict improvement of its g
        score, and is then linked back to `current`, rescored and opened. */
    method ExpandNode(current: nat, openSet: set<nat>, gScore: map<nat, nat>, fScore: map<nat, int>,
                      cameFrom0: map<nat, nat>)
      returns (open': set<nat>, g': map<nat, nat>, f': map<nat, int>, came': map<nat, nat>)
      requires heightMap.end < |heightMap.arena| && EdgesInBounds(heightMap.arena)
      requires current < |heightMap.arena| && current != heightMap.end && current in gScore
      requires SearchState(heightMap.arena, heightMap.start, heightMap.end, openSet, gScore, fScore, cameFrom0)
      requires heightMap.end in gScore ==> heightMap.end in openSet
      requires |heightMap.arena| < I32_MAX ==> ClosedExcept(heightMap.arena, openSet, gScore, current)
      ensures SearchState(heightMap.arena, heightMap.start, heightMap.end, open', g', f', came')
      ensures heightMap.end in g' ==> heightMap.end in open'
      ensures |heightMap.arena| < I32_MAX ==> ClosedExcept(heightMap.arena, open', g', -1)
      ensures Potential(g', open', |heightMap.arena|) <= Potential(gScore, openSet, |heightMap.arena|)
      ensures Expansion(heightMap.arena, current, gScore, g', fScore, f', openSet, open', cameFrom0, came')
    {
      var start, end, arena := heightMap.start, heightMap.end, heightMap.arena;
      ghost var small := |arena| < I32_MAX;
      ghost var budget := Potential(gScore, openSet, |arena|);
      open', g', f', came' := openSet, gScore, fScore, cameFrom0;
      var neighbors := arena[current].neighbors;
      for j := 0 to |neighbors|
        invariant Expanding(arena, start, end, current, gScore, fScore, openSet, cameFrom0, open', g', f', came')
        invariant Potential(g', open', |arena|) <= budget
        invariant small ==> Scored(neighbors[..j], g', gScore[current] + 1)
      {
        ghost var before := g';
        open', g', f', came' := RelaxEdge(current, neighbors[j], gScore, fScore, openSet, cameFrom0, open', g', f', came');
        if small {
          ScoredStep(neighbors, j, before, g', gScore[current] + 1);
        }
      }
      assert neighbors[..|neighbors|] == neighbors;
      if small {
        ScoredCloses(arena, open', g', current);
      }
    }

    /** The body of the loop over the successors of `current`: the edge to `neighbor` is
        relaxed on strict improvement of its g score. `gScore`, `fScore`, `openSet` and
        `cameFrom0` are the state before the expansion began. */
    method RelaxEdge(current: nat, neighbor: nat, ghost gScore: map<nat, nat>, ghost fScore: map<nat, int>,
                     ghost openSet: set<nat>, ghost cameFrom0: map<nat, nat>,
                     open: set<nat>, g: map<nat, nat>, f: map<nat, int>, came: map<nat, nat>)
      returns (open': set<nat>, g': map<nat, nat>, f': map<nat, int>, came': map<nat, nat>)
      requires heightMap.end < |heightMap.arena| && current < |heightMap.arena| && current in gScore
      requires neighbor in heightMap.arena[current].neighbors && EdgesInBounds(heightMap.arena)
      requires Expanding(heightMap.arena, heightMap.start, heightMap.end, current, gScore, fScore, openSet, cameFrom0, open, g, f, came)
      ensures Expanding(heightMap.arena, heightMap.start, heightMap.end, current, gScore, fScore, openSet, cameFrom0, open', g', f', came')
      ensures Potential(g', open', |heightMap.arena|) <= Potential(g, open, |heightMap.arena|)
      ensures g.Keys <= g'.Keys && (forall n :: n in g ==> g'[n] <= g[n])
      ensures |heightMap.arena| < I32_MAX ==> neighbor in g' && g'[neighbor] <= gScore[current] + 1
    {
      var start, end, arena := heightMap.start, heightMap.end, heightMap.arena;
      open', g', f', came' := open, g, f, came;
      if |arena| < I32_MAX {
        BoundedSetSize(g.Keys, |arena|);
      }
      var tentative := if current in g then g[current] + 1 else I32_MAX;
      var neighborScore := if neighbor in g then g[neighbor] else I32_MAX;
      RelaxBounds(g, current, neighbor, tentative, |arena|);
      if tentative < neighborScore {
        assert neighbor < |arena|;
        var estimate := tentative + Heuristic(neighbor);
        RelaxKeepsExpanding(arena, start, end, current, gScore, fScore, openSet, cameFrom0, open, g, f, came,
                            neighbor, tentative, estimate);
        came' := came[neighbor := current];
        g' := g[neighbor := tentative];
        f' := f[neighbor := estimate];
        open' := open + {neighbor};
      }
    }
  }

  /** The state of the loop over the successors of `current`, against the state `g0`, `f0`,
      `open0`, `came0` before it: a search state, `current`'s own score untouched, `end` open
      once scored, every other closed node expanded, and the changes an `Expansion`. */
  ghost predicate Expanding(arena: seq<Node>, start: nat, end: nat, current: nat, g0: map<nat, nat>,
                            f0: map<nat, int>, open0: set<nat>, came0: map<nat, nat>,
                            open: set<nat>, g: map<nat, nat>, f: map<nat, int>, came: map<nat, nat>)
    requires current < |arena| && current in g0
  {
    && SearchState(arena, start, end, open, g, f, came)
    && current in g && g[current] == g0[current]
    && (end in g ==> end in open)
    && (|arena| < I32_MAX ==> ClosedExcept(arena, open, g, current))
    && Expansion(arena, current, g0, g, f0, f, open0, open, came0, came)
  }

  /** A relaxation on strict improvement keeps `Expanding` and does not raise the
      potential. */
  lemma RelaxKeepsExpanding(arena: seq<Node>, start: nat, end: nat, current: nat, g0: map<nat, nat>,
                            f0: map<nat, int>, open0: set<nat>, came0: map<nat, nat>,
                            open: set<nat>, g: map<nat, nat>, f: map<nat, int>, came: map<nat, nat>,
                            neighbor: nat, tentative: nat, estimate: int)
    requires current < |arena| && current in g0 && neighbor < |arena|
    requires Expanding(arena, start, end, current, g0, f0, open0, came0, open, g, f, came)
    requires neighbor in arena[current].neighbors && tentative == g[current] + 1 && tentative < GScore(g, neighbor)
    requires estimate == tentative + Distance(arena[neighbor], arena[end])
    ensures Expanding(arena, start, end, current, g0, f0, open0, came0,
                      open + {neighbor}, g[neighbor := tentative], f[neighbor := estimate], came[neighbor := current])
    ensures Potential(g[neighbor := tentative], open + {neighbor}, |arena|) <= Potential(g, open, |arena|)
  {
    assert neighbor != current;
    RelaxKeepsState(arena, start, end, open, g, f, came, current, neighbor, tentative, estimate);
    RelaxLowersPotential(g, open, |arena|, neighbor, tentative);
    ExpansionStep(arena, current, g0, g, f0, f, open0, open, came0, came, neighbor, tentative, estimate);
    if |arena| < I32_MAX {
      ClosedGrows(arena, open, g, current, neighbor, tentative);
    }
  }

  /** The scores a relaxation compares: the tentative score stays below `i32::MAX` in a
      graph of fewer nodes, and writing it on strict improvement lowers no score. */
  lemma RelaxBounds(g: map<nat, nat>, current: nat, neighbor: nat, tentative: nat, size: nat)
    requires current in g && tentative == g[current] + 1
    requires forall n :: n in g ==> g[n] < |g.Keys|
    requires size < I32_MAX ==> |g.Keys| <= size
    ensures size < I32_MAX ==> tentative < I32_MAX
    ensures tentative < GScore(g, neighbor) ==>
      forall n :: n in g ==> g[neighbor := tentative][n] <= g[n]
  {
  }

  /** Scoring and opening one more node leaves every closed node expanded. */
  lemma ClosedGrows(arena: seq<Node>, open: set<nat>, g: map<nat, nat>, current: nat, neighbor: nat, v: nat)
    requires ClosedExcept(arena, open, g, current) && v < GScore(g, neighbor)
    ensures ClosedExcept(arena, open + {neighbor}, g[neighbor := v], current)
  {
    var g' := g[neighbor := v];
    forall n | n in g' && n !in open + {neighbor} && n != current
      ensures Expanded(arena, n, g')
    {
      assert Expanded(arena, n, g);
    }
  }

  /** Once every successor of `current` is scored at most one above it, `current` is
      expanded too. */
  lemma ScoredCloses(arena: seq<Node>, open: set<nat>, g: map<nat, nat>, current: nat)
    requires ClosedExcept(arena, open, g, current) && current < |arena| && current in g
    requires Scored(arena[current].neighbors, g, g[current] + 1)
    ensures ClosedExcept(arena, open, g, -1)
  {
    assert Expanded(arena, current, g);
  }

  /** The open node the source's `min_by_key` picks: one whose f score is least among open
      nodes. Entries are visited in an unspecified order, as in a `HashMap`, and on ties the
      first visited is kept. */
  method LowestFScore(openSet: set<nat>, fScore: map<nat, int>) returns (key: nat)
    requires openSet != {} && openSet <= fScore.Keys
    ensures key in openSet
    ensures forall o :: o in openSet ==> fScore[key] <= fScore[o]
  {
    var rest := fScore.Keys;
    var best: Option<nat> := None;
    while rest != {}
      invariant rest <= fScore.Keys
      invariant best.Some? ==> best.value in openSet
      invariant best.Some? ==> forall o :: o in openSet && o !in rest ==> fScore[best.value] <= fScore[o]
      invariant best.None? ==> openSet <= rest
      decreases |rest|
    {
      var k :| k in rest;
      rest := rest - {k};
      if k in openSet {
        if best.None? || fScore[k] < fScore[best.value] {
          best := Some(k);
        }
      }
    }
    assert best.Some?;
    key := best.value;
  }

  /** The sequence in reverse order. */
  function Reversed(s: seq<nat>): (r: seq<nat>)
    ensures |r| == |s|
    ensures forall i :: 0 <= i < |s| ==> r[i] == s[|s| - 1 - i]
  {
    if |s| == 0 then [] else [s[|s| - 1]] + Reversed(s[..|s| - 1])
  }

  /** Node `n` has the same entries in both versions of the maps and of the open set. */
  ghost predicate Kept(n: nat, g0: map<nat, nat>, g: map<nat, nat>, f0: map<nat, int>, f: map<nat, int>,
                       open0: set<nat>, open: set<nat>, came0: map<nat, nat>, came: map<nat, nat>)
  {
    && (n in g <==> n in g0) && (n in g0 ==> g[n] == g0[n])
    && (n in f <==> n in f0) && (n in f0 ==> f[n] == f0[n])
    && (n in open <==> n in open0)
    && (n in came <==> n in came0) && (n in came0 ==> came[n] == came0[n])
  }

  /** Node `n` was reached through `current`: a successor of it, one step further than it,
      linked back to it and open. */
  ghost predicate ReachedFrom(arena: seq<Node>, current: nat, g0: map<nat, nat>, n: nat, g: map<nat, nat>,
                              open: set<nat>, came: map<nat, nat>)
    requires current < |arena| && current in g0
  {
    n in arena[current].neighbors && n in g && g[n] == g0[current] + 1 && n in open && n in came && came[n] == current
  }

  /** How expanding `current` changes the search: no g score goes up, and every node either
      keeps all its entries or was reached through `current` with a strictly lower g score. */
  ghost predicate Expansion(arena: seq<Node>, current: nat, g0: map<nat, nat>, g: map<nat, nat>,
                            f0: map<nat, int>, f: map<nat, int>, open0: set<nat>, open: set<nat>,
                            came0: map<nat, nat>, came: map<nat, nat>)
    requires current < |arena| && current in g0
  {
    && (forall n :: n in g0 ==> n in g && g[n] <= g0[n])
    && (forall n :: Kept(n, g0, g, f0, f, open0, open, came0, came)
                    || (ReachedFrom(arena, current, g0, n, g, open, came) && (n in g0 ==> g[n] < g0[n])))
  }

  /** One relaxation extends the expansion. */
  lemma ExpansionStep(arena: seq<Node>, current: nat, g0: map<nat, nat>, g: map<nat, nat>,
                      f0: map<nat, int>, f: map<nat, int>, open0: set<nat>, open: set<nat>,
                      came0: map<nat, nat>, came: map<nat, nat>, neighbor: nat, tentative: nat, estimate: int)
    requires current < |arena| && current in g0 && current in g && g[current] == g0[current]
    requires Expansion(arena, current, g0, g, f0, f, open0, open, came0, came)
    requires neighbor in arena[current].neighbors && tentative == g0[current] + 1 && tentative < GScore(g, neighbor)
    ensures Expansion(arena, current, g0, g[neighbor := tentative], f0, f[neighbor := estimate],
                      open0, open + {neighbor}, came0, came[neighbor := current])
  {
    var g', f', open', came' := g[neighbor := tentative], f[neighbor := estimate], open + {neighbor}, came[neighbor := current];
    forall n
      ensures Kept(n, g0, g', f0, f', open0, open', came0, came')
              || (ReachedFrom(arena, current, g0, n, g', open', came') && (n in g0 ==> g'[n] < g0[n]))
    {
      if n != neighbor {
        assert Kept(n, g0, g, f0, f, open0, open, came0, came)
               || (ReachedFrom(arena, current, g0, n, g, open, came) && (n in g0 ==> g[n] < g0[n]));
      } else if n in g0 {
        assert g[n] <= g0[n];
      }
    }
  }

  /** A relaxation `came_from[neighbor] := current`, `g[neighbor] := g[current] + 1` on strict
      improvement keeps the search state. */
  lemma RelaxKeepsState(arena: seq<Node>, start: nat, end: nat, open: set<nat>, g: map<nat, nat>,
                        f: map<nat, int>, cameFrom: map<nat, nat>, current: nat, neighbor: nat,
                        tentative: nat, estimate: int)
    requires SearchState(arena, start, end, open, g, f, cameFrom)
    requires current in g && current < |arena| && neighbor < |arena|
    requires neighbor in arena[current].neighbors
    requires tentative == g[current] + 1 && tentative < GScore(g, neighbor)
    requires estimate == tentative + Distance(arena[neighbor], arena[end])
    ensures SearchState(arena, start, end, open + {neighbor}, g[neighbor := tentative],
      f[neighbor := estimate], cameFrom[neighbor := current])
  {
    RelaxBounded(arena, g, current, neighbor, tentative);
    RelaxRanked(cameFrom, g, current, neighbor, tentative);
    RelaxEstimates(arena, end, g, f, neighbor, tentative, estimate);
    assert neighbor != start;
  }

  /** The g score a relaxation writes stays below `i32::MAX` and below the number of scored
      nodes. */
  lemma RelaxBounded(arena: seq<Node>, g: map<nat, nat>, current: nat, neighbor: nat, tentative: nat)
    requires forall n :: n in g ==> n < |arena| && g[n] < I32_MAX && g[n] < |g.Keys|
    requires current in g && neighbor < |arena| && tentative == g[current] + 1 && tentative < GScore(g, neighbor)
    ensures var g' := g[neighbor := tentative];
      forall n :: n in g' ==> n < |arena| && g'[n] < I32_MAX && g'[n] < |g'.Keys|
  {
    var g' := g[neighbor := tentative];
    if neighbor in g {
      assert g'.Keys == g.Keys;
    } else {
      assert g'.Keys == g.Keys + {neighbor};
    }
    forall n | n in g'
      ensures n < |arena| && g'[n] < I32_MAX && g'[n] < |g'.Keys|
    {
      if n != neighbor {
        assert n in g;
      }
    }
  }

  /** Linking `neighbor` to `current` with a g score one above `current`'s keeps the links
      ranked. */
  lemma RelaxRanked(cameFrom: map<nat, nat>, g: map<nat, nat>, current: nat, neighbor: nat, tentative: nat)
    requires Ranked(cameFrom, g)
    requires current in g && tentative == g[current] + 1 && tentative < GScore(g, neighbor)
    ensures Ranked(cameFrom[neighbor := current], g[neighbor := tentative])
  {
    var g' := g[neighbor := tentative];
    var cameFrom' := cameFrom[neighbor := current];
    forall n | n in cameFrom'
      ensures n in g' && cameFrom'[n] in g' && g'[cameFrom'[n]] < g'[n]
    {
      if n != neighbor {
        assert cameFrom[n] in g;
      }
    }
  }

  /** Rescoring `neighbor` with its new g score plus its heuristic keeps every f score the sum
      of the two. */
  lemma RelaxEstimates(arena: seq<Node>, end: nat, g: map<nat, nat>, f: map<nat, int>, neighbor: nat,
                       tentative: nat, estimate: int)
    requires end < |arena| && neighbor < |arena| && forall n :: n in g ==> n < |arena|
    requires forall n :: n in f ==> n in g && f[n] == g[n] + Distance(arena[n], arena[end])
    requires estimate == tentative + Distance(arena[neighbor], arena[end])
    ensures var g', f' := g[neighbor := tentative], f[neighbor := estimate];
      forall n :: n in f' ==> n in g' && f'[n] == g'[n] + Distance(arena[n], arena[end])
  {
  }

  /** Taking `current` out of the open set keeps the search state, leaves every closed
      node but `current` expanded, and lowers the potential. */
  lemma PopKeepsState(arena: seq<Node>, start: nat, end: nat, open: set<nat>, g: map<nat, nat>,
                      f: map<nat, int>, cameFrom: map<nat, nat>, current: nat)
    requires SearchState(arena, start, end, open, g, f, cameFrom) && current in open
    requires end in g ==> end in open
    ensures SearchState(arena, start, end, open - {current}, g, f, cameFrom)
    ensures current != end ==> (end in g ==> end in open - {current})
    ensures ClosedExcept(arena, open, g, -1) ==> ClosedExcept(arena, open - {current}, g, current)
    ensures current in g && current < |arena|
    ensures Potential(g, open - {current}, |arena|) < Potential(g, open, |arena|)
  {
  }

  /** Along a walk from a node scored at most its index, the first node that is not
      closed is open and scored at most its own index. */
  lemma {:induction false} FrontierOnWalk(arena: seq<Node>, open: set<nat>, g: map<nat, nat>, path: seq<nat>, i: nat)
    returns (j: nat)
    requires i < |path| && path[i] in g && g[path[i]] <= i && path[|path| - 1] in open
    requires forall k :: 0 <= k < |path| ==> path[k] < |arena|
    requires forall k :: 0 <= k < |path| - 1 ==> path[k + 1] in arena[path[k]].neighbors
    requires ClosedExcept(arena, open, g, -1)
    ensures i <= j < |path| && path[j] in open && path[j] in g && g[path[j]] <= j
    decreases |path| - i
  {
    if path[i] in open {
      return i;
    }
    assert Expanded(arena, path[i], g);
    var k :| 0 <= k < |arena[path[i]].neighbors| && arena[path[i]].neighbors[k] == path[i + 1];
    j := FrontierOnWalk(arena, open, g, path, i + 1);
  }

  /** On a graph of unit edges the heuristic falls by at most one per step of a walk. */
  lemma {:induction false} HeuristicAlongWalk(arena: seq<Node>, path: seq<nat>, end: nat, i: nat)
    requires UnitEdges(arena) && end < |arena| && i < |path|
    requires forall k :: 0 <= k < |path| ==> path[k] < |arena|
    requires forall k :: 0 <= k < |path| - 1 ==> path[k + 1] in arena[path[k]].neighbors
    ensures Distance(arena[path[i]], arena[end]) <= |path| - 1 - i + Distance(arena[path[|path| - 1]], arena[end])
    decreases |path| - i
  {
    if i < |path| - 1 {
      HeuristicAlongWalk(arena, path, end, i + 1);
      var k :| 0 <= k < |arena[path[i]].neighbors| && arena[path[i]].neighbors[k] == path[i + 1];
      DistanceStep(arena[path[i]], arena[path[i + 1]], arena[end]);
    }
  }

  /** Along a chain of `came_from` links each node ranks above the one before it. */
  lemma {:induction false} RankedPathLength(cameFrom: map<nat, nat>, rank: map<nat, nat>, path: seq<nat>, i: nat)
    requires Ranked(cameFrom, rank) && i < |path|
    requires forall k :: 0 < k < |path| ==> path[k] in cameFrom && cameFrom[path[k]] == path[k - 1]
    requires forall k :: 0 <= k < |path| ==> path[k] in rank
    ensures rank[path[i]] >= i
  {
    if i > 0 {
      RankedPathLength(cameFrom, rank, path, i - 1);
    }
  }

  /** When `end` is an open node of least f score, its g score is at most the length of
      any walk to it, and so is the length of the path reconstructed from it. */
  lemma ShortestAtPop(arena: seq<Node>, start: nat, end: nat, open: set<nat>, g: map<nat, nat>,
                      f: map<nat, int>, cameFrom: map<nat, nat>, path: seq<nat>)
    requires SearchState(arena, start, end, open, g, f, cameFrom) && ClosedExcept(arena, open, g, -1)
    requires UnitEdges(arena) && end in open && forall o :: o in open ==> f[end] <= f[o]
    requires |path| > 0 && path[|path| - 1] == end
    requires forall k :: 0 < k < |path| ==> path[k] in cameFrom && cameFrom[path[k]] == path[k - 1]
    requires forall k :: 0 <= k < |path| ==> path[k] in g
    ensures forall walk :: IsWalk(arena, walk, start, end) ==> |path| <= |walk|
  {
    RankedPathLength(cameFrom, g, path, |path| - 1);
    DistanceToSelf(arena[end]);
    forall walk | IsWalk(arena, walk, start, end)
      ensures |path| <= |walk|
    {
      var j := FrontierOnWalk(arena, open, g, walk, 0);
      HeuristicAlongWalk(arena, walk, end, j);
      assert f[walk[j]] <= |walk| - 1;
    }
  }

  /** Once no node is open and every scored node is expanded, no walk leads from `start`
      to an unscored `end`. */
  lemma NoWalkOut(arena: seq<Node>, start: nat, end: nat, g: map<nat, nat>)
    requires start in g && end !in g
    requires ClosedExcept(arena, {}, g, -1)
    ensures forall path :: !IsWalk(arena, path, start, end)
  {
    forall path
      ensures !IsWalk(arena, path, start, end)
    {
      if IsWalk(arena, path, start, end) {
        WalkStaysInside(arena, g, path, |path| - 1);
      }
    }
  }

  /** A set of naturals below `n` has at most `n` elements. */
  lemma {:induction false} BoundedSetSize(s: set<nat>, n: nat)
    requires forall x :: x in s ==> x < n
    ensures |s| <= n
  {
    if n == 0 {
      assert s == {};
    } else {
      BoundedSetSize(s - {n - 1}, n - 1);
    }
  }

  /** A walk that starts inside a set of scored nodes closed under expansion never
      leaves it. */
  lemma {:induction false} WalkStaysInside(arena: seq<Node>, g: map<nat, nat>, path: seq<nat>, i: nat)
    requires |path| > 0 && path[0] in g && i < |path|
    requires forall n :: n in g ==> Expanded(arena, n, g)
    requires forall j :: 0 <= j < |path| ==> path[j] < |arena|
    requires forall j :: 0 <= j < |path| - 1 ==> path[j + 1] in arena[path[j]].neighbors
    ensures path[i] in g
  {
    if i > 0 {
      WalkStaysInside(arena, g, path, i - 1);
      var prev := path[i - 1];
      assert path[i] in arena[prev].neighbors;
      var k :| 0 <= k < |arena[prev].neighbors| && arena[prev].neighbors[k] == path[i];
    }
  }

  /** A path that `ReconstructPath` returns under the search state is a walk from `start`. */
  lemma PathFromStart(arena: seq<Node>, start: nat, g: map<nat, nat>, cameFrom: map<nat, nat>, path: seq<nat>)
    requires start in g && start !in cameFrom && LinksAreEdges(arena, cameFrom)
    requires forall n :: n in g ==> n < |arena| && (n == start || n in cameFrom)
    requires |path| > 0 && path[0] !in cameFrom
    requires forall i :: 0 < i < |path| ==> path[i] in cameFrom && cameFrom[path[i]] == path[i - 1]
    requires forall i :: 0 <= i < |path| ==> path[i] in g
    ensures IsWalk(arena, path, start, path[|path| - 1])
  {
  }
}
