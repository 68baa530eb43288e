/** Day 4: pairs of section assignments `a-b,c-d`, and whether one range contains or
    overlaps the other. */
module CampCleanup {
  import opened Options
  import opened Text

  type Range = (int, int)

  /** Each `-`-separated number of one piece, all of which must parse as `i32`. */
  function ParseNumbers(piece: string): (r: Option<seq<int>>)
    ensures r.Some? ==> |r.value| == |Split(piece, '-')|
  {
    ParseAll(Split(piece, '-'))
  }

  function ParseAll(parts: seq<string>): (r: Option<seq<int>>)
    ensures r.Some? ==> |r.value| == |parts|
    ensures r.Some? ==> forall k :: 0 <= k < |parts| ==> ParseSigned(parts[k], I32_MIN, I32_MAX) == Some(r.value[k])
  {
    if parts == [] then Some([])
    else
      match ParseSigned(parts[0], I32_MIN, I32_MAX)
      case None => None
      case Some(v) =>
        match ParseAll(parts[1..])
        case None => None
        case Some(vs) => Some([v] + vs)
  }

  function ParsePieces(pieces: seq<string>): (r: Option<seq<seq<int>>>)
    ensures r.Some? ==> |r.value| == |pieces|
    ensures r.Some? ==> forall k :: 0 <= k < |pieces| ==> ParseNumbers(pieces[k]) == Some(r.value[k])
  {
    if pieces == [] then Some([])
    else
      match ParseNumbers(pieces[0])
      case None => None
      case Some(ns) =>
        match ParsePieces(pieces[1..])
        case None => None
        case Some(rest) => Some([ns] + rest)
  }

  /** `parse_pairs`: every number of every piece is parsed (any failure panics, `None`) and the
      first two numbers of the first two pieces form the pair (too few panics as well). */
  function ParsePairs(line: string): (r: Option<(Range, Range)>)
    ensures r.Some? <==>
      (&& ParsePieces(Split(line, ',')).Some? && |Split(line, ',')| >= 2
       && |ParseNumbers(Split(line, ',')[0]).value| >= 2 && |ParseNumbers(Split(line, ',')[1]).value| >= 2)
    ensures r.Some? ==> ParseNumbers(Split(line, ',')[0]).value[..2] == [r.value.0.0, r.value.0.1]
    ensures r.Some? ==> ParseNumbers(Split(line, ',')[1]).value[..2] == [r.value.1.0, r.value.1.1]
  {
    match ParsePieces(Split(line, ','))
    case None => None
    case Some(split) =>
      if |split| < 2 || |split[0]| < 2 || |split[1]| < 2 then None
      else Some(((split[0][0], split[0][1]), (split[1][0], split[1][1])))
  }

  /** A line as the puzzle input writes it. */
  function ShowPairs(p: (Range, Range)): string
    requires p.0.0 >= 0 && p.0.1 >= 0 && p.1.0 >= 0 && p.1.1 >= 0
  {
    NatToString(p.0.0) + "-" + NatToString(p.0.1) + "," + NatToString(p.1.0) + "-" + NatToString(p.1.1)
  }

  lemma NoSeparatorInDigits(s: string, c: char)
    requires AllDigits(s) && !IsDigit(c)
    ensures c !in s
  {
  }

  lemma ParseAllOfTwo(x: string, y: string, vx: int, vy: int)
    requires ParseSigned(x, I32_MIN, I32_MAX) == Some(vx)
    requires ParseSigned(y, I32_MIN, I32_MAX) == Some(vy)
    ensures ParseAll([x, y]) == Some([vx, vy])
  {
    assert ParseAll([y]) == Some([vy]) by {
      assert [y][1..] == [];
      assert ParseAll([]) == Some([]);
      assert [vy] + [] == [vy];
    }
    assert [x, y][1..] == [y];
    assert [vx] + [vy] == [vx, vy];
  }

  lemma ParsePiecesOfTwo(x: string, y: string, nx: seq<int>, ny: seq<int>)
    requires ParseNumbers(x) == Some(nx) && ParseNumbers(y) == Some(ny)
    ensures ParsePieces([x, y]) == Some([nx, ny])
  {
    assert ParsePieces([y]) == Some([ny]) by {
      assert [y][1..] == [];
      assert ParsePieces([]) == Some([]);
      assert [ny] + [] == [ny];
    }
    assert [x, y][1..] == [y];
    assert [nx] + [ny] == [nx, ny];
  }

  lemma ParseNatString(a: nat)
    requires a <= I32_MAX
    ensures ParseSigned(NatToString(a), I32_MIN, I32_MAX) == Some(a)
  {
    ParseSignedIntToString(a, I32_MIN, I32_MAX);
    assert IntToString(a) == NatToString(a);
  }

  lemma SplitOfTwo(x: string, y: string, c: char)
    requires c !in x && c !in y
    ensures Split(x + [c] + y, c) == [x, y]
  {
    assert Join([x, y], c) == x + [c] + y by {
      assert [x, y][1..] == [y];
    }
    SplitJoin([x, y], c);
  }

  lemma ParseOneRange(a: nat, b: nat)
    requires a <= I32_MAX && b <= I32_MAX
    ensures ParseNumbers(NatToString(a) + "-" + NatToString(b)) == Some([a, b])
  {
    var sa, sb := NatToString(a), NatToString(b);
    NoSeparatorInDigits(sa, '-');
    NoSeparatorInDigits(sb, '-');
    SplitOfTwo(sa, sb, '-');
    ParseNatString(a);
    ParseNatString(b);
    ParseAllOfTwo(sa, sb, a, b);
  }

  /** `parse_pairs` reads back every line of non-negative `i32` ranges written as `a-b,c-d`. */
  lemma ParsePairsRoundTrip(p: (Range, Range))
    requires 0 <= p.0.0 <= I32_MAX && 0 <= p.0.1 <= I32_MAX
    requires 0 <= p.1.0 <= I32_MAX && 0 <= p.1.1 <= I32_MAX
    ensures ParsePairs(ShowPairs(p)) == Some(p)
  {
    var a, b, c, d := NatToString(p.0.0), NatToString(p.0.1), NatToString(p.1.0), NatToString(p.1.1);
    var left := a + "-" + b;
    var right := c + "-" + d;
    assert ShowPairs(p) == left + [','] + right by {
      assert ShowPairs(p) == a + "-" + b + "," + c + "-" + d;
    }
    NoSeparatorInDigits(a, ',');
    NoSeparatorInDigits(b, ',');
    NoSeparatorInDigits(c, ',');
    NoSeparatorInDigits(d, ',');
    assert ',' !in left && ',' !in right;
    SplitOfTwo(left, right, ',');
    ParseOneRange(p.0.0, p.0.1);
    ParseOneRange(p.1.0, p.1.1);
    ParsePiecesOfTwo(left, right, [p.0.0, p.0.1], [p.1.0, p.1.1]);
  }

  /** The sections a range assigns, as a reference meaning for both checks. */
  predicate InRange(k: int, r: Range) { r.0 <= k <= r.1 }

  predicate WellFormed(r: Range) { r.0 <= r.1 }

  /** Every section of `inner` is also one of `outer`'s. */
  ghost predicate Covers(outer: Range, inner: Range) {
    forall k :: InRange(k, inner) ==> InRange(k, outer)
  }

  /** A proper range is covered exactly when its bounds lie within the other's. */
  lemma CoversByBounds(outer: Range, inner: Range)
    ensures WellFormed(inner) ==> (Covers(outer, inner) <==> outer.0 <= inner.0 && inner.1 <= outer.1)
  {
    if WellFormed(inner) && !(outer.0 <= inner.0 && inner.1 <= outer.1) {
      if inner.0 < outer.0 { assert InRange(inner.0, inner) && !InRange(inner.0, outer); }
      else { assert InRange(inner.1, inner) && !InRange(inner.1, outer); }
    }
  }

  /** `check_containment`: one range's bounds both lie within the other's. For proper ranges,
      that is one range's sections being a subset of the other's. */
  function CheckContainment(pair1: Range, pair2: Range): (b: bool)
    ensures WellFormed(pair1) && WellFormed(pair2) ==> (b <==> Covers(pair2, pair1) || Covers(pair1, pair2))
  {
    CoversByBounds(pair2, pair1);
    CoversByBounds(pair1, pair2);
    (pair1.0 >= pair2.0 && pair1.1 <= pair2.1) || (pair1.0 <= pair2.0 && pair1.1 >= pair2.1)
  }

  /** Two proper ranges share a section exactly when each starts no later than the other ends. */
  lemma SharedByBounds(pair1: Range, pair2: Range)
    ensures WellFormed(pair1) && WellFormed(pair2) ==>
      ((exists k :: InRange(k, pair1) && InRange(k, pair2)) <==> pair1.0 <= pair2.1 && pair2.0 <= pair1.1)
  {
    if WellFormed(pair1) && WellFormed(pair2) && pair1.0 <= pair2.1 && pair2.0 <= pair1.1 {
      var k := if pair1.0 < pair2.0 then pair2.0 else pair1.0;
      assert InRange(k, pair1) && InRange(k, pair2);
    }
  }

  /** `check_overlap`: an end of the first range lies in the second, or one contains the other.
      For proper ranges, that is the two ranges sharing a section. */
  function CheckOverlap(pair1: Range, pair2: Range): (b: bool)
    ensures WellFormed(pair1) && WellFormed(pair2) ==> (b <==> exists k :: InRange(k, pair1) && InRange(k, pair2))
  {
    SharedByBounds(pair1, pair2);
    (pair1.0 >= pair2.0 && pair1.0 <= pair2.1) || (pair1.1 >= pair2.0 && pair1.1 <= pair2.1)
    || CheckContainment(pair1, pair2)
  }

  lemma ContainmentSymmetric(pair1: Range, pair2: Range)
    ensures CheckContainment(pair1, pair2) == CheckContainment(pair2, pair1)
  {
  }

  lemma ContainmentImpliesOverlap(pair1: Range, pair2: Range)
    ensures CheckContainment(pair1, pair2) ==> CheckOverlap(pair1, pair2)
  {
  }

  /** For proper ranges, `check_overlap` holds exactly when each range starts no later than
      the other ends. */
  lemma OverlapMeansCommonSection(pair1: Range, pair2: Range)
    requires WellFormed(pair1) && WellFormed(pair2)
    ensures CheckOverlap(pair1, pair2) <==> pair1.0 <= pair2.1 && pair2.0 <= pair1.1
  {
  }

  lemma OverlapSymmetric(pair1: Range, pair2: Range)
    requires WellFormed(pair1) && WellFormed(pair2)
    ensures CheckOverlap(pair1, pair2) == CheckOverlap(pair2, pair1)
  {
    OverlapMeansCommonSection(pair1, pair2);
    OverlapMeansCommonSection(pair2, pair1);
  }
}
