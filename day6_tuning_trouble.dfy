/** Day 6: the first position in a datastream preceded by a window of distinct characters. */
module TuningTrouble {

  predicate AllDistinct(s: seq<char>)
  {
    forall i, j :: 0 <= i < j < |s| ==> s[i] != s[j]
  }

  function Elements(s: seq<char>): set<char>
  {
    set c | c in s
  }

  /** A sequence has as many distinct elements as entries exactly when none repeats. */
  lemma {:induction false} DistinctCount(s: seq<char>)
    ensures |Elements(s)| <= |s|
    ensures |Elements(s)| == |s| <==> AllDistinct(s)
  {
    if s != [] {
      DistinctCount(s[1..]);
      assert Elements(s) == {s[0]} + Elements(s[1..]);
      if s[0] in s[1..] {
        assert Elements(s) == Elements(s[1..]);
        var j :| 0 <= j < |s[1..]| && s[1..][j] == s[0];
        assert s[0] == s[j + 1];
      } else {
        assert s[0] !in Elements(s[1..]);
        if AllDistinct(s[1..]) {
          forall i, j | 0 <= i < j < |s| ensures s[i] != s[j] {
            if i > 0 { assert s[i] == s[1..][i - 1] && s[j] == s[1..][j - 1]; }
            else { assert s[j] in s[1..]; }
          }
        } else {
          var i, j :| 0 <= i < j < |s[1..]| && s[1..][i] == s[1..][j];
          assert s[i + 1] == s[j + 1];
        }
      }
    }
  }

  /** `check_unique`: the buffer's set of characters is as large as the buffer. */
  function CheckUnique(buf: seq<char>): (r: bool)
    ensures r <==> AllDistinct(buf)
  {
    DistinctCount(buf);
    |Elements(buf)| == |buf|
  }

  /** Position `i` is a marker when the `packetSize` characters just before it are distinct and
      the loop of `find_packet_start` still has a character at `i` to look at. */
  predicate IsMarker(input: string, packetSize: nat, i: nat)
  {
    packetSize <= i < |input| && AllDistinct(input[i - packetSize..i])
  }

  /** `find_packet_start`: the first marker position, or 0 when there is none. A window that ends
      with the last character is never examined, so it does not count. */
  method FindPacketStart(input: string, packetSize: nat) returns (start: int)
    ensures (exists i :: IsMarker(input, packetSize, i)) ==>
      0 <= start && IsMarker(input, packetSize, start) && forall j :: 0 <= j < start ==> !IsMarker(input, packetSize, j)
    ensures (forall i :: !IsMarker(input, packetSize, i)) ==> start == 0
    ensures start != 0 ==> start >= packetSize
  {
    start := 0;
    var buf: seq<char> := [];
    for i := 0 to |input|
      invariant buf == input[(if i < packetSize then 0 else i - packetSize)..i]
      invariant forall j :: 0 <= j < i ==> !IsMarker(input, packetSize, j)
    {
      var c := input[i];
      if |buf| < packetSize {
        buf := buf + [c];
      } else {
        if CheckUnique(buf) {
          start := i;
          assert IsMarker(input, packetSize, i);
          return;
        } else {
          buf := buf[1..];
          buf := buf + [c];
        }
      }
    }
  }
}
