/** Python's `str.split(" ")` with an explicit one-character separator: the
    string is cut at EVERY single space, so adjacent spaces produce empty
    segments and the result always has one more segment than the string has
    spaces. */
module PyStr {

  /** The index of the first space in `s`, or `|s|` when there is none. */
  function SpaceIndex(s: string): (k: nat)
    ensures k <= |s|
    ensures k < |s| <==> ' ' in s
    ensures k < |s| ==> s[k] == ' '
    ensures ' ' !in s[..k]
  {
    if s == [] then 0
    else if s[0] == ' ' then 0
    else
      assert s[1..][..SpaceIndex(s[1..])] == s[..SpaceIndex(s[1..]) + 1][1..];
      SpaceIndex(s[1..]) + 1
  }

  /** The number of spaces in `s`. */
  function Spaces(s: string): nat
  {
    if s == [] then 0 else (if s[0] == ' ' then 1 else 0) + Spaces(s[1..])
  }

  /** `s.split(" ")`. */
  function Split(s: string): (parts: seq<string>)
    ensures |parts| == Spaces(s) + 1
    ensures forall i :: 0 <= i < |parts| ==> ' ' !in parts[i]
  {
    if s == [] then [""]
    else
      var rest := Split(s[1..]);
      if s[0] == ' ' then [""] + rest
      else [[s[0]] + rest[0]] + rest[1..]
  }

  /** `" ".join(parts)`, the inverse of `Split`. */
  function Join(parts: seq<string>): (s: string)
    requires |parts| >= 1
  {
    if |parts| == 1 then parts[0] else parts[0] + " " + Join(parts[1..])
  }

  /** A string is split only where it has a space. */
  lemma {:induction false} SpacesCounted(s: string)
    ensures Spaces(s) == 0 <==> ' ' !in s
  {
    if s != [] {
      SpacesCounted(s[1..]);
      assert s == [s[0]] + s[1..];
    }
  }

  /** Splitting at the first space: the first segment is everything before
      it, and the other segments are the split of everything after it. */
  lemma {:induction false} SplitAtFirstSpace(s: string)
    ensures var k := SpaceIndex(s);
      Split(s) == if k == |s| then [s] else [s[..k]] + Split(s[k + 1..])
  {
    if s != [] && s[0] != ' ' {
      SplitAtFirstSpace(s[1..]);
      var k := SpaceIndex(s[1..]);
      assert s[1..][..k] == s[1..k + 1];
      assert [s[0]] + s[1..k + 1] == s[..k + 1];
      if k < |s[1..]| {
        assert s[1..][k + 1..] == s[k + 2..];
      } else {
        assert [s[0]] + s[1..] == s;
      }
    }
  }

  /** Round trip: joining the segments with single spaces gives back `s`. */
  lemma {:induction false} JoinSplit(s: string)
    ensures Join(Split(s)) == s
  {
    if s != [] {
      JoinSplit(s[1..]);
      var rest := Split(s[1..]);
      if s[0] == ' ' {
        assert ([""] + rest)[1..] == rest;
      } else {
        var parts := [[s[0]] + rest[0]] + rest[1..];
        if |rest| == 1 {
          assert s == [s[0]] + s[1..];
        } else {
          assert parts[1..] == rest[1..];
          assert Join(rest) == rest[0] + " " + Join(rest[1..]);
          assert s == [s[0]] + s[1..];
        }
      }
    }
  }

  /** Round trip the other way: segments free of spaces are recovered by
      splitting their join. */
  lemma {:induction false} SplitJoin(parts: seq<string>)
    requires |parts| >= 1
    requires forall i :: 0 <= i < |parts| ==> ' ' !in parts[i]
    ensures Split(Join(parts)) == parts
  {
    if |parts| == 1 {
      NoSpaceIsOneSegment(parts[0]);
    } else {
      SplitJoin(parts[1..]);
      var s := parts[0] + " " + Join(parts[1..]);
      SpaceFirstAt(parts[0], Join(parts[1..]));
      SplitAtFirstSpace(s);
      assert s[..|parts[0]|] == parts[0];
      assert s[|parts[0]| + 1..] == Join(parts[1..]);
      assert parts == [parts[0]] + parts[1..];
    }
  }

  /** A string without spaces is a single segment. */
  lemma NoSpaceIsOneSegment(s: string)
    requires ' ' !in s
    ensures Split(s) == [s]
  {
    SplitAtFirstSpace(s);
  }

  /** In `a + " " + b` with no space in `a`, the first space is the one
      after `a`. */
  lemma {:induction false} SpaceFirstAt(a: string, b: string)
    requires ' ' !in a
    ensures SpaceIndex(a + " " + b) == |a|
  {
    if a != [] {
      SpaceFirstAt(a[1..], b);
      assert (a + " " + b)[1..] == a[1..] + " " + b;
    }
  }
}
