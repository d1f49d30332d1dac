/**
 * Numeric dot-paths that address a node of a call trace: `"0"` is the root and
 * each further `.i` selects the call at index `i` of the current node, so
 * `"0.2.1"` is the root's third call's second call.
 */
module CallPaths {
  import opened Wrappers
  import Numerals

  /** `s.split('.')`: the pieces between dots, in order; never empty. */
  function Split(s: string): (parts: seq<string>)
    ensures |parts| >= 1
    ensures forall k :: 0 <= k < |parts| ==> '.' !in parts[k]
  {
    if s == [] then [""]
    else
      var init := Split(s[..|s| - 1]);
      var last := s[|s| - 1];
      if last == '.' then init + [""]
      else init[..|init| - 1] + [init[|init| - 1] + [last]]
  }

  /** The pieces written back with a `.` between each two: `parts.join('.')`. */
  function Join(parts: seq<string>): string
    requires |parts| >= 1
  {
    if |parts| == 1 then parts[0] else Join(parts[..|parts| - 1]) + "." + parts[|parts| - 1]
  }

  /** Splitting loses nothing: the pieces joined with `.` give back the string. */
  lemma {:induction false} JoinSplit(s: string)
    ensures Join(Split(s)) == s
    decreases |s|
  {
    if s != [] {
      var n := |s| - 1;
      var init := Split(s[..n]);
      JoinSplit(s[..n]);
      assert s == s[..n] + [s[n]];
      if s[n] == '.' {
        JoinDot(init);
      } else {
        JoinExtendLast(init, s[n]);
      }
    }
  }

  /** A new empty last piece adds a dot. */
  lemma JoinDot(parts: seq<string>)
    requires |parts| >= 1
    ensures Join(parts + [""]) == Join(parts) + "."
  {
    assert (parts + [""])[..|parts|] == parts;
  }

  /** One more character on the last piece is one more character at the end. */
  lemma JoinExtendLast(parts: seq<string>, c: char)
    requires |parts| >= 1
    ensures Join(parts[..|parts| - 1] + [parts[|parts| - 1] + [c]]) == Join(parts) + [c]
  {
    var k := |parts| - 1;
    var ps := parts[..k] + [parts[k] + [c]];
    if k > 0 {
      assert ps[..k] == parts[..k];
      assert parts[..k] == parts[..|parts| - 1];
      AppendAssocString(Join(parts[..k]) + ".", parts[k], [c]);
    }
  }

  lemma AppendAssocString(a: string, b: string, c: string)
    ensures a + (b + c) == (a + b) + c
  {
  }

  /** One segment of a path after `parseInt(p, 10)`: `None` stands for `NaN`. */
  function ParseSegment(p: string): Option<int> {
    Numerals.ParseInt(p, 10)
  }

  /** The segments of a path string, in order. */
  function ParsePath(path: string): (parts: seq<Option<int>>)
    ensures |parts| == |Split(path)|
    ensures forall k {:trigger parts[k]} :: 0 <= k < |parts| ==> parts[k] == ParseSegment(Split(path)[k])
  {
    var pieces := Split(path);
    seq(|pieces|, k requires 0 <= k < |pieces| => ParseSegment(pieces[k]))
  }

  /** The path of the call at `index` below the node at `path`: `${path}.${index}`. */
  function ChildPath(path: string, index: nat): (r: string)
    ensures Split(r) == Split(path) + [Numerals.NatToString(index, 10)]
  {
    var digits := Numerals.NatToString(index, 10);
    DecimalHasNoDot(index);
    SplitDotAppend(path, digits);
    path + "." + digits
  }

  /** The path below `prefix` that follows the child indices of `address`, one level each. */
  function PathOf(prefix: string, address: seq<nat>): string {
    if address == [] then prefix
    else ChildPath(PathOf(prefix, address[..|address| - 1]), address[|address| - 1])
  }

  /** The root marker of every numeric path. */
  const ROOT_PATH: string := "0"

  /** The segments a well-formed path carries for the child indices of `address`. */
  function Segments(address: seq<nat>): (parts: seq<Option<int>>)
    ensures |parts| == |address|
    ensures forall k {:trigger parts[k]} :: 0 <= k < |parts| ==> parts[k] == Some(address[k] as int)
  {
    seq(|address|, k requires 0 <= k < |address| => Some(address[k] as int))
  }

  lemma {:induction false} SplitDotAppend(p: string, d: string)
    requires '.' !in d
    ensures Split(p + "." + d) == Split(p) + [d]
    decreases |d|
  {
    var s := p + "." + d;
    if d == [] {
      assert s == p + "." && s[..|s| - 1] == p;
    } else {
      var d' := d[..|d| - 1];
      assert s[..|s| - 1] == p + "." + d';
      assert d' + [d[|d| - 1]] == d;
      SplitDotAppend(p, d');
    }
  }

  /** A single dot-free piece splits to itself. */
  lemma {:induction false} SplitNoDot(d: string)
    requires '.' !in d
    ensures Split(d) == [d]
    decreases |d|
  {
    if d != [] {
      assert d[..|d| - 1] + [d[|d| - 1]] == d;
      SplitNoDot(d[..|d| - 1]);
    }
  }

  /** The decimal rendering of each index of `address`. */
  function Decimals(address: seq<nat>): (pieces: seq<string>)
    ensures |pieces| == |address|
    ensures forall k :: 0 <= k < |address| ==> pieces[k] == Numerals.NatToString(address[k], 10)
  {
    if address == [] then []
    else Decimals(address[..|address| - 1]) + [Numerals.NatToString(address[|address| - 1], 10)]
  }

  lemma DecimalHasNoDot(n: nat)
    ensures '.' !in Numerals.NatToString(n, 10)
  {
    assert Numerals.DigitValue('.') == 16;
  }

  /** Splitting the path of `address` below a dot-free prefix gives the prefix and one decimal per level. */
  lemma {:induction false} SplitPathOf(prefix: string, address: seq<nat>)
    requires '.' !in prefix
    ensures Split(PathOf(prefix, address)) == [prefix] + Decimals(address)
    decreases |address|
  {
    if address == [] {
      SplitNoDot(prefix);
    } else {
      var init := address[..|address| - 1];
      var digits := Numerals.NatToString(address[|address| - 1], 10);
      DecimalHasNoDot(address[|address| - 1]);
      SplitPathOf(prefix, init);
      assert Decimals(address) == Decimals(init) + [digits];
    }
  }

  /**
   * The path of `address` reads back as the root segment 0 followed by one
   * in-range segment per index: the round trip from a path that a traversal
   * builds to the segments that a lookup follows.
   */
  lemma ParsePathOf(address: seq<nat>)
    ensures ParsePath(PathOf(ROOT_PATH, address)) == [Some(0)] + Segments(address)
  {
    var path := PathOf(ROOT_PATH, address);
    SplitPathOf(ROOT_PATH, address);
    var pieces := Split(path);
    var parts := ParsePath(path);
    assert pieces == [ROOT_PATH] + Decimals(address);
    var expected := [Some(0)] + Segments(address);
    assert |parts| == |expected|;
    forall k | 0 <= k < |parts|
      ensures parts[k] == expected[k]
    {
      assert parts[k] == ParseSegment(pieces[k]);
      if k == 0 {
        ParseDecimal(0);
      } else {
        ParseDecimal(address[k - 1]);
      }
    }
  }
  lemma ParseDecimal(n: nat)
    ensures ParseSegment(Numerals.NatToString(n, 10)) == Some(n as int)
  {
    Numerals.ParseIntToString(n, 10);
  }
}
