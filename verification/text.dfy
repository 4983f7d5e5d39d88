/**
  The string primitives the request checks use: the whitespace class shared by
  JavaScript's `\s` and `String.prototype.trim`, `trim`, `split(' ')` and
  `split(/\s+/)`.
 */
module Text {

  /** JavaScript whitespace: the WhiteSpace and LineTerminator code points of ECMA-262. */
  const Whitespace: set<char> := {
    '\t', '\n', '\U{B}', '\U{C}', '\r', ' ', '\U{A0}', '\U{1680}',
    '\U{2000}', '\U{2001}', '\U{2002}', '\U{2003}', '\U{2004}', '\U{2005}',
    '\U{2006}', '\U{2007}', '\U{2008}', '\U{2009}', '\U{200A}',
    '\U{2028}', '\U{2029}', '\U{202F}', '\U{205F}', '\U{3000}', '\U{FEFF}'}

  predicate IsSpace(c: char)
  {
    c in Whitespace
  }

  predicate AllSpace(s: string)
  {
    forall i :: 0 <= i < |s| ==> IsSpace(s[i])
  }

  predicate NoSpace(s: string)
  {
    forall i :: 0 <= i < |s| ==> !IsSpace(s[i])
  }

  /** Length of the whitespace run that starts `s`. */
  function LeadingSpace(s: string): (k: nat)
    ensures k <= |s|
    ensures forall i :: 0 <= i < k ==> IsSpace(s[i])
    ensures k < |s| ==> !IsSpace(s[k])
  {
    if s == [] || !IsSpace(s[0]) then 0 else 1 + LeadingSpace(s[1..])
  }

  /** Length of the whitespace run that ends `s`. */
  function TrailingSpace(s: string): (k: nat)
    ensures k <= |s|
    ensures forall i :: |s| - k <= i < |s| ==> IsSpace(s[i])
    ensures k < |s| ==> !IsSpace(s[|s| - k - 1])
  {
    if s == [] || !IsSpace(s[|s| - 1]) then 0 else 1 + TrailingSpace(s[..|s| - 1])
  }

  /** Index of the first whitespace character, or `|s|` when there is none. */
  function FirstSpace(s: string): (k: nat)
    ensures k <= |s|
    ensures forall i :: 0 <= i < k ==> !IsSpace(s[i])
    ensures k < |s| ==> IsSpace(s[k])
  {
    if s == [] || IsSpace(s[0]) then 0 else 1 + FirstSpace(s[1..])
  }

  /** The whitespace run that starts `s` has length `n` when it is all space and is followed by a non-space or the end. */
  lemma {:induction false} LeadingSpaceAt(s: string, n: nat)
    requires n <= |s| && forall i :: 0 <= i < n ==> IsSpace(s[i])
    requires n < |s| ==> !IsSpace(s[n])
    ensures LeadingSpace(s) == n
    decreases n
  {
    if n > 0 {
      assert IsSpace(s[0]);
      LeadingSpaceAt(s[1..], n - 1);
    }
  }

  /** The first whitespace character is at `n` when nothing before it is whitespace. */
  lemma {:induction false} FirstSpaceAt(s: string, n: nat)
    requires n <= |s| && forall i :: 0 <= i < n ==> !IsSpace(s[i])
    requires n < |s| ==> IsSpace(s[n])
    ensures FirstSpace(s) == n
    decreases n
  {
    if n > 0 {
      assert !IsSpace(s[0]);
      FirstSpaceAt(s[1..], n - 1);
    }
  }

  /** A prefix without whitespace puts no whitespace at the start of `s`. */
  lemma NoSpacePrefix(s: string, p: string)
    requires |p| <= |s| && s[..|p|] == p && NoSpace(p)
    ensures forall i :: 0 <= i < |p| ==> !IsSpace(s[i])
  {
    forall i | 0 <= i < |p| ensures !IsSpace(s[i]) {
      assert s[i] == p[i];
    }
  }

  /** A whitespace prefix puts whitespace at the start of `s`. */
  lemma SpacePrefix(s: string, p: string)
    requires |p| <= |s| && s[..|p|] == p && AllSpace(p)
    ensures forall i :: 0 <= i < |p| ==> IsSpace(s[i])
  {
    forall i | 0 <= i < |p| ensures IsSpace(s[i]) {
      assert s[i] == p[i];
    }
  }

  /** `s.trim()`: `s` without its leading and trailing whitespace. */
  function Trim(s: string): (r: string)
    ensures r == [] <==> AllSpace(s)
    ensures r != [] ==> !IsSpace(r[0]) && !IsSpace(r[|r| - 1])
    ensures exists i :: 0 <= i <= |s| - |r| && r == s[i..i + |r|] && AllSpace(s[..i]) && AllSpace(s[i + |r|..])
  {
    var a := LeadingSpace(s);
    var b := TrailingSpace(s[a..]);
    TrimShape(s, a, b);
    TrimStrips(s, a, b);
    s[a..|s| - b]
  }

  lemma TrimShape(s: string, a: nat, b: nat)
    requires a == LeadingSpace(s) && b == TrailingSpace(s[a..])
    ensures a <= |s| - b
    ensures var r := s[a..|s| - b];
      && (r == [] <==> AllSpace(s))
      && (r != [] ==> !IsSpace(r[0]) && !IsSpace(r[|r| - 1]))
  {
    TrailingStopsAtLeading(s, a, b);
    if a < |s| {
      TrimEnds(s, a, b);
    }
  }

  /** What the trim leaves out on either side is whitespace. */
  lemma TrimStrips(s: string, a: nat, b: nat)
    requires a == LeadingSpace(s) && b == TrailingSpace(s[a..]) && a <= |s| - b
    ensures AllSpace(s[..a]) && AllSpace(s[|s| - b..])
  {
    var pre, t, suf := s[..a], s[a..], s[|s| - b..];
    forall i | 0 <= i < a ensures IsSpace(pre[i]) {
      assert pre[i] == s[i];
    }
    forall i | 0 <= i < b ensures IsSpace(suf[i]) {
      assert suf[i] == t[|t| - b + i];
    }
  }

  /**
    Trim's contract determines it: a non-empty infix with non-space ends and
    only whitespace around it is the trim.
   */
  lemma TrimUnique(s: string, r: string, i: nat)
    requires i + |r| <= |s| && r == s[i..i + |r|] && AllSpace(s[..i]) && AllSpace(s[i + |r|..])
    requires r != [] && !IsSpace(r[0]) && !IsSpace(r[|r| - 1])
    ensures Trim(s) == r
  {
    assert s[i] == r[0];
    var t, j := NonEmptyTrim(s, i);
    SameInfix(s, r, i, t, j);
  }

  /** Two infixes with non-space ends and only whitespace around them are the same. */
  lemma SameInfix(s: string, r: string, i: nat, t: string, j: nat)
    requires i + |r| <= |s| && r == s[i..i + |r|] && AllSpace(s[..i]) && AllSpace(s[i + |r|..])
    requires r != [] && !IsSpace(r[0]) && !IsSpace(r[|r| - 1])
    requires j + |t| <= |s| && t == s[j..j + |t|] && AllSpace(s[..j]) && AllSpace(s[j + |t|..])
    requires t != [] && !IsSpace(t[0]) && !IsSpace(t[|t| - 1])
    ensures r == t
  {
    assert s[i] == r[0] && s[i + |r| - 1] == r[|r| - 1];
    assert s[j] == t[0] && s[j + |t| - 1] == t[|t| - 1];
    SameStart(s, i, j);
    SameEnd(s, i + |r|, j + |t|);
  }

  /** Where the trim of a string that is not all whitespace sits in it. */
  lemma NonEmptyTrim(s: string, k: nat) returns (t: string, j: nat)
    requires k < |s| && !IsSpace(s[k])
    ensures t == Trim(s) && t != [] && j + |t| <= |s| && t == s[j..j + |t|]
    ensures AllSpace(s[..j]) && AllSpace(s[j + |t|..]) && !IsSpace(t[0]) && !IsSpace(t[|t| - 1])
  {
    var a := LeadingSpace(s);
    var b := TrailingSpace(s[a..]);
    TrimShape(s, a, b);
    TrimStrips(s, a, b);
    t, j := s[a..|s| - b], a;
    assert !AllSpace(s);
  }

  /** Two positions that are each the first non-space of `s` coincide. */
  lemma SameStart(s: string, i: nat, j: nat)
    requires i < |s| && j < |s|
    requires AllSpace(s[..i]) && !IsSpace(s[i]) && AllSpace(s[..j]) && !IsSpace(s[j])
    ensures i == j
  {
    SpacePrefix(s, s[..i]);
    SpacePrefix(s, s[..j]);
  }

  /** Two ends that each follow the last non-space of `s` coincide. */
  lemma SameEnd(s: string, e: nat, e': nat)
    requires 0 < e <= |s| && 0 < e' <= |s|
    requires AllSpace(s[e..]) && !IsSpace(s[e - 1]) && AllSpace(s[e'..]) && !IsSpace(s[e' - 1])
    ensures e == e'
  {
    SpaceSuffix(s, e);
    SpaceSuffix(s, e');
  }

  /** A whitespace suffix puts whitespace at the end of `s`. */
  lemma SpaceSuffix(s: string, e: nat)
    requires e <= |s| && AllSpace(s[e..])
    ensures forall k :: e <= k < |s| ==> IsSpace(s[k])
  {
    var suf := s[e..];
    forall k | e <= k < |s| ensures IsSpace(s[k]) {
      assert s[k] == suf[k - e];
    }
  }

  /** A string without outer whitespace is its own trim. */
  lemma TrimKeepsTrimmed(s: string)
    requires s == [] || (!IsSpace(s[0]) && !IsSpace(s[|s| - 1]))
    ensures Trim(s) == s
  {
    if s != [] {
      TrimKeeps(s, LeadingSpace(s), TrailingSpace(s[LeadingSpace(s)..]));
    }
  }

  /** Trimming twice is trimming once. */
  lemma TrimIdempotent(s: string)
    ensures Trim(Trim(s)) == Trim(s)
  {
    TrimKeepsTrimmed(Trim(s));
  }

  /** When something follows the leading run, the trailing run stops before it. */
  lemma TrailingStopsAtLeading(s: string, a: nat, b: nat)
    requires a == LeadingSpace(s) && b == TrailingSpace(s[a..])
    ensures a < |s| ==> a + b < |s|
  {
    if a < |s| {
      DropIndex(s, a, 0);
    }
  }

  lemma TrimEnds(s: string, a: nat, b: nat)
    requires a == LeadingSpace(s) && b == TrailingSpace(s[a..]) && a + b < |s|
    ensures !IsSpace(s[a]) && !IsSpace(s[|s| - b - 1]) && !AllSpace(s)
  {
    DropIndex(s, a, |s| - a - b - 1);
  }

  lemma DropIndex<T>(s: seq<T>, a: nat, i: nat)
    requires a + i < |s|
    ensures s[a..][i] == s[a + i]
  {
  }

  lemma TrimKeeps(s: string, a: nat, b: nat)
    requires a == LeadingSpace(s) && b == TrailingSpace(s[a..])
    requires s != [] && !IsSpace(s[0]) && !IsSpace(s[|s| - 1])
    ensures a == 0 && b == 0
  {
    assert s[a..] == s;
  }

  lemma AllSpaceConcat(x: string, y: string)
    requires AllSpace(x) && AllSpace(y)
    ensures AllSpace(x + y)
  {
    forall i | 0 <= i < |x + y| ensures IsSpace((x + y)[i]) {
      if i < |x| { assert (x + y)[i] == x[i]; } else { assert (x + y)[i] == y[i - |x|]; }
    }
  }

  /** Index of the first occurrence of `c`, or `|s|` when there is none. */
  function IndexOf(s: string, c: char): (k: nat)
    ensures k <= |s|
    ensures c !in s[..k]
    ensures k < |s| ==> s[k] == c
  {
    if s == [] || s[0] == c then 0 else 1 + IndexOf(s[1..], c)
  }

  /** The first `c` is at `i` when `s[i]` is `c` and no earlier character is. */
  lemma {:induction false} IndexOfAt(s: string, c: char, i: nat)
    requires i < |s| && s[i] == c
    requires forall k :: 0 <= k < i ==> s[k] != c
    ensures IndexOf(s, c) == i
    decreases i
  {
    if i > 0 {
      IndexOfAt(s[1..], c, i - 1);
    }
  }

  /** `s.split(c)` for a one-character separator: the pieces between occurrences of `c`. */
  function SplitOn(s: string, c: char): (parts: seq<string>)
    ensures |parts| >= 1
    ensures forall i :: 0 <= i < |parts| ==> c !in parts[i]
    decreases |s|
  {
    var k := IndexOf(s, c);
    if k == |s| then [s] else [s[..k]] + SplitOn(s[k + 1..], c)
  }

  /** `parts.join(c)`, the inverse of `SplitOn`. */
  function Join(parts: seq<string>, c: char): string
    requires |parts| >= 1
  {
    if |parts| == 1 then parts[0] else parts[0] + [c] + Join(parts[1..], c)
  }

  /** Splitting and joining again gives back the original string. */
  lemma {:induction false} JoinSplit(s: string, c: char)
    ensures Join(SplitOn(s, c), c) == s
    decreases |s|
  {
    var k := IndexOf(s, c);
    if k < |s| {
      var tail := SplitOn(s[k + 1..], c);
      assert SplitOn(s, c) == [s[..k]] + tail;
      JoinSplit(s[k + 1..], c);
      JoinCons(s[..k], tail, c);
      assert s == s[..k] + [c] + s[k + 1..];
    }
  }

  lemma JoinCons(p: string, rest: seq<string>, c: char)
    requires |rest| >= 1
    ensures Join([p] + rest, c) == p + [c] + Join(rest, c)
  {
    assert ([p] + rest)[1..] == rest;
  }

  /** Joining pieces free of the separator and splitting again gives back the pieces. */
  lemma {:induction false} SplitJoin(parts: seq<string>, c: char)
    requires |parts| >= 1
    requires forall i :: 0 <= i < |parts| ==> c !in parts[i]
    ensures SplitOn(Join(parts, c), c) == parts
    decreases |parts|
  {
    var s := Join(parts, c);
    if |parts| == 1 {
      IndexOfAbsent(parts[0], c);
    } else {
      var p := parts[0];
      var rest := Join(parts[1..], c);
      assert s == p + [c] + rest;
      IndexOfAfter(p, c, rest);
      assert s[..|p|] == p;
      assert s[|p| + 1..] == rest;
      SplitJoin(parts[1..], c);
    }
  }

  lemma IndexOfAbsent(s: string, c: char)
    requires c !in s
    ensures IndexOf(s, c) == |s|
  {
  }

  lemma {:induction false} IndexOfAfter(p: string, c: char, rest: string)
    requires c !in p
    ensures IndexOf(p + [c] + rest, c) == |p|
    decreases |p|
  {
    if p != [] {
      assert (p + [c] + rest)[1..] == p[1..] + [c] + rest;
      IndexOfAfter(p[1..], c, rest);
    }
  }

  /**
    `s.split(/\s+/)`: the pieces between maximal whitespace runs. A leading or
    trailing run yields an empty first or last piece, as in JavaScript.
   */
  function SplitWs(s: string): (parts: seq<string>)
    ensures |parts| >= 1
    ensures forall i :: 0 <= i < |parts| ==> NoSpace(parts[i])
    decreases |s|
  {
    var k := FirstSpace(s);
    if k == |s| then [s]
    else
      var rest := s[k..];
      var e := LeadingSpace(rest);
      [s[..k]] + SplitWs(rest[e..])
  }

  /** The first piece runs up to the first whitespace; the others split what follows that whitespace run. */
  lemma SplitWsHead(s: string)
    ensures SplitWs(s)[0] == s[..FirstSpace(s)]
    ensures FirstSpace(s) < |s| ==>
      var rest := s[FirstSpace(s)..];
      SplitWs(s)[1..] == SplitWs(rest[LeadingSpace(rest)..])
    ensures FirstSpace(s) == |s| ==> |SplitWs(s)| == 1
  {
  }

  /**
    Where the second piece sits: at the start of what follows the first
    whitespace run, and followed by the end or by whitespace.
   */
  lemma SplitWsSecond(s: string)
    requires |SplitWs(s)| >= 2
    ensures FirstSpace(s) < |s|
    ensures var rest := s[FirstSpace(s)..];
      var tail := rest[LeadingSpace(rest)..];
      var p := SplitWs(s)[1];
      && |p| <= |tail| && tail[..|p|] == p
      && (|p| == |tail| || IsSpace(tail[|p|]))
  {
    SplitWsHead(s);
    var rest := s[FirstSpace(s)..];
    SplitWsHead(rest[LeadingSpace(rest)..]);
  }

  /** Slicing a suffix of a suffix is slicing the sequence at the summed offset. */
  lemma SuffixSlice<T>(s: seq<T>, a: nat, b: nat, j: nat)
    requires a <= |s| && b <= |s| - a && j <= |s| - a - b
    ensures s[a..][b..][..j] == s[a + b..a + b + j]
    ensures j < |s| - a - b ==> s[a..][b..][j] == s[a + b + j]
  {
  }

  /** A string without outer whitespace splits into non-empty pieces only. */
  lemma {:induction false} SplitWsTrimmedPiecesNonEmpty(s: string)
    requires s != [] && !IsSpace(s[0]) && !IsSpace(s[|s| - 1])
    ensures forall i :: 0 <= i < |SplitWs(s)| ==> SplitWs(s)[i] != []
    decreases |s|
  {
    var k := FirstSpace(s);
    if k < |s| {
      var rest := s[k..];
      var e := LeadingSpace(rest);
      assert rest[|rest| - 1] == s[|s| - 1];
      assert e < |rest|;
      var tail := rest[e..];
      assert tail[0] == rest[e];
      assert tail[|tail| - 1] == s[|s| - 1];
      SplitWsTrimmedPiecesNonEmpty(tail);
      assert SplitWs(s) == [s[..k]] + SplitWs(tail);
    }
  }
}
