/** Python `str` values as sequences of Unicode code points, and the few `str`
    operations the application relies on: `in`, `split`, `join` and `strip`. */
module Strings {
  import opened Wrappers

  /** One element of a Python string: any code point, lone surrogates included. */
  type CodePoint = c: int | 0 <= c <= 0x10FFFF

  type Text = seq<CodePoint>

  /** The code points of a Dafny string literal. */
  function FromString(s: string): (t: Text)
    ensures |t| == |s|
    ensures forall k :: 0 <= k < |s| ==> t[k] == s[k] as int
  {
    seq(|s|, k requires 0 <= k < |s| => s[k] as int)
  }

  /** The code points for which `str.isspace()` holds, one by one: the ASCII
      controls TAB, LF, VT, FF, CR and FS, GS, RS, US, the space, NEL, the
      no-break space, the Ogham space mark, the eleven spaces from the en quad
      to the hair space, the line and paragraph separators, the narrow
      no-break space, the medium mathematical space and the ideographic space. */
  const PythonWhitespace: set<CodePoint> :=
    { 0x09, 0x0A, 0x0B, 0x0C, 0x0D, 0x1C, 0x1D, 0x1E, 0x1F, 0x20,
      0x85, 0xA0, 0x1680,
      0x2000, 0x2001, 0x2002, 0x2003, 0x2004, 0x2005, 0x2006, 0x2007, 0x2008, 0x2009, 0x200A,
      0x2028, 0x2029, 0x202F, 0x205F, 0x3000 }

  /** `str.isspace()` of a single code point: exactly what `str.strip()` removes. */
  predicate IsSpace(c: CodePoint) {
    || 0x09 <= c <= 0x0D
    || 0x1C <= c <= 0x20
    || c == 0x85
    || c == 0xA0
    || c == 0x1680
    || 0x2000 <= c <= 0x200A
    || c == 0x2028
    || c == 0x2029
    || c == 0x202F
    || c == 0x205F
    || c == 0x3000
  }

  /** The ranges `IsSpace` tests hold exactly the listed whitespace code points. */
  lemma IsSpaceListed(c: CodePoint)
    ensures IsSpace(c) <==> c in PythonWhitespace
  {
  }

  predicate AllSpace(s: Text) {
    forall k :: 0 <= k < |s| ==> IsSpace(s[k])
  }

  /** Every code point of `s` in `[a, b)` is whitespace. */
  predicate SpaceBetween(s: Text, a: int, b: int) {
    forall k :: a <= k < b && 0 <= k < |s| ==> IsSpace(s[k])
  }

  /** Neither the first nor the last code point is whitespace. */
  predicate NoEdgeSpace(s: Text) {
    s != [] ==> !IsSpace(s[0]) && !IsSpace(s[|s| - 1])
  }

  /** `p` occurs in `s` starting at index `k`. */
  predicate OccursAt(s: Text, p: Text, k: int) {
    0 <= k && k + |p| <= |s| && s[k..k + |p|] == p
  }

  /** `s.find(p, from)`: the first index at or after `from` where `p` occurs. */
  function FindFrom(s: Text, p: Text, from: nat): (r: Option<nat>)
    ensures r.Some? ==> from <= r.value && OccursAt(s, p, r.value)
    ensures forall k :: from <= k && (r.Some? ==> k < r.value) ==> !OccursAt(s, p, k)
    decreases |s| - from
  {
    if from + |p| > |s| then None
    else if s[from..from + |p|] == p then Some(from)
    else FindFrom(s, p, from + 1)
  }

  /** Python's `p in s`: `p` occurs somewhere in `s`. */
  predicate Contains(s: Text, p: Text)
    ensures Contains(s, p) <==> exists k :: OccursAt(s, p, k)
  {
    FindFrom(s, p, 0).Some?
  }

  /** When `p` occurs at `i` and nowhere in `[from, i)`, searching from
      `from` finds `i`. */
  lemma FindAt(s: Text, p: Text, from: nat, i: nat)
    requires from <= i && OccursAt(s, p, i)
    requires forall k :: from <= k < i ==> !OccursAt(s, p, k)
    ensures FindFrom(s, p, from) == Some(i)
  {
  }

  /** When `p` occurs nowhere at or after `from`, searching finds nothing. */
  lemma FindNoneFrom(s: Text, p: Text, from: nat)
    requires forall k :: from <= k ==> !OccursAt(s, p, k)
    ensures FindFrom(s, p, from) == None
  {
  }

  /** A slice in which `p` starts nowhere holds no `p`. */
  lemma SliceFree(s: Text, p: Text, a: nat, b: nat)
    requires |p| > 0 && a <= b <= |s|
    requires forall k :: a <= k < b ==> !OccursAt(s, p, k)
    ensures !Contains(s[a..b], p)
  {
    forall m | 0 <= m
      ensures !OccursAt(s[a..b], p, m)
    {
      if m + |p| <= b - a {
        var t := s[a..b];
        assert |t| == b - a;
        var u, v := t[m..m + |p|], s[a + m..a + m + |p|];
        forall n | 0 <= n < |p|
          ensures u[n] == v[n]
        {
        }
        assert u == v;
        assert !OccursAt(s, p, a + m);
      }
    }
  }

  /** The pieces of `s[start..]` between the non-overlapping occurrences of
      `sep`, scanned from the left. */
  function SplitFrom(s: Text, sep: Text, start: nat): (parts: seq<Text>)
    requires |sep| > 0 && start <= |s|
    ensures |parts| >= 1
    decreases |s| - start
  {
    match FindFrom(s, sep, start)
    case None => [s[start..]]
    case Some(i) => [s[start..i]] + SplitFrom(s, sep, i + |sep|)
  }

  /** `s.split(sep)` for a non-empty separator. */
  function Split(s: Text, sep: Text): (parts: seq<Text>)
    requires |sep| > 0
    ensures |parts| >= 1
  {
    SplitFrom(s, sep, 0)
  }

  /** The summed length of the texts. */
  function TotalLength(texts: seq<Text>): nat {
    if texts == [] then 0 else |texts[0]| + TotalLength(texts[1..])
  }

  /** `sep.join(parts)`: the parts in order with one separator between
      neighbours, so the joined text is as long as the parts together plus
      one separator per neighbouring pair. */
  function Join(parts: seq<Text>, sep: Text): (r: Text)
    ensures parts == [] ==> r == []
    ensures parts != [] ==> |r| == TotalLength(parts) + |sep| * (|parts| - 1)
    decreases |parts|
  {
    if |parts| == 0 then []
    else if |parts| == 1 then parts[0]
    else
      var r := parts[0] + sep + Join(parts[1..], sep);
      assert |sep| * (|parts| - 1) == |sep| + |sep| * (|parts| - 2);
      r
  }

  /** Splitting and joining again gives back the original string. */
  lemma JoinSplit(s: Text, sep: Text)
    requires |sep| > 0
    ensures Join(Split(s, sep), sep) == s
  {
    JoinSplitFrom(s, sep, 0);
    assert s[0..] == s;
  }

  lemma {:induction false} JoinSplitFrom(s: Text, sep: Text, start: nat)
    requires |sep| > 0 && start <= |s|
    ensures Join(SplitFrom(s, sep, start), sep) == s[start..]
    decreases |s| - start
  {
    var found := FindFrom(s, sep, start);
    if found.Some? {
      var i := found.value;
      var tail := SplitFrom(s, sep, i + |sep|);
      JoinSplitFrom(s, sep, i + |sep|);
      var parts := SplitFrom(s, sep, start);
      assert parts == [s[start..i]] + tail;
      assert parts[0] == s[start..i] && parts[1..] == tail;
      assert Join(parts, sep) == s[start..i] + sep + Join(tail, sep);
      assert s[i..i + |sep|] == sep;
      assert s[start..] == s[start..i] + s[i..i + |sep|] + s[i + |sep|..];
    }
  }

  /** When the separator first occurs at `i` and next at `j` (or `j` is the
      end of `s`), the second piece of the split is the text in between. */
  lemma SplitSecondPiece(s: Text, sep: Text, i: nat, j: nat)
    requires |sep| > 0
    requires OccursAt(s, sep, i)
    requires forall k :: 0 <= k < i ==> !OccursAt(s, sep, k)
    requires i + |sep| <= j <= |s|
    requires j == |s| || OccursAt(s, sep, j)
    requires forall k :: i + |sep| <= k < j ==> !OccursAt(s, sep, k)
    ensures |Split(s, sep)| > 1 && Split(s, sep)[1] == s[i + |sep|..j]
  {
    var a := i + |sep|;
    FindAt(s, sep, 0, i);
    assert Split(s, sep) == [s[..i]] + SplitFrom(s, sep, a);
    if j == |s| {
      FindNoneFrom(s, sep, a);
      assert s[a..] == s[a..j];
    } else {
      FindAt(s, sep, a, j);
    }
  }

  /** No piece of a split contains the separator. */
  lemma SplitPiecesFree(s: Text, sep: Text, j: nat)
    requires |sep| > 0
    requires j < |Split(s, sep)|
    ensures !Contains(Split(s, sep)[j], sep)
  {
    SplitFromPiecesFree(s, sep, 0, j);
  }

  lemma {:induction false} SplitFromPiecesFree(s: Text, sep: Text, start: nat, j: nat)
    requires |sep| > 0 && start <= |s|
    requires j < |SplitFrom(s, sep, start)|
    ensures !Contains(SplitFrom(s, sep, start)[j], sep)
    decreases |s| - start
  {
    var found := FindFrom(s, sep, start);
    if found.None? {
      SliceFree(s, sep, start, |s|);
      assert s[start..] == s[start..|s|];
    } else {
      var i := found.value;
      if j == 0 {
        SliceFree(s, sep, start, i);
      } else {
        SplitFromPiecesFree(s, sep, i + |sep|, j - 1);
      }
    }
  }

  /** Strips leading whitespace; the result is the longest suffix that does
      not start with whitespace. */
  function StripLeading(s: Text): (r: Text)
    ensures |r| <= |s| && r == s[|s| - |r|..]
    ensures SpaceBetween(s, 0, |s| - |r|)
    ensures r != [] ==> !IsSpace(r[0])
    decreases |s|
  {
    if s != [] && IsSpace(s[0]) then StripLeading(s[1..]) else s
  }

  /** Strips trailing whitespace; the result is the longest prefix that does
      not end with whitespace. */
  function StripTrailing(s: Text): (r: Text)
    ensures |r| <= |s| && r == s[..|r|]
    ensures SpaceBetween(s, |r|, |s|)
    ensures r != [] ==> !IsSpace(r[|r| - 1])
    decreases |s|
  {
    if s != [] && IsSpace(s[|s| - 1]) then StripTrailing(s[..|s| - 1]) else s
  }

  /** `s.strip()`: the middle of `s` once the whitespace at both ends is gone. */
  function Strip(s: Text): (r: Text)
    ensures |r| <= |s| && NoEdgeSpace(r)
  {
    var l := StripLeading(s);
    var r := StripTrailing(l);
    assert r != [] ==> r[0] == l[0];
    r
  }

  /** How many whitespace code points `s` starts with. */
  function LeadingSpace(s: Text): nat {
    |s| - |StripLeading(s)|
  }

  /** What `Strip` removes is whitespace at the two ends and nothing else:
      the result is the slice of the input that starts after the leading
      whitespace, and only whitespace follows it. */
  lemma StripSlice(s: Text)
    ensures LeadingSpace(s) + |Strip(s)| <= |s|
    ensures s[LeadingSpace(s)..LeadingSpace(s) + |Strip(s)|] == Strip(s)
    ensures SpaceBetween(s, 0, LeadingSpace(s))
    ensures SpaceBetween(s, LeadingSpace(s) + |Strip(s)|, |s|)
  {
    var l := StripLeading(s);
    var r := StripTrailing(l);
    var a := |s| - |l|;
    assert Strip(s) == r;
    SuffixSlices(s, a, |r|);
    forall k | a + |r| <= k < |s|
      ensures IsSpace(s[k])
    {
      assert s[k] == l[k - a];
    }
  }

  lemma SuffixSlices(s: Text, a: nat, m: nat)
    requires a + m <= |s|
    ensures s[a..][..m] == s[a..a + m] && s[a..][m..] == s[a + m..]
  {
  }

  /** Stripping removes exactly the whitespace around a text that neither
      starts nor ends with whitespace. */
  lemma {:induction false} StripAround(before: Text, t: Text, after: Text)
    requires AllSpace(before) && AllSpace(after)
    requires t != [] && NoEdgeSpace(t)
    ensures Strip(before + t + after) == t
  {
    var s := before + t + after;
    assert s == before + (t + after);
    assert (t + after)[0] == t[0];
    StripLeadingSpace(before, t + after);
    StripTrailingSpace(t, after);
    assert Strip(s) == StripTrailing(StripLeading(s));
  }

  /** A text with no whitespace at either end is its own strip. */
  lemma StripClean(t: Text)
    requires NoEdgeSpace(t)
    ensures Strip(t) == t
  {
    assert StripLeading(t) == t;
  }

  lemma {:induction false} StripLeadingSpace(before: Text, rest: Text)
    requires AllSpace(before)
    requires rest != [] && !IsSpace(rest[0])
    ensures StripLeading(before + rest) == rest
    decreases |before|
  {
    if before == [] {
      assert before + rest == rest;
    } else {
      var shorter := before[1..];
      assert IsSpace(before[0]) && AllSpace(shorter);
      assert (before + rest)[0] == before[0];
      assert (before + rest)[1..] == shorter + rest;
      StripLeadingSpace(shorter, rest);
    }
  }

  lemma {:induction false} StripTrailingSpace(rest: Text, after: Text)
    requires AllSpace(after)
    requires rest != [] && !IsSpace(rest[|rest| - 1])
    ensures StripTrailing(rest + after) == rest
    decreases |after|
  {
    if after == [] {
      assert rest + after == rest;
    } else {
      var shorter := after[..|after| - 1];
      assert (rest + after)[..|rest + after| - 1] == rest + shorter;
      StripTrailingSpace(rest, shorter);
    }
  }
}
