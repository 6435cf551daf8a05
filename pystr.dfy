/** The Python `str` operations the widget's scrapers are written with, over
    `seq<char>`: case mapping, `strip`, `startswith`, `find`, `in`, `split`,
    `replace` and `os.path.basename`. Case mapping covers ASCII letters. */
module PyStr {

  /** The characters for which Python's `str.isspace()` holds: what a bare
      `strip()` removes and a bare `split()` separates on. */
  const Whitespace: set<char> := {
    '\t', '\n', '\U{0B}', '\U{0C}', '\r', '\U{1C}', '\U{1D}', '\U{1E}', '\U{1F}', ' ',
    '\U{85}', '\U{A0}', '\U{1680}', '\U{2000}', '\U{2001}', '\U{2002}', '\U{2003}',
    '\U{2004}', '\U{2005}', '\U{2006}', '\U{2007}', '\U{2008}', '\U{2009}', '\U{200A}',
    '\U{2028}', '\U{2029}', '\U{202F}', '\U{205F}', '\U{3000}'
  }

  // ---------------------------------------------------------------- case

  predicate IsAsciiUpper(c: char) { 'A' <= c <= 'Z' }

  predicate IsAsciiLower(c: char) { 'a' <= c <= 'z' }

  function LowerChar(c: char): char {
    if IsAsciiUpper(c) then (c as int + 32) as char else c
  }

  function UpperChar(c: char): char {
    if IsAsciiLower(c) then (c as int - 32) as char else c
  }

  /** `str.lower()`: every character mapped to lower case, nothing else changed. */
  function Lower(s: string): (r: string)
    ensures |r| == |s|
    ensures forall i :: 0 <= i < |s| ==> r[i] == LowerChar(s[i])
  {
    if s == [] then [] else [LowerChar(s[0])] + Lower(s[1..])
  }

  /** Lower case letter by letter. */
  lemma LowerIs(s: string, t: string)
    requires |s| == |t| && forall i :: 0 <= i < |s| ==> LowerChar(s[i]) == t[i]
    ensures Lower(s) == t
  {
  }

  /** What `str.capitalize()` produces: no lower-case first letter and no
      upper-case letter after it. */
  predicate IsCapitalized(s: string) {
    (s == [] || !IsAsciiLower(s[0])) && forall i :: 1 <= i < |s| ==> !IsAsciiUpper(s[i])
  }

  /** `str.capitalize()`: the same letters up to case, in capitalised form.
      These three facts determine the result (CapitalizeUnique). */
  function Capitalize(s: string): (r: string)
    ensures |r| == |s|
    ensures Lower(r) == Lower(s)
    ensures IsCapitalized(r)
  {
    if s == [] then [] else
      var r := [UpperChar(s[0])] + Lower(s[1..]);
      assert forall i :: 0 <= i < |r| ==> Lower(r)[i] == Lower(s)[i];
      r
  }

  lemma CapitalizeCons(c: char, s: string)
    ensures Capitalize([c] + s) == [UpperChar(c)] + Lower(s)
  {
    assert ([c] + s)[1..] == s;
  }

  lemma CapitalizeUnique(s: string, r: string)
    requires |r| == |s| && Lower(r) == Lower(s) && IsCapitalized(r)
    ensures r == Capitalize(s)
  {
    SameCapitalized(r, Capitalize(s));
  }

  /** Two capitalised strings that agree up to case are equal. */
  lemma SameCapitalized(r: string, c: string)
    requires |r| == |c| && Lower(r) == Lower(c) && IsCapitalized(r) && IsCapitalized(c)
    ensures r == c
  {
    forall i | 0 <= i < |r| ensures r[i] == c[i] {
      assert LowerChar(r[i]) == LowerChar(c[i]) by {
        assert Lower(r)[i] == Lower(c)[i];
      }
      if i == 0 {
        SameLetterNotLower(r[i], c[i]);
      } else {
        SameLetterNotUpper(r[i], c[i]);
      }
    }
  }

  lemma SameLetterNotUpper(x: char, y: char)
    requires LowerChar(x) == LowerChar(y) && !IsAsciiUpper(x) && !IsAsciiUpper(y)
    ensures x == y
  {
  }

  lemma SameLetterNotLower(x: char, y: char)
    requires LowerChar(x) == LowerChar(y) && !IsAsciiLower(x) && !IsAsciiLower(y)
    ensures x == y
  {
  }

  /** Lower-casing before capitalising, as the widget does, changes nothing. */
  lemma CapitalizeOfLower(s: string)
    ensures Capitalize(Lower(s)) == Capitalize(s)
  {
    var r := Capitalize(Lower(s));
    assert Lower(Lower(s)) == Lower(s);
    CapitalizeUnique(s, r);
  }

  /** Capitalising a capitalised string, or lower-casing a capitalised
      lower-case string, gives it back. */
  lemma CapitalizeIdempotent(s: string)
    ensures Capitalize(Capitalize(s)) == Capitalize(s)
  {
    CapitalizeUnique(Capitalize(s), Capitalize(s));
  }

  // ---------------------------------------------------------------- strip

  /** `str.lstrip(cs)`: the longest suffix of s that does not start with a
      character of cs. */
  function LStrip(s: string, cs: set<char>): (r: string)
    ensures |r| <= |s| && r == s[|s| - |r|..]
    ensures r == [] || r[0] !in cs
    ensures forall i :: 0 <= i < |s| - |r| ==> s[i] in cs
  {
    if s != [] && s[0] in cs then
      var r := LStrip(s[1..], cs);
      assert forall i :: 1 <= i < |s| ==> s[i] == s[1..][i - 1];
      r
    else s
  }

  /** `str.rstrip(cs)`: the longest prefix of s that does not end with a
      character of cs. */
  function RStrip(s: string, cs: set<char>): (r: string)
    ensures |r| <= |s| && r == s[..|r|]
    ensures r == [] || r[|r| - 1] !in cs
    ensures forall i :: |r| <= i < |s| ==> s[i] in cs
  {
    if s != [] && s[|s| - 1] in cs then
      var r := RStrip(s[..|s| - 1], cs);
      assert forall i :: 0 <= i < |s| - 1 ==> s[i] == s[..|s| - 1][i];
      r
    else s
  }

  /** `str.strip(cs)`; `Strip` is the bare `str.strip()`. */
  function StripSet(s: string, cs: set<char>): string {
    RStrip(LStrip(s, cs), cs)
  }

  function Strip(s: string): string {
    StripSet(s, Whitespace)
  }

  /** The result of `strip` is a slice of its input with every removed
      character in cs. */
  lemma StripSetSlice(s: string, cs: set<char>) returns (a: nat)
    ensures a + |StripSet(s, cs)| <= |s| && s[a..a + |StripSet(s, cs)|] == StripSet(s, cs)
    ensures forall i :: 0 <= i < a ==> s[i] in cs
    ensures forall i :: a + |StripSet(s, cs)| <= i < |s| ==> s[i] in cs
  {
    var l := LStrip(s, cs);
    var r := RStrip(l, cs);
    a := StripPieces(s, l, r, cs);
  }

  /** A prefix r of a suffix l of s is the slice of s starting where l does;
      what lies between r and the end of s lies between r and the end of l. */
  lemma StripPieces(s: string, l: string, r: string, cs: set<char>) returns (a: nat)
    requires |l| <= |s| && l == s[|s| - |l|..]
    requires |r| <= |l| && r == l[..|r|]
    requires forall i :: |r| <= i < |l| ==> l[i] in cs
    ensures a == |s| - |l| && s[a..a + |r|] == r
    ensures forall i :: a + |r| <= i < |s| ==> s[i] in cs
  {
    a := |s| - |l|;
    assert forall i :: 0 <= i < |r| ==> r[i] == l[i] == s[a + i];
    forall i | a + |r| <= i < |s|
      ensures s[i] in cs
    {
      assert s[i] == l[i - a];
    }
  }

  /** The result of `strip(cs)` neither starts nor ends with a character of cs. */
  lemma StripSetEnds(s: string, cs: set<char>)
    ensures var r := StripSet(s, cs); r == [] || (r[0] !in cs && r[|r| - 1] !in cs)
  {
    var l := LStrip(s, cs);
    var r := RStrip(l, cs);
    if r != [] {
      assert r[0] == l[0];
    }
  }

  /** `strip` adds no character: one absent from s is absent from the result. */
  lemma StripSetKeepsOut(s: string, cs: set<char>, c: char)
    requires c !in s
    ensures c !in StripSet(s, cs)
  {
    var a := StripSetSlice(s, cs);
    var r := StripSet(s, cs);
    assert forall i :: 0 <= i < |r| ==> r[i] == s[a + i];
  }

  /** `strip(cs)` removes exactly a padding of characters of cs around a
      text whose ends are not in cs. */
  lemma StripSetOf(a: string, x: string, b: string, cs: set<char>)
    requires forall i :: 0 <= i < |a| ==> a[i] in cs
    requires forall i :: 0 <= i < |b| ==> b[i] in cs
    requires x == [] || (x[0] !in cs && x[|x| - 1] !in cs)
    ensures StripSet(a + x + b, cs) == x
  {
    if x == [] {
      var ab := a + b;
      assert a + x + b == ab + [];
      assert forall i :: 0 <= i < |ab| ==> ab[i] in cs by {
        forall i | 0 <= i < |ab| ensures ab[i] in cs {
          if i >= |a| { assert ab[i] == b[i - |a|]; }
        }
      }
      LStripOf(ab, [], cs);
    } else {
      assert a + x + b == a + (x + b);
      LStripOf(a, x + b, cs);
      RStripOf(x, b, cs);
    }
  }

  lemma {:induction false} LStripOf(a: string, y: string, cs: set<char>)
    requires forall i :: 0 <= i < |a| ==> a[i] in cs
    requires y == [] || y[0] !in cs
    ensures LStrip(a + y, cs) == y
  {
    if a == [] {
      assert a + y == y;
    } else {
      assert (a + y)[0] == a[0];
      assert (a + y)[1..] == a[1..] + y;
      LStripOf(a[1..], y, cs);
    }
  }

  lemma {:induction false} RStripOf(x: string, b: string, cs: set<char>)
    requires forall i :: 0 <= i < |b| ==> b[i] in cs
    requires x == [] || x[|x| - 1] !in cs
    ensures RStrip(x + b, cs) == x
  {
    if b == [] {
      assert x + b == x;
    } else {
      var c := b[..|b| - 1];
      assert (x + b)[|x + b| - 1] == b[|b| - 1];
      assert (x + b)[..|x + b| - 1] == x + c;
      RStripOf(x, c, cs);
    }
  }

  /** Stripping only removes characters: a substring of the result is a
      substring of the input. */
  lemma StripSetContains(s: string, cs: set<char>, sub: string)
    requires Contains(StripSet(s, cs), sub)
    ensures Contains(s, sub)
  {
    var r := StripSet(s, cs);
    var a := StripSetSlice(s, cs);
    OccursInSlice(s, a, a + |r|, sub, Find(r, sub));
  }

  // ---------------------------------------------------------------- search

  /** `s.startswith(p)`. */
  predicate StartsWith(s: string, p: string) {
    |p| <= |s| && s[..|p|] == p
  }

  /** sub occurs in s at index j. */
  predicate OccursAt(s: string, sub: string, j: int) {
    0 <= j && j + |sub| <= |s| && s[j..j + |sub|] == sub
  }

  /** `s.find(sub)`: the lowest index where sub occurs, or -1. */
  function Find(s: string, sub: string): (r: int)
    ensures -1 <= r <= |s|
    ensures r >= 0 ==> OccursAt(s, sub, r)
    ensures r < 0 ==> forall j :: !OccursAt(s, sub, j)
    ensures forall j :: 0 <= j < r ==> !OccursAt(s, sub, j)
    ensures r >= 0 <==> Contains(s, sub)
  {
    FindFrom(s, sub, 0)
  }

  /** `s.find(sub, i)`: the lowest index from i on where sub occurs, or -1. */
  function FindFrom(s: string, sub: string, i: nat): (r: int)
    requires i <= |s|
    ensures r == -1 || i <= r <= |s|
    ensures r >= 0 ==> OccursAt(s, sub, r)
    ensures r < 0 ==> forall j :: i <= j ==> !OccursAt(s, sub, j)
    ensures forall j :: i <= j < r ==> !OccursAt(s, sub, j)
    decreases |s| - i
  {
    if OccursAt(s, sub, i) then i
    else if i + |sub| >= |s| then -1
    else FindFrom(s, sub, i + 1)
  }

  /** `sub in s`. */
  predicate Contains(s: string, sub: string) {
    exists j :: 0 <= j <= |s| - |sub| && OccursAt(s, sub, j)
  }

  lemma OccursThenContains(s: string, sub: string, j: int)
    requires OccursAt(s, sub, j)
    ensures Contains(s, sub) && Find(s, sub) <= j
  {
  }

  /** An occurrence inside a slice is an occurrence in the whole string. */
  lemma OccursInSlice(s: string, a: nat, e: nat, sub: string, j: int)
    requires a <= e <= |s| && OccursAt(s[a..e], sub, j)
    ensures OccursAt(s, sub, a + j) && Contains(s, sub)
  {
    var x, y := s[a..e][j..j + |sub|], s[a + j..a + j + |sub|];
    assert forall k :: 0 <= k < |sub| ==> x[k] == y[k];
    assert x == y;
    OccursThenContains(s, sub, a + j);
  }

  /** An occurrence with none before it is what `find` returns. */
  lemma FindIsFirst(s: string, sub: string, j: int)
    requires OccursAt(s, sub, j)
    requires forall i :: 0 <= i < j ==> !OccursAt(s, sub, i)
    ensures Find(s, sub) == j
  {
  }

  /** A single character is in s exactly when some position holds it. */
  lemma ContainsChar(s: string, c: char)
    ensures Contains(s, [c]) <==> c in s
  {
    if c in s {
      var j :| 0 <= j < |s| && s[j] == c;
      assert s[j..j + 1] == [c];
      OccursThenContains(s, [c], j);
    }
    if Contains(s, [c]) {
      var j := Find(s, [c]);
      assert s[j..j + 1] == [c];
      assert s[j] == c;
    }
  }

  /** A concatenation contains what either of its parts contains. */
  lemma ContainsConcat(a: string, b: string, sub: string)
    ensures Contains(a, sub) ==> Contains(a + b, sub)
    ensures Contains(b, sub) ==> Contains(a + b, sub)
  {
    var s := a + b;
    assert s[0..|a|] == a;
    assert s[|a|..|s|] == b;
    if Contains(a, sub) {
      OccursInSlice(s, 0, |a|, sub, Find(a, sub));
    }
    if Contains(b, sub) {
      OccursInSlice(s, |a|, |s|, sub, Find(b, sub));
    }
  }

  // ---------------------------------------------------------------- split

  /** `sep.join(parts)`. */
  function Join(parts: seq<string>, sep: string): string
    decreases |parts|
  {
    if |parts| == 0 then []
    else if |parts| == 1 then parts[0]
    else parts[0] + sep + Join(parts[1..], sep)
  }

  lemma JoinCons(a: string, rest: seq<string>, sep: string)
    requires |rest| >= 1
    ensures Join([a] + rest, sep) == a + sep + Join(rest, sep)
  {
    assert ([a] + rest)[1..] == rest;
  }

  /** `s.split(sep)` for a non-empty separator: the pieces between the
      occurrences of sep, found left to right. Joining them with sep gives s
      back; no piece contains sep; there is one piece exactly when sep does
      not occur. These facts decide the pieces only for a separator that
      cannot overlap itself ("aaa".split("aa") is not decided by them); the
      separators the widget uses ("\n", ":", "=", "(rev", the label words)
      are all of that kind, and SplitHead and SplitSecondAt fix the pieces
      by position in any case. */
  function Split(s: string, sep: string): (r: seq<string>)
    requires sep != []
    ensures |r| >= 1
    ensures Join(r, sep) == s
    ensures forall i :: 0 <= i < |r| ==> !Contains(r[i], sep)
    ensures |r| == 1 <==> !Contains(s, sep)
    decreases |s|
  {
    var k := Find(s, sep);
    if k < 0 then [s]
    else
      PrefixBeforeFirst(s, sep, k);
      var rest := Split(s[k + |sep|..], sep);
      PiecesJoin(s, sep, k, rest);
      PiecesCons(s, sep, k, rest, |rest| + 1);
      OccursThenContains(s, sep, k);
      [s[..k]] + rest
  }

  /** `s.split(sep, maxsplit)`: as Split, but at most maxsplit cuts, the
      remainder left whole in the last piece. */
  function SplitMax(s: string, sep: string, maxsplit: nat): (r: seq<string>)
    requires sep != []
    ensures 1 <= |r| <= maxsplit + 1
    ensures Join(r, sep) == s
    ensures |r| == 1 <==> (maxsplit == 0 || !Contains(s, sep))
    decreases maxsplit
  {
    var k := Find(s, sep);
    if maxsplit == 0 || k < 0 then
      OnePiece(s, sep, maxsplit);
      [s]
    else
      PrefixBeforeFirst(s, sep, k);
      var rest := SplitMax(s[k + |sep|..], sep, maxsplit - 1);
      PiecesJoin(s, sep, k, rest);
      OccursThenContains(s, sep, k);
      [s[..k]] + rest
  }

  /** The pieces of a split with at most maxsplit cuts are free of sep,
      all but the last, and the last too when fewer cuts were made. */
  predicate PiecesFree(r: seq<string>, sep: string, maxsplit: nat) {
    (forall i :: 0 <= i < |r| - 1 ==> !Contains(r[i], sep)) &&
    (|r| <= maxsplit ==> (|r| >= 1 && !Contains(r[|r| - 1], sep)))
  }

  /** All pieces of `split(sep, maxsplit)` but the last are free of sep, and
      so is the last when fewer than maxsplit cuts were made. */
  lemma {:induction false} SplitMaxPieces(s: string, sep: string, maxsplit: nat)
    requires sep != []
    ensures PiecesFree(SplitMax(s, sep, maxsplit), sep, maxsplit)
    decreases maxsplit
  {
    var k := Find(s, sep);
    if maxsplit == 0 || k < 0 {
      SplitMaxOne(s, sep, maxsplit);
    } else {
      SplitMaxPieces(s[k + |sep|..], sep, maxsplit - 1);
      SplitMaxCut(s, sep, maxsplit, k);
    }
  }

  lemma SplitMaxOne(s: string, sep: string, maxsplit: nat)
    requires sep != [] && (maxsplit == 0 || Find(s, sep) < 0)
    ensures PiecesFree(SplitMax(s, sep, maxsplit), sep, maxsplit)
  {
    assert SplitMax(s, sep, maxsplit) == [s];
    OnePiece(s, sep, maxsplit);
  }

  lemma SplitMaxCut(s: string, sep: string, maxsplit: nat, k: int)
    requires sep != [] && maxsplit >= 1 && k == Find(s, sep) && k >= 0
    requires PiecesFree(SplitMax(s[k + |sep|..], sep, maxsplit - 1), sep, maxsplit - 1)
    ensures PiecesFree(SplitMax(s, sep, maxsplit), sep, maxsplit)
  {
    var rest := SplitMax(s[k + |sep|..], sep, maxsplit - 1);
    assert SplitMax(s, sep, maxsplit) == [s[..k]] + rest;
    PrefixBeforeFirst(s, sep, k);
    PiecesCons(s, sep, k, rest, maxsplit);
  }

  /** No cut allowed, or no occurrence of sep: s is the only piece. */
  lemma OnePiece(s: string, sep: string, maxsplit: nat)
    requires maxsplit == 0 || Find(s, sep) < 0
    ensures Join([s], sep) == s && PiecesFree([s], sep, maxsplit)
    ensures maxsplit == 0 || !Contains(s, sep)
  {
  }

  /** The piece before an occurrence of sep at k, free of sep, in front of
      at most maxsplit - 1 cuts of what follows the occurrence: at most
      maxsplit cuts of s. */
  lemma PiecesCons(s: string, sep: string, k: nat, rest: seq<string>, maxsplit: nat)
    requires OccursAt(s, sep, k) && !Contains(s[..k], sep)
    requires maxsplit >= 1 && 1 <= |rest| <= maxsplit
    requires PiecesFree(rest, sep, maxsplit - 1)
    ensures PiecesFree([s[..k]] + rest, sep, maxsplit)
  {
    var r := [s[..k]] + rest;
    forall i | 0 <= i < |r| - 1
      ensures !Contains(r[i], sep)
    {
      if i > 0 {
        assert r[i] == rest[i - 1];
      }
    }
    assert r[|r| - 1] == rest[|rest| - 1];
  }

  lemma PiecesJoin(s: string, sep: string, k: nat, rest: seq<string>)
    requires OccursAt(s, sep, k) && |rest| >= 1
    requires Join(rest, sep) == s[k + |sep|..]
    ensures Join([s[..k]] + rest, sep) == s
  {
    JoinCons(s[..k], rest, sep);
    SliceThree(s, k, k + |sep|);
  }

  lemma SliceThree(s: string, i: nat, j: nat)
    requires i <= j <= |s|
    ensures s == s[..i] + s[i..j] + s[j..]
  {
  }

  /** The text before the first occurrence of sep does not contain it. */
  lemma PrefixBeforeFirst(s: string, sep: string, k: int)
    requires sep != [] && k == Find(s, sep) && k >= 0
    ensures OccursAt(s, sep, k) && !Contains(s[..k], sep)
  {
    PrefixFree(s, sep, k);
  }

  lemma PrefixFree(s: string, sep: string, k: int)
    requires sep != [] && 0 <= k <= |s|
    requires forall j :: 0 <= j < k ==> !OccursAt(s, sep, j)
    ensures !Contains(s[..k], sep)
  {
    var p := s[..k];
    forall j | 0 <= j && j + |sep| <= k
      ensures !OccursAt(p, sep, j)
    {
      assert p[j..j + |sep|] == s[j..j + |sep|];
      assert !OccursAt(s, sep, j);
    }
    assert forall j :: !OccursAt(p, sep, j);
  }

  /** Splitting on a one-character separator after a piece free of it. */
  lemma SplitAfterPiece(a: string, c: char, b: string)
    requires c !in a
    ensures Split(a + [c] + b, [c]) == [a] + Split(b, [c])
  {
    var s := a + [c] + b;
    assert s[|a|..|a| + 1] == [c];
    forall i | 0 <= i < |a| ensures !OccursAt(s, [c], i) {
      assert s[i] == a[i];
    }
    FindIsFirst(s, [c], |a|);
    assert s[..|a|] == a;
    assert s[|a| + 1..] == b;
  }

  /** `s.index(c)`: the position of the first c in s. */
  function FirstIndex(s: string, c: char): (i: nat)
    requires c in s
    ensures i < |s| && s[i] == c
    ensures forall k :: 0 <= k < i ==> s[k] != c
  {
    if s[0] == c then 0 else 1 + FirstIndex(s[1..], c)
  }

  /** Where a field that starts at i ends: at the next c from i on, or at
      the end of s. */
  function FieldEnd(s: string, c: char, i: nat): (j: nat)
    requires i <= |s|
    ensures i <= j <= |s|
    ensures forall k :: i <= k < j ==> s[k] != c
    ensures j == |s| || s[j] == c
    decreases |s| - i
  {
    if i == |s| || s[i] == c then i else FieldEnd(s, c, i + 1)
  }

  /** `s.split(sep)[0]` is the text before the first sep, or all of s. */
  lemma SplitHead(s: string, sep: string)
    requires sep != []
    ensures Contains(s, sep) ==> Split(s, sep)[0] == s[..Find(s, sep)]
    ensures !Contains(s, sep) ==> Split(s, sep)[0] == s
  {
  }

  /** The text between the first c of s and the next c, or the end of s:
      the longest run free of c right after the first c. It is
      `s.split(c)[1]` (SecondFieldSplit). */
  function SecondField(s: string, c: char): (f: string)
    requires c in s
    ensures c !in f
    ensures var i := FirstIndex(s, c);
      i + 1 + |f| <= |s| && s[i + 1..i + 1 + |f|] == f && (i + 1 + |f| == |s| || s[i + 1 + |f|] == c)
  {
    var i := FirstIndex(s, c);
    s[i + 1..FieldEnd(s, c, i + 1)]
  }

  lemma {:induction false} SecondFieldSplit(s: string, c: char)
    requires c in s
    ensures |Split(s, [c])| >= 2 && Split(s, [c])[1] == SecondField(s, c)
  {
    SecondFieldAt(s, c, FirstIndex(s, c), FieldEnd(s, c, FirstIndex(s, c) + 1));
  }

  lemma {:induction false} SecondFieldAt(s: string, c: char, i: nat, j: nat)
    requires c in s && i == FirstIndex(s, c) && j == FieldEnd(s, c, i + 1)
    ensures |Split(s, [c])| >= 2 && Split(s, [c])[1] == s[i + 1..j] == SecondField(s, c)
  {
    SplitSecondAt(s, c, i, j);
    SecondFieldIs(s, c, i, j);
  }

  lemma {:induction false} SecondFieldIs(s: string, c: char, i: nat, j: nat)
    requires c in s && i == FirstIndex(s, c) && j == FieldEnd(s, c, i + 1)
    ensures SecondField(s, c) == s[i + 1..j]
  {
  }

  /** `s.split(c)[1]`, for an s holding c, is the text between its first c,
      at i, and the next one, at j, or the end of s. */
  lemma {:induction false} SplitSecondAt(s: string, c: char, i: nat, j: nat)
    requires i < j <= |s| && s[i] == c && (forall k :: 0 <= k < i ==> s[k] != c)
    requires (forall k :: i < k < j ==> s[k] != c) && (j == |s| || s[j] == c)
    ensures |Split(s, [c])| >= 2 && Split(s, [c])[1] == s[i + 1..j]
  {
    var t := s[i + 1..];
    assert c !in s[..i];
    SplitAt(s, c, i);
    FirstField(t, c, j - i - 1);
    SliceOfSuffix(s, i + 1, j);
  }

  /** Splitting at the first c: the text before it, then the pieces of what
      follows it. */
  lemma SplitAt(s: string, c: char, i: nat)
    requires i < |s| && s[i] == c && c !in s[..i]
    ensures Split(s, [c]) == [s[..i]] + Split(s[i + 1..], [c])
  {
    CutAt(s, i);
    SplitAfterPiece(s[..i], c, s[i + 1..]);
  }

  lemma SliceOfSuffix(s: string, a: nat, b: nat)
    requires a <= b <= |s|
    ensures s[a..][..b - a] == s[a..b]
  {
  }

  /** s is the text before s[i], s[i] and the text after it. */
  lemma CutAt(s: string, i: nat)
    requires i < |s|
    ensures s == s[..i] + [s[i]] + s[i + 1..]
  {
  }

  /** `t.split(c)[0]` is t up to its first c, or all of t. */
  lemma FirstField(t: string, c: char, j: nat)
    requires j <= |t| && (forall k :: 0 <= k < j ==> t[k] != c) && (j == |t| || t[j] == c)
    ensures Split(t, [c])[0] == t[..j]
  {
    assert c !in t[..j];
    if j == |t| {
      assert t[..j] == t;
      SplitWhole(t, c);
    } else {
      SplitAt(t, c, j);
    }
  }

  /** `split(c, m)` with m >= 1 cuts at the first c and splits the rest
      with one cut fewer. */
  lemma SplitMaxAfterPiece(a: string, c: char, b: string, m: nat)
    requires c !in a && m >= 1
    ensures SplitMax(a + [c] + b, [c], m) == [a] + SplitMax(b, [c], m - 1)
  {
    var s := a + [c] + b;
    assert s[|a|..|a| + 1] == [c];
    forall i | 0 <= i < |a| ensures !OccursAt(s, [c], i) {
      assert s[i] == a[i];
    }
    FindIsFirst(s, [c], |a|);
    assert s[..|a|] == a;
    assert s[|a| + 1..] == b;
  }

  /** Splitting a string free of a one-character separator. */
  lemma SplitWhole(a: string, c: char)
    requires c !in a
    ensures Split(a, [c]) == [a]
  {
    ContainsChar(a, c);
  }

  /** `s.replace(pat, repl)` for a non-empty pat: every occurrence, found left
      to right without overlap, replaced. */
  function Replace(s: string, pat: string, repl: string): string
    requires pat != []
  {
    Join(Split(s, pat), repl)
  }

  /** A string without pat is unchanged by `replace`. */
  lemma ReplaceAbsent(s: string, pat: string, repl: string)
    requires pat != [] && !Contains(s, pat)
    ensures Replace(s, pat, repl) == s
  {
  }

  /** `replace` rewrites the first occurrence and carries on after it. */
  lemma ReplaceFirst(a: string, pat: string, b: string, repl: string)
    requires pat != [] && Find(a + pat + b, pat) == |a|
    ensures Replace(a + pat + b, pat, repl) == a + repl + Replace(b, pat, repl)
  {
    var s := a + pat + b;
    assert s[..|a|] == a;
    assert s[|a| + |pat|..] == b;
    JoinCons(a, Split(b, pat), repl);
  }

  // ---------------------------------------------------------------- paths

  /** `os.path.basename(p)`: the text after the last '/'. */
  function Basename(p: string): (r: string)
    ensures '/' !in r
    ensures |r| <= |p| && p[|p| - |r|..] == r
    ensures |r| == |p| || p[|p| - |r| - 1] == '/'
  {
    if p == [] || p[|p| - 1] == '/' then []
    else Basename(p[..|p| - 1]) + [p[|p| - 1]]
  }

  /** `split()[-1]`: the last whitespace-separated word of s, given that s
      has one. It is reached from the end of s by passing over whitespace
      only, and is a maximal run of non-whitespace. */
  function LastWord(s: string): (r: string)
    requires exists i :: 0 <= i < |s| && s[i] !in Whitespace
    ensures r != []
    ensures forall i :: 0 <= i < |r| ==> r[i] !in Whitespace
    ensures var e := |RStrip(s, Whitespace)|;
      |r| <= e && s[e - |r|..e] == r && (e == |r| || s[e - |r| - 1] in Whitespace)
      && forall i :: e <= i < |s| ==> s[i] in Whitespace
  {
    var t := RStrip(s, Whitespace);
    assert t != [] by {
      var i :| 0 <= i < |s| && s[i] !in Whitespace;
      assert i < |t|;
    }
    TrailingWord(t)
  }

  /** The run of non-whitespace at the end of t. */
  function TrailingWord(t: string): (r: string)
    ensures forall i :: 0 <= i < |r| ==> r[i] !in Whitespace
    ensures |r| <= |t| && t[|t| - |r|..] == r
    ensures |r| == |t| || t[|t| - |r| - 1] in Whitespace
  {
    if t == [] || t[|t| - 1] in Whitespace then []
    else TrailingWord(t[..|t| - 1]) + [t[|t| - 1]]
  }

  /** The last word of pre + id + tail is id, for a pre ending in
      whitespace, an id without any and a tail of whitespace. */
  lemma LastWordOf(pre: string, id: string, tail: string)
    requires pre == [] || pre[|pre| - 1] in Whitespace
    requires id != [] && forall i :: 0 <= i < |id| ==> id[i] !in Whitespace
    requires forall i :: 0 <= i < |tail| ==> tail[i] in Whitespace
    ensures exists i :: 0 <= i < |pre + id + tail| && (pre + id + tail)[i] !in Whitespace
    ensures LastWord(pre + id + tail) == id
  {
    var s := pre + id + tail;
    assert s[|pre|] == id[0];
    RStripOf(pre + id, tail, Whitespace);
    TrailingWordOf(pre, id);
  }

  lemma {:induction false} TrailingWordOf(pre: string, id: string)
    requires pre == [] || pre[|pre| - 1] in Whitespace
    requires forall i :: 0 <= i < |id| ==> id[i] !in Whitespace
    ensures TrailingWord(pre + id) == id
    decreases |id|
  {
    if id == [] {
      assert pre + id == pre;
    } else {
      var init, last := id[..|id| - 1], id[|id| - 1];
      TrailingWordOf(pre, init);
      InitOfAppend(pre, id);
      TrailingWordStep(pre + id, last);
      assert init + [last] == id;
    }
  }

  lemma InitOfAppend(pre: string, id: string)
    requires id != []
    ensures (pre + id)[..|pre + id| - 1] == pre + id[..|id| - 1]
    ensures (pre + id)[|pre + id| - 1] == id[|id| - 1]
  {
  }

  lemma TrailingWordStep(t: string, last: char)
    requires t != [] && t[|t| - 1] == last && last !in Whitespace
    ensures TrailingWord(t) == TrailingWord(t[..|t| - 1]) + [last]
  {
  }
}
