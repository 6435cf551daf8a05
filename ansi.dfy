/** `clean_fastfetch_output`: two `re.sub` passes that delete ANSI control
    sequences (ECMA-48 sequences introduced by ESC '['), first the cursor
    movements, then the Select Graphic Rendition (colour) sequences of
    section 8.3.117 of ECMA-48. */
module Ansi {

  const Esc: char := '\U{1B}'

  /** The two compiled patterns of the widget. `CursorMove` is
      `\x1B\[[0-9]*[ABCD]|\x1B\[[0-9]*G|\x1B\[[0-9]*C`; its third alternative
      is covered by the first, so it matches ESC '[' digits and one of
      A, B, C, D, G. `Colour` is `\x1B\[[0-9;]*m`. */
  datatype Pattern = CursorMove | Colour

  predicate IsDigit(c: char) { '0' <= c <= '9' }

  /** The characters the pattern's starred class accepts. */
  predicate IsParam(p: Pattern, c: char) {
    match p
    case CursorMove => IsDigit(c)
    case Colour => IsDigit(c) || c == ';'
  }

  /** The characters that may end a sequence of the pattern. */
  predicate IsFinal(p: Pattern, c: char) {
    match p
    case CursorMove => c == 'A' || c == 'B' || c == 'C' || c == 'D' || c == 'G'
    case Colour => c == 'm'
  }

  /** t is, in its entirety, a sequence the pattern matches. */
  predicate IsSequence(p: Pattern, t: string) {
    && |t| >= 3 && t[0] == Esc && t[1] == '['
    && IsFinal(p, t[|t| - 1])
    && forall i :: 2 <= i < |t| - 1 ==> IsParam(p, t[i])
  }

  /** How far the greedy starred class runs at the start of s. */
  function ParamRun(p: Pattern, s: string): (n: nat)
    ensures n <= |s|
    ensures forall i :: 0 <= i < n ==> IsParam(p, s[i])
    ensures n == |s| || !IsParam(p, s[n])
  {
    if s != [] && IsParam(p, s[0]) then 1 + ParamRun(p, s[1..]) else 0
  }

  /** The length of the pattern's match at the start of s, 0 when it does not
      match there. */
  function MatchLength(p: Pattern, s: string): (n: nat)
    ensures n == 0 || (3 <= n <= |s| && IsSequence(p, s[..n]))
  {
    if |s| >= 2 && s[0] == Esc && s[1] == '[' then
      var k := ParamRun(p, s[2..]);
      if 2 + k < |s| && IsFinal(p, s[2 + k]) then
        var q := s[..k + 3];
        assert forall i :: 2 <= i < k + 2 ==> q[i] == s[2..][i - 2];
        3 + k
      else 0
    else 0
  }

  /** A final character is never a parameter character, so at most one prefix
      of s is a sequence, and the greedy match finds it: the match is exactly
      the prefix that is a sequence, when there is one. */
  lemma MatchLengthExact(p: Pattern, s: string, m: nat)
    requires 0 < m <= |s| && IsSequence(p, s[..m])
    ensures MatchLength(p, s) == m
  {
    var q := s[..m];
    var k := ParamRun(p, s[2..]);
    forall i | 0 <= i < m - 3 ensures IsParam(p, s[2..][i]) {
      assert q[i + 2] == s[2..][i];
    }
    assert q[m - 1] == s[2..][m - 3];
  }

  /** No prefix of s is a sequence when the match length is 0. */
  lemma NoMatchNoSequence(p: Pattern, s: string, m: nat)
    requires MatchLength(p, s) == 0 && 0 < m <= |s|
    ensures !IsSequence(p, s[..m])
  {
    if IsSequence(p, s[..m]) {
      MatchLengthExact(p, s, m);
    }
  }

  /** `re.sub(p, '', s)`: scanning from the left, every match is deleted and
      the scan resumes right after it; anywhere else one character is kept.
      Text without ESC is returned as it is. */
  function Sub(p: Pattern, s: string): (r: string)
    ensures |r| <= |s|
    decreases |s|
  {
    if s == [] then []
    else
      var n := MatchLength(p, s);
      if n > 0 then Sub(p, s[n..]) else [s[0]] + Sub(p, s[1..])
  }

  /** A pass only deletes characters; text without ESC is returned as it is
      (SubPlainPrefix). */
  lemma {:induction false} SubIsSubsequence(p: Pattern, s: string)
    ensures IsSubsequence(Sub(p, s), s)
    decreases |s|
  {
    if s != [] {
      var n := MatchLength(p, s);
      if n > 0 {
        SubIsSubsequence(p, s[n..]);
        SubsequenceOfSuffix(Sub(p, s[n..]), s, n);
      } else {
        SubIsSubsequence(p, s[1..]);
        var r := Sub(p, s);
        assert r[0] == s[0] && r[1..] == Sub(p, s[1..]);
      }
    }
  }

  /** The widget's `clean_fastfetch_output`: cursor movements removed first,
      then colour sequences. Only characters are removed, in order, and text
      without an ESC character comes back unchanged. */
  function CleanFastfetchOutput(text: string): (r: string)
    ensures IsSubsequence(r, text)
    ensures |r| <= |text|
    ensures Esc !in text ==> r == text
  {
    var moved := Sub(CursorMove, text);
    SubWithoutEsc(CursorMove, text);
    SubWithoutEsc(Colour, text);
    SubIsSubsequence(CursorMove, text);
    SubIsSubsequence(Colour, moved);
    SubsequenceTransitive(Sub(Colour, moved), moved, text);
    SubsequenceLength(Sub(Colour, moved), text);
    Sub(Colour, moved)
  }

  // ---------------------------------------------------------------- subsequences

  /** a can be obtained from b by deleting characters. */
  predicate IsSubsequence(a: string, b: string)
    decreases |b|
  {
    a == [] || (b != [] && ((a[0] == b[0] && IsSubsequence(a[1..], b[1..])) || IsSubsequence(a, b[1..])))
  }

  lemma {:induction false} SubsequenceOfSuffix(a: string, b: string, n: nat)
    requires n <= |b| && IsSubsequence(a, b[n..])
    ensures IsSubsequence(a, b)
    decreases n
  {
    if n > 0 {
      assert b[n - 1..][1..] == b[n..];
      SubsequenceOfSuffix(a, b, n - 1);
    }
  }

  lemma {:induction false} SubsequenceTransitive(a: string, b: string, c: string)
    requires IsSubsequence(a, b) && IsSubsequence(b, c)
    ensures IsSubsequence(a, c)
    decreases |c|
  {
    if a != [] {
      assert b != [] && c != [];
      if b[0] == c[0] && IsSubsequence(b[1..], c[1..]) {
        if a[0] == b[0] && IsSubsequence(a[1..], b[1..]) {
          SubsequenceTransitive(a[1..], b[1..], c[1..]);
        } else {
          SubsequenceTransitive(a, b[1..], c[1..]);
        }
      } else {
        SubsequenceTransitive(a, b, c[1..]);
      }
    }
  }

  lemma {:induction false} SubsequenceLength(a: string, b: string)
    requires IsSubsequence(a, b)
    ensures |a| <= |b|
    decreases |b|
  {
    if a != [] {
      if a[0] == b[0] && IsSubsequence(a[1..], b[1..]) {
        SubsequenceLength(a[1..], b[1..]);
      } else {
        SubsequenceLength(a, b[1..]);
      }
    }
  }

  // ---------------------------------------------------------------- rendered output

  /** A piece of terminal output: plain text, a cursor movement
      (ESC '[' count final) or a colour sequence (ESC '[' params 'm'). */
  datatype Chunk = Text(text: string) | Move(count: string, final: char) | Style(params: string)

  predicate WellFormed(c: Chunk) {
    match c
    case Text(t) => forall i :: 0 <= i < |t| ==> t[i] != Esc
    case Move(n, f) => IsFinal(CursorMove, f) && forall i :: 0 <= i < |n| ==> IsDigit(n[i])
    case Style(ps) => forall i :: 0 <= i < |ps| ==> IsParam(Colour, ps[i])
  }

  function Render(c: Chunk): string {
    match c
    case Text(t) => t
    case Move(n, f) => [Esc, '['] + n + [f]
    case Style(ps) => [Esc, '['] + ps + ['m']
  }

  function RenderAll(cs: seq<Chunk>): string {
    if cs == [] then [] else Render(cs[0]) + RenderAll(cs[1..])
  }

  function TextOf(c: Chunk): string {
    if c.Text? then c.text else []
  }

  /** The plain text of the output, in order. */
  function VisibleText(cs: seq<Chunk>): string {
    if cs == [] then [] else TextOf(cs[0]) + VisibleText(cs[1..])
  }

  function KeptByCursorPass(c: Chunk): seq<Chunk> {
    if c.Move? then [] else [c]
  }

  function WithoutMoves(cs: seq<Chunk>): seq<Chunk> {
    if cs == [] then [] else KeptByCursorPass(cs[0]) + WithoutMoves(cs[1..])
  }

  /** Output made of plain text and well-formed sequences is cleaned to
      exactly its plain text: every sequence goes, every text character stays. */
  lemma CleanRendered(cs: seq<Chunk>)
    requires forall i :: 0 <= i < |cs| ==> WellFormed(cs[i])
    ensures CleanFastfetchOutput(RenderAll(cs)) == VisibleText(cs)
  {
    SubMovesRendered(cs);
    SubStylesRendered(WithoutMoves(cs));
    VisibleWithoutMoves(cs);
  }

  lemma {:induction false} VisibleWithoutMoves(cs: seq<Chunk>)
    ensures VisibleText(WithoutMoves(cs)) == VisibleText(cs)
  {
    if cs != [] {
      VisibleWithoutMoves(cs[1..]);
      var head := KeptByCursorPass(cs[0]);
      VisibleAppend(head, WithoutMoves(cs[1..]));
    }
  }

  lemma {:induction false} VisibleAppend(a: seq<Chunk>, b: seq<Chunk>)
    ensures VisibleText(a + b) == VisibleText(a) + VisibleText(b)
  {
    if a == [] {
      assert a + b == b;
    } else {
      assert (a + b)[0] == a[0];
      assert (a + b)[1..] == a[1..] + b;
      VisibleAppend(a[1..], b);
    }
  }

  lemma {:induction false} RenderAppend(a: seq<Chunk>, b: seq<Chunk>)
    ensures RenderAll(a + b) == RenderAll(a) + RenderAll(b)
  {
    if a == [] {
      assert a + b == b;
    } else {
      assert (a + b)[0] == a[0];
      assert (a + b)[1..] == a[1..] + b;
      RenderAppend(a[1..], b);
    }
  }

  /** The cursor pass removes the movements and leaves the rest as rendered. */
  lemma {:induction false} SubMovesRendered(cs: seq<Chunk>)
    requires forall i :: 0 <= i < |cs| ==> WellFormed(cs[i])
    ensures Sub(CursorMove, RenderAll(cs)) == RenderAll(WithoutMoves(cs))
    ensures forall i :: 0 <= i < |WithoutMoves(cs)| ==> WellFormed(WithoutMoves(cs)[i]) && !WithoutMoves(cs)[i].Move?
  {
    if cs != [] {
      var rest := RenderAll(cs[1..]);
      var head := KeptByCursorPass(cs[0]);
      assert RenderAll(cs) == Render(cs[0]) + rest;
      assert WithoutMoves(cs) == head + WithoutMoves(cs[1..]);
      SubMovesRendered(cs[1..]);
      RenderAppend(head, WithoutMoves(cs[1..]));
      SubMovesHead(cs[0], rest);
      KeptWellFormed(cs[0], WithoutMoves(cs[1..]));
    }
  }

  /** The cursor pass on one rendered chunk followed by anything. */
  lemma SubMovesHead(c: Chunk, rest: string)
    requires WellFormed(c)
    ensures Sub(CursorMove, Render(c) + rest) == RenderAll(KeptByCursorPass(c)) + Sub(CursorMove, rest)
  {
    if c.Move? {
      SubMovesHeadDropped(c, rest);
    } else {
      SubMovesHeadKept(c, rest);
    }
  }

  lemma SubMovesHeadDropped(c: Chunk, rest: string)
    requires WellFormed(c) && c.Move?
    ensures Sub(CursorMove, Render(c) + rest) == RenderAll(KeptByCursorPass(c)) + Sub(CursorMove, rest)
  {
    var x := Sub(CursorMove, rest);
    SubDropsMove(c.count, c.final, rest);
    var e := RenderAll(KeptByCursorPass(c));
    assert e == [];
    assert e + x == x;
  }

  lemma SubMovesHeadKept(c: Chunk, rest: string)
    requires WellFormed(c) && !c.Move?
    ensures Sub(CursorMove, Render(c) + rest) == RenderAll(KeptByCursorPass(c)) + Sub(CursorMove, rest)
  {
    if c.Text? {
      SubPlainPrefix(CursorMove, c.text, rest);
    } else {
      SubKeepsStyle(c.params, rest);
    }
    RenderOne(c);
  }

  lemma RenderOne(c: Chunk)
    ensures RenderAll([c]) == Render(c)
  {
    assert RenderAll([c]) == Render(c) + RenderAll([]);
  }

  /** The cursor pass deletes a cursor movement at the front. */
  lemma SubDropsMove(n: string, f: char, rest: string)
    requires WellFormed(Move(n, f))
    ensures Sub(CursorMove, Render(Move(n, f)) + rest) == Sub(CursorMove, rest)
  {
    var q := Render(Move(n, f));
    assert forall i :: 2 <= i < |q| - 1 ==> q[i] == n[i - 2];
    SubSkipsSequence(CursorMove, q, rest);
  }

  lemma KeptWellFormed(c: Chunk, tail: seq<Chunk>)
    requires WellFormed(c)
    requires forall i :: 0 <= i < |tail| ==> WellFormed(tail[i]) && !tail[i].Move?
    ensures var k := KeptByCursorPass(c) + tail; forall i :: 0 <= i < |k| ==> WellFormed(k[i]) && !k[i].Move?
  {
    var k := KeptByCursorPass(c) + tail;
    forall i | 0 <= i < |k| ensures WellFormed(k[i]) && !k[i].Move? {
      if c.Move? { assert k[i] == tail[i]; }
      else if i > 0 { assert k[i] == tail[i - 1]; }
    }
  }

  /** The colour pass removes the colour sequences and keeps the text. */
  lemma {:induction false} SubStylesRendered(cs: seq<Chunk>)
    requires forall i :: 0 <= i < |cs| ==> WellFormed(cs[i]) && !cs[i].Move?
    ensures Sub(Colour, RenderAll(cs)) == VisibleText(cs)
  {
    if cs != [] {
      var rest := RenderAll(cs[1..]);
      assert RenderAll(cs) == Render(cs[0]) + rest;
      assert VisibleText(cs) == TextOf(cs[0]) + VisibleText(cs[1..]);
      SubStylesRendered(cs[1..]);
      match cs[0]
      case Text(t) =>
        SubPlainPrefix(Colour, t, rest);
      case Style(ps) =>
        SubDropsStyle(ps, rest);
    }
  }

  /** The colour pass deletes a colour sequence at the front. */
  lemma SubDropsStyle(ps: string, rest: string)
    requires forall i :: 0 <= i < |ps| ==> IsParam(Colour, ps[i])
    ensures Sub(Colour, Render(Style(ps)) + rest) == Sub(Colour, rest)
  {
    var q := Render(Style(ps));
    assert forall i :: 2 <= i < |q| - 1 ==> q[i] == ps[i - 2];
    SubSkipsSequence(Colour, q, rest);
  }

  /** Text without ESC passes through a pass untouched. */
  lemma {:induction false} SubPlainPrefix(p: Pattern, t: string, rest: string)
    requires forall i :: 0 <= i < |t| ==> t[i] != Esc
    ensures Sub(p, t + rest) == t + Sub(p, rest)
  {
    if t == [] {
      assert t + rest == rest;
    } else {
      var x := Sub(p, rest);
      calc {
        Sub(p, t + rest);
        { assert t + rest == [t[0]] + (t[1..] + rest); }
        Sub(p, [t[0]] + (t[1..] + rest));
        { SubKeepsChar(p, t[0], t[1..] + rest); }
        [t[0]] + Sub(p, t[1..] + rest);
        { SubPlainPrefix(p, t[1..], rest); }
        [t[0]] + (t[1..] + x);
        { assert [t[0]] + t[1..] == t; }
        t + x;
      }
    }
  }

  lemma SubWithoutEsc(p: Pattern, s: string)
    ensures Esc !in s ==> Sub(p, s) == s
  {
    if Esc !in s {
      SubPlainPrefix(p, s, []);
      assert s + [] == s;
    }
  }

  /** A character other than ESC starts no match and is kept. */
  lemma SubKeepsChar(p: Pattern, c: char, s: string)
    requires c != Esc
    ensures Sub(p, [c] + s) == [c] + Sub(p, s)
  {
    assert ([c] + s)[1..] == s;
  }

  /** A whole sequence at the front is deleted. */
  lemma SubSkipsSequence(p: Pattern, q: string, rest: string)
    requires IsSequence(p, q)
    ensures Sub(p, q + rest) == Sub(p, rest)
  {
    assert (q + rest)[..|q|] == q;
    MatchLengthExact(p, q + rest, |q|);
    assert (q + rest)[|q|..] == rest;
  }

  /** Where nothing matches, the first character is kept. */
  lemma SubNoMatch(p: Pattern, s: string)
    requires s != [] && MatchLength(p, s) == 0
    ensures Sub(p, s) == [s[0]] + Sub(p, s[1..])
  {
  }

  /** The cursor pass does not match a colour sequence. */
  lemma SubKeepsStyle(ps: string, rest: string)
    requires forall i :: 0 <= i < |ps| ==> IsParam(Colour, ps[i])
    ensures Sub(CursorMove, Render(Style(ps)) + rest) == Render(Style(ps)) + Sub(CursorMove, rest)
  {
    var tail := ['['] + ps + ['m'];
    var s := [Esc] + (tail + rest);
    assert Render(Style(ps)) + rest == s;
    CursorMoveMissesStyle(ps, rest, s);
    assert forall i :: 0 <= i < |tail| ==> tail[i] != Esc by {
      forall i | 0 <= i < |tail| ensures tail[i] != Esc {
        if 0 < i < |tail| - 1 { assert tail[i] == ps[i - 1]; }
      }
    }
    var x := Sub(CursorMove, rest);
    calc {
      Sub(CursorMove, s);
      { SubNoMatch(CursorMove, s); assert s[1..] == tail + rest; }
      [Esc] + Sub(CursorMove, tail + rest);
      { SubPlainPrefix(CursorMove, tail, rest); }
      [Esc] + (tail + x);
      { assert [Esc] + tail == Render(Style(ps)); }
      Render(Style(ps)) + x;
    }
  }

  /** No cursor movement starts where a colour sequence does: the characters
      up to its 'm' are digits or ';', and 'm' is neither a digit nor a final. */
  lemma CursorMoveMissesStyle(ps: string, rest: string, s: string)
    requires forall i :: 0 <= i < |ps| ==> IsParam(Colour, ps[i])
    requires s == Render(Style(ps)) + rest
    ensures MatchLength(CursorMove, s) == 0
  {
    var t := s[2..];
    assert t == ps + (['m'] + rest);
    var k := ParamRun(CursorMove, t);
    assert t[|ps|] == 'm';
    assert k <= |ps|;
    if k < |ps| {
      assert t[k] == ps[k];
    }
    assert !IsFinal(CursorMove, t[k]);
  }

  /** One pass can leave a sequence behind: deleting an inner sequence joins
      the characters around it into a new one, which is not scanned again. */
  lemma SinglePassCanLeaveASequence()
    ensures CleanFastfetchOutput([Esc, '[', Esc, '[', 'A', 'A']) == [Esc, '[', 'A']
  {
    var s := [Esc, '[', Esc, '[', 'A', 'A'];
    var left := [Esc, '[', 'A'];
    assert MatchLength(CursorMove, s) == 0;
    SubNoMatch(CursorMove, s);
    SubKeepsChar(CursorMove, '[', s[2..]);
    assert s[1..] == ['['] + s[2..];
    assert s[2..] == [Esc, '[', 'A'] + ['A'];
    SubSkipsSequence(CursorMove, [Esc, '[', 'A'], ['A']);
    SubKeepsChar(CursorMove, 'A', []);
    assert ['A'] + [] == ['A'];
    assert Sub(CursorMove, s) == left;
    assert MatchLength(Colour, left) == 0;
    SubNoMatch(Colour, left);
    assert left[1..] == ['['] + ['A'];
    SubKeepsChar(Colour, '[', ['A']);
    assert ['A'] == ['A'] + [];
    SubKeepsChar(Colour, 'A', []);
  }
}
