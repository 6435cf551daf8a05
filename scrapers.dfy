/** `get_cpu_info` and `get_version_id`: the first line of a file with a
    given prefix, and the field after its first separator. */
module Scrapers {
  import opened Wrappers
  import opened PyStr

  // ---------------------------------------------------------------- lines of a file

  /** The length of the first line of s, its '\n' included when it has one. */
  function LineLength(s: string): (n: nat)
    requires s != []
    ensures 1 <= n <= |s|
    ensures forall i :: 0 <= i < n - 1 ==> s[i] != '\n'
    ensures n == |s| || s[n - 1] == '\n'
  {
    if s[0] == '\n' || |s| == 1 then 1 else 1 + LineLength(s[1..])
  }

  /** A line as iterating over a text file yields it: not empty, and no
      '\n' before its last character. */
  predicate IsLine(l: string) {
    l != [] && forall i :: 0 <= i < |l| - 1 ==> l[i] != '\n'
  }

  function Concat(ls: seq<string>): string {
    if ls == [] then [] else ls[0] + Concat(ls[1..])
  }

  /** `for line in f`: the lines of the text, each keeping its '\n'. */
  function FileLines(text: string): (r: seq<string>)
    ensures forall i :: 0 <= i < |r| ==> IsLine(r[i])
    decreases |text|
  {
    if text == [] then []
    else
      var n := LineLength(text);
      [text[..n]] + FileLines(text[n..])
  }

  /** Joining the lines gives the text back. */
  lemma {:induction false} FileLinesConcat(text: string)
    ensures Concat(FileLines(text)) == text
    decreases |text|
  {
    if text != [] {
      var n := LineLength(text);
      var r := FileLines(text);
      FileLinesConcat(text[n..]);
      assert r[1..] == FileLines(text[n..]);
      assert text == text[..n] + text[n..];
    }
  }

  /** Every line but the last ends with '\n'. */
  lemma {:induction false} FileLinesEnded(text: string)
    ensures var r := FileLines(text);
      forall i :: 0 <= i < |r| - 1 ==> r[i][|r[i]| - 1] == '\n'
    decreases |text|
  {
    if text != [] {
      var n := LineLength(text);
      var r := FileLines(text);
      FileLinesEnded(text[n..]);
      assert r[1..] == FileLines(text[n..]);
      forall i | 0 <= i < |r| - 1 ensures r[i][|r[i]| - 1] == '\n' {
        if i > 0 {
          assert r[i] == r[1..][i - 1];
        }
      }
    }
  }

  /** The first line of a + b is that of a when a holds a '\n'. */
  lemma {:induction false} LineLengthPrefix(a: string, b: string)
    requires a != [] && (LineLength(a) < |a| || a[|a| - 1] == '\n')
    ensures LineLength(a + b) == LineLength(a)
  {
    if a[0] != '\n' && |a| > 1 {
      assert (a + b)[1..] == a[1..] + b;
      LineLengthPrefix(a[1..], b);
    }
  }

  /** Text that ends a line splits into lines independently of what follows. */
  lemma {:induction false} FileLinesAppend(a: string, b: string)
    requires a == [] || a[|a| - 1] == '\n'
    ensures FileLines(a + b) == FileLines(a) + FileLines(b)
    decreases |a|
  {
    if a == [] {
      assert a + b == b;
    } else {
      var n := LineLength(a);
      LineLengthPrefix(a, b);
      FileLinesAppend(a[n..], b);
      FileLinesStep(a, b, n);
    }
  }

  lemma FileLinesStep(a: string, b: string, n: nat)
    requires a != [] && n == LineLength(a) && LineLength(a + b) == n
    requires FileLines(a[n..] + b) == FileLines(a[n..]) + FileLines(b)
    ensures FileLines(a + b) == FileLines(a) + FileLines(b)
  {
    FileLinesHead(a + b, n);
    SliceOfAppend(a, b, n);
    FileLinesHead(a, n);
    ConcatThree([a[..n]], FileLines(a[n..]), FileLines(b));
  }

  lemma FileLinesHead(t: string, n: nat)
    requires t != [] && n == LineLength(t)
    ensures FileLines(t) == [t[..n]] + FileLines(t[n..])
  {
  }

  lemma SliceOfAppend(a: string, b: string, n: nat)
    requires n <= |a|
    ensures (a + b)[..n] == a[..n] && (a + b)[n..] == a[n..] + b
  {
  }

  lemma FileLinesSingle(l: string)
    requires IsLine(l)
    ensures FileLines(l) == [l]
  {
    LineLengthOfLine(l);
    assert l[..|l|] == l;
    assert l[|l|..] == [];
    assert FileLines(l[|l|..]) == [];
  }

  lemma {:induction false} LineLengthOfLine(l: string)
    requires IsLine(l)
    ensures LineLength(l) == |l|
  {
    if l[0] != '\n' && |l| > 1 {
      LineLengthOfLine(l[1..]);
    }
  }

  /** Text made of a, a line l and then c, with a ending a line, has l as the
      line right after those of a. */
  lemma FileLinesAround(a: string, l: string, c: string)
    requires a == [] || a[|a| - 1] == '\n'
    requires IsLine(l) && l[|l| - 1] == '\n'
    ensures FileLines(a + l + c) == FileLines(a) + [l] + FileLines(c)
  {
    assert a + l + c == a + (l + c);
    FileLinesAppend(a, l + c);
    FileLinesAppend(l, c);
    FileLinesSingle(l);
    ConcatThree(FileLines(a), [l], FileLines(c));
  }

  lemma ConcatThree(x: seq<string>, y: seq<string>, z: seq<string>)
    ensures x + (y + z) == x + y + z
  {
  }

  // ---------------------------------------------------------------- first line with a prefix

  /** The index of the first line with the prefix. */
  function FirstWithPrefix(lines: seq<string>, prefix: string): (r: Option<nat>)
    ensures r.None? <==> forall i :: 0 <= i < |lines| ==> !StartsWith(lines[i], prefix)
    ensures r.Some? ==> r.value < |lines| && StartsWith(lines[r.value], prefix)
    ensures r.Some? ==> forall i :: 0 <= i < r.value ==> !StartsWith(lines[i], prefix)
  {
    if lines == [] then None
    else if StartsWith(lines[0], prefix) then Some(0)
    else
      var r := FirstWithPrefix(lines[1..], prefix);
      if r.Some? then
        assert forall i :: 1 <= i <= r.value ==> lines[i] == lines[1..][i - 1];
        Some(r.value + 1)
      else r
  }

  lemma FirstWithPrefixUnique(lines: seq<string>, prefix: string, k: nat)
    requires k < |lines| && StartsWith(lines[k], prefix)
    requires forall i :: 0 <= i < k ==> !StartsWith(lines[i], prefix)
    ensures FirstWithPrefix(lines, prefix) == Some(k)
  {
  }

  /** A line l with the prefix, placed after text none of whose lines has
      it, is the line a scan for the prefix finds. */
  lemma FirstLineAfter(before: string, l: string, after: string, prefix: string)
    requires before == [] || before[|before| - 1] == '\n'
    requires forall i :: 0 <= i < |FileLines(before)| ==> !StartsWith(FileLines(before)[i], prefix)
    requires IsLine(l) && l[|l| - 1] == '\n' && StartsWith(l, prefix)
    ensures var lines := FileLines(before + l + after);
      FirstWithPrefix(lines, prefix) == Some(|FileLines(before)|) && lines[|FileLines(before)|] == l
  {
    FileLinesAround(before, l, after);
    var lines := FileLines(before + l + after);
    var k := |FileLines(before)|;
    assert lines[k] == l;
    assert forall i :: 0 <= i < k ==> lines[i] == FileLines(before)[i];
    FirstWithPrefixUnique(lines, prefix, k);
  }

  // ---------------------------------------------------------------- field after a separator

  /** The field after the first c of text, without surrounding whitespace
      and then without surrounding double quotes:
      `text.split(c)[1].strip().strip('"')` (ValueAfterSplit). */
  function ValueAfter(text: string, c: char): (r: string)
    requires c in text
    ensures c !in r
    ensures r == [] || (r[0] != '"' && r[|r| - 1] != '"')
  {
    var field := SecondField(text, c);
    StripSetKeepsOut(field, Whitespace, c);
    StripSetKeepsOut(Strip(field), {'"'}, c);
    StripSetEnds(Strip(field), {'"'});
    StripSet(Strip(field), {'"'})
  }

  /** ValueAfter reads the second piece of `split(c)`. */
  lemma {:induction false} ValueAfterSplit(text: string, c: char)
    requires c in text
    ensures |Split(text, [c])| >= 2
    ensures ValueAfter(text, c) == StripSet(Strip(Split(text, [c])[1]), {'"'})
  {
    SecondFieldSplit(text, c);
  }

  /** A quoted value after '=', as os-release and `xprop` write it, reads
      back as the text between the quotes: key "=" pad '"' v '"' end, with
      whitespace for pad and end and no '=' in key or v. */
  lemma QuotedValueReadsBack(key: string, pad: string, v: string, end: string)
    requires '=' !in key && '=' !in v
    requires forall i :: 0 <= i < |pad| ==> pad[i] in Whitespace
    requires forall i :: 0 <= i < |end| ==> end[i] in Whitespace
    requires v == [] || (v[0] != '"' && v[|v| - 1] != '"')
    ensures '=' in key + ['='] + (pad + (['"'] + v + ['"']) + end)
    ensures ValueAfter(key + ['='] + (pad + (['"'] + v + ['"']) + end), '=') == v
  {
    var q := ['"'] + v + ['"'];
    var rest := pad + q + end;
    var text := key + ['='] + rest;
    assert text == key + ['='] + rest;
    NoEqualsInPadding(pad);
    NoEqualsInPadding(end);
    FieldAfterFirst(key, '=', rest);
    ValueAfterIs(text, '=', rest);
    StripPadding(pad, v, end);
    Unquote(v);
  }

  lemma StripPadding(pad: string, v: string, end: string)
    requires forall i :: 0 <= i < |pad| ==> pad[i] in Whitespace
    requires forall i :: 0 <= i < |end| ==> end[i] in Whitespace
    ensures Strip(pad + (['"'] + v + ['"']) + end) == ['"'] + v + ['"']
  {
    var q := ['"'] + v + ['"'];
    assert q[0] == '"' && q[|q| - 1] == '"';
    StripSetOf(pad, q, end, Whitespace);
  }

  lemma Unquote(v: string)
    requires v == [] || (v[0] != '"' && v[|v| - 1] != '"')
    ensures StripSet(['"'] + v + ['"'], {'"'}) == v
  {
    StripSetOf(['"'], v, ['"'], {'"'});
  }

  lemma NoEqualsInPadding(w: string)
    requires forall i :: 0 <= i < |w| ==> w[i] in Whitespace
    ensures '=' !in w
  {
    forall i | 0 <= i < |w| ensures w[i] != '=' {
      assert w[i] in Whitespace;
    }
  }

  /** With no c in key or rest, the field after the first c is rest. */
  lemma FieldAfterFirst(key: string, c: char, rest: string)
    requires c !in key && c !in rest
    ensures Split(key + [c] + rest, [c]) == [key, rest]
  {
    SplitAfterPiece(key, c, rest);
    SplitWhole(rest, c);
  }

  lemma ValueAfterIs(text: string, c: char, field: string)
    requires c in text && |Split(text, [c])| >= 2 && Split(text, [c])[1] == field
    ensures ValueAfter(text, c) == StripSet(Strip(field), {'"'})
  {
    ValueAfterSplit(text, c);
  }

  // ---------------------------------------------------------------- get_cpu_info

  /** The value of a "model name" line: the field after its first ':'
      stripped, `line.split(':')[1].strip()` (CpuFieldSplit); "Unknown"
      when it has no ':', where the `IndexError` is caught by the widget's
      bare `except`. */
  function CpuField(line: string): (r: string)
    ensures ':' !in line ==> r == "Unknown"
    ensures ':' in line ==> ':' !in r && (r == [] || (r[0] !in Whitespace && r[|r| - 1] !in Whitespace))
  {
    if ':' in line then
      var field := SecondField(line, ':');
      StripSetKeepsOut(field, Whitespace, ':');
      StripSetEnds(field, Whitespace);
      Strip(field)
    else "Unknown"
  }

  /** CpuField reads the second piece of `split(':')`. */
  lemma {:induction false} CpuFieldSplit(line: string)
    requires ':' in line
    ensures |Split(line, ":")| >= 2 && CpuField(line) == Strip(Split(line, ":")[1])
  {
    SecondFieldSplit(line, ':');
  }

  /** The processor model: from the first line of /proc/cpuinfo that starts
      with "model name"; "Unknown" when the file cannot be read (`None`) or
      has no such line. */
  function CpuInfo(cpuinfo: Option<string>): (r: string)
    ensures cpuinfo.None? ==> r == "Unknown"
    ensures ':' !in r
  {
    if cpuinfo.None? then "Unknown"
    else
      var lines := FileLines(cpuinfo.value);
      var k := FirstWithPrefix(lines, "model name");
      if k.Some? then CpuField(lines[k.value]) else "Unknown"
  }

  /** The first "model name" line decides, whatever the later ones say. */
  lemma CpuInfoFirstLine(text: string, k: nat)
    requires k < |FileLines(text)| && StartsWith(FileLines(text)[k], "model name")
    requires forall i :: 0 <= i < k ==> !StartsWith(FileLines(text)[i], "model name")
    ensures CpuInfo(Some(text)) == CpuField(FileLines(text)[k])
  {
    FirstWithPrefixUnique(FileLines(text), "model name", k);
  }

  /** An unreadable /proc/cpuinfo, or one without a "model name" line,
      gives "Unknown". */
  lemma CpuInfoAbsent(cpuinfo: Option<string>)
    requires cpuinfo.Some? ==>
      forall i :: 0 <= i < |FileLines(cpuinfo.value)| ==> !StartsWith(FileLines(cpuinfo.value)[i], "model name")
    ensures CpuInfo(cpuinfo) == "Unknown"
  {
  }

  /** The line the kernel writes, "model name\t: " + name, reads back as the
      name when it comes first, for a name without ':' or a line break that
      does not start or end with whitespace. */
  lemma CpuInfoReadsBack(before: string, name: string, after: string)
    requires before == [] || before[|before| - 1] == '\n'
    requires forall i :: 0 <= i < |FileLines(before)| ==> !StartsWith(FileLines(before)[i], "model name")
    requires ':' !in name && '\n' !in name
    requires name == [] || (name[0] !in Whitespace && name[|name| - 1] !in Whitespace)
    ensures CpuInfo(Some(before + ("model name\t: " + name + "\n") + after)) == name
  {
    var line := "model name\t: " + name + "\n";
    ModelNameLine(name);
    FirstLineAfter(before, line, after, "model name");
    CpuInfoFirstLine(before + line + after, |FileLines(before)|);
  }

  lemma ModelNameLine(name: string)
    requires ':' !in name && '\n' !in name
    requires name == [] || (name[0] !in Whitespace && name[|name| - 1] !in Whitespace)
    ensures var line := "model name\t: " + name + "\n";
      IsLine(line) && line[|line| - 1] == '\n' && StartsWith(line, "model name") && CpuField(line) == name
  {
    var key := "model name\t";
    var line := "model name\t: " + name + "\n";
    assert line == key + [':'] + [' '] + name + ['\n'] by {
      assert "model name\t: " == key + [':'] + [' '];
      assert "\n" == ['\n'];
    }
    assert StartsWith(key, "model name") by {
      assert key[..10] == "model name";
    }
    KeyValueLine(key, name, "model name");
  }

  /** A line laid out as a key, ": ", a value and '\n' starts with every
      prefix of the key and yields the value. */
  lemma KeyValueLine(key: string, name: string, p: string)
    requires ':' !in key && '\n' !in key && ':' !in name && '\n' !in name
    requires name == [] || (name[0] !in Whitespace && name[|name| - 1] !in Whitespace)
    requires StartsWith(key, p)
    ensures var line := key + [':'] + [' '] + name + ['\n'];
      IsLine(line) && line[|line| - 1] == '\n' && StartsWith(line, p) && CpuField(line) == name
  {
    var t := key + [':'] + [' '] + name;
    assert '\n' !in t by {
      forall i | 0 <= i < |t| ensures t[i] != '\n' {
        if i < |key| { assert t[i] == key[i]; }
        else if i >= |key| + 2 { assert t[i] == name[i - |key| - 2]; }
      }
    }
    EndedLine(t);
    assert t + "\n" == key + [':'] + [' '] + name + ['\n'];
    assert (t + "\n")[..|p|] == key[..|p|];
    CpuFieldOf(key, name);
  }

  /** A text without '\n' followed by one is a line of its own. */
  lemma EndedLine(t: string)
    requires '\n' !in t
    ensures IsLine(t + "\n") && (t + "\n")[|t|] == '\n'
  {
    var l := t + "\n";
    forall i | 0 <= i < |l| - 1 ensures l[i] != '\n' {
      assert l[i] == t[i];
    }
  }

  lemma PrefixStarts(p: string, rest: string)
    ensures StartsWith(p + rest, p)
  {
    assert (p + rest)[..|p|] == p;
  }

  /** The kernel's layout, a key, ": " and the value, gives the value. */
  lemma {:induction false} CpuFieldOf(key: string, name: string)
    requires ':' !in key && ':' !in name
    requires name == [] || (name[0] !in Whitespace && name[|name| - 1] !in Whitespace)
    ensures CpuField(key + [':'] + [' '] + name + ['\n']) == name
  {
    var rest := [' '] + name + ['\n'];
    assert key + [':'] + [' '] + name + ['\n'] == key + [':'] + rest;
    CpuFieldAfterKey(key, rest);
    StripSetOf([' '], name, ['\n'], Whitespace);
  }

  /** With no ':' in key or rest, the field of key ':' rest is rest. */
  lemma {:induction false} CpuFieldAfterKey(key: string, rest: string)
    requires ':' !in key && ':' !in rest
    ensures CpuField(key + [':'] + rest) == Strip(rest)
  {
    FieldAfterFirst(key, ':', rest);
    CpuFieldSplit(key + [':'] + rest);
  }

  // ---------------------------------------------------------------- get_version_id

  /** VERSION_ID from /etc/os-release: the value of the first line that
      starts with "VERSION_ID=", `None` when the file cannot be read or has
      no such line. */
  function VersionId(osRelease: Option<string>): (r: Option<string>)
    ensures r.Some? ==> '=' !in r.value && (r.value == [] || (r.value[0] != '"' && r.value[|r.value| - 1] != '"'))
  {
    if osRelease.None? then None
    else
      var lines := FileLines(osRelease.value);
      var k := FirstWithPrefix(lines, "VERSION_ID=");
      if k.Some? then
        var line := lines[k.value];
        assert line[10] == '=';
        Some(ValueAfter(line, '='))
      else None
  }

  /** An unreadable /etc/os-release, or one without a "VERSION_ID=" line,
      gives None. */
  lemma VersionIdAbsent(osRelease: Option<string>)
    requires osRelease.Some? ==>
      forall i :: 0 <= i < |FileLines(osRelease.value)| ==> !StartsWith(FileLines(osRelease.value)[i], "VERSION_ID=")
    ensures VersionId(osRelease) == None
  {
  }

  /** The first "VERSION_ID=" line decides, whatever the later ones say:
      the version is the value after its first '='. */
  lemma VersionIdFirstLine(text: string, k: nat)
    requires k < |FileLines(text)| && StartsWith(FileLines(text)[k], "VERSION_ID=")
    requires forall i :: 0 <= i < k ==> !StartsWith(FileLines(text)[i], "VERSION_ID=")
    ensures '=' in FileLines(text)[k]
    ensures VersionId(Some(text)) == Some(ValueAfter(FileLines(text)[k], '='))
  {
    var line := FileLines(text)[k];
    assert line[10] == "VERSION_ID="[10] == '=';
    FirstWithPrefixUnique(FileLines(text), "VERSION_ID=", k);
  }

  /** The quoted form os-release uses, VERSION_ID="v", reads back as v when
      it is the first such line, for a v without '=', '"' at its ends or a
      line break; whitespace inside the quotes is kept. */
  lemma VersionIdReadsBack(before: string, v: string, after: string)
    requires before == [] || before[|before| - 1] == '\n'
    requires forall i :: 0 <= i < |FileLines(before)| ==> !StartsWith(FileLines(before)[i], "VERSION_ID=")
    requires '=' !in v && '\n' !in v
    requires v == [] || (v[0] != '"' && v[|v| - 1] != '"')
    ensures VersionId(Some(before + ("VERSION_ID=\"" + v + "\"\n") + after)) == Some(v)
  {
    var line := "VERSION_ID=\"" + v + "\"\n";
    VersionIdLine(v);
    FirstLineAfter(before, line, after, "VERSION_ID=");
  }

  lemma VersionIdLine(v: string)
    requires '=' !in v && '\n' !in v
    requires v == [] || (v[0] != '"' && v[|v| - 1] != '"')
    ensures var line := "VERSION_ID=\"" + v + "\"\n";
      IsLine(line) && line[|line| - 1] == '\n' && StartsWith(line, "VERSION_ID=") && ValueAfter(line, '=') == v
  {
    VersionIdIsLine(v);
    VersionIdStarts(v);
    VersionIdValue(v);
  }

  lemma VersionIdIsLine(v: string)
    requires '\n' !in v
    ensures var line := "VERSION_ID=\"" + v + "\"\n";
      IsLine(line) && line[|line| - 1] == '\n'
  {
    var t := "VERSION_ID=\"" + v + "\"";
    assert '\n' !in t by {
      assert forall i :: 0 <= i < |t| ==> t[i] == (if i < 12 then "VERSION_ID=\""[i] else if i < 12 + |v| then v[i - 12] else '"');
    }
    EndedLine(t);
    assert t + "\n" == "VERSION_ID=\"" + v + "\"\n";
  }

  lemma VersionIdStarts(v: string)
    ensures StartsWith("VERSION_ID=\"" + v + "\"\n", "VERSION_ID=")
  {
    var line := "VERSION_ID=\"" + v + "\"\n";
    assert line == "VERSION_ID=" + ("\"" + v + "\"\n");
    PrefixStarts("VERSION_ID=", "\"" + v + "\"\n");
  }

  lemma VersionIdValue(v: string)
    requires '=' !in v
    requires v == [] || (v[0] != '"' && v[|v| - 1] != '"')
    ensures var line := "VERSION_ID=\"" + v + "\"\n";
      '=' in line && ValueAfter(line, '=') == v
  {
    var line := "VERSION_ID=\"" + v + "\"\n";
    assert line == "VERSION_ID" + ['='] + ([] + (['"'] + v + ['"']) + ['\n']);
    QuotedValueReadsBack("VERSION_ID", [], v, ['\n']);
  }
}
