/** `get_gpu_info`: the graphics card named by the first display controller
    line of `lspci`, and the kernel driver found by probing `nvidia-smi` and
    `modinfo`. */
module Gpu {
  import opened Wrappers
  import opened Subprocess
  import opened PyStr

  // ---------------------------------------------------------------- choosing the line

  /** A line the widget takes the card from: it mentions "VGA", "Display" or
      "3D" and holds a ':'. */
  predicate IsGpuLine(line: string) {
    (Contains(line, "VGA") || Contains(line, "Display") || Contains(line, "3D")) && ':' in line
  }

  /** The index of the first card line. */
  function FirstGpuLine(lines: seq<string>): (r: Option<nat>)
    ensures r.None? <==> forall i :: 0 <= i < |lines| ==> !IsGpuLine(lines[i])
    ensures r.Some? ==> r.value < |lines| && IsGpuLine(lines[r.value])
    ensures r.Some? ==> forall i :: 0 <= i < r.value ==> !IsGpuLine(lines[i])
  {
    if lines == [] then None
    else if IsGpuLine(lines[0]) then Some(0)
    else
      var r := FirstGpuLine(lines[1..]);
      if r.Some? then
        assert forall i :: 1 <= i <= r.value ==> lines[i] == lines[1..][i - 1];
        Some(r.value + 1)
      else r
  }

  // ---------------------------------------------------------------- cleaning the name

  /** `line.split(':', 2)[-1].strip()` followed by the removal of the three
      controller labels. */
  function Description(line: string): string {
    var parts := SplitMax(line, ":", 2);
    var d := Strip(parts[|parts| - 1]);
    var d1 := Replace(d, "VGA compatible controller: ", "");
    var d2 := Replace(d1, "Display controller: ", "");
    Replace(d2, "3D controller: ", "")
  }

  /** `lspci` prints a slot with one ':', a class and a ':' before the
      description: the description is what follows the second ':',
      stripped, whatever ':' it holds itself, when it carries none of the
      three labels. */
  lemma DescriptionOf(bus: string, cls: string, desc: string)
    requires ':' !in bus && ':' !in cls
    requires !Contains(Strip(desc), "VGA compatible controller: ")
    requires !Contains(Strip(desc), "Display controller: ")
    requires !Contains(Strip(desc), "3D controller: ")
    ensures Description(bus + ":" + cls + ":" + desc) == Strip(desc)
  {
    SlotPieces(bus, cls, desc);
    LabelsAbsent(Strip(desc));
  }

  lemma {:induction false} SlotPieces(bus: string, cls: string, desc: string)
    requires ':' !in bus && ':' !in cls
    ensures SplitMax(bus + ":" + cls + ":" + desc, ":", 2) == [bus, cls, desc]
  {
    var line := bus + ":" + cls + ":" + desc;
    assert line == bus + [':'] + (cls + [':'] + desc);
    SplitMaxAfterPiece(bus, ':', cls + [':'] + desc, 2);
    SplitMaxAfterPiece(cls, ':', desc, 1);
  }

  lemma LabelsAbsent(d: string)
    requires !Contains(d, "VGA compatible controller: ")
    requires !Contains(d, "Display controller: ")
    requires !Contains(d, "3D controller: ")
    ensures Replace(Replace(Replace(d, "VGA compatible controller: ", ""), "Display controller: ", ""), "3D controller: ", "") == d
  {
    ReplaceAbsent(d, "VGA compatible controller: ", "");
    ReplaceAbsent(d, "Display controller: ", "");
    ReplaceAbsent(d, "3D controller: ", "");
  }

  /** Everything from the first "(rev" on is dropped, and the rest stripped;
      a text without "(rev" is kept as it is. */
  function DropRevision(d: string): (r: string)
    ensures !Contains(d, "(rev") ==> r == d
    ensures Contains(d, "(rev") ==> r == Strip(d[..Find(d, "(rev")])
    ensures Contains(d, "(rev") ==> !Contains(r, "(rev")
  {
    if Contains(d, "(rev") then
      SplitHead(d, "(rev");
      var head := Split(d, "(rev")[0];
      var r := Strip(head);
      assert !Contains(r, "(rev") by {
        if Contains(r, "(rev") {
          StripSetContains(head, Whitespace, "(rev");
        }
      }
      r
    else d
  }

  /** `s[s.find('[') + 1:s.find(']')]` for s holding both brackets, with the
      slice empty when the ']' comes before the '['. */
  function BracketName(s: string): (r: string)
    requires '[' in s && ']' in s
    ensures var i, j := Find(s, "["), Find(s, "]");
      0 <= i < |s| && 0 <= j < |s| && s[i] == '[' && s[j] == ']' &&
      (if i < j then r == s[i + 1..j] else r == [])
  {
    ContainsChar(s, '[');
    ContainsChar(s, ']');
    var i, j := Find(s, "["), Find(s, "]");
    assert s[i..i + 1] == "[" && s[j..j + 1] == "]";
    if i + 1 <= j then s[i + 1..j] else []
  }

  /** The text between the first '[' and the first ']' when the '[' comes
      first: with s = a + "[" + m + "]" + b, and no bracket in a and no ']'
      in m, the name is m. */
  lemma BracketNameOf(a: string, m: string, b: string)
    requires '[' !in a && ']' !in a && ']' !in m
    ensures var s := a + "[" + m + "]" + b;
      '[' in s && ']' in s && BracketName(s) == m
  {
    var s := a + "[" + m + "]" + b;
    var i, j := |a|, |a| + 1 + |m|;
    assert s[i] == '[' && s[j] == ']';
    assert OccursAt(s, "[", i) by { assert s[i..i + 1] == [s[i]]; }
    assert OccursAt(s, "]", j) by { assert s[j..j + 1] == [s[j]]; }
    forall k | 0 <= k < i ensures !OccursAt(s, "[", k) {
      assert s[k] == a[k];
      assert s[k..k + 1] == [s[k]];
    }
    forall k | 0 <= k < j ensures !OccursAt(s, "]", k) {
      if k < i { assert s[k] == a[k]; } else if k > i { assert s[k] == m[k - i - 1]; }
      assert s[k..k + 1] == [s[k]];
    }
    FindIsFirst(s, "[", i);
    FindIsFirst(s, "]", j);
    assert s[i + 1..j] == m;
  }

  /** The bracket name when both brackets are there, the text itself else. */
  function NameOrBracket(s: string): string {
    if '[' in s && ']' in s then BracketName(s) else s
  }

  /** The vendor rules, tried in order on the cleaned description. */
  function VendorName(d: string): string {
    if Contains(d, "NVIDIA Corporation") then
      NameOrBracket(Replace(d, "NVIDIA Corporation ", ""))
    else if Contains(d, "AMD") || Contains(d, "Advanced Micro Devices") then
      NameOrBracket(Replace(Replace(d, "Advanced Micro Devices, Inc. ", ""), "AMD ", ""))
    else if Contains(d, "Intel") then
      Replace(d, "Intel Corporation ", "")
    else d
  }

  /** The card name read from one `lspci` line. */
  function CardName(line: string): string {
    VendorName(DropRevision(Description(line)))
  }

  /** The card name `lspci` gives: from the first card line of a successful
      run, "Unknown" when the run fails or lists no card. */
  function GpuName(lspci: Run): (r: string)
    ensures !lspci.Succeeded() ==> r == "Unknown"
  {
    if lspci.Succeeded() then
      var lines := Split(lspci.stdout, "\n");
      var k := FirstGpuLine(lines);
      if k.Some? then CardName(lines[k.value]) else "Unknown"
    else "Unknown"
  }

  // ---------------------------------------------------------------- the driver

  /** The driver, probed in order of preference: `nvidia-smi`'s driver
      version when it succeeds with non-blank output, then "AMDGPU" when
      `modinfo amdgpu` succeeds, then "Intel i915" when `modinfo i915` does. */
  function Driver(nvidiaSmi: Run, amdgpu: Run, i915: Run): (r: Option<string>)
    ensures r.None? <==> !NvidiaFound(nvidiaSmi) && !amdgpu.Succeeded() && !i915.Succeeded()
    ensures NvidiaFound(nvidiaSmi) ==> r == Some("NVIDIA " + Strip(nvidiaSmi.stdout))
    ensures !NvidiaFound(nvidiaSmi) && amdgpu.Succeeded() ==> r == Some("AMDGPU")
    ensures !NvidiaFound(nvidiaSmi) && !amdgpu.Succeeded() && i915.Succeeded() ==> r == Some("Intel i915")
  {
    if NvidiaFound(nvidiaSmi) then Some("NVIDIA " + Strip(nvidiaSmi.stdout))
    else if amdgpu.Succeeded() then Some("AMDGPU")
    else if i915.Succeeded() then Some("Intel i915")
    else None
  }

  predicate NvidiaFound(nvidiaSmi: Run) {
    nvidiaSmi.Succeeded() && Strip(nvidiaSmi.stdout) != []
  }

  /** "name (driver)" when a driver was found, the name alone otherwise. */
  function Combine(name: string, driver: Option<string>): (r: string)
    ensures driver.None? ==> r == name
    ensures driver.Some? ==> r == name + " (" + driver.value + ")"
  {
    if driver.Some? then name + " (" + driver.value + ")" else name
  }

  /** The name can be read back off the combined text: a driver adds its
      own parenthesised suffix after the name and nothing else. */
  lemma CombineKeepsName(name: string, driver: Option<string>)
    ensures |Combine(name, driver)| >= |name| && Combine(name, driver)[..|name|] == name
    ensures driver.Some? <==> |Combine(name, driver)| > |name|
    ensures driver.Some? ==> Combine(name, driver)[|name|..] == " (" + driver.value + ")"
  {
  }

  // ---------------------------------------------------------------- get_gpu_info

  /** The widget's scan of the `lspci` lines, stopping at the first card
      line. */
  method ScanLines(lines: seq<string>) returns (k: Option<nat>)
    ensures k == FirstGpuLine(lines)
  {
    var i := 0;
    while i < |lines|
      invariant 0 <= i <= |lines|
      invariant forall j :: 0 <= j < i ==> !IsGpuLine(lines[j])
    {
      var line := lines[i];
      if Contains(line, "VGA") || Contains(line, "Display") || Contains(line, "3D") {
        if ':' in line {
          DesignatedFirst(lines, i);
          return Some(i);
        }
      }
      i := i + 1;
    }
    return None;
  }

  /** The card name of a successful `lspci` run, "Unknown" otherwise. */
  method ScanLspci(lspci: Run) returns (gpuName: string)
    ensures gpuName == GpuName(lspci)
  {
    gpuName := "Unknown";
    if lspci.Succeeded() {
      var lines := Split(lspci.stdout, "\n");
      var k := ScanLines(lines);
      if k.Some? {
        gpuName := CardName(lines[k.value]);
      }
    }
  }

  lemma DesignatedFirst(lines: seq<string>, i: nat)
    requires i < |lines| && IsGpuLine(lines[i])
    requires forall j :: 0 <= j < i ==> !IsGpuLine(lines[j])
    ensures FirstGpuLine(lines) == Some(i)
  {
  }

  /** The driver probes, each tried only while no driver has been found. */
  method ProbeDriver(nvidiaSmi: Run, amdgpu: Run, i915: Run) returns (driver: Option<string>)
    ensures driver == Driver(nvidiaSmi, amdgpu, i915)
  {
    driver := None;
    if nvidiaSmi.Succeeded() && Strip(nvidiaSmi.stdout) != [] {
      driver := Some("NVIDIA " + Strip(nvidiaSmi.stdout));
    }
    if driver.None? && amdgpu.Succeeded() {
      driver := Some("AMDGPU");
    }
    if driver.None? && i915.Succeeded() {
      driver := Some("Intel i915");
    }
  }

  /** `get_gpu_info`: the card name followed by the driver in parentheses. */
  method GpuInfo(lspci: Run, nvidiaSmi: Run, amdgpu: Run, i915: Run) returns (info: string)
    ensures info == Combine(GpuName(lspci), Driver(nvidiaSmi, amdgpu, i915))
  {
    var gpuName := ScanLspci(lspci);
    var driver := ProbeDriver(nvidiaSmi, amdgpu, i915);
    if driver.Some? {
      info := gpuName + " (" + driver.value + ")";
    } else {
      info := gpuName;
    }
  }

  // ---------------------------------------------------------------- properties

  /** Only the first card line counts: lines after it do not change the name. */
  lemma FirstCardLineDecides(lines: seq<string>, k: nat, later: seq<string>)
    requires k < |lines| && IsGpuLine(lines[k])
    requires forall i :: 0 <= i < k ==> !IsGpuLine(lines[i])
    ensures FirstGpuLine(lines + later) == Some(k)
  {
    var all := lines + later;
    assert all[k] == lines[k];
    assert forall i :: 0 <= i < k ==> all[i] == lines[i];
  }

  /** Without a card line, or with a failed `lspci`, the name is "Unknown". */
  lemma GpuNameUnknown(lspci: Run)
    requires lspci.Succeeded() ==> forall i :: 0 <= i < |Split(lspci.stdout, "\n")| ==> !IsGpuLine(Split(lspci.stdout, "\n")[i])
    ensures GpuName(lspci) == "Unknown"
  {
  }

  /** An NVIDIA description "NVIDIA Corporation chip [model]" gives the
      model, for a chip without brackets and a model without ']', when the
      vendor text occurs only there. */
  lemma NvidiaBracket(chip: string, model: string)
    requires '[' !in chip && ']' !in chip && ']' !in model
    requires !Contains(chip + " [" + model + "]", "NVIDIA Corporation ")
    ensures VendorName("NVIDIA Corporation " + (chip + " [" + model + "]")) == model
  {
    var rest := chip + " [" + model + "]";
    var d := "NVIDIA Corporation " + rest;
    NvidiaOccurs(d, rest);
    RemoveFront("NVIDIA Corporation ", rest);
    assert rest == (chip + " ") + "[" + model + "]" + [];
    BracketNameOf(chip + " ", model, []);
  }

  /** The Intel rule: "Intel Corporation " + rest, with no NVIDIA or AMD
      marker anywhere, shows rest. */
  lemma IntelPrefix(rest: string)
    requires var d := "Intel Corporation " + rest;
      !Contains(d, "NVIDIA Corporation") && !Contains(d, "AMD") && !Contains(d, "Advanced Micro Devices")
    requires !Contains(rest, "Intel Corporation ")
    ensures VendorName("Intel Corporation " + rest) == rest
  {
    var d := "Intel Corporation " + rest;
    assert d[0..5] == "Intel";
    OccursThenContains(d, "Intel", 0);
    RemoveFront("Intel Corporation ", rest);
  }

  /** A description with no vendor marker is shown as it is. */
  lemma NoVendorKept(d: string)
    requires !Contains(d, "NVIDIA Corporation") && !Contains(d, "AMD")
    requires !Contains(d, "Advanced Micro Devices") && !Contains(d, "Intel")
    ensures VendorName(d) == d
  {
  }

  lemma NvidiaOccurs(d: string, rest: string)
    requires d == "NVIDIA Corporation " + rest
    ensures Contains(d, "NVIDIA Corporation")
  {
    assert d[0..18] == "NVIDIA Corporation";
    OccursThenContains(d, "NVIDIA Corporation", 0);
  }

  /** Removing pat from text that starts with it and does not contain it
      again leaves the rest. */
  lemma RemoveFront(pat: string, rest: string)
    requires pat != [] && !Contains(rest, pat)
    ensures Replace(pat + rest, pat, "") == rest
  {
    var s := [] + pat + rest;
    assert s == pat + rest;
    assert OccursAt(s, pat, 0) by { assert s[0..|pat|] == pat; }
    FindIsFirst(s, pat, 0);
    ReplaceFirst([], pat, rest, "");
    ReplaceAbsent(rest, pat, "");
  }

  /** As written, the AMD rule takes the first bracket of the description,
      and the lines `lspci` prints for AMD cards bracket the vendor first
      ("Advanced Micro Devices, Inc. [AMD/ATI] Navi 21 [Radeon ...]"): the
      name shown is then "AMD/ATI", not the card's. */
  lemma AmdVendorBracket(rest: string)
    requires !Contains("[AMD/ATI] " + rest, "Advanced Micro Devices, Inc. ")
    requires !Contains("[AMD/ATI] " + rest, "AMD ")
    requires !Contains("Advanced Micro Devices, Inc. " + ("[AMD/ATI] " + rest), "NVIDIA Corporation")
    ensures VendorName("Advanced Micro Devices, Inc. " + ("[AMD/ATI] " + rest)) == "AMD/ATI"
  {
    var tail := "[AMD/ATI] " + rest;
    var d := "Advanced Micro Devices, Inc. " + tail;
    AmdOccurs(d, tail);
    AmdRemoved(tail);
    VendorBracketFirst(rest);
  }

  lemma AmdRemoved(tail: string)
    requires !Contains(tail, "Advanced Micro Devices, Inc. ") && !Contains(tail, "AMD ")
    ensures Replace(Replace("Advanced Micro Devices, Inc. " + tail, "Advanced Micro Devices, Inc. ", ""), "AMD ", "") == tail
  {
    RemoveFront("Advanced Micro Devices, Inc. ", tail);
    ReplaceAbsent(tail, "AMD ", "");
  }

  lemma VendorBracketFirst(rest: string)
    ensures NameOrBracket("[AMD/ATI] " + rest) == "AMD/ATI"
  {
    var tail := "[AMD/ATI] " + rest;
    assert tail == [] + "[" + "AMD/ATI" + "]" + (" " + rest);
    BracketNameOf([], "AMD/ATI", " " + rest);
  }

  lemma AmdOccurs(d: string, tail: string)
    requires d == "Advanced Micro Devices, Inc. " + tail
    ensures Contains(d, "Advanced Micro Devices")
  {
    assert d[0..22] == "Advanced Micro Devices";
    OccursThenContains(d, "Advanced Micro Devices", 0);
  }
}
