# System information widget, modelled in Dafny

The linexin-center "System Information" widget (`LinexinSysInfoWidget`)
shows a page of facts about the machine and can switch to a fastfetch
page. Around its GTK code it uses a set of small rules:

- Text scraping. It reads the first `model name` line of `/proc/cpuinfo`
  and the first `VERSION_ID=` line of `/etc/os-release`. It finds the first
  display-controller line of `lspci` and reads the window name `xprop`
  reports.
- Name normalisation. It normalises the session type, the desktop
  environment and the window manager with fixed tables.
- Arithmetic. It picks a unit for byte counts and splits the uptime into
  days, hours and minutes.
- Escape removal. It strips ANSI escape sequences from fastfetch output.
- View state. It keeps a two-state view switch.

This project models those rules and proves what they promise.

Modules, one file each:

- `Wrappers`, `Subprocess` (`wrappers.dfy`): `Option` and the result of a
  subprocess call (`Exited(code, stdout)` or `Raised`, for a call whose
  exception the widget catches).
- `PyStr` (`pystr.dfy`): the Python `str` operations the widget is written
  with. These are `lower`, `capitalize`, `strip`, `startswith`, `find`,
  `in`, `split`, `split(sep, maxsplit)`, `replace`, `split()[-1]` and
  `os.path.basename`, each with its defining properties proved.
- `Ansi` (`ansi.dfy`): `clean_fastfetch_output`, as two left-to-right
  regular-expression deletion passes over ECMA-48 control sequences. The
  first pass removes cursor movements; the second removes Select Graphic
  Rendition (section 8.3.117 of ECMA-48).
- `Units` (`units.dfy`): `format_bytes` (a loop, kept as a method) and the
  uptime split and its text.
- `Desktop` (`desktop.dfy`): `get_session_type`, `get_desktop_environment`
  and `get_window_manager`.
- `Scrapers` (`scrapers.dfy`): iteration over the lines of a text file,
  `get_cpu_info` and `get_version_id`.
- `Gpu` (`gpu.dfy`): `get_gpu_info`. The scan over `lspci` lines and the
  driver probes are methods proved equal to the functions that specify
  them.
- `View` (`view.dfy`): `on_view_toggle_clicked` as a class whose method
  updates the view fields, specified by a function on the view state.

Environment variables are a `map<string, string>`. Subprocess results and
file contents are parameters. The `xprop -id <id>` call is a function
parameter from the window id to its result, so the id extraction is part
of the model.

The AMD rule is modelled as written. `lspci` prints AMD cards as
"Advanced Micro Devices, Inc. [AMD/ATI] Navi 21 [Radeon ...]". On such a
line the rule takes the first bracket and reports "AMD/ATI", not the card
name (`Gpu.AmdVendorBracket`).

## Model

All source paths are `pkg/linexin-center/usr/share/linexin/widgets/z-system-information-widget.py`.

| member | source | states |
|---|---|---|
| View.LabelFor | pkg/linexin-center/usr/share/linexin/widgets/z-system-information-widget.py:219-229 | the button reads "Fastfetch View" exactly while the row view is shown and "Row View" otherwise |
| View.Click | pkg/linexin-center/usr/share/linexin/widgets/z-system-information-widget.py:219-229 | a click leaves a consistent state: from the row view it shows the fastfetch page and loads its output once; from any other view it returns to the rows without loading |
| View.InitialConsistent | pkg/linexin-center/usr/share/linexin/widgets/z-system-information-widget.py:67-73 | the widget starts consistent, on the rows, with the button offering the fastfetch view |
| View.ClickTwice | pkg/linexin-center/usr/share/linexin/widgets/z-system-information-widget.py:219-229 | two clicks restore a consistent state exactly, except that the output has been loaded once more |
| View.ClickLoads | pkg/linexin-center/usr/share/linexin/widgets/z-system-information-widget.py:219-224 | fastfetch output is loaded by a click if and only if the click leaves the row view |
| View.LabelNamesOtherView | pkg/linexin-center/usr/share/linexin/widgets/z-system-information-widget.py:219-229 | in a consistent state the label names the view that is not shown, in both directions |
| View.ClicksFromStart | pkg/linexin-center/usr/share/linexin/widgets/z-system-information-widget.py:67-73 | after n clicks from the start the state is consistent, the rows are shown exactly when n is even, and the output was loaded ceil(n/2) times |
| View.SysInfoView.constructor | pkg/linexin-center/usr/share/linexin/widgets/z-system-information-widget.py:67-73 | the object starts in the initial view state |
| View.SysInfoView.ToggleClicked | pkg/linexin-center/usr/share/linexin/widgets/z-system-information-widget.py:219-229 | the fields after the click are Click of the fields before it, and they stay consistent |
| Ansi.ParamRun | pkg/linexin-center/usr/share/linexin/widgets/z-system-information-widget.py:318-321 | the greedy starred class runs over parameter characters and stops at the first character that is not one |
| Ansi.MatchLength | pkg/linexin-center/usr/share/linexin/widgets/z-system-information-widget.py:318-321 | a match found at the front is a whole control sequence of the pattern |
| Ansi.MatchLengthExact | pkg/linexin-center/usr/share/linexin/widgets/z-system-information-widget.py:318-321 | a front prefix that is a control sequence is exactly the match the pattern finds |
| Ansi.NoMatchNoSequence | pkg/linexin-center/usr/share/linexin/widgets/z-system-information-widget.py:318-321 | when nothing matches at the front, no prefix is a control sequence |
| Ansi.SubIsSubsequence | pkg/linexin-center/usr/share/linexin/widgets/z-system-information-widget.py:318-321 | one deletion pass yields a subsequence of its input |
| Ansi.Sub | pkg/linexin-center/usr/share/linexin/widgets/z-system-information-widget.py:318-321 | `re.sub(p, '', s)` never lengthens the text (that it keeps a subsequence is in SubIsSubsequence) |
| Ansi.CleanFastfetchOutput | pkg/linexin-center/usr/share/linexin/widgets/z-system-information-widget.py:316-323 | the cleaned text is a subsequence of the input, never longer, and equals the input when it has no ESC |
| Ansi.CleanRendered | pkg/linexin-center/usr/share/linexin/widgets/z-system-information-widget.py:316-323 | output made of plain text, cursor movements and colour sequences is cleaned to exactly its plain text |
| Ansi.SubMovesRendered | pkg/linexin-center/usr/share/linexin/widgets/z-system-information-widget.py:318-319 | the cursor pass removes exactly the cursor movements of such output and keeps the rest as rendered |
| Ansi.SubStylesRendered | pkg/linexin-center/usr/share/linexin/widgets/z-system-information-widget.py:320-321 | the colour pass, on output without cursor movements, leaves exactly the plain text |
| Ansi.SubKeepsStyle | pkg/linexin-center/usr/share/linexin/widgets/z-system-information-widget.py:318-319 | the cursor pass keeps a colour sequence |
| Ansi.SubPlainPrefix | pkg/linexin-center/usr/share/linexin/widgets/z-system-information-widget.py:318-321 | text without ESC passes through a pass unchanged, whatever follows it |
| Ansi.SinglePassCanLeaveASequence | pkg/linexin-center/usr/share/linexin/widgets/z-system-information-widget.py:318-321 | deleting a sequence can join its neighbours into a new one that stays: ESC [ ESC [ A A is cleaned to ESC [ A |
| Units.UnitIndex | pkg/linexin-center/usr/share/linexin/widgets/z-system-information-widget.py:364-370 | the unit chosen is the first k below 5 whose threshold 1024^(k+1) the value is below, and PB when there is none |
| Units.UnitIndexUnique | pkg/linexin-center/usr/share/linexin/widgets/z-system-information-widget.py:364-370 | only one index meets that description |
| Units.FormatBytes | pkg/linexin-center/usr/share/linexin/widgets/z-system-information-widget.py:364-370 | the loop's unit and quotient are the unit of UnitIndex and the value divided by 1024 to that power |
| Units.FormatBytesRange | pkg/linexin-center/usr/share/linexin/widgets/z-system-information-widget.py:364-370 | values below 1024, negatives included, are shown unchanged in B; a non-negative value shown in a unit below PB is below 1024; a value shown in any unit above B is at least 1 |
| Units.SplitUptime | pkg/linexin-center/usr/share/linexin/widgets/z-system-information-widget.py:397-399 | hours < 24, minutes < 60, and 86400·d + 3600·h + 60·m ≤ uptime < that + 60 |
| Units.SplitSeconds | pkg/linexin-center/usr/share/linexin/widgets/z-system-information-widget.py:397-399 | the floored divisions give those bounds for any integer number of seconds |
| Units.SplitUptimeUnique | pkg/linexin-center/usr/share/linexin/widgets/z-system-information-widget.py:397-399 | any split with those bounds is the one the widget computes |
| Units.DecimalRoundTrip | pkg/linexin-center/usr/share/linexin/widgets/z-system-information-widget.py:401-406 | the decimal text of a number reads back as the number |
| Units.Decimal | pkg/linexin-center/usr/share/linexin/widgets/z-system-information-widget.py:402-406 | `str` of a natural: non-empty, digits only, read back by DecimalValue (DecimalRoundTrip) |
| Units.UptimeTextRoundTrip | pkg/linexin-center/usr/share/linexin/widgets/z-system-information-widget.py:401-406 | the text is "Dd Hh Mm" when d > 0, "Hh Mm" when h > 0, "Mm" otherwise: reading it back gives every figure it shows |
| Units.UptimeText | pkg/linexin-center/usr/share/linexin/widgets/z-system-information-widget.py:401-406 | the text ends in minutes; it shows days exactly when there are any, and hours exactly when there are days or hours |
| Units.GetUptime | pkg/linexin-center/usr/share/linexin/widgets/z-system-information-widget.py:389-407 | the text `get_uptime` shows for an uptime in seconds reads back as the days, hours and minutes of SplitUptime, zero days and hours left out |
| Desktop.SessionType | pkg/linexin-center/usr/share/linexin/widgets/z-system-information-widget.py:431-436 | "Unknown" when XDG_SESSION_TYPE is empty; otherwise the value's letters in capitalised form, equal to it up to case |
| Desktop.EnvGet | pkg/linexin-center/usr/share/linexin/widgets/z-system-information-widget.py:433 | `os.environ.get(name, '')`: the value when set, the empty text otherwise (the lemmas on the variables use it) |
| Desktop.SessionTypeIdempotent | pkg/linexin-center/usr/share/linexin/widgets/z-system-information-widget.py:431-436 | feeding the shown session type back in shows it again |
| Desktop.Lookup | pkg/linexin-center/usr/share/linexin/widgets/z-system-information-widget.py:445-467 | `dict.get`: None exactly when no entry has the key, else the value of an entry with that key |
| Desktop.FirstSet | pkg/linexin-center/usr/share/linexin/widgets/z-system-information-widget.py:441-443 | None exactly when all three variables are empty, else the lowercased value of the first non-empty one |
| Desktop.DisplayName | pkg/linexin-center/usr/share/linexin/widgets/z-system-information-widget.py:445-467 | the table entry of the lowercased value, or the value capitalised (properties in LowerDisplayName, DesktopEnvironmentIdempotent) |
| Desktop.DesktopEnvironment | pkg/linexin-center/usr/share/linexin/widgets/z-system-information-widget.py:438-468 | the display name of the first set variable, "Unknown" when none is set (properties in the lemmas that follow) |
| Desktop.DesktopEnvironmentFirstWins | pkg/linexin-center/usr/share/linexin/widgets/z-system-information-widget.py:441-467 | the first non-empty variable, lowercased, decides the name: its table entry or its capitalised form |
| Desktop.DesktopEnvironmentUnset | pkg/linexin-center/usr/share/linexin/widgets/z-system-information-widget.py:468 | all three variables empty give "Unknown" |
| Desktop.TableNamesLowerToKeys | pkg/linexin-center/usr/share/linexin/widgets/z-system-information-widget.py:445-466 | every display name of the table lowercases to its own key, and no key is "unknown" |
| Desktop.DesktopEnvironmentIdempotent | pkg/linexin-center/usr/share/linexin/widgets/z-system-information-widget.py:438-468 | setting XDG_CURRENT_DESKTOP to the shown name shows the same name |
| Desktop.ShownNonEmpty | pkg/linexin-center/usr/share/linexin/widgets/z-system-information-widget.py:438-468 | the desktop environment shown is never empty |
| Desktop.FirstProcess | pkg/linexin-center/usr/share/linexin/widgets/z-system-information-widget.py:506-508 | the first table entry, in declared order, whose process name occurs in the `ps` output; None exactly when none occurs |
| Desktop.ProcessName | pkg/linexin-center/usr/share/linexin/widgets/z-system-information-widget.py:478-510 | None exactly when `ps` fails or no table process occurs in its output; otherwise the name of the first table entry whose process occurs |
| Desktop.XpropName | pkg/linexin-center/usr/share/linexin/widgets/z-system-information-widget.py:512-528 | None when the root query fails or does not say "window id", and None when the `-id` query of its last word fails or prints no '='; a name found is never "gnome shell" in any case, holds no '=' and has no '"' at either end |
| Desktop.WindowManager | pkg/linexin-center/usr/share/linexin/widgets/z-system-information-widget.py:470-530 | a set WINDOW_MANAGER gives a name free of '/'; the order WINDOW_MANAGER, `ps`, `xprop`, "Unknown" is stated by WindowManagerFromEnv, WindowManagerFromProcesses, WindowManagerFromXprop and WindowManagerUnknown |
| Desktop.WindowManagerFromEnv | pkg/linexin-center/usr/share/linexin/widgets/z-system-information-widget.py:473-475 | a set WINDOW_MANAGER decides whatever `ps` and `xprop` report: the result is the '/'-free end of it that follows its last '/' |
| Desktop.WindowManagerFromProcesses | pkg/linexin-center/usr/share/linexin/widgets/z-system-information-widget.py:478-508 | without WINDOW_MANAGER, the first table process found in a successful `ps aux` names the manager, whatever `xprop` says |
| Desktop.WindowManagerFromXprop | pkg/linexin-center/usr/share/linexin/widgets/z-system-information-widget.py:512-530 | with no WINDOW_MANAGER, no table process in `ps` and DISPLAY set, the name `xprop` reports is the result |
| Desktop.KWinVariants | pkg/linexin-center/usr/share/linexin/widgets/z-system-information-widget.py:482-508 | any kwin process without mutter gives "KWin": `kwin_x11` and `kwin_wayland` are tried before `kwin` and all map to the same name |
| Desktop.XpropNameReadsBack | pkg/linexin-center/usr/share/linexin/widgets/z-system-information-widget.py:512-526 | for a root reply "... window id # <id>", the id is the one queried, and the name `xprop -id <id>` prints is the name reported, unless it is "GNOME Shell" in some case |
| Desktop.NeverGnomeShell | pkg/linexin-center/usr/share/linexin/widgets/z-system-information-widget.py:478-530 | without WINDOW_MANAGER the result is never "gnome shell" in any case |
| Desktop.WindowManagerUnknown | pkg/linexin-center/usr/share/linexin/widgets/z-system-information-widget.py:470-530 | with no WINDOW_MANAGER, no table process in a successful `ps` (or a failed `ps`), and no `xprop` name (no DISPLAY, a failed call, no name, or GNOME Shell), the result is "Unknown" |
| Scrapers.LineLength | pkg/linexin-center/usr/share/linexin/widgets/z-system-information-widget.py:376 | the first line of a text runs up to and including its first '\n', or to the end |
| Scrapers.FileLines | pkg/linexin-center/usr/share/linexin/widgets/z-system-information-widget.py:376 | iterating over a file yields lines that are non-empty and hold no '\n' before their last character |
| Scrapers.FileLinesConcat | pkg/linexin-center/usr/share/linexin/widgets/z-system-information-widget.py:376 | joining the lines gives the text back |
| Scrapers.FileLinesEnded | pkg/linexin-center/usr/share/linexin/widgets/z-system-information-widget.py:376 | every line but the last ends with '\n' |
| Scrapers.FileLinesAppend | pkg/linexin-center/usr/share/linexin/widgets/z-system-information-widget.py:376 | text ending a line splits into lines independently of what follows it |
| Scrapers.FirstWithPrefix | pkg/linexin-center/usr/share/linexin/widgets/z-system-information-widget.py:376-378 | the index of the first line with the prefix; None exactly when no line has it |
| Scrapers.FirstLineAfter | pkg/linexin-center/usr/share/linexin/widgets/z-system-information-widget.py:376-378 | a line with the prefix after lines without it is the one the scan finds |
| Scrapers.ValueAfter | pkg/linexin-center/usr/share/linexin/widgets/z-system-information-widget.py:426 | the value after the separator holds no separator and neither starts nor ends with '"' |
| Scrapers.ValueAfterSplit | pkg/linexin-center/usr/share/linexin/widgets/z-system-information-widget.py:426 | the value is `split(c)[1].strip().strip('"')` of the line |
| Scrapers.QuotedValueReadsBack | pkg/linexin-center/usr/share/linexin/widgets/z-system-information-widget.py:426 | key=pad"v"end reads back as v |
| Scrapers.CpuField | pkg/linexin-center/usr/share/linexin/widgets/z-system-information-widget.py:378-381 | "Unknown" when the line has no ':'; otherwise the field holds no ':' and has no whitespace at either end |
| Scrapers.CpuFieldSplit | pkg/linexin-center/usr/share/linexin/widgets/z-system-information-widget.py:378 | for a line with ':' the field is `split(':')[1].strip()` |
| Scrapers.CpuInfo | pkg/linexin-center/usr/share/linexin/widgets/z-system-information-widget.py:371-381 | "Unknown" when /proc/cpuinfo cannot be read; the name reported never holds ':' (the first "model name" line decides, see the lemmas that follow) |
| Scrapers.CpuInfoFirstLine | pkg/linexin-center/usr/share/linexin/widgets/z-system-information-widget.py:372-381 | the first "model name" line decides the processor name |
| Scrapers.CpuInfoReadsBack | pkg/linexin-center/usr/share/linexin/widgets/z-system-information-widget.py:372-381 | the kernel's line "model name\t: name" reads back as name |
| Scrapers.CpuInfoAbsent | pkg/linexin-center/usr/share/linexin/widgets/z-system-information-widget.py:372-381 | an unreadable file, or one without a "model name" line, gives "Unknown" |
| Scrapers.VersionId | pkg/linexin-center/usr/share/linexin/widgets/z-system-information-widget.py:420-429 | a value found holds no '=' and has no '"' at either end |
| Scrapers.VersionIdFirstLine | pkg/linexin-center/usr/share/linexin/widgets/z-system-information-widget.py:420-429 | the first "VERSION_ID=" line decides: the version is the value after its first '=', whatever later lines say |
| Scrapers.VersionIdAbsent | pkg/linexin-center/usr/share/linexin/widgets/z-system-information-widget.py:420-429 | an unreadable file, or one without a "VERSION_ID=" line, gives None |
| Scrapers.VersionIdReadsBack | pkg/linexin-center/usr/share/linexin/widgets/z-system-information-widget.py:420-429 | the first line VERSION_ID="v" reads back as v |
| Gpu.FirstGpuLine | pkg/linexin-center/usr/share/linexin/widgets/z-system-information-widget.py:541-543 | the index of the first line mentioning VGA, Display or 3D and holding ':'; None exactly when there is none |
| Gpu.IsGpuLine | pkg/linexin-center/usr/share/linexin/widgets/z-system-information-widget.py:542-544 | a card line names VGA, Display or 3D and holds ':' (FirstGpuLine characterises the first such line) |
| Gpu.ScanLines | pkg/linexin-center/usr/share/linexin/widgets/z-system-information-widget.py:541-576 | the loop breaking at the first card line finds FirstGpuLine |
| Gpu.ScanLspci | pkg/linexin-center/usr/share/linexin/widgets/z-system-information-widget.py:534-578 | the card name left by the loop is GpuName of the `lspci` result |
| Gpu.FirstCardLineDecides | pkg/linexin-center/usr/share/linexin/widgets/z-system-information-widget.py:541-576 | lines after the first card line do not change which line is used |
| Gpu.GpuNameUnknown | pkg/linexin-center/usr/share/linexin/widgets/z-system-information-widget.py:534-578 | a failed `lspci`, or one without a card line, gives "Unknown" |
| Gpu.GpuName | pkg/linexin-center/usr/share/linexin/widgets/z-system-information-widget.py:534-578 | "Unknown" when `lspci` fails; otherwise the name of the first card line (see the lemmas around it) |
| Gpu.Description | pkg/linexin-center/usr/share/linexin/widgets/z-system-information-widget.py:545-548 | the text after the second ':' stripped, with the three controller labels removed (properties in DescriptionOf) |
| Gpu.DescriptionOf | pkg/linexin-center/usr/share/linexin/widgets/z-system-information-widget.py:545-548 | for a line "<slot>:<slot>:<description>" carrying no controller label, the description is the text after the second ':', stripped, even when it holds ':' itself |
| Gpu.CardName | pkg/linexin-center/usr/share/linexin/widgets/z-system-information-widget.py:544-573 | the vendor rule applied to the description with the revision dropped (properties in DropRevision and the vendor lemmas) |
| Gpu.VendorName | pkg/linexin-center/usr/share/linexin/widgets/z-system-information-widget.py:555-575 | NVIDIA, then AMD, then Intel rules in source order, the description itself otherwise (stated by NvidiaBracket, AmdVendorBracket, IntelPrefix and NoVendorKept) |
| Gpu.IntelPrefix | pkg/linexin-center/usr/share/linexin/widgets/z-system-information-widget.py:571-573 | "Intel Corporation " followed by a rest, with no NVIDIA or AMD marker, shows the rest |
| Gpu.NoVendorKept | pkg/linexin-center/usr/share/linexin/widgets/z-system-information-widget.py:574-575 | a description with no vendor marker is shown as it is |
| Gpu.DropRevision | pkg/linexin-center/usr/share/linexin/widgets/z-system-information-widget.py:551-552 | a description without "(rev" is kept; otherwise the result is the text before the first "(rev", stripped, and holds no "(rev" |
| Gpu.BracketName | pkg/linexin-center/usr/share/linexin/widgets/z-system-information-widget.py:559 | the Python slice between the first '[' and the first ']', empty when ']' comes first |
| Gpu.BracketNameOf | pkg/linexin-center/usr/share/linexin/widgets/z-system-information-widget.py:557-560 | in a + "[" + m + "]" + b, with no bracket in a and no ']' in m, the name is m |
| Gpu.NameOrBracket | pkg/linexin-center/usr/share/linexin/widgets/z-system-information-widget.py:557-562 | the bracket name when both brackets are present, the text otherwise (stated by NvidiaBracket and AmdVendorBracket) |
| Gpu.NvidiaBracket | pkg/linexin-center/usr/share/linexin/widgets/z-system-information-widget.py:555-562 | "NVIDIA Corporation chip [model]" gives model |
| Gpu.AmdVendorBracket | pkg/linexin-center/usr/share/linexin/widgets/z-system-information-widget.py:563-570 | an AMD description that brackets the vendor first gives "AMD/ATI" |
| Gpu.Driver | pkg/linexin-center/usr/share/linexin/widgets/z-system-information-widget.py:580-606 | NVIDIA's version when nvidia-smi succeeds with non-blank output, else AMDGPU, else Intel i915, else none, and none exactly when every probe fails |
| Gpu.NvidiaFound | pkg/linexin-center/usr/share/linexin/widgets/z-system-information-widget.py:585 | `nvidia-smi` counts as found when it exits 0 with output that is not blank (Driver and ProbeDriver use it) |
| Gpu.ProbeDriver | pkg/linexin-center/usr/share/linexin/widgets/z-system-information-widget.py:580-606 | the probes, each run only while no driver is found, give Driver |
| Gpu.Combine | pkg/linexin-center/usr/share/linexin/widgets/z-system-information-widget.py:608-612 | "name (driver)" when a driver was found, the name alone otherwise |
| Gpu.CombineKeepsName | pkg/linexin-center/usr/share/linexin/widgets/z-system-information-widget.py:608-612 | the name is a prefix of the result, and a suffix follows exactly when there is a driver |
| Gpu.GpuInfo | pkg/linexin-center/usr/share/linexin/widgets/z-system-information-widget.py:532-612 | the text returned is Combine of GpuName and Driver of the four subprocess results |
| PyStr.Lower | pkg/linexin-center/usr/share/linexin/widgets/z-system-information-widget.py:433 | `lower()` maps every character and keeps the length |
| PyStr.Capitalize | pkg/linexin-center/usr/share/linexin/widgets/z-system-information-widget.py:435 | `capitalize()` keeps the letters up to case and yields the capitalised form |
| PyStr.CapitalizeUnique | pkg/linexin-center/usr/share/linexin/widgets/z-system-information-widget.py:435 | those properties determine the result |
| PyStr.CapitalizeOfLower | pkg/linexin-center/usr/share/linexin/widgets/z-system-information-widget.py:433-435 | lowercasing before capitalising changes nothing |
| PyStr.CapitalizeIdempotent | pkg/linexin-center/usr/share/linexin/widgets/z-system-information-widget.py:435 | capitalising twice is capitalising once |
| PyStr.LStrip | pkg/linexin-center/usr/share/linexin/widgets/z-system-information-widget.py:426 | a suffix of the input, with every removed character in the set and the first one kept outside it |
| PyStr.RStrip | pkg/linexin-center/usr/share/linexin/widgets/z-system-information-widget.py:426 | a prefix of the input, with every removed character in the set and the last one kept outside it |
| PyStr.StripSet | pkg/linexin-center/usr/share/linexin/widgets/z-system-information-widget.py:426 | `strip(chars)`: both ends stripped of the set (stated by StripSetSlice, StripSetEnds, StripSetOf, StripSetContains) |
| PyStr.Strip | pkg/linexin-center/usr/share/linexin/widgets/z-system-information-widget.py:378 | `strip()`: StripSet with the whitespace characters |
| PyStr.StripSetSlice | pkg/linexin-center/usr/share/linexin/widgets/z-system-information-widget.py:426 | `strip` returns a slice of the input, and every character removed on either side is in the set |
| PyStr.StripSetEnds | pkg/linexin-center/usr/share/linexin/widgets/z-system-information-widget.py:426 | the result neither starts nor ends with a character of the set |
| PyStr.StripSetOf | pkg/linexin-center/usr/share/linexin/widgets/z-system-information-widget.py:426 | padding of set characters around a text whose ends are outside the set is removed exactly |
| PyStr.StripSetContains | pkg/linexin-center/usr/share/linexin/widgets/z-system-information-widget.py:552 | a substring of the stripped text is a substring of the input |
| PyStr.Find | pkg/linexin-center/usr/share/linexin/widgets/z-system-information-widget.py:559 | `find`: the first index of an occurrence, -1 exactly when there is none |
| PyStr.FindIsFirst | pkg/linexin-center/usr/share/linexin/widgets/z-system-information-widget.py:559 | an occurrence with none before it is what `find` returns |
| PyStr.StartsWith | pkg/linexin-center/usr/share/linexin/widgets/z-system-information-widget.py:377 | `startswith`: the text begins with the prefix |
| PyStr.Contains | pkg/linexin-center/usr/share/linexin/widgets/z-system-information-widget.py:518 | `sub in s`: an occurrence at some index (Find is non-negative exactly then) |
| PyStr.Split | pkg/linexin-center/usr/share/linexin/widgets/z-system-information-widget.py:378 | `split(sep)`: the pieces join back with sep into the input, none contains sep, and there is one piece exactly when sep does not occur |
| PyStr.Join | pkg/linexin-center/usr/share/linexin/widgets/z-system-information-widget.py:546-548 | `sep.join(parts)`, the inverse of Split (Split ensures its pieces join back) |
| PyStr.SplitMax | pkg/linexin-center/usr/share/linexin/widgets/z-system-information-widget.py:545 | `split(sep, maxsplit)`: at most maxsplit + 1 pieces that join back into the input, one piece exactly when maxsplit is 0 or sep does not occur |
| PyStr.SplitMaxPieces | pkg/linexin-center/usr/share/linexin/widgets/z-system-information-widget.py:545 | every piece of `split(sep, maxsplit)` but the last is free of sep, and so is the last when fewer than maxsplit cuts were made |
| PyStr.SplitMaxAfterPiece | pkg/linexin-center/usr/share/linexin/widgets/z-system-information-widget.py:545 | `split(c, m)` with m >= 1 cuts at the first c and splits the rest with one cut fewer |
| PyStr.SplitHead | pkg/linexin-center/usr/share/linexin/widgets/z-system-information-widget.py:552 | `split(sep)[0]` is the text before the first sep, or the whole text |
| PyStr.SecondField | pkg/linexin-center/usr/share/linexin/widgets/z-system-information-widget.py:378 | the longest run free of c that follows the first c |
| PyStr.SecondFieldSplit | pkg/linexin-center/usr/share/linexin/widgets/z-system-information-widget.py:378 | that run is `split(c)[1]` |
| PyStr.ReplaceAbsent | pkg/linexin-center/usr/share/linexin/widgets/z-system-information-widget.py:546-548 | `replace` leaves a text without the pattern unchanged |
| PyStr.ReplaceFirst | pkg/linexin-center/usr/share/linexin/widgets/z-system-information-widget.py:546-548 | `replace` rewrites the first occurrence and carries on after it |
| PyStr.Replace | pkg/linexin-center/usr/share/linexin/widgets/z-system-information-widget.py:546-548 | `replace`: every occurrence, left to right without overlap, replaced (properties in ReplaceAbsent, ReplaceFirst) |
| PyStr.Basename | pkg/linexin-center/usr/share/linexin/widgets/z-system-information-widget.py:475 | `os.path.basename`: the '/'-free end of the path after its last '/' |
| PyStr.LastWord | pkg/linexin-center/usr/share/linexin/widgets/z-system-information-widget.py:519 | `split()[-1]`: a maximal non-whitespace run followed by whitespace only |
| PyStr.LastWordOf | pkg/linexin-center/usr/share/linexin/widgets/z-system-information-widget.py:519 | the last word of pre + id + trailing whitespace, with pre ending in whitespace and id free of it, is id |

## Left out

- GTK, Adw, Pango and VTE are left out: the widget construction, layout, icons, `create_info_row`, `update_ui` and `resize_window_deferred`. They are user interface built on toolkits outside this model.
- VTE version probing, `spawn_fastfetch_in_terminal` and `load_fastfetch_info` are left out. They are library feature detection and process spawning into a terminal; the model keeps only the count of output loads a click triggers.
- `load_fastfetch_text` and `update_fastfetch_text` are left out. The first runs fastfetch twice on a thread and falls back to messages; only the cleaning function it applies is modelled.
- Every subprocess call is a parameter, not a call: `ps`, `lspci`, `xprop`, `nvidia-smi`, `modinfo`, `fastfetch`. Timeouts and caught exceptions become `Raised`.
- Desktop.WindowManager, Gpu.GpuName, Gpu.Driver: the source catches only `subprocess.SubprocessError` and `FileNotFoundError` around `ps`, `xprop`, `lspci`, `nvidia-smi` and `modinfo` (lines 509, 527, 577, 587, 596, 605). Other exceptions escape those methods and give no result, for example a `PermissionError` or other `OSError` from `subprocess.run`, or a `UnicodeDecodeError` from decoding the output with `text=True`. They are not modelled: every call yields `Exited` or `Raised`, and these functions always return a value.
- File reads are parameters: `/proc/cpuinfo` and `/etc/os-release` are `Option<string>`, with None for a file that cannot be read. Text is assumed to be newline-translated already.
- `get_kernel_info` (`os.uname`) and `get_version_date` (`/version`) are left out. They are reads with no rule on top.
- `load_system_info` and its thread and `GLib.idle_add` handoff are left out, and so are the psutil memory, disk and boot-time calls, `distro` and `time.time()`. They are concurrency and foreign libraries; the uptime in seconds is a parameter.
- `get_uptime`'s fallback to "Unknown" when psutil raises is left out, and so is the psutil call itself.
- Units.FormatBytes: does not model the `%.1f` rendering of the value. It returns the quotient and the unit.
- Units.SplitUptime: the uptime is a real number of seconds, not an IEEE double. Rounding of the float subtraction is left out.
- PyStr.Lower: maps only the ASCII letters. Python's full Unicode case mapping is left out, and so is the capitalisation built on it.
- gettext `_()` is the identity: the "Unknown" and label texts are the untranslated English ones.
- The dictionaries of desktop and process names are ordered tables of pairs. Python dictionaries keep insertion order, and the keys are distinct.
- `src/usr/share/linexin/widgets/e-CustomWidget1.py` is not part of this model. It is a static template with no logic.
