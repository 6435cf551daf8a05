/** `get_session_type`, `get_desktop_environment` and `get_window_manager`:
    naming the session from environment variables and, for the window
    manager, from the output of `ps aux` and `xprop`. */
module Desktop {
  import opened Wrappers
  import opened Subprocess
  import opened PyStr
  import Scrapers

  /** The process environment. */
  type Env = map<string, string>

  /** `os.environ.get(name, '')`. */
  function EnvGet(env: Env, name: string): string {
    if name in env then env[name] else ""
  }

  // ---------------------------------------------------------------- session type

  /** The session type (X11 or Wayland): XDG_SESSION_TYPE lowercased and then
      capitalised, "Unknown" when it is empty. */
  function SessionType(env: Env): (r: string)
    ensures EnvGet(env, "XDG_SESSION_TYPE") == [] ==> r == "Unknown"
    ensures EnvGet(env, "XDG_SESSION_TYPE") != [] ==>
      var v := EnvGet(env, "XDG_SESSION_TYPE");
      |r| == |v| && Lower(r) == Lower(v) && IsCapitalized(r)
  {
    var t := Lower(EnvGet(env, "XDG_SESSION_TYPE"));
    if t != [] then
      CapitalizeOfLower(EnvGet(env, "XDG_SESSION_TYPE"));
      Capitalize(t)
    else "Unknown"
  }

  /** Feeding the shown session type back as XDG_SESSION_TYPE shows it
      again: the name is a fixed point of the normalisation. */
  lemma SessionTypeIdempotent(env: Env)
    ensures SessionType(env["XDG_SESSION_TYPE" := SessionType(env)]) == SessionType(env)
  {
    var r := SessionType(env);
    var env2 := env["XDG_SESSION_TYPE" := r];
    assert EnvGet(env2, "XDG_SESSION_TYPE") == r;
    if EnvGet(env, "XDG_SESSION_TYPE") != [] {
      var t := Lower(EnvGet(env, "XDG_SESSION_TYPE"));
      CapitalizeOfLower(r);
      CapitalizeIdempotent(t);
    } else {
      assert Capitalize(Lower("Unknown")) == "Unknown";
    }
  }

  // ---------------------------------------------------------------- desktop environment

  /** The variables the widget consults, in order. */
  const DesktopVars: seq<string> := ["XDG_CURRENT_DESKTOP", "DESKTOP_SESSION", "XDG_SESSION_DESKTOP"]

  /** The widget's table of display names, keyed by the lowercased value.
      Its keys are distinct, so the first entry with a key is the one a
      dictionary lookup finds. */
  const DesktopNames: seq<(string, string)> := [
    ("gnome", "GNOME"), ("kde", "KDE"), ("xfce", "Xfce"), ("mate", "MATE"),
    ("cinnamon", "Cinnamon"), ("lxde", "LXDE"), ("lxqt", "LXQt"),
    ("pantheon", "Pantheon"), ("budgie", "Budgie"), ("deepin", "Deepin"),
    ("unity", "Unity"), ("i3", "i3"), ("sway", "Sway"), ("awesome", "Awesome"),
    ("openbox", "Openbox"), ("fluxbox", "Fluxbox"), ("bspwm", "bspwm"),
    ("dwm", "dwm"), ("qtile", "Qtile"), ("herbstluftwm", "herbstluftwm")]

  /** `table.get(key)` on a table given as its entries. */
  function Lookup(table: seq<(string, string)>, key: string): (r: Option<string>)
    ensures r.None? <==> forall i :: 0 <= i < |table| ==> table[i].0 != key
    ensures r.Some? ==> exists i :: 0 <= i < |table| && table[i] == (key, r.value)
  {
    if table == [] then None
    else if table[0].0 == key then Some(table[0].1)
    else
      var r := Lookup(table[1..], key);
      if r.Some? then
        var i :| 0 <= i < |table| - 1 && table[1..][i] == (key, r.value);
        assert table[i + 1] == (key, r.value);
        r
      else r
  }

  /** The lowercased value of the first of `vars` that is set to something
      non-empty, None when all of them are empty. */
  function FirstSet(env: Env, vars: seq<string>): (r: Option<string>)
    ensures r.None? <==> forall i :: 0 <= i < |vars| ==> EnvGet(env, vars[i]) == []
    ensures r.Some? ==> exists i :: 0 <= i < |vars| && FirstSetAt(env, vars, i) && r.value == Lower(EnvGet(env, vars[i]))
  {
    if vars == [] then None
    else if Lower(EnvGet(env, vars[0])) != [] then Some(Lower(EnvGet(env, vars[0])))
    else
      var r := FirstSet(env, vars[1..]);
      if r.Some? then
        var i :| 0 <= i < |vars| - 1 && FirstSetAt(env, vars[1..], i) && r.value == Lower(EnvGet(env, vars[1..][i]));
        assert FirstSetAt(env, vars, i + 1);
        r
      else r
  }

  /** vars[i] is set and every variable before it is empty. */
  predicate FirstSetAt(env: Env, vars: seq<string>, i: int)
    requires 0 <= i < |vars|
  {
    EnvGet(env, vars[i]) != [] && forall j :: 0 <= j < i ==> EnvGet(env, vars[j]) == []
  }

  /** The display name of a lowercased value: its entry in the table, or the
      value capitalised. */
  function DisplayName(de: string): string {
    var v := Lookup(DesktopNames, de);
    if v.Some? then v.value else Capitalize(de)
  }

  function DesktopEnvironment(env: Env): string {
    var de := FirstSet(env, DesktopVars);
    if de.Some? then DisplayName(de.value) else "Unknown"
  }

  /** The first variable that is set decides; all three empty give "Unknown". */
  lemma DesktopEnvironmentFirstWins(env: Env, i: nat)
    requires i < |DesktopVars| && FirstSetAt(env, DesktopVars, i)
    ensures DesktopEnvironment(env) == DisplayName(Lower(EnvGet(env, DesktopVars[i])))
  {
    var r := FirstSet(env, DesktopVars);
    var k :| 0 <= k < |DesktopVars| && FirstSetAt(env, DesktopVars, k) && r.value == Lower(EnvGet(env, DesktopVars[k]));
    FirstSetAtUnique(env, DesktopVars, i, k);
  }

  lemma FirstSetAtUnique(env: Env, vars: seq<string>, i: nat, k: nat)
    requires i < |vars| && k < |vars| && FirstSetAt(env, vars, i) && FirstSetAt(env, vars, k)
    ensures i == k
  {
  }

  lemma DesktopEnvironmentUnset(env: Env)
    requires forall i :: 0 <= i < |DesktopVars| ==> EnvGet(env, DesktopVars[i]) == []
    ensures DesktopEnvironment(env) == "Unknown"
  {
  }

  /** Every display name in the table lowercases to its own key, and no key
      is "unknown". */
  lemma TableNamesLowerToKeys(i: nat)
    requires i < |DesktopNames|
    ensures Lower(DesktopNames[i].1) == DesktopNames[i].0
    ensures DesktopNames[i].0 != "unknown"
  {
    if i < 4 {
      TableEntries0(i);
    } else if i < 8 {
      TableEntries4(i);
    } else if i < 12 {
      TableEntries8(i);
    } else if i < 16 {
      TableEntries12(i);
    } else {
      TableEntries16(i);
    }
  }

  lemma TableEntries0(i: nat)
    requires 0 <= i < 4
    ensures Lower(DesktopNames[i].1) == DesktopNames[i].0
    ensures DesktopNames[i].0 != "unknown"
  {
    if i == 0 {
      assert DesktopNames[i] == ("gnome", "GNOME");
      LowerIs("GNOME", "gnome");
    } else if i == 1 {
      assert DesktopNames[i] == ("kde", "KDE");
      LowerIs("KDE", "kde");
    } else if i == 2 {
      assert DesktopNames[i] == ("xfce", "Xfce");
      LowerIs("Xfce", "xfce");
    } else if i == 3 {
      assert DesktopNames[i] == ("mate", "MATE");
      LowerIs("MATE", "mate");
    }
  }

  lemma TableEntries4(i: nat)
    requires 4 <= i < 8
    ensures Lower(DesktopNames[i].1) == DesktopNames[i].0
    ensures DesktopNames[i].0 != "unknown"
  {
    if i == 4 {
      assert DesktopNames[i] == ("cinnamon", "Cinnamon");
      LowerIs("Cinnamon", "cinnamon");
    } else if i == 5 {
      assert DesktopNames[i] == ("lxde", "LXDE");
      LowerIs("LXDE", "lxde");
    } else if i == 6 {
      assert DesktopNames[i] == ("lxqt", "LXQt");
      LowerIs("LXQt", "lxqt");
    } else if i == 7 {
      assert DesktopNames[i] == ("pantheon", "Pantheon");
      LowerIs("Pantheon", "pantheon");
    }
  }

  lemma TableEntries8(i: nat)
    requires 8 <= i < 12
    ensures Lower(DesktopNames[i].1) == DesktopNames[i].0
    ensures DesktopNames[i].0 != "unknown"
  {
    if i == 8 {
      assert DesktopNames[i] == ("budgie", "Budgie");
      LowerIs("Budgie", "budgie");
    } else if i == 9 {
      assert DesktopNames[i] == ("deepin", "Deepin");
      LowerIs("Deepin", "deepin");
    } else if i == 10 {
      assert DesktopNames[i] == ("unity", "Unity");
      LowerIs("Unity", "unity");
    } else if i == 11 {
      assert DesktopNames[i] == ("i3", "i3");
      LowerIs("i3", "i3");
    }
  }

  lemma TableEntries12(i: nat)
    requires 12 <= i < 16
    ensures Lower(DesktopNames[i].1) == DesktopNames[i].0
    ensures DesktopNames[i].0 != "unknown"
  {
    if i == 12 {
      assert DesktopNames[i] == ("sway", "Sway");
      LowerIs("Sway", "sway");
    } else if i == 13 {
      assert DesktopNames[i] == ("awesome", "Awesome");
      LowerIs("Awesome", "awesome");
    } else if i == 14 {
      assert DesktopNames[i] == ("openbox", "Openbox");
      LowerIs("Openbox", "openbox");
    } else if i == 15 {
      assert DesktopNames[i] == ("fluxbox", "Fluxbox");
      LowerIs("Fluxbox", "fluxbox");
    }
  }

  lemma TableEntries16(i: nat)
    requires 16 <= i < 20
    ensures Lower(DesktopNames[i].1) == DesktopNames[i].0
    ensures DesktopNames[i].0 != "unknown"
  {
    if i == 16 {
      assert DesktopNames[i] == ("bspwm", "bspwm");
      LowerIs("bspwm", "bspwm");
    } else if i == 17 {
      assert DesktopNames[i] == ("dwm", "dwm");
      LowerIs("dwm", "dwm");
    } else if i == 18 {
      assert DesktopNames[i] == ("qtile", "Qtile");
      LowerIs("Qtile", "qtile");
    } else if i == 19 {
      assert DesktopNames[i] == ("herbstluftwm", "herbstluftwm");
      LowerIs("herbstluftwm", "herbstluftwm");
    }
  }

  /** A lowercased value's display name lowercases back to the value: the
      table only changes case, and so does capitalisation. */
  lemma LowerDisplayName(de: string)
    requires Lower(de) == de
    ensures Lower(DisplayName(de)) == de
  {
    var v := Lookup(DesktopNames, de);
    if v.Some? {
      var i :| 0 <= i < |DesktopNames| && DesktopNames[i] == (de, v.value);
      TableNamesLowerToKeys(i);
    }
  }

  /** Setting XDG_CURRENT_DESKTOP to the shown name shows the same name:
      the table and the capitalisation agree with each other. */
  lemma DesktopEnvironmentIdempotent(env: Env)
    ensures DesktopEnvironment(env["XDG_CURRENT_DESKTOP" := DesktopEnvironment(env)]) == DesktopEnvironment(env)
  {
    var shown := DesktopEnvironment(env);
    var env2 := env["XDG_CURRENT_DESKTOP" := shown];
    ShownNonEmpty(env);
    assert EnvGet(env2, DesktopVars[0]) == shown;
    assert FirstSet(env2, DesktopVars) == Some(Lower(shown));
    ShownStable(env);
  }

  lemma ShownNonEmpty(env: Env)
    ensures DesktopEnvironment(env) != []
  {
    var de := FirstSet(env, DesktopVars);
    if de.Some? {
      var i :| 0 <= i < |DesktopVars| && FirstSetAt(env, DesktopVars, i) && de.value == Lower(EnvGet(env, DesktopVars[i]));
      LowerIdempotent(EnvGet(env, DesktopVars[i]));
      LowerDisplayName(de.value);
    }
  }

  lemma ShownStable(env: Env)
    ensures DisplayName(Lower(DesktopEnvironment(env))) == DesktopEnvironment(env)
  {
    var de := FirstSet(env, DesktopVars);
    if de.Some? {
      var i :| 0 <= i < |DesktopVars| && FirstSetAt(env, DesktopVars, i) && de.value == Lower(EnvGet(env, DesktopVars[i]));
      LowerIdempotent(EnvGet(env, DesktopVars[i]));
      DisplayNameStable(de.value);
    } else {
      UnknownStable();
    }
  }

  lemma DisplayNameStable(de: string)
    requires Lower(de) == de
    ensures DisplayName(Lower(DisplayName(de))) == DisplayName(de)
  {
    LowerDisplayName(de);
  }

  lemma UnknownStable()
    ensures DisplayName(Lower("Unknown")) == "Unknown"
  {
    LowerIs("Unknown", "unknown");
    UnknownNotInTable();
    CapitalizeUnknown();
  }

  lemma CapitalizeUnknown()
    ensures Capitalize("unknown") == "Unknown"
  {
    assert "unknown" == ['u'] + "nknown";
    CapitalizeCons('u', "nknown");
    LowerIs("nknown", "nknown");
    assert ['U'] + "nknown" == "Unknown";
  }

  lemma UnknownNotInTable()
    ensures Lookup(DesktopNames, "unknown").None?
  {
    forall i | 0 <= i < |DesktopNames| ensures DesktopNames[i].0 != "unknown" {
      TableNamesLowerToKeys(i);
    }
  }

  lemma LowerIdempotent(s: string)
    ensures Lower(Lower(s)) == Lower(s)
  {
  }

  // ---------------------------------------------------------------- window manager

  /** The widget's process table, in the order it is tried. */
  const WmProcesses: seq<(string, string)> := [
    ("mutter", "Mutter"), ("kwin_x11", "KWin"), ("kwin_wayland", "KWin"), ("kwin", "KWin"),
    ("xfwm4", "Xfwm4"), ("openbox", "Openbox"), ("i3", "i3"), ("sway", "Sway"),
    ("awesome", "Awesome"), ("dwm", "DWM"), ("bspwm", "bspwm"), ("qtile", "Qtile"),
    ("herbstluftwm", "herbstluftwm"), ("fluxbox", "Fluxbox"), ("marco", "Marco"),
    ("metacity", "Metacity"), ("compiz", "Compiz"), ("enlightenment", "Enlightenment"),
    ("cwm", "CWM"), ("jwm", "JWM")]

  /** The index of the first entry, from `from` on, whose process name occurs
      in the `ps` output. */
  function FirstProcess(stdout: string, from: nat): (r: Option<nat>)
    requires from <= |WmProcesses|
    ensures r.None? <==> forall j :: from <= j < |WmProcesses| ==> !Contains(stdout, WmProcesses[j].0)
    ensures r.Some? ==> from <= r.value < |WmProcesses| && Contains(stdout, WmProcesses[r.value].0)
    ensures r.Some? ==> forall j :: from <= j < r.value ==> !Contains(stdout, WmProcesses[j].0)
    decreases |WmProcesses| - from
  {
    if from == |WmProcesses| then None
    else if Contains(stdout, WmProcesses[from].0) then Some(from)
    else FirstProcess(stdout, from + 1)
  }

  /** The name `ps aux` shows, if the call succeeded and some entry occurs:
      the name of the first entry of the table whose process occurs. */
  function ProcessName(ps: Run): (r: Option<string>)
    ensures r.None? <==> !ps.Succeeded() || forall j :: 0 <= j < |WmProcesses| ==> !Contains(ps.stdout, WmProcesses[j].0)
    ensures r.Some? ==>
      exists k :: 0 <= k < |WmProcesses| && Contains(ps.stdout, WmProcesses[k].0) && r.value == WmProcesses[k].1 &&
        forall j :: 0 <= j < k ==> !Contains(ps.stdout, WmProcesses[j].0)
  {
    if ps.Succeeded() then
      var k := FirstProcess(ps.stdout, 0);
      if k.Some? then Some(WmProcesses[k.value].1) else None
    else None
  }

  /** The name `xprop` reports for the window the root window points at:
      `xprop -root _NET_SUPPORTING_WM_CHECK` must succeed and say
      "window id", its last word is queried with `xprop -id`, which must
      succeed and contain '='; the text after the first '=' is stripped of
      whitespace and then of '"'. "GNOME Shell", in any case, is refused. */
  function XpropName(root: Run, query: string -> Run): (r: Option<string>)
    ensures !root.Succeeded() || !Contains(root.stdout, "window id") ==> r.None?
    ensures (root.Succeeded() && Contains(root.stdout, "window id") &&
             (exists i :: 0 <= i < |root.stdout| && root.stdout[i] !in Whitespace) &&
             (!query(LastWord(root.stdout)).Succeeded() || '=' !in query(LastWord(root.stdout)).stdout))
      ==> r.None?
    ensures r.Some? ==> Lower(r.value) != "gnome shell" && '=' !in r.value
    ensures r.Some? ==> r.value == [] || (r.value[0] != '"' && r.value[|r.value| - 1] != '"')
  {
    if root.Succeeded() && Contains(root.stdout, "window id") then
      WindowIdHasWord(root.stdout);
      var id := LastWord(root.stdout);
      var reply := query(id);
      if reply.Succeeded() && '=' in reply.stdout then
        ContainsChar(reply.stdout, '=');
        var name := Scrapers.ValueAfter(reply.stdout, '=');
        if Lower(name) != "gnome shell" then Some(name) else None
      else None
    else None
  }

  /** The window manager: the basename of WINDOW_MANAGER when it is set;
      otherwise the first process of the table found in `ps aux`; otherwise,
      when DISPLAY is set, the `xprop` name; otherwise "Unknown". */
  function WindowManager(env: Env, ps: Run, root: Run, query: string -> Run): (r: string)
    ensures EnvGet(env, "WINDOW_MANAGER") != [] ==> '/' !in r
  {
    var wm := EnvGet(env, "WINDOW_MANAGER");
    if wm != [] then Basename(wm)
    else
      var p := ProcessName(ps);
      if p.Some? then p.value
      else
        var x := if EnvGet(env, "DISPLAY") != [] then XpropName(root, query) else None;
        if x.Some? then x.value else "Unknown"
  }

  /** Without WINDOW_MANAGER and with no table process in `ps`, a set
      DISPLAY and a name from `xprop` give that name. */
  lemma WindowManagerFromXprop(env: Env, ps: Run, root: Run, query: string -> Run, v: string)
    requires EnvGet(env, "WINDOW_MANAGER") == [] && ProcessName(ps).None?
    requires EnvGet(env, "DISPLAY") != [] && XpropName(root, query) == Some(v)
    ensures WindowManager(env, ps, root, query) == v
  {
  }

  lemma WindowIdHasWord(s: string)
    requires Contains(s, "window id")
    ensures exists i :: 0 <= i < |s| && s[i] !in Whitespace
  {
    var k := Find(s, "window id");
    assert OccursAt(s, "window id", k);
    assert s[k..k + 9] == "window id";
    assert s[k] == s[k..k + 9][0] == "window id"[0] == 'w';
    assert 0 <= k < |s| && s[k] !in Whitespace;
  }

  /** A set WINDOW_MANAGER decides alone, whatever `ps` and `xprop` report:
      the result is its basename, the text after its last '/'. */
  lemma WindowManagerFromEnv(env: Env, ps: Run, root: Run, query: string -> Run,
                             ps2: Run, root2: Run, query2: string -> Run)
    requires EnvGet(env, "WINDOW_MANAGER") != []
    ensures var r := WindowManager(env, ps, root, query);
      var wm := EnvGet(env, "WINDOW_MANAGER");
      '/' !in r && |r| <= |wm| && wm[|wm| - |r|..] == r &&
      (|r| == |wm| || wm[|wm| - |r| - 1] == '/')
    ensures WindowManager(env, ps, root, query) == WindowManager(env, ps2, root2, query2)
  {
  }

  /** Without WINDOW_MANAGER, a successful `ps aux` in which some process of
      the table occurs gives the name of the first such process in table
      order, whatever `xprop` says. */
  lemma WindowManagerFromProcesses(env: Env, ps: Run, root: Run, query: string -> Run, k: nat)
    requires EnvGet(env, "WINDOW_MANAGER") == [] && ps.Succeeded()
    requires k < |WmProcesses| && Contains(ps.stdout, WmProcesses[k].0)
    requires forall j :: 0 <= j < k ==> !Contains(ps.stdout, WmProcesses[j].0)
    ensures WindowManager(env, ps, root, query) == WmProcesses[k].1
  {
    var r := FirstProcess(ps.stdout, 0);
  }

  /** Any KWin process is reported as "KWin" when no mutter runs: the x11
      and wayland variants are tried before the plain name, and all three
      map to the same name. */
  lemma KWinVariants(env: Env, ps: Run, root: Run, query: string -> Run)
    requires EnvGet(env, "WINDOW_MANAGER") == [] && ps.Succeeded()
    requires Contains(ps.stdout, "kwin") && !Contains(ps.stdout, "mutter")
    ensures WindowManager(env, ps, root, query) == "KWin"
  {
    var r := FirstProcess(ps.stdout, 0);
    assert WmProcesses[3].0 == "kwin";
    assert r.Some? && r.value <= 3;
    assert WmProcesses[0].0 == "mutter";
    assert r.value != 0;
  }

  /** What `xprop -id <id> _NET_WM_NAME` prints for a window named v. */
  function NetWmNameReply(v: string): string {
    "_NET_WM_NAME(UTF8_STRING) " + ['='] + (" " + (['"'] + v + ['"']) + "\n")
  }

  lemma NetWmNameValue(v: string)
    requires '=' !in v && (v == [] || (v[0] != '"' && v[|v| - 1] != '"'))
    ensures '=' in NetWmNameReply(v) && Scrapers.ValueAfter(NetWmNameReply(v), '=') == v
  {
    assert forall i :: 0 <= i < |" "| ==> " "[i] in Whitespace;
    assert forall i :: 0 <= i < |"\n"| ==> "\n"[i] in Whitespace;
    Scrapers.QuotedValueReadsBack("_NET_WM_NAME(UTF8_STRING) ", " ", v, "\n");
  }

  /** The root window's reply ends in the window id, as in
      "_NET_SUPPORTING_WM_CHECK(WINDOW): window id # 0x1a00006": that id is
      the one queried, and the window name `xprop` prints for it is what
      the X11 fallback reports, unless it is "GNOME Shell" in some case. */
  lemma XpropNameReadsBack(root: Run, query: string -> Run, pre: string, id: string, v: string)
    requires root.Succeeded() && root.stdout == pre + id + "\n"
    requires Contains(pre, "window id") && pre[|pre| - 1] in Whitespace
    requires id != [] && forall i :: 0 <= i < |id| ==> id[i] !in Whitespace
    requires query(id) == Exited(0, NetWmNameReply(v))
    requires '=' !in v && (v == [] || (v[0] != '"' && v[|v| - 1] != '"'))
    requires Lower(v) != "gnome shell"
    ensures XpropName(root, query) == Some(v)
  {
    RootReplyId(pre, id);
    NetWmNameValue(v);
  }

  /** The root window's reply says "window id" and its last word is id. */
  lemma RootReplyId(pre: string, id: string)
    requires Contains(pre, "window id") && pre[|pre| - 1] in Whitespace
    requires id != [] && forall i :: 0 <= i < |id| ==> id[i] !in Whitespace
    ensures Contains(pre + id + "\n", "window id")
    ensures exists i :: 0 <= i < |pre + id + "\n"| && (pre + id + "\n")[i] !in Whitespace
    ensures LastWord(pre + id + "\n") == id
  {
    ContainsConcat(pre, id + "\n", "window id");
    assert pre + id + "\n" == pre + (id + "\n");
    LastWordOf(pre, id, "\n");
  }

  /** Without WINDOW_MANAGER the window manager is never "GNOME Shell", in
      any case: no table name is, and the `xprop` name is refused. */
  lemma NeverGnomeShell(env: Env, ps: Run, root: Run, query: string -> Run)
    requires EnvGet(env, "WINDOW_MANAGER") == []
    ensures Lower(WindowManager(env, ps, root, query)) != "gnome shell"
  {
    var p := ProcessName(ps);
    if p.Some? {
      var k := FirstProcess(ps.stdout, 0).value;
      TableNamesNotEleven(k);
    }
  }

  /** No name of the process table has the length of "gnome shell". */
  lemma TableNamesNotEleven(k: nat)
    requires k < |WmProcesses|
    ensures |WmProcesses[k].1| != |"gnome shell"|
  {
  }

  /** With no WINDOW_MANAGER, no process of the table found (or `ps`
      failing) and no name from `xprop` (for want of a DISPLAY, a failing
      call, a reply without a name, or GNOME Shell), the result is
      "Unknown". */
  lemma WindowManagerUnknown(env: Env, ps: Run, root: Run, query: string -> Run)
    requires EnvGet(env, "WINDOW_MANAGER") == []
    requires !ps.Succeeded() || forall j :: 0 <= j < |WmProcesses| ==> !Contains(ps.stdout, WmProcesses[j].0)
    requires EnvGet(env, "DISPLAY") == [] || XpropName(root, query).None?
    ensures WindowManager(env, ps, root, query) == "Unknown"
  {
  }
}
