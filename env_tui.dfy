/** The app in env_tui.py: the variable table with its search filter and value truncation,
    the older config-file locator, and the older config-file rewrite of the "Save (Update
    RC)" button, which marks nothing and keeps each line's own terminator. */
module EnvTui {
  import opened Wrappers
  import opened Text
  import opened Shlex
  import opened EnvMap
  import opened Files
  import opened RcLocate
  import opened RcEdit

  /** `(value[:70] + '...') if len(value) > 73 else value`: a long value is cut to 73
      characters, ending in an ellipsis; a short one is shown as it is. */
  function Truncate(value: string): (r: string)
    ensures |r| <= 73
    ensures r == value <==> |value| <= 73
    ensures |value| > 73 ==> |r| == 73 && r[..70] == value[..70] && r[70..] == "..."
  {
    if |value| > 73 then value[..70] + "..." else value
  }

  /** One table row: the name and the value as displayed. */
  datatype Row = Row(name: string, display: string)

  function ShowRow(e: Entry): Row {
    Row(e.name, Truncate(e.value))
  }

  /** The filter of a non-empty search `search` (already lower-cased): a substring of the
      lower-cased name or of the lower-cased value. */
  predicate Shown(e: Entry, search: string) {
    Contains(Lower(e.name), search) || Contains(Lower(e.value), search)
  }

  /** The rows a non-empty search leaves, in the map's order. */
  function Filtered(env: Env, search: string): seq<Row> {
    if env == [] then []
    else (if Shown(env[0], search) then [ShowRow(env[0])] else []) + Filtered(env[1..], search)
  }

  /** Every variable, in the map's order. */
  function AllRows(env: Env): seq<Row> {
    seq(|env|, i requires 0 <= i < |env| => ShowRow(env[i]))
  }

  /** What `update_table` puts in the table for the search term `term`. */
  function Rows(env: Env, term: string): seq<Row> {
    var search := Lower(term);
    if search == [] then AllRows(env) else Filtered(env, search)
  }

  /** Filtering distributes over concatenation, so the rows keep the relative order of
      their variables. */
  lemma {:induction false} FilteredAppend(x: Env, y: Env, search: string)
    ensures Filtered(x + y, search) == Filtered(x, search) + Filtered(y, search)
  {
    if x != [] {
      assert (x + y)[1..] == x[1..] + y;
      FilteredAppend(x[1..], y, search);
    } else {
      assert x + y == y;
    }
  }

  /** A row is shown exactly when its variable passes the filter. */
  lemma {:induction false} FilteredMembers(env: Env, search: string, r: Row)
    ensures r in Filtered(env, search) <==>
            exists i :: 0 <= i < |env| && Shown(env[i], search) && r == ShowRow(env[i])
  {
    if env != [] {
      FilteredMembers(env[1..], search, r);
      assert forall i :: 0 < i < |env| ==> env[i] == env[1..][i - 1];
      assert forall i :: 0 <= i < |env[1..]| ==> env[1..][i] == env[i + 1];
    }
  }

  /** The filter with an empty needle lets everything through, so the two branches of
      `update_table` agree. */
  lemma {:induction false} FilteredEmpty(env: Env)
    ensures Filtered(env, []) == AllRows(env)
  {
    if env != [] {
      ContainsEmpty(Lower(env[0].name));
      FilteredEmpty(env[1..]);
      assert AllRows(env) == [ShowRow(env[0])] + AllRows(env[1..]);
    }
  }

  /** The search ignores case: a term and its lower-cased form give the same rows. */
  lemma SearchIgnoresCase(env: Env, term: string)
    ensures Rows(env, term) == Rows(env, Lower(term))
  {
    LowerIdempotent(term);
  }

  /** An empty search lists every variable; any other lists those of its filter. */
  lemma RowsSpec(env: Env, term: string, r: Row)
    ensures term == [] ==> Rows(env, term) == AllRows(env)
    ensures r in Rows(env, term) <==>
            exists i :: 0 <= i < |env| && Shown(env[i], Lower(term)) && r == ShowRow(env[i])
  {
    var search := Lower(term);
    FilteredMembers(env, search, r);
    if search == [] {
      FilteredEmpty(env);
    }
  }

  /** `_get_shell_config_file`: `~/.bashrc` for bash, `~/.zshrc` for zsh and `~/.profile`
      for anything else, whether or not the file exists. It never fails to name a file. */
  function OldGetShellConfigFile(h: Host): (r: Option<string>)
    ensures r.Some? && StartsWith(r.value, h.home + "/")
    ensures Contains(h.shell, "bash") ==> r == Some(HomeFile(h.home, ".bashrc"))
    ensures !Contains(h.shell, "bash") && Contains(h.shell, "zsh") ==> r == Some(HomeFile(h.home, ".zshrc"))
    ensures !Contains(h.shell, "bash") && !Contains(h.shell, "zsh") ==> r == Some(HomeFile(h.home, ".profile"))
  {
    var configFile :=
      if Contains(h.shell, "bash") then ".bashrc"
      else if Contains(h.shell, "zsh") then ".zshrc"
      else ".profile";
    Some(HomeFile(h.home, configFile))
  }

  /** The two locators agree for zsh, and for bash once `~/.bashrc` exists; for fish and
      for other shells without `~/.profile` they do not. */
  lemma LocatorsAgree(h: Host)
    ensures Contains(h.shell, "bash") && Exists(h, HomeFile(h.home, ".bashrc")) ==>
            OldGetShellConfigFile(h) == GetShellConfigFile(h)
    ensures !Contains(h.shell, "bash") && Contains(h.shell, "zsh") ==>
            OldGetShellConfigFile(h) == GetShellConfigFile(h)
    ensures !KnownShell(h.shell) && !Exists(h, HomeFile(h.home, ".profile")) ==>
            OldGetShellConfigFile(h) != GetShellConfigFile(h)
  {
  }

  /** The comment the older rewrite puts above an appended export. */
  const OldMarker: string := "# Added by EnvTuiApp"

  /** What one line of `readlines()` becomes: an export of the name is replaced by the
      command with a newline; anything else is kept with its own terminator. */
  function OldLine(line: string, name: string, e: string): string {
    if Matches(line, name) then e + "\n" else line
  }

  function OldReplace(lines: seq<string>, name: string, e: string): seq<string> {
    seq(|lines|, i requires 0 <= i < |lines| => OldLine(lines[i], name, e))
  }

  /** A `"\n"` before the appended lines when the last line has no terminator. */
  function OldSeparator(lines: seq<string>): seq<string> {
    if lines != [] && !EndsWith(lines[|lines| - 1], "\n") then ["\n"] else []
  }

  /** The lines `writelines` receives from the older rewrite. */
  function OldRewritten(lines: seq<string>, name: string, e: string): seq<string> {
    var body := OldReplace(lines, name, e);
    if AnyMatch(lines, name) then body
    else body + OldSeparator(body) + [OldMarker + "\n", e + "\n"]
  }

  /** The loop of the "Save (Update RC)" branch, then the append when no line matched. */
  method OldRewriteLines(lines: seq<string>, name: string, exportCmd: string)
    returns (newLines: seq<string>, updated: bool)
    ensures newLines == OldRewritten(lines, name, exportCmd)
    ensures updated == AnyMatch(lines, name)
  {
    newLines := [];
    updated := false;
    for i := 0 to |lines|
      invariant newLines == OldReplace(lines[..i], name, exportCmd)
      invariant updated == AnyMatch(lines[..i], name)
    {
      OldStep(lines, i, name, exportCmd);
      var line := lines[i];
      if StartsWith(Strip(line), SearchPrefix(name)) {
        newLines := newLines + [exportCmd + "\n"];
        updated := true;
        continue;
      }
      newLines := newLines + [line];
    }
    assert lines[..|lines|] == lines;
    if !updated {
      if newLines != [] && !EndsWith(newLines[|newLines| - 1], "\n") {
        newLines := newLines + ["\n"];
      }
      newLines := newLines + [OldMarker + "\n"];
      newLines := newLines + [exportCmd + "\n"];
    }
  }

  lemma OldStep(lines: seq<string>, i: nat, name: string, e: string)
    requires i < |lines|
    ensures OldReplace(lines[..i + 1], name, e) == OldReplace(lines[..i], name, e) + [OldLine(lines[i], name, e)]
    ensures AnyMatch(lines[..i + 1], name) == (AnyMatch(lines[..i], name) || Matches(lines[i], name))
  {
    AnyMatchAppend(lines[..i], [lines[i]], name);
    assert lines[..i + 1] == lines[..i] + [lines[i]];
    AnyMatchCons([lines[i]], name);
    assert [lines[i]][1..] == [];
  }

  /** A replacement line is an export of the name again, and no appended helper line is. */
  lemma OldLinesFacts(name: string, value: string)
    ensures Matches(ExportCommand(name, value) + "\n", name)
    ensures !Matches(OldMarker + "\n", name) && !Matches("\n", name)
  {
    CommandLineMatches(name, value);
    OldMarkerLine(name);
    NewlineLine(name);
  }

  /** The export command with its terminator is still recognised. */
  lemma CommandLineMatches(name: string, value: string)
    ensures Matches(ExportCommand(name, value) + "\n", name)
  {
    var e := ExportCommand(name, value);
    ExportCommandMatches(name, value);
    var q := Quote(value);
    assert e == SearchPrefix(name) + q;
    assert e[|e| - 1] == q[|q| - 1];
    StripTightNewline(e);
  }

  lemma OldMarkerLine(name: string)
    ensures !Matches(OldMarker + "\n", name)
  {
    StripTightNewline(OldMarker);
    assert Strip(OldMarker + "\n")[0] == '#';
  }

  lemma NewlineLine(name: string)
    ensures !Matches("\n", name)
  {
    assert TrimStart("\n") == TrimStart([]) == [];
    assert SearchPrefix(name) != [];
  }

  /** Running the older rewrite twice gives what running it once does. */
  lemma OldRewriteIdempotent(lines: seq<string>, name: string, value: string)
    ensures OldRewritten(OldRewritten(lines, name, ExportCommand(name, value)), name, ExportCommand(name, value))
         == OldRewritten(lines, name, ExportCommand(name, value))
  {
    var e := ExportCommand(name, value);
    var once := OldRewritten(lines, name, e);
    OldOnceFixed(lines, name, value);
    assert OldReplace(once, name, e) == once;
  }

  /** After one run an export of the name is present, and every line is one the rewrite
      leaves as it is. */
  lemma OldOnceFixed(lines: seq<string>, name: string, value: string)
    ensures AnyMatch(OldRewritten(lines, name, ExportCommand(name, value)), name)
    ensures forall k :: 0 <= k < |OldRewritten(lines, name, ExportCommand(name, value))| ==>
              OldLine(OldRewritten(lines, name, ExportCommand(name, value))[k], name, ExportCommand(name, value))
              == OldRewritten(lines, name, ExportCommand(name, value))[k]
  {
    var e := ExportCommand(name, value);
    OldLinesFacts(name, value);
    var once := OldRewritten(lines, name, e);
    var body := OldReplace(lines, name, e);
    assert forall k :: 0 <= k < |body| ==> OldLine(body[k], name, e) == body[k];
    if AnyMatch(lines, name) {
      var i :| 0 <= i < |lines| && Matches(lines[i], name);
      assert Matches(once[i], name);
    } else {
      var sep := OldSeparator(body);
      assert once == body + sep + [OldMarker + "\n", e + "\n"];
      assert Matches(once[|once| - 1], name);
      forall j | |body| <= j < |once| ensures OldLine(once[j], name, e) == once[j] {
        if j < |body| + |sep| {
          assert once[j] == "\n";
        } else if j == |once| - 2 {
          assert once[j] == OldMarker + "\n";
        } else {
          assert once[j] == e + "\n";
        }
      }
    }
  }

  lemma OldReplaceNoMatch(lines: seq<string>, name: string, e: string)
    requires !AnyMatch(lines, name)
    ensures OldReplace(lines, name, e) == lines
  {
  }

  /** The separator is a newline exactly when the text is non-empty and does not end in
      one. */
  lemma OldSeparatorText(text: string)
    ensures Concat(OldSeparator(KeepLines(text))) == if text != [] && text[|text| - 1] != '\n' then "\n" else ""
  {
    var lines := KeepLines(text);
    if text != [] {
      var last := KeepLinesLast(text);
      assert EndsWith(last, "\n") <==> last[|last| - 1] == '\n';
    }
    assert Concat(["\n"]) == "\n" + [];
  }

  /** When no line matched, the file's text gains a newline if it lacked a final one, then
      the comment and the command; nothing else changes. An empty or missing file gets no
      leading newline. */
  lemma OldAppendText(text: string, name: string, e: string)
    requires !AnyMatch(KeepLines(text), name)
    ensures Concat(OldRewritten(KeepLines(text), name, e)) ==
            text + (if text != [] && text[|text| - 1] != '\n' then "\n" else "") + OldMarker + "\n" + e + "\n"
  {
    var lines := KeepLines(text);
    var m := OldMarker + "\n";
    var c := e + "\n";
    OldReplaceNoMatch(lines, name, e);
    var sep := OldSeparator(lines);
    assert OldRewritten(lines, name, e) == lines + sep + [m, c];
    KeepLinesConcat(text);
    OldSeparatorText(text);
    ConcatAppend(lines + sep, [m, c]);
    ConcatAppend(lines, sep);
    ConcatPair(m, c);
    var gap := if text != [] && text[|text| - 1] != '\n' then "\n" else "";
    assert Concat(OldRewritten(lines, name, e)) == text + gap + (m + c);
    Regroup(text, gap, OldMarker, "\n", e);
  }

  lemma Regroup(a: string, b: string, c: string, d: string, e: string)
    ensures a + b + ((c + d) + (e + d)) == a + b + c + d + e + d
  {
  }

  /** What the older "Save (Update RC)" branch did to the config file. */
  datatype OldRcEffect =
    | NoRcWrite
    | NoConfigLocated
    | NoConfigDir(path: string)
    | OldWriteFailed(path: string)
    | OldWritten(path: string, text: string)

  /** The lines read: none for a missing file, `readlines()` otherwise, `None` when
      opening or reading raises. */
  function OldCurrentLines(h: Host, p: string): Option<seq<string>> {
    if !Exists(h, p) then Some([])
    else
      match ReadFile(h, p)
      case Read(text) => Some(KeepLines(text))
      case _ => None
  }

  /** The file is touched only if the path of the located file's directory exists; when
      that path is a regular file, the check passes and opening the file for writing raises. */
  function OldSaveEffect(h: Host, name: string, value: string): OldRcEffect {
    match OldGetShellConfigFile(h)
    case None => NoConfigLocated
    case Some(p) =>
      if !Exists(h, ParentDir(p)) then NoConfigDir(p)
      else
        match OldCurrentLines(h, p)
        case None => OldWriteFailed(p)
        case Some(lines) =>
          if h.writable && ParentDir(p) in h.dirs then
            OldWritten(p, Concat(OldRewritten(lines, name, ExportCommand(name, value))))
          else OldWriteFailed(p)
  }

  /** Saving into an existing file that holds no export of the name appends to its text. */
  lemma OldSaveAppends(h: Host, name: string, value: string)
    requires OldSaveEffect(h, name, value).OldWritten?
    requires ReadFile(h, OldSaveEffect(h, name, value).path).Read?
    requires !AnyMatch(KeepLines(ReadFile(h, OldSaveEffect(h, name, value).path).text), name)
    ensures OldSaveEffect(h, name, value).text ==
            var text := ReadFile(h, OldSaveEffect(h, name, value).path).text;
            text + (if text != [] && text[|text| - 1] != '\n' then "\n" else "") + OldMarker + "\n" +
            ExportCommand(name, value) + "\n"
  {
    var p := OldSaveEffect(h, name, value).path;
    OldAppendText(ReadFile(h, p).text, name, ExportCommand(name, value));
  }

  /** The "Save (Update RC)" branch after the map is updated. */
  method OldSaveRc(h: Host, varName: string, newValue: string) returns (effect: OldRcEffect)
    ensures effect == OldSaveEffect(h, varName, newValue)
  {
    var exportCmd := ExportCommand(varName, newValue);
    var configFile := OldGetShellConfigFile(h);
    if configFile.Some? && Exists(h, ParentDir(configFile.value)) {
      var p := configFile.value;
      var lines: seq<string> := [];
      var readOk := true;
      if Exists(h, p) {
        var read := ReadFile(h, p);
        if read.Read? {
          lines := KeepLines(read.text);
        } else {
          readOk := false;
        }
      }
      if !readOk {
        effect := OldWriteFailed(p);
      } else {
        var newLines, updated := OldRewriteLines(lines, varName, exportCmd);
        effect := if h.writable && ParentDir(p) in h.dirs then OldWritten(p, Concat(newLines))
                  else OldWriteFailed(p);
      }
    } else if configFile.Some? {
      effect := NoConfigDir(configFile.value);
    } else {
      effect := NoConfigLocated;
    }
  }

  predicate IsEditSave(buttonId: string) {
    buttonId == "edit-save-copy" || buttonId == "edit-save-rc"
  }

  /** The app's state: the variables, the edit mode, the variable being edited, the
      variable shown in the right pane, and the search term. */
  class EnvTuiApp {
    var allEnvVars: Env
    var editMode: bool
    var editingVarName: Option<string>
    var selectedVarDetails: (string, string)
    var searchTerm: string

    /** The variables have distinct names, as the keys of a dictionary do. */
    predicate Valid()
      reads this
    {
      DistinctNames(allEnvVars)
    }

    /** `all_env_vars = dict(sorted(os.environ.items()))`, with the other fields at their
        declared defaults. */
    constructor (environ: Env)
      requires DistinctNames(environ)
      ensures Valid() && StrictlySorted(allEnvVars)
      ensures multiset(allEnvVars) == multiset(environ)
      ensures !editMode && editingVarName == None && selectedVarDetails == ("", "") && searchTerm == ""
    {
      SortCorrect(environ);
      SortKeepsLookup(environ, []);
      allEnvVars := Sort(environ);
      editMode := false;
      editingVarName := None;
      selectedVarDetails := ("", "");
      searchTerm := "";
    }

    /** `update_table`: the rows the table is refilled with. */
    method UpdateTable() returns (rows: seq<Row>)
      ensures rows == Rows(allEnvVars, searchTerm)
    {
      var search := Lower(searchTerm);
      rows := [];
      if search == [] {
        for i := 0 to |allEnvVars|
          invariant rows == AllRows(allEnvVars[..i])
        {
          var e := allEnvVars[i];
          rows := rows + [ShowRow(e)];
        }
      } else {
        for i := 0 to |allEnvVars|
          invariant rows == Filtered(allEnvVars[..i], search)
        {
          var e := allEnvVars[i];
          FilteredAppend(allEnvVars[..i], [e], search);
          assert allEnvVars[..i + 1] == allEnvVars[..i] + [e];
          if Contains(Lower(e.name), search) || Contains(Lower(e.value), search) {
            rows := rows + [ShowRow(e)];
          }
        }
      }
      assert allEnvVars[..|allEnvVars|] == allEnvVars;
    }

    /** `self.edit_mode = False` together with its watcher: leaving edit mode forgets the
        variable being edited; setting it when already off changes nothing. */
    method LeaveEditMode()
      modifies this
      ensures !editMode
      ensures editingVarName == if old(editMode) then None else old(editingVarName)
      ensures allEnvVars == old(allEnvVars) && selectedVarDetails == old(selectedVarDetails)
      ensures searchTerm == old(searchTerm)
    {
      if editMode {
        editMode := false;
        editingVarName := None;
      }
    }

    /** `on_button_pressed` for the edit pane. Cancel leaves edit mode. A save without a
        variable being edited only leaves edit mode. Otherwise both saves first set the
        value in the map and the right pane, whatever the copy or the file write then
        does, and only "Save (Update RC)" rewrites the config file. */
    method OnButtonPressed(buttonId: string, editInput: string, h: Host) returns (effect: OldRcEffect)
      requires Valid()
      modifies this
      ensures Valid()
      ensures searchTerm == old(searchTerm)
      ensures buttonId == "edit-cancel" || IsEditSave(buttonId) ==>
                !editMode && (old(editMode) ==> editingVarName == None)
      ensures buttonId != "edit-cancel" && !IsEditSave(buttonId) ==>
                editMode == old(editMode) && editingVarName == old(editingVarName)
      ensures IsEditSave(buttonId) && old(editingVarName).Some? && old(editingVarName).value != [] ==>
                allEnvVars == Assign(old(allEnvVars), old(editingVarName).value, editInput) &&
                selectedVarDetails == (old(editingVarName).value, editInput) &&
                effect == (if buttonId == "edit-save-rc" then OldSaveEffect(h, old(editingVarName).value, editInput)
                           else NoRcWrite)
      ensures !(IsEditSave(buttonId) && old(editingVarName).Some? && old(editingVarName).value != []) ==>
                allEnvVars == old(allEnvVars) && selectedVarDetails == old(selectedVarDetails) &&
                effect == NoRcWrite
    {
      effect := NoRcWrite;
      if buttonId == "edit-cancel" {
        LeaveEditMode();
        return;
      }
      if buttonId == "edit-save-copy" || buttonId == "edit-save-rc" {
        if editingVarName.None? || editingVarName.value == [] {
          LeaveEditMode();
          return;
        }
        var newValue := editInput;
        var varName := editingVarName.value;
        AssignDistinct(allEnvVars, varName, newValue);
        allEnvVars := Assign(allEnvVars, varName, newValue);
        selectedVarDetails := (varName, newValue);
        if buttonId == "edit-save-rc" {
          effect := OldSaveRc(h, varName, newValue);
        }
        LeaveEditMode();
      }
    }
  }
}
