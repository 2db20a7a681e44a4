/** `save_variable` and `delete_variable` (shell_utils.py): the dictionary update the app
    takes over, and the rewrite of the user's shell config file. Messages, the clipboard
    and the terminal launch are not modelled; what the config-file branch does to the file
    is returned as an `RcEffect`. */
module ShellUtils {
  import opened Wrappers
  import opened Text
  import opened Shlex
  import opened EnvMap
  import opened Files
  import opened RcLocate
  import opened RcScan
  import opened RcEdit
  import opened RcUpsert
  import opened RcRemove

  /** What happened to the config file. `RcFailed`: creating its directory, reading it or
      writing it raised, and the exception was reported. */
  datatype RcEffect =
    | NoRcAction
    | NoConfigFile
    | RcFailed(path: string)
    | RcMissing(path: string)
    | ExportNotFound(path: string)
    | Written(path: string, text: string)

  predicate IsRcSave(buttonId: string) {
    buttonId == "edit-save-rc" || buttonId == "add-save-rc"
  }

  predicate IsRcDelete(buttonId: string) {
    buttonId == "delete-confirm-rc"
  }

  /** `config_dir.mkdir(parents=True, exist_ok=True)` does not raise: the directory is
      there already, or it can be created where nothing else is in the way. */
  predicate MkdirOk(h: Host, p: string) {
    ParentDir(p) in h.dirs || (h.writable && ParentDir(p) !in h.files)
  }

  /** The lines `save_variable` starts from: none for a file that does not exist yet,
      `read_text().splitlines()` otherwise, and `None` when reading raises. */
  function CurrentLines(h: Host, p: string): Option<seq<string>> {
    if !Exists(h, p) then Some([])
    else
      match ReadFile(h, p)
      case Read(text) => Some(SplitLines(text))
      case _ => None
  }

  /** The state of the files once an effect has taken place. */
  function Apply(h: Host, eff: RcEffect): Host {
    if eff.Written? then h.(files := h.files[eff.path := Readable(eff.text)]) else h
  }

  /** The dictionary `save_variable` returns for a config-file save: the value set, and
      the whole dictionary re-sorted by name when the variable is new. */
  function SavedEnv(env: Env, name: string, value: string, isNew: bool): Env {
    var e := Assign(env, name, value);
    if isNew then Sort(e) else e
  }

  /** The config-file branch of `save_variable`. */
  function SaveEffect(h: Host, name: string, value: string): RcEffect {
    match GetShellConfigFile(h)
    case None => NoConfigFile
    case Some(p) =>
      if !MkdirOk(h, p) then RcFailed(p)
      else
        match CurrentLines(h, p)
        case None => RcFailed(p)
        case Some(lines) =>
          if h.writable then Written(p, Render(UpsertValue(lines, name, value))) else RcFailed(p)
  }

  /** The config-file branch of `delete_variable`: a missing file is reported and left
      missing, and the file is only written when an export of the name was dropped. */
  function DeleteEffect(h: Host, name: string): RcEffect {
    match GetShellConfigFile(h)
    case None => NoConfigFile
    case Some(p) =>
      if !MkdirOk(h, p) then RcFailed(p)
      else if !Exists(h, p) then RcMissing(p)
      else
        match ReadFile(h, p)
        case Read(text) =>
          var lines := SplitLines(text);
          if !AnyMatch(lines, name) then ExportNotFound(p)
          else if h.writable then Written(p, Render(Remove(lines, name)))
          else RcFailed(p)
        case _ => RcFailed(p)
  }

  /** Only the two config-file buttons change the dictionary; the copy and launch buttons
      leave it as given. The dictionary is updated before the file is touched, so it
      changes whatever becomes of the file. */
  method SaveVariable(varName: string, newValue: string, actionButtonId: string, isNew: bool,
                      allEnvVars: Env, h: Host)
    returns (tuiUpdated: bool, envOut: Env, effect: RcEffect)
    ensures tuiUpdated <==> IsRcSave(actionButtonId)
    ensures envOut == if tuiUpdated then SavedEnv(allEnvVars, varName, newValue, isNew) else allEnvVars
    ensures effect == if tuiUpdated then SaveEffect(h, varName, newValue) else NoRcAction
  {
    var updateRc := actionButtonId == "edit-save-rc" || actionButtonId == "add-save-rc";
    tuiUpdated := false;
    var currentEnvVars := allEnvVars;
    if updateRc {
      currentEnvVars := Assign(currentEnvVars, varName, newValue);
      tuiUpdated := true;
      if isNew {
        currentEnvVars := Sort(currentEnvVars);
      }
    }
    effect := NoRcAction;
    if updateRc {
      effect := SaveRc(varName, newValue, h);
    }
    envOut := if tuiUpdated then currentEnvVars else allEnvVars;
  }

  /** The config-file branch of `save_variable`. */
  method SaveRc(varName: string, newValue: string, h: Host) returns (effect: RcEffect)
    ensures effect == SaveEffect(h, varName, newValue)
  {
    var exportCmd := ExportCommand(varName, newValue);
    var configFile := GetShellConfigFile(h);
    if configFile.None? {
      return NoConfigFile;
    }
    var p := configFile.value;
    if !MkdirOk(h, p) {
      return RcFailed(p);
    }
    var lines: seq<string> := [];
    if Exists(h, p) {
      var read := ReadFile(h, p);
      if !read.Read? {
        return RcFailed(p);
      }
      lines := SplitLines(read.text);
    }
    var newLines, foundInRc := UpsertLines(lines, varName, exportCmd);
    effect := if h.writable then Written(p, Render(newLines)) else RcFailed(p);
  }

  /** A name the dictionary does not hold changes nothing. Otherwise only the config-file
      button removes it, from the dictionary first and then from the file. */
  method DeleteVariable(varName: string, actionButtonId: string, allEnvVars: Env, h: Host)
    returns (tuiUpdated: bool, envOut: Env, effect: RcEffect)
    ensures !Has(allEnvVars, varName) ==> !tuiUpdated && envOut == allEnvVars && effect == NoRcAction
    ensures Has(allEnvVars, varName) ==> (tuiUpdated <==> IsRcDelete(actionButtonId))
    ensures envOut == if tuiUpdated then Delete(allEnvVars, varName) else allEnvVars
    ensures effect == if tuiUpdated then DeleteEffect(h, varName) else NoRcAction
  {
    if !Has(allEnvVars, varName) {
      return false, allEnvVars, NoRcAction;
    }
    var updateRc := actionButtonId == "delete-confirm-rc";
    tuiUpdated := false;
    var currentEnvVars := allEnvVars;
    if updateRc {
      currentEnvVars := Delete(currentEnvVars, varName);
      tuiUpdated := true;
    }
    effect := NoRcAction;
    if updateRc {
      effect := DeleteRc(varName, h);
    }
    envOut := if tuiUpdated then currentEnvVars else allEnvVars;
  }

  /** The config-file branch of `delete_variable`. */
  method DeleteRc(varName: string, h: Host) returns (effect: RcEffect)
    ensures effect == DeleteEffect(h, varName)
  {
    var configFile := GetShellConfigFile(h);
    if configFile.None? {
      return NoConfigFile;
    }
    var p := configFile.value;
    if !MkdirOk(h, p) {
      return RcFailed(p);
    }
    if !Exists(h, p) {
      return RcMissing(p);
    }
    var read := ReadFile(h, p);
    if !read.Read? {
      return RcFailed(p);
    }
    var newLines, foundAndRemoved := RemoveLines(SplitLines(read.text), varName);
    if foundAndRemoved {
      effect := if h.writable then Written(p, Render(newLines)) else RcFailed(p);
    } else {
      effect := ExportNotFound(p);
    }
  }

  /** After a save the dictionary maps the name to the new value and every other name as
      before, still without duplicates; a new variable leaves it sorted by name, and an
      existing one keeps every entry in its place. */
  lemma SavedEnvFacts(env: Env, name: string, value: string, isNew: bool, k: string)
    requires DistinctNames(env)
    ensures DistinctNames(SavedEnv(env, name, value, isNew))
    ensures Lookup(SavedEnv(env, name, value, isNew), k) == if k == name then Some(value) else Lookup(env, k)
    ensures isNew ==> StrictlySorted(SavedEnv(env, name, value, isNew))
    ensures !isNew ==> Names(SavedEnv(env, name, value, isNew)) ==
                       (if Has(env, name) then Names(env) else Names(env) + [name])
  {
    var e := Assign(env, name, value);
    AssignDistinct(env, name, value);
    AssignLookup(env, name, value, k);
    AssignNames(env, name, value);
    if isNew {
      SortKeepsLookup(e, k);
    }
  }

  /** After a delete the name is gone and every other name keeps its value. */
  lemma DeletedEnvFacts(env: Env, name: string, k: string)
    requires DistinctNames(env)
    ensures DistinctNames(Delete(env, name))
    ensures Lookup(Delete(env, name), k) == if k == name then None else Lookup(env, k)
    ensures |Delete(env, name)| == if Has(env, name) then |env| - 1 else |env|
  {
    DeleteLookup(env, name, k);
    DeleteDistinct(env, name);
    if Has(env, name) {
      DeleteAt(env, name);
    } else {
      DeleteAbsent(env, name);
    }
  }

  /** The command line the tool writes holds no newline when the name and value hold none. */
  lemma ExportCommandNoNewline(name: string, value: string)
    requires NoNewline(name) && NoNewline(value)
    ensures NoNewline(ExportCommand(name, value))
  {
    var q := Quote(value);
    forall i | 0 <= i < |q| ensures q[i] != '\n' {
      QuoteChars(value, q[i]);
    }
    var kw, eq := "export ", "=";
    assert NoNewline(kw) && NoNewline(eq);
    NoNewlineAppend(kw, name);
    NoNewlineAppend(kw + name, eq);
    NoNewlineAppend(kw + name + eq, q);
  }

  /** Every line is a single line: none holds a newline. */
  predicate SingleLines(lines: seq<string>) {
    forall k :: 0 <= k < |lines| ==> NoNewline(lines[k])
  }

  lemma SingleLinesAppend(x: seq<string>, y: seq<string>)
    requires SingleLines(x) && SingleLines(y)
    ensures SingleLines(x + y)
  {
    assert forall k :: |x| <= k < |x + y| ==> (x + y)[k] == y[k - |x|];
  }

  lemma MarkerSingleLine()
    ensures NoNewline(Marker)
  {
  }

  /** The lines a save writes are single lines when the ones it read were. */
  lemma UpsertNoNewline(lines: seq<string>, name: string, value: string)
    requires SingleLines(lines)
    requires NoNewline(name) && NoNewline(value)
    ensures SingleLines(UpsertValue(lines, name, value))
  {
    var e := ExportCommand(name, value);
    ExportCommandNoNewline(name, value);
    MarkerSingleLine();
    if AnyMatch(lines, name) {
      GoSingleLines(lines, name, e);
    } else {
      AppendSingleLines(lines, e);
    }
  }

  lemma GoSingleLines(lines: seq<string>, name: string, e: string)
    requires SingleLines(lines) && NoNewline(e) && NoNewline(Marker)
    ensures SingleLines(Go(lines, false, name, e))
  {
    var u := Go(lines, false, name, e);
    forall k | 0 <= k < |u| ensures NoNewline(u[k]) {
      GoLines(lines, false, name, e, u[k]);
    }
  }

  lemma AppendSingleLines(lines: seq<string>, e: string)
    requires SingleLines(lines) && NoNewline(e) && NoNewline(Marker)
    ensures SingleLines(lines + Separator(lines) + [Marker, e])
  {
    var t := Separator(lines) + [Marker, e];
    assert SingleLines(t);
    SingleLinesAppend(lines, t);
    assert lines + Separator(lines) + [Marker, e] == lines + t;
  }

  /** The rewrite only ever emits input lines, the marker and the command. */
  lemma {:induction false} GoLines(x: seq<string>, a: bool, name: string, e: string, l: string)
    requires l in Go(x, a, name, e)
    ensures l in x || l == Marker || l == e
    decreases |x|
  {
    var g := Emit(a, x[0], name, e);
    if l !in g {
      GoLines(x[1..], Next(a, x[0]), name, e, l);
    }
  }

  /** What a save starts from is a list of single lines. */
  lemma CurrentLinesSingle(h: Host, p: string)
    requires CurrentLines(h, p).Some?
    ensures SingleLines(CurrentLines(h, p).value)
  {
    if Exists(h, p) {
      SplitLinesNoNewline(ReadFile(h, p).text);
    }
  }

  /** The file a successful save writes reads back as the lines `UpsertValue` gives, and
      the locator still picks it. */
  lemma SaveReadsBack(h: Host, name: string, value: string)
    requires NoNewline(name) && NoNewline(value)
    requires SaveEffect(h, name, value).Written?
    ensures GetShellConfigFile(h) == Some(SaveEffect(h, name, value).path)
    ensures CurrentLines(h, SaveEffect(h, name, value).path).Some?
    ensures GetShellConfigFile(Apply(h, SaveEffect(h, name, value))) == Some(SaveEffect(h, name, value).path)
    ensures SplitLines(SaveEffect(h, name, value).text) ==
            UpsertValue(CurrentLines(h, SaveEffect(h, name, value).path).value, name, value)
    ensures RcLines(Apply(h, SaveEffect(h, name, value))) ==
            Some(UpsertValue(CurrentLines(h, SaveEffect(h, name, value).path).value, name, value))
  {
    var eff := SaveEffect(h, name, value);
    var p := GetShellConfigFile(h).value;
    var lines := CurrentLines(h, p).value;
    var u := UpsertValue(lines, name, value);
    assert eff == Written(p, Render(u));
    WrittenLinesReadBack(lines, name, value) by {
      CurrentLinesSingle(h, p);
    }
    LocatorStable(h, p, Readable(Render(u)));
  }

  lemma WrittenLinesReadBack(lines: seq<string>, name: string, value: string)
    requires SingleLines(lines) && NoNewline(name) && NoNewline(value)
    ensures SplitLines(Render(UpsertValue(lines, name, value))) == UpsertValue(lines, name, value)
    ensures AnyMatch(UpsertValue(lines, name, value), name)
  {
    var u := UpsertValue(lines, name, value);
    UpsertNoNewline(lines, name, value);
    ExportCommandMatches(name, value);
    UpsertHasCommand(lines, name, ExportCommand(name, value));
    RenderReadsBack(u);
  }

  lemma IdentifierSingleLine(name: string)
    requires IsIdentifier(name)
    ensures NoNewline(name)
  {
    assert forall i :: 0 <= i < |name| ==> IsIdentChar(name[i]);
  }

  /** After a successful save of an identifier, `get_user_defined_vars_from_rc` lists it. */
  lemma SaveThenScan(h: Host, name: string, value: string)
    requires IsIdentifier(name) && NoNewline(value)
    requires SaveEffect(h, name, value).Written?
    ensures RcLines(Apply(h, SaveEffect(h, name, value))).Some?
    ensures name in ExportedNames(RcLines(Apply(h, SaveEffect(h, name, value))).value)
  {
    IdentifierSingleLine(name);
    SaveReadsBack(h, name, value);
    UpsertThenScan(CurrentLines(h, SaveEffect(h, name, value).path).value, name, value);
  }

  /** A delete writes only after dropping an export of the name, and what it writes
      reads back without any export of the name but with every other non-blank line
      that is not a marker, in order. */
  lemma DeleteWrites(h: Host, name: string)
    requires DeleteEffect(h, name).Written?
    ensures GetShellConfigFile(h) == Some(DeleteEffect(h, name).path)
    ensures CurrentLines(h, DeleteEffect(h, name).path).Some?
    ensures AnyMatch(CurrentLines(h, DeleteEffect(h, name).path).value, name)
    ensures !AnyMatch(SplitLines(DeleteEffect(h, name).text), name)
    ensures ContentLines(SplitLines(DeleteEffect(h, name).text), name) ==
            ContentLines(CurrentLines(h, DeleteEffect(h, name).path).value, name)
  {
    var p := GetShellConfigFile(h).value;
    var lines := CurrentLines(h, p).value;
    var r := Remove(lines, name);
    assert DeleteEffect(h, name) == Written(p, Render(r));
    RemoveLeavesNoMatch(lines, name);
    RemoveKeepsContent(lines, name);
    if r == [] {
      RenderEmpty();
      EmptyLineFacts(name);
      AnyMatchCons([""], name);
      assert [""][1..] == [];
      assert ContentLines([""], name) == [];
    } else {
      CurrentLinesSingle(h, p);
      RemoveSingle(lines, name);
      RenderReadsBack(r);
    }
  }

  lemma RemoveSingle(lines: seq<string>, name: string)
    requires SingleLines(lines)
    ensures SingleLines(Remove(lines, name))
  {
    var r := Remove(lines, name);
    RemoveSubset(lines, name);
    forall k | 0 <= k < |r| ensures NoNewline(r[k]) {
      assert r[k] in multiset(r);
      assert r[k] in multiset(lines);
      var j :| 0 <= j < |lines| && lines[j] == r[k];
    }
  }

  /** Saving a name into a config file that did not export it, then deleting it, writes
      back the lines the file had (a missing file comes back as one blank line). */
  lemma SaveThenDelete(h: Host, name: string, value: string, p: string, lines: seq<string>)
    requires GetShellConfigFile(h) == Some(p)
    requires MkdirOk(h, p) && h.writable
    requires CurrentLines(h, p) == Some(lines)
    requires !AnyMatch(lines, name) && (lines == [] || lines[|lines| - 1] != [])
    requires NoNewline(name) && NoNewline(value)
    requires p != [] && p[|p| - 1] != '/'
    ensures SaveEffect(h, name, value).Written?
    ensures DeleteEffect(Apply(h, SaveEffect(h, name, value)), name) == Written(p, Render(lines))
  {
    var u := UpsertValue(lines, name, value);
    var h1 := Apply(h, SaveEffect(h, name, value));
    SaveReadsBack(h, name, value);
    WrittenLinesReadBack(lines, name, value) by {
      CurrentLinesSingle(h, p);
    }
    ParentDirShorter(p);
    assert MkdirOk(h1, p);
    RemoveUndoesUpsert(lines, name, value);
  }
}
