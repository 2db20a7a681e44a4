# env-tui in Dafny

env-tui is a terminal application that lists the process environment, filters it by a
search term, and edits a variable in one of three ways. It can copy an `export` command,
launch a terminal with that command, or write the command into the user's shell
configuration file (the "RC file", such as `~/.bashrc`). This project models the logic
behind those actions and proves properties of it:

- **locating the RC file** from `$SHELL` and the files that exist (`RcLocate`);
- **scanning the RC file** for `export NAME=` lines, as the regular expression of
  `get_user_defined_vars_from_rc` does (`RcScan`);
- **save_variable**:
  - the upsert loop that replaces every `export NAME=` line, adding the tool's marker
    comment above it when missing (`RcUpsert`);
  - otherwise appending a separator, the marker and the command;
  - its `(tui_updated, env_map)` result and its effect on the RC file (`ShellUtils`);
- **delete_variable**:
  - the remove loop that drops every `export NAME=` line together with a marker directly
    above it and a blank line above that (`RcRemove`);
  - its result and effect (`ShellUtils`);
- **the export command** `export NAME=<shlex.quote(value)>`, with a proof that a POSIX
  shell reads the quoted word back as the value (`Shlex`);
- **the older code path in the application class** (`EnvTui`):
  - the table filter and value truncation of `update_table`;
  - the old `_get_shell_config_file`;
  - the older rewrite behind "Save (Update RC)", which writes its own marker only when
    appending and never looks for a marker above a match;
  - the `all_env_vars` update of `on_button_pressed`, as a class `EnvTuiApp` whose
    methods update its fields.

**How Python data is modelled:**
- A Python dict is an insertion-ordered sequence of entries with distinct names (`EnvMap`).
- A string is a `seq<char>`.
- The machine is a value `Host`: `$SHELL`, the home directory, the files and directories
  that exist, and whether writes succeed (`Files`).
- Each RC operation returns the effect it has (`Written(path, text)`, a failure, or no
  action). `Apply` performs a write on a `Host`, so that save, scan and delete can be
  chained.

**Specifications and proofs:**
- Each loop of the source is a `method` with a `while` loop and invariants. It is proved
  equal to a recursive specification function: `Go` for the upsert, `RemoveFrom` for the
  remove, `ExportedNames` for the scan, `OldRewritten` for the old rewrite.
- The properties are lemmas about those functions:
  - overwrite and idempotence;
  - unrelated lines kept in order;
  - every matching line replaced and marked;
  - remove leaving no match and undoing a fresh upsert;
  - a saved variable found by the scanner;
  - the written text reading back as the computed lines, and the written file still being
    the one the locator picks.

## Model

| member | source | states |
|---|---|---|
| RcLocate.GetShellConfigFile | shell_utils.py:14-46 | There is no file exactly when the shell is not bash, zsh or fish and `~/.profile` does not exist. Any path found is under the home directory. The whole table is given: for bash, `~/.bashrc` if it exists, else `~/.bash_profile` if that exists, else `~/.bashrc`; for zsh `~/.zshrc` and for fish `~/.config/fish/config.fish`, whether or not they exist; for any other shell `~/.profile` when it exists. |
| RcLocate.LocatorStable | shell_utils.py:14-46 | Writing the located file leaves the locator's answer unchanged, so a later call finds the same file. |
| RcScan.MatchExportComplete | shell_utils.py:63-65 | Every line of the form whitespace, `export`, at least one whitespace character, an identifier, whitespace, `=` is matched, and the identifier is captured. |
| RcScan.MatchExportSound | shell_utils.py:63-65 | Every match has that form: it returns the whitespace runs and the rest around the captured identifier. |
| RcScan.CommentNeverMatches | shell_utils.py:62-63 | A line whose first non-whitespace character is `#` is never matched. |
| RcScan.ExportedNamesExactly | shell_utils.py:64-67 | A name is in the scanned set iff some line's match captures it. |
| RcScan.ScanLines | shell_utils.py:64-67 | The loop over the lines returns exactly `ExportedNames` of the lines. |
| RcScan.GetUserDefinedVarsFromRc | shell_utils.py:48-73 | With no locatable, existing, readable file the set is empty. Otherwise a name is in it iff some line of the file's `splitlines` captures it. |
| Shlex.Quote | shell_utils.py:104 | The quoted word is non-empty and neither starts nor ends with whitespace. |
| Shlex.QuoteChars | shell_utils.py:104 | Quoting adds no character except the two quote characters. |
| Shlex.QuoteReadsBack | shell_utils.py:104 | A POSIX shell word reader applied to `Quote(s)` yields exactly `s`. |
| Shlex.ExportCommandReadsBack | shell_utils.py:104-105 | The command starts with `export NAME=`, and the rest reads back as the value. |
| RcEdit.ExportCommandMatches | shell_utils.py:104-105 | The generated command is recognised by the `strip().startswith("export NAME=")` test, and `strip` leaves it unchanged. |
| RcEdit.NameBoundary | shell_utils.py:204 | Because the prefix ends in `=`, an export of `FOOBAR` is not taken for one of `FOO`, and vice versa. |
| RcEdit.NoMatchCount | shell_utils.py:216 | No line matches iff the number of matching lines is zero. |
| RcEdit.MatchNotMarker | shell_utils.py:216-220 | A matching line is neither blank nor the marker. |
| RcUpsert.PrevCommentFound | shell_utils.py:217-224 | The backward scan over blank lines reports exactly whether the nearest non-blank line above is the marker. |
| RcUpsert.RewriteLine | shell_utils.py:214-231 | One loop step emits the line unchanged when it does not match. A matching line becomes the command, with the marker inserted first if it was not above. |
| RcUpsert.RewriteMatches | shell_utils.py:210-233 | The while loop computes `Go(lines)`. Its flag is true iff some line matches. With no match the lines are unchanged. |
| RcUpsert.UpsertLines | shell_utils.py:202-239 | The loop followed by the append computes `Upsert(lines)`, and the flag says whether a match was found. |
| RcUpsert.GoAppend | shell_utils.py:213-233 | The rewrite of `x + y` is the rewrite of `x` followed by the rewrite of `y`, started with the marker state left by `x`. |
| RcUpsert.GoNoMatch | shell_utils.py:213-233 | A block with no matching line passes through the loop unchanged. |
| RcUpsert.UpsertEmpty | shell_utils.py:235-239 | An empty file becomes exactly the marker and the command, with no separator. |
| RcUpsert.UpsertHasCommand | shell_utils.py:227 | After an upsert the command is in the file, and some line matches. |
| RcUpsert.UpsertOverwrite | shell_utils.py:195-241 | Saving `v1` and then `v2` gives the same lines as saving `v2` alone. |
| RcUpsert.UpsertIdempotent | shell_utils.py:195-241 | Saving the same value twice gives the same lines as saving it once. |
| RcUpsert.UpsertKeepsUnrelated | shell_utils.py:213-239 | The lines that are neither exports of the name nor markers are kept in order. Only the separator line is added, and only when nothing matched. |
| RcUpsert.GoKeepsNonMatching | shell_utils.py:213-233 | Every line the loop meets that is not an export of the name, markers included, appears in its output verbatim and in order. |
| RcUpsert.UpsertKeepsNonMatching | shell_utils.py:204-239 | The upsert deletes no line but the exports it replaces: the input's other lines, markers of other variables included, form an ordered subsequence of the output. |
| RcUpsert.GoReplacesEach | shell_utils.py:216-227 | The loop keeps the number of matching lines, and every matching line of its output is the new command: all duplicates are replaced. |
| RcUpsert.UpsertMarked | shell_utils.py:217-226 | In the result, every matching line has the marker as the nearest non-blank line above it. |
| RcUpsert.UpsertLonger | shell_utils.py:213-239 | The upsert never shortens the file, and it always lengthens a file with no matching line. |
| RcUpsert.ExportCommandScans | shell_utils.py:63 | The generated command for an identifier is matched by the scanner's regular expression, capturing the name. |
| RcUpsert.UpsertThenScan | shell_utils.py:48-73 | After an upsert of an identifier, the scan finds the name. |
| RcRemove.RemoveLines | shell_utils.py:403-417 | The loop with its pops computes `Remove(lines)`. Its flag is true iff some line matched. |
| RcRemove.RemoveOrdered | shell_utils.py:403-417 | What the delete writes is the file with some lines left out and every other line verbatim, in its original order. |
| RcRemove.RemoveLength | shell_utils.py:403-417 | Each export of the name is removed, with at most a marker and one blank line besides: the file loses at least one and at most three lines per export of the name. |
| RcRemove.RemoveLeavesNoMatch | shell_utils.py:403-417 | No line of the result matches. |
| RcRemove.RemoveAbsent | shell_utils.py:403-419 | Without a match the lines are unchanged, which is why nothing is written. |
| RcRemove.RemoveIdempotent | shell_utils.py:403-417 | Removing twice is removing once. |
| RcRemove.RemoveKeepsContent | shell_utils.py:403-417 | The non-blank lines other than markers and exports of the name survive, in order. |
| RcRemove.RemoveSubset | shell_utils.py:403-417 | The result is a sub-multiset of the input: nothing is invented. |
| RcRemove.RemoveUndoesUpsert | shell_utils.py:235-239 | If the file had no export of the name and did not end in an empty line, remove after upsert restores it exactly. |
| RcRemove.RemoveMissesWideSpacing | shell_utils.py:63 | The line `export  FOO=1` is reported by the scanner as defining `FOO`, yet delete leaves it in place. |
| EnvMap.LookupFound | shell_utils.py:273 | A lookup succeeds iff the name is a key. |
| EnvMap.AssignLookup | shell_utils.py:95 | After `d[k] = v`, `k` maps to `v` and every other key is unchanged. |
| EnvMap.AssignNames | shell_utils.py:95 | Assignment keeps the key order, and appends a new key at the end. |
| EnvMap.AssignDistinct | shell_utils.py:95 | Assignment keeps keys distinct. |
| EnvMap.DeleteAt | shell_utils.py:287 | `del d[k]` removes exactly the entry at the key's position. |
| EnvMap.DeleteAbsent | shell_utils.py:273-275 | Deleting an absent key changes nothing. |
| EnvMap.DeleteLookup | shell_utils.py:287 | After the delete, `k` is absent and the other keys are unchanged. |
| EnvMap.DeleteDistinct | shell_utils.py:287 | Deletion keeps keys distinct. |
| EnvMap.SortCorrect | shell_utils.py:99 | `dict(sorted(d.items()))` is a permutation of the entries, strictly ordered by key. |
| EnvMap.SortKeepsLookup | shell_utils.py:99 | Sorting keeps every key's value. |
| EnvMap.LtTotal | shell_utils.py:99 | Python's string order is total on distinct strings, so the sort is determined. |
| ShellUtils.SaveVariable | shell_utils.py:75-263 | `tui_updated` holds iff the button is an RC save. The map is then updated, and re-sorted for a new variable. Otherwise map and RC file are untouched. The RC file receives the save effect. |
| ShellUtils.SaveRc | shell_utils.py:195-260 | The RC branch has exactly the effect of `SaveEffect`: no config file, a failure, or the rendered upsert written to the located path. |
| ShellUtils.SavedEnvFacts | shell_utils.py:91-99 | The saved map has distinct keys and maps the name to the new value, leaving other keys alone. A new variable's map is sorted; an existing one's keeps its key order. |
| ShellUtils.DeleteVariable | shell_utils.py:266-446 | An absent name changes nothing. Otherwise `tui_updated` holds iff the button is an RC delete, the map loses the key, and the RC file receives the delete effect. |
| ShellUtils.DeleteRc | shell_utils.py:382-443 | The RC branch has exactly the effect of `DeleteEffect`. A write happens only when an export was found. |
| ShellUtils.DeletedEnvFacts | shell_utils.py:283-288 | The deleted map has distinct keys, lacks the name, keeps other keys, and is one entry shorter iff the key was there. |
| ShellUtils.ExportCommandNoNewline | shell_utils.py:104-105 | A name and value without newlines give a one-line command. |
| ShellUtils.UpsertNoNewline | shell_utils.py:208-239 | Upserting into one-line lines keeps every line free of newlines. |
| ShellUtils.SaveReadsBack | shell_utils.py:195-241 | A written save goes to the located file, which is then still located. Reading it back with `splitlines` gives exactly the upserted lines. |
| ShellUtils.SaveThenScan | shell_utils.py:195-241 | After a written save of an identifier, scanning the RC file finds the name. |
| ShellUtils.DeleteWrites | shell_utils.py:382-430 | A written delete goes to the located file, which had an export of the name. The written text has none, and keeps the content lines. |
| ShellUtils.SaveThenDelete | shell_utils.py:382-430 | Saving a new variable and then deleting it rewrites the RC file to its original lines. This holds when the last line was not empty. |
| Files.KeepLinesConcat | env_tui.py:308-310 | Concatenating `readlines()` gives back the text. |
| Files.KeepLinesTerminated | env_tui.py:308-310 | Every line but the last from `readlines()` ends in a newline. |
| Files.KeepLinesLast | env_tui.py:334-337 | The last line from `readlines()` ends with the text's last character. |
| Files.RenderReadsBack | shell_utils.py:241 | `"\n".join(lines) + "\n"` split back with `splitlines` gives the lines, when none holds a newline. |
| Files.SplitLinesNoNewline | shell_utils.py:208 | No line from `splitlines` contains a newline. |
| Files.RenderEmpty | shell_utils.py:241 | An empty list is written as one newline, which reads back as one empty line. |
| Files.ConcatAppend | env_tui.py:342-343 | `writelines` of two lists is the concatenation of their texts. |
| Files.ParentOfHomeFile | shell_utils.py:201 | The parent directory of a file directly in the home directory is the home directory. |
| Text.TrimStartSpec | shell_utils.py:215 | `lstrip` removes exactly a whitespace prefix, up to the first non-space character. |
| Text.TrimEndSpec | shell_utils.py:215 | `rstrip` removes exactly a whitespace suffix. |
| Text.StripBlank | shell_utils.py:411 | `strip()` is empty iff the line is all whitespace. |
| Text.ContainsSpec | env_tui.py:84 | Substring search succeeds iff the pattern occurs at some position. |
| Text.Lower | env_tui.py:76 | Lowercasing keeps the length and maps each character, ASCII letters only. |
| Text.LowerIdempotent | env_tui.py:76 | Lowercasing twice is lowercasing once. |
| EnvTui.Truncate | env_tui.py:80 | A value of at most 73 characters is shown as is. A longer one is shown as its first 70 characters and `...`. |
| EnvTui.FilteredMembers | env_tui.py:83-86 | A row is shown iff some variable has the search term in its lowercased name or lowercased value and gives that row. |
| EnvTui.FilteredAppend | env_tui.py:83-86 | Filtering distributes over concatenation, so rows keep the map's order. |
| EnvTui.FilteredEmpty | env_tui.py:78-81 | An empty search shows every variable. |
| EnvTui.SearchIgnoresCase | env_tui.py:76 | The rows depend on the search term only through its lowercase form. |
| EnvTui.RowsSpec | env_tui.py:71-86 | The table holds every variable when the term is empty. Otherwise a row is shown iff a variable's lowercased name or value contains the lowercased term. |
| EnvTui.OldGetShellConfigFile | env_tui.py:212-229 | The old locator always returns a path under the home directory: `~/.bashrc` for bash, `~/.zshrc` for zsh, `~/.profile` otherwise. |
| EnvTui.LocatorsAgree | env_tui.py:212-229 | The old and new locators agree for bash when `~/.bashrc` exists, and for zsh. They disagree for an unknown shell without `~/.profile`. |
| EnvTui.OldRewriteLines | env_tui.py:316-331 | The old loop replaces every matching line with the command and a newline, and reports whether any matched. |
| EnvTui.OldRewriteIdempotent | env_tui.py:312-339 | Applying the old rewrite twice is applying it once. |
| EnvTui.OldReplaceNoMatch | env_tui.py:316-331 | Without a match the loop changes no line. |
| EnvTui.OldSeparatorText | env_tui.py:334-337 | A separating newline is added iff the text is non-empty and does not already end in one. |
| EnvTui.OldAppendText | env_tui.py:334-343 | With no match, the written text is the old text, then a newline if needed, the old marker and the command. |
| EnvTui.OldSaveAppends | env_tui.py:297-343 | A written old save of a new name appends to the file text exactly as `OldAppendText` says. |
| EnvTui.OldSaveRc | env_tui.py:297-377 | The old RC branch has exactly the effect of `OldSaveEffect`. |
| EnvTui.EnvTuiApp.constructor | env_tui.py:28-36 | The application starts outside edit mode with an empty search. Its map is the environment sorted by name: a strictly ordered permutation. |
| EnvTui.EnvTuiApp.UpdateTable | env_tui.py:71-86 | The rows computed are exactly `Rows(allEnvVars, searchTerm)`. |
| EnvTui.EnvTuiApp.LeaveEditMode | env_tui.py:135-137 | Leaving edit mode clears the variable being edited and changes nothing else. |
| EnvTui.EnvTuiApp.OnButtonPressed | env_tui.py:232-380 | Cancel and save leave edit mode. A save with a variable being edited assigns the input to it, selects it, and for "Save (Update RC)" has the old save effect. Other buttons change nothing, and keys stay distinct. |

## Left out

- RcLocate.GetShellConfigFile: the home directory is taken as given, without a trailing slash. `expanduser` of an unset or `/` home directory is not modelled.
- Launching a terminal (shell_utils.py:111-176 and the matching part of `delete_variable`) is left out. It starts external programs, and the model has no process table.
- Copying to the clipboard (shell_utils.py:178-194, env_tui.py:276-295) is left out. It calls an external clipboard library.
- Notifications and every message text are left out. They are user interface output only.
- ui.py is not part of this model. It builds the widgets.
- config.py is not part of this model. It loads and saves the theme setting in a settings file (config.py:23-73), which is independent of the environment and the RC file.
- The `unset` command text of `delete_variable` (shell_utils.py:293) is left out. It is copied or run in the launched terminal (shell_utils.py:308), both left out, and never written to the RC file.
- The watchers of the reactive fields, other than the edit-mode exit branch (env_tui.py:135-137), are left out. They only move widgets.
- The event handlers other than `on_button_pressed` (env_tui.py:384-414) are left out.
- The table cell and cursor updates in `on_button_pressed` (env_tui.py:259-269) are left out. They touch widgets only.
- Real file I/O becomes the `Host` value. Reading either yields text or raises. `mkdir(parents=True, exist_ok=True)` succeeds when the parent directory exists, and otherwise exactly when `writable` is set and the parent path is not a regular file. Writing the config file succeeds exactly when `writable` is set; in the older save it also needs the parent to be a directory, since the path check there passes for a regular file too. Permissions are not modelled per path. `Apply` records the written file but not a newly created directory.
- All exceptions are one failure outcome (`RcFailed`, `OldWriteFailed`). The exception text is not kept.
- Whitespace is the ASCII set that Python's `str.strip` and the regular expression `\s` share. Other Unicode whitespace is not recognised.
- Lowercasing covers ASCII letters only.
- `splitlines` and `readlines` split on `\n` only. Python's other line boundaries (`\r`, `\r\n`, `\x0b`, and so on) are not modelled.
- The RC scanner accepts any whitespace between `export` and the name, but save and delete only recognise `export NAME=` with one space. So a line such as `export  FOO=1` is reported as user-defined and is never removed. The model keeps this behaviour (see `RcRemove.RemoveMissesWideSpacing`).
- For duplicate `export NAME=` lines, `save_variable` replaces every one of them, and the model does the same.
- The returned map of `save_variable` is updated even when the RC write then fails; the model does the same.
- `delete_variable` removes a blank line above the marker even when that line was already in the file before the marker was added. For this reason `RcRemove.RemoveUndoesUpsert` and `ShellUtils.SaveThenDelete` require that the file did not end in an empty line.
