/** The config-file rewrite of `delete_variable` (shell_utils.py, the `update_rc` branch):
    every export of the name is dropped; where the original line just above it was the
    marker, the marker the output ends with is popped, and then one blank line before it. */
module RcRemove {
  import opened Wrappers
  import opened Text
  import opened Shlex
  import opened RcEdit
  import opened RcScan
  import opened RcUpsert

  /** The two `pop`s: a trailing marker, and then a trailing blank line. */
  function Drop(acc: seq<string>): seq<string> {
    if acc != [] && IsMarker(acc[|acc| - 1]) then
      var a := acc[..|acc| - 1];
      if a != [] && Strip(a[|a| - 1]) == [] then a[..|a| - 1] else a
    else acc
  }

  /** The loop over the remaining lines with the output built so far, `prevMarker` telling
      whether the original line before them was the marker. */
  function RemoveFrom(rest: seq<string>, acc: seq<string>, prevMarker: bool, name: string): seq<string>
    decreases |rest|
  {
    if rest == [] then acc
    else
      var l := rest[0];
      if Matches(l, name) then RemoveFrom(rest[1..], if prevMarker then Drop(acc) else acc, IsMarker(l), name)
      else RemoveFrom(rest[1..], acc + [l], IsMarker(l), name)
  }

  /** The new line list `delete_variable` writes. */
  function Remove(lines: seq<string>, name: string): seq<string> {
    RemoveFrom(lines, [], false, name)
  }

  /** The scan state of the loop before line `i`: whether line `i - 1` is the marker. */
  predicate PrevIsMarker(lines: seq<string>, i: nat)
    requires i <= |lines|
  {
    i > 0 && IsMarker(lines[i - 1])
  }

  /** The `while` loop of `delete_variable`. */
  method RemoveLines(lines: seq<string>, name: string) returns (newLines: seq<string>, foundAndRemoved: bool)
    ensures newLines == Remove(lines, name)
    ensures foundAndRemoved == AnyMatch(lines, name)
  {
    newLines := [];
    foundAndRemoved := false;
    var i := 0;
    while i < |lines|
      invariant 0 <= i <= |lines|
      invariant RemoveFrom(lines[i..], newLines, PrevIsMarker(lines, i), name) == Remove(lines, name)
      invariant foundAndRemoved == AnyMatch(lines[..i], name)
    {
      var line := lines[i];
      RemoveStep(lines, i, newLines, name);
      AnyMatchSnoc(lines, i, name);
      if Matches(line, name) {
        assert PrevIsMarker(lines, i) == (i > 0 && Strip(lines[i - 1]) == Marker);
        if i > 0 && Strip(lines[i - 1]) == Marker {
          ghost var before := newLines;
          if newLines != [] && Strip(newLines[|newLines| - 1]) == Marker {
            newLines := newLines[..|newLines| - 1];
            if newLines != [] && Strip(newLines[|newLines| - 1]) == [] {
              newLines := newLines[..|newLines| - 1];
            }
          }
          assert newLines == Drop(before);
        }
        foundAndRemoved := true;
        i := i + 1;
        continue;
      }
      newLines := newLines + [line];
      i := i + 1;
    }
    assert lines[..|lines|] == lines;
  }

  lemma RemoveStep(lines: seq<string>, i: nat, acc: seq<string>, name: string)
    requires i < |lines|
    ensures RemoveFrom(lines[i..], acc, PrevIsMarker(lines, i), name)
         == RemoveFrom(lines[i + 1..],
                       if Matches(lines[i], name) then (if PrevIsMarker(lines, i) then Drop(acc) else acc) else acc + [lines[i]],
                       PrevIsMarker(lines, i + 1), name)
  {
    assert lines[i..][0] == lines[i];
    assert lines[i..][1..] == lines[i + 1..];
  }

  /** The popped output is a prefix of the output. */
  lemma DropPrefix(acc: seq<string>)
    ensures |Drop(acc)| <= |acc| && Drop(acc) == acc[..|Drop(acc)|]
    ensures |acc| <= |Drop(acc)| + 2
  {
  }

  /** A list without exports of the name keeps none after a `pop`. */
  lemma DropNoMatch(acc: seq<string>, name: string)
    requires !AnyMatch(acc, name)
    ensures !AnyMatch(Drop(acc), name)
  {
    DropPrefix(acc);
    var d := Drop(acc);
    assert forall k :: 0 <= k < |d| ==> d[k] == acc[k];
  }

  /** No export of the name is left. */
  lemma {:induction false} RemoveFromNoMatch(rest: seq<string>, acc: seq<string>, p: bool, name: string)
    requires !AnyMatch(acc, name)
    ensures !AnyMatch(RemoveFrom(rest, acc, p, name), name)
    decreases |rest|
  {
    if rest != [] {
      var l := rest[0];
      if Matches(l, name) {
        DropNoMatch(acc, name);
        RemoveFromNoMatch(rest[1..], if p then Drop(acc) else acc, IsMarker(l), name);
      } else {
        AnyMatchAppend(acc, [l], name);
        AnyMatchCons([l], name);
        assert [l][1..] == [];
        RemoveFromNoMatch(rest[1..], acc + [l], IsMarker(l), name);
      }
    }
  }

  lemma RemoveLeavesNoMatch(lines: seq<string>, name: string)
    ensures !AnyMatch(Remove(lines, name), name)
  {
    RemoveFromNoMatch(lines, [], false, name);
  }

  /** Lines without an export of the name are copied as they are. */
  lemma {:induction false} RemoveFromAbsent(rest: seq<string>, acc: seq<string>, p: bool, name: string)
    requires !AnyMatch(rest, name)
    ensures RemoveFrom(rest, acc, p, name) == acc + rest
    decreases |rest|
  {
    if rest != [] {
      AnyMatchCons(rest, name);
      RemoveFromAbsent(rest[1..], acc + [rest[0]], IsMarker(rest[0]), name);
      assert acc + [rest[0]] + rest[1..] == acc + rest;
    } else {
      assert acc + rest == acc;
    }
  }

  /** Nothing to remove: the line list is unchanged (and the file is not written). */
  lemma RemoveAbsent(lines: seq<string>, name: string)
    requires !AnyMatch(lines, name)
    ensures Remove(lines, name) == lines
  {
    RemoveFromAbsent(lines, [], false, name);
    assert [] + lines == lines;
  }

  /** Removing twice is removing once. */
  lemma RemoveIdempotent(lines: seq<string>, name: string)
    ensures Remove(Remove(lines, name), name) == Remove(lines, name)
  {
    RemoveLeavesNoMatch(lines, name);
    RemoveAbsent(Remove(lines, name), name);
  }

  /** Lines with content that is neither an export of the name nor the marker. */
  predicate Content(line: string, name: string) {
    Unrelated(line, name) && Strip(line) != []
  }

  function ContentLines(lines: seq<string>, name: string): seq<string> {
    if lines == [] then []
    else (if Content(lines[0], name) then [lines[0]] else []) + ContentLines(lines[1..], name)
  }

  lemma {:induction false} ContentAppend(x: seq<string>, y: seq<string>, name: string)
    ensures ContentLines(x + y, name) == ContentLines(x, name) + ContentLines(y, name)
  {
    if x != [] {
      assert (x + y)[1..] == x[1..] + y;
      ContentAppend(x[1..], y, name);
    } else {
      assert x + y == y;
    }
  }

  lemma ContentSingle(l: string, name: string)
    ensures ContentLines([l], name) == if Content(l, name) then [l] else []
  {
    assert [l][1..] == [];
  }

  /** The pops only take away the marker and a blank line. */
  lemma DropKeepsContent(acc: seq<string>, name: string)
    ensures ContentLines(Drop(acc), name) == ContentLines(acc, name)
  {
    if acc != [] && IsMarker(acc[|acc| - 1]) {
      var a := acc[..|acc| - 1];
      assert acc == a + [acc[|acc| - 1]];
      ContentAppend(a, [acc[|acc| - 1]], name);
      ContentSingle(acc[|acc| - 1], name);
      if a != [] && Strip(a[|a| - 1]) == [] {
        var b := a[..|a| - 1];
        assert a == b + [a[|a| - 1]];
        ContentAppend(b, [a[|a| - 1]], name);
        ContentSingle(a[|a| - 1], name);
      }
    }
  }

  /** One step of the loop over content: the first line goes to the output exactly when
      it is content, and the pops take no content away. */
  lemma RemoveFromHead(rest: seq<string>, acc: seq<string>, p: bool, name: string) returns (acc': seq<string>)
    requires rest != []
    ensures RemoveFrom(rest, acc, p, name) == RemoveFrom(rest[1..], acc', IsMarker(rest[0]), name)
    ensures ContentLines(acc', name) == ContentLines(acc, name) + ContentLines([rest[0]], name)
  {
    var l := rest[0];
    ContentSingle(l, name);
    if Matches(l, name) {
      acc' := if p then Drop(acc) else acc;
      DropKeepsContent(acc, name);
    } else {
      acc' := acc + [l];
      ContentAppend(acc, [l], name);
    }
  }

  lemma {:induction false} RemoveFromKeepsContent(rest: seq<string>, acc: seq<string>, p: bool, name: string)
    ensures ContentLines(RemoveFrom(rest, acc, p, name), name) == ContentLines(acc, name) + ContentLines(rest, name)
    decreases |rest|
  {
    if rest != [] {
      var acc' := RemoveFromHead(rest, acc, p, name);
      RemoveFromKeepsContent(rest[1..], acc', IsMarker(rest[0]), name);
      ContentAppend([rest[0]], rest[1..], name);
      assert [rest[0]] + rest[1..] == rest;
    } else {
      assert ContentLines(acc, name) + [] == ContentLines(acc, name);
    }
  }

  /** Every non-blank line that is neither an export of the name nor the marker survives,
      in its original order. */
  lemma RemoveKeepsContent(lines: seq<string>, name: string)
    ensures ContentLines(Remove(lines, name), name) == ContentLines(lines, name)
  {
    RemoveFromKeepsContent(lines, [], false, name);
  }

  /** Nothing appears that was not in the file. */
  lemma {:induction false} RemoveFromSubset(rest: seq<string>, acc: seq<string>, p: bool, name: string)
    ensures multiset(RemoveFrom(rest, acc, p, name)) <= multiset(acc) + multiset(rest)
    decreases |rest|
  {
    if rest != [] {
      var l := rest[0];
      assert rest == [l] + rest[1..];
      if Matches(l, name) {
        var acc' := if p then Drop(acc) else acc;
        DropPrefix(acc);
        assert acc == acc'[..] + acc[|acc'|..] by { assert acc' == acc[..|acc'|]; }
        RemoveFromSubset(rest[1..], acc', IsMarker(l), name);
      } else {
        RemoveFromSubset(rest[1..], acc + [l], IsMarker(l), name);
      }
    }
  }

  lemma RemoveSubset(lines: seq<string>, name: string)
    ensures multiset(Remove(lines, name)) <= multiset(lines)
  {
    RemoveFromSubset(lines, [], false, name);
  }

  lemma {:induction false} RemoveFromOrdered(rest: seq<string>, acc: seq<string>, p: bool, name: string,
                                             pre: seq<string>)
    requires IsSubsequence(acc, pre)
    ensures IsSubsequence(RemoveFrom(rest, acc, p, name), pre + rest)
    decreases |rest|
  {
    if rest == [] {
      assert pre + rest == pre;
    } else {
      var l := rest[0];
      assert (pre + [l]) + rest[1..] == pre + rest;
      if Matches(l, name) {
        var acc' := if p then Drop(acc) else acc;
        DropPrefix(acc);
        SubsequencePrefix(acc, pre, |acc'|);
        assert acc'[..] == acc[..|acc'|];
        SubsequenceEmpty([l]);
        SubsequenceAppend(acc', pre, [], [l]);
        assert acc' + [] == acc';
        RemoveFromOrdered(rest[1..], acc', IsMarker(l), name, pre + [l]);
      } else {
        SubsequenceRefl([l]);
        SubsequenceAppend(acc, pre, [l], [l]);
        RemoveFromOrdered(rest[1..], acc + [l], IsMarker(l), name, pre + [l]);
      }
    }
  }

  /** The delete only leaves lines out: what it writes is the file with some lines
      removed and the others verbatim, in their order. */
  lemma RemoveOrdered(lines: seq<string>, name: string)
    ensures IsSubsequence(Remove(lines, name), lines)
  {
    SubsequenceEmpty([]);
    RemoveFromOrdered(lines, [], false, name, []);
    assert [] + lines == lines;
  }

  lemma {:induction false} RemoveFromLength(rest: seq<string>, acc: seq<string>, p: bool, name: string)
    ensures |RemoveFrom(rest, acc, p, name)| + CountMatches(rest, name) <= |acc| + |rest|
    ensures |acc| + |rest| <= |RemoveFrom(rest, acc, p, name)| + 3 * CountMatches(rest, name)
    decreases |rest|
  {
    if rest != [] {
      var l := rest[0];
      if Matches(l, name) {
        DropPrefix(acc);
        RemoveFromLength(rest[1..], if p then Drop(acc) else acc, IsMarker(l), name);
      } else {
        RemoveFromLength(rest[1..], acc + [l], IsMarker(l), name);
      }
    }
  }

  /** Each export of the name is removed, and with it at most a marker and one blank
      line: the file loses between one and three lines per export. */
  lemma RemoveLength(lines: seq<string>, name: string)
    ensures CountMatches(lines, name) <= |lines| - |Remove(lines, name)| <= 3 * CountMatches(lines, name)
  {
    RemoveFromLength(lines, [], false, name);
  }

  /** The loop over a concatenation: the second part starts from where the first left off. */
  lemma {:induction false} RemoveFromAppend(x: seq<string>, y: seq<string>, acc: seq<string>, p: bool, name: string)
    ensures RemoveFrom(x + y, acc, p, name)
         == RemoveFrom(y, RemoveFrom(x, acc, p, name), if x == [] then p else IsMarker(x[|x| - 1]), name)
    decreases |x|
  {
    if x != [] {
      var l := x[0];
      assert (x + y)[0] == l;
      assert (x + y)[1..] == x[1..] + y;
      var acc' := if Matches(l, name) then (if p then Drop(acc) else acc) else acc + [l];
      RemoveFromAppend(x[1..], y, acc', IsMarker(l), name);
      if x[1..] != [] {
        assert x[1..][|x[1..]| - 1] == x[|x| - 1];
      }
    } else {
      assert x + y == y;
    }
  }

  /** A marker line, then an export of the name, after output `acc` and a state `p`:
      the marker is appended and then popped again, together with a blank line before it. */
  lemma RemoveMarked(acc: seq<string>, p: bool, name: string, e: string)
    requires Matches(e, name)
    ensures RemoveFrom([Marker, e], acc, p, name) == Drop(acc + [Marker])
  {
    MarkerFacts(name);
    assert [Marker, e][0] == Marker && [Marker, e][1..] == [e] && [e][1..] == [];
    assert RemoveFrom([Marker, e], acc, p, name) == RemoveFrom([e], acc + [Marker], true, name);
    assert RemoveFrom([e], acc + [Marker], true, name) == RemoveFrom([], Drop(acc + [Marker]), false, name);
  }

  lemma DropMarker(acc: seq<string>)
    ensures Drop(acc + [Marker]) == if acc != [] && Strip(acc[|acc| - 1]) == [] then acc[..|acc| - 1] else acc
  {
    StripTight(Marker);
    var b := acc + [Marker];
    assert b[|b| - 1] == Marker;
    assert b[..|b| - 1] == acc;
  }

  /** The tail `save_variable` appends to a file without the name is taken away again. */
  lemma RemoveAppended(acc: seq<string>, name: string, value: string)
    requires acc == [] || acc[|acc| - 1] != []
    ensures RemoveFrom(Separator(acc) + [Marker, ExportCommand(name, value)], acc, acc != [] && IsMarker(acc[|acc| - 1]), name) == acc
  {
    var e := ExportCommand(name, value);
    ExportCommandMatches(name, value);
    var p := acc != [] && IsMarker(acc[|acc| - 1]);
    if acc == [] {
      assert Separator(acc) + [Marker, e] == [Marker, e];
      RemoveMarked([], p, name, e);
      DropMarker([]);
    } else {
      var t := [""] + [Marker, e];
      assert Separator(acc) + [Marker, e] == t;
      EmptyLineFacts(name);
      assert t[0] == "" && t[1..] == [Marker, e];
      assert RemoveFrom(t, acc, p, name) == RemoveFrom([Marker, e], acc + [""], false, name);
      RemoveMarked(acc + [""], false, name, e);
      DropMarker(acc + [""]);
      assert (acc + [""])[..|acc|] == acc;
    }
  }

  /** Removing a name that was just saved into a file that did not export it gives the
      original file back, provided the file does not end in an empty line (such a line
      is taken as the blank line before the marker and popped as well). */
  lemma RemoveUndoesUpsert(lines: seq<string>, name: string, value: string)
    requires !AnyMatch(lines, name)
    requires lines == [] || lines[|lines| - 1] != []
    ensures Remove(UpsertValue(lines, name, value), name) == lines
  {
    var e := ExportCommand(name, value);
    var tail := Separator(lines) + [Marker, e];
    assert UpsertValue(lines, name, value) == lines + tail;
    RemoveFromAppend(lines, tail, [], false, name);
    RemoveFromAbsent(lines, [], false, name);
    assert [] + lines == lines;
    RemoveAppended(lines, name, value);
  }

  /** The scanner and the remover disagree on spacing: `export  FOO=1` (two spaces) is
      read as an export of `FOO`, but removing `FOO` leaves it in place. */
  lemma RemoveMissesWideSpacing(line: string)
    requires line == "export  FOO=1"
    ensures MatchExport(line) == Some("FOO")
    ensures Remove([line], "FOO") == [line]
  {
    WideSpacingScans(line);
    WideSpacingNoMatch(line);
    SingleNoMatch(line, "FOO");
    RemoveAbsent([line], "FOO");
  }

  lemma SingleNoMatch(line: string, name: string)
    requires !Matches(line, name)
    ensures !AnyMatch([line], name)
  {
    assert [line][0] == line;
  }

  lemma WideSpacingScans(line: string)
    requires line == "export  FOO=1"
    ensures MatchExport(line) == Some("FOO")
  {
    assert line == ExportLine([], "  ", "FOO", [], "1");
    MatchExportComplete([], "  ", "FOO", [], "1");
  }

  lemma WideSpacingNoMatch(line: string)
    requires line == "export  FOO=1"
    ensures !Matches(line, "FOO")
  {
    StripTight(line);
    assert line[7] != SearchPrefix("FOO")[7];
    assert line[..|SearchPrefix("FOO")|][7] == line[7];
  }
}
