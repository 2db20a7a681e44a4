/** The config-file rewrite of `save_variable` (shell_utils.py, the `update_rc` branch):
    every export of the name is replaced by the new export command, with the marker
    comment inserted above it unless it is already there; if there was none, the marker
    and the command are appended. */
module RcUpsert {
  import opened Wrappers
  import opened Text
  import opened Shlex
  import opened RcEdit
  import opened RcScan

  /** What the backward scan over the earlier lines reports after one more line: the
      marker turns it on, any other non-blank line turns it off, a blank line leaves it. */
  function Next(above: bool, line: string): bool {
    if IsMarker(line) then true else if Strip(line) != [] then false else above
  }

  /** The scan state after a run of lines, starting from `above`. */
  function Fold(above: bool, lines: seq<string>): bool
    decreases |lines|
  {
    if lines == [] then above else Fold(Next(above, lines[0]), lines[1..])
  }

  /** `prev_comment_found` for line `i`: looking back from line `i - 1` and skipping blank
      lines, the first line met is the marker. */
  predicate MarkerAbove(lines: seq<string>, i: nat)
    requires i <= |lines|
  {
    Fold(false, lines[..i])
  }

  /** What one original line becomes, given whether the marker is above it. */
  function Emit(above: bool, line: string, name: string, e: string): seq<string> {
    if Matches(line, name) then (if above then [e] else [Marker, e]) else [line]
  }

  /** The main loop: each line becomes what `Emit` says, the scan state following the
      original lines. */
  function Go(lines: seq<string>, above: bool, name: string, e: string): seq<string>
    decreases |lines|
  {
    if lines == [] then []
    else Emit(above, lines[0], name, e) + Go(lines[1..], Next(above, lines[0]), name, e)
  }

  /** `""` as a separator when the last line is a non-empty string. */
  function Separator(lines: seq<string>): seq<string> {
    if lines != [] && lines[|lines| - 1] != [] then [""] else []
  }

  /** The new line list `save_variable` writes, for the export command `e`. */
  function Upsert(lines: seq<string>, name: string, e: string): seq<string> {
    if AnyMatch(lines, name) then Go(lines, false, name, e)
    else lines + Separator(lines) + [Marker, e]
  }

  /** The lines of the file after saving `name=value`. */
  function UpsertValue(lines: seq<string>, name: string, value: string): seq<string> {
    Upsert(lines, name, ExportCommand(name, value))
  }

  /** The rewrite of `save_variable`: the loop over the lines, then the append when no
      line matched. */
  method UpsertLines(lines: seq<string>, name: string, exportCmd: string)
    returns (newLines: seq<string>, foundInRc: bool)
    ensures newLines == Upsert(lines, name, exportCmd)
    ensures foundInRc == AnyMatch(lines, name)
  {
    newLines, foundInRc := RewriteMatches(lines, name, exportCmd);
    if !foundInRc {
      if newLines != [] && newLines[|newLines| - 1] != [] {
        newLines := newLines + [""];
      }
      assert newLines == lines + Separator(lines);
      newLines := newLines + [Marker];
      newLines := newLines + [exportCmd];
      assert newLines == lines + Separator(lines) + [Marker, exportCmd];
    }
  }

  /** The `while` loop of `save_variable`: every export of the name is replaced, with the
      marker put above it unless the backward scan finds one. */
  method RewriteMatches(lines: seq<string>, name: string, exportCmd: string)
    returns (newLines: seq<string>, foundInRc: bool)
    ensures newLines == Go(lines, false, name, exportCmd)
    ensures foundInRc == AnyMatch(lines, name)
    ensures !foundInRc ==> newLines == lines
  {
    newLines := [];
    foundInRc := false;
    var i := 0;
    while i < |lines|
      invariant 0 <= i <= |lines|
      invariant newLines + Go(lines[i..], MarkerAbove(lines, i), name, exportCmd) == Go(lines, false, name, exportCmd)
      invariant foundInRc == AnyMatch(lines[..i], name)
      invariant !foundInRc ==> newLines == lines[..i]
    {
      Advance(lines, i, name, exportCmd, newLines);
      var emitted, matched := RewriteLine(lines, i, name, exportCmd);
      newLines := newLines + emitted;
      foundInRc := foundInRc || matched;
      i := i + 1;
    }
    assert lines[|lines|..] == [];
    assert lines[..|lines|] == lines;
  }

  /** The body of the loop for line `i`: an export of the name becomes the new command,
      preceded by the marker unless the backward scan finds one; any other line is kept. */
  method RewriteLine(lines: seq<string>, i: nat, name: string, exportCmd: string)
    returns (emitted: seq<string>, matched: bool)
    requires i < |lines|
    ensures emitted == Emit(MarkerAbove(lines, i), lines[i], name, exportCmd)
    ensures matched == Matches(lines[i], name)
    ensures !matched ==> emitted == [lines[i]]
  {
    var line := lines[i];
    if Matches(line, name) {
      var prevCommentFound := PrevCommentFound(lines, i);
      emitted := [];
      if !prevCommentFound {
        emitted := emitted + [Marker];
      }
      emitted := emitted + [exportCmd];
      EmitMatched([], MarkerAbove(lines, i), line, name, exportCmd);
      return emitted, true;
    }
    emitted := [line];
    matched := false;
  }

  /** What the loop appends for an export of the name, with or without a new marker. */
  lemma EmitMatched(acc: seq<string>, above: bool, line: string, name: string, e: string)
    requires Matches(line, name)
    ensures above ==> acc + [e] == acc + Emit(above, line, name, e)
    ensures !above ==> acc + [Marker] + [e] == acc + Emit(above, line, name, e)
  {
    AppendPair(acc, Marker, e);
  }

  lemma AppendPair(acc: seq<string>, x: string, y: string)
    ensures acc + [x] + [y] == acc + [x, y]
  {
  }

  /** The loop invariant survives one more line: appending what that line emits. */
  lemma Advance(lines: seq<string>, i: nat, name: string, e: string, acc: seq<string>)
    requires i < |lines|
    requires acc + Go(lines[i..], MarkerAbove(lines, i), name, e) == Go(lines, false, name, e)
    ensures (acc + Emit(MarkerAbove(lines, i), lines[i], name, e)) + Go(lines[i + 1..], MarkerAbove(lines, i + 1), name, e)
         == Go(lines, false, name, e)
    ensures AnyMatch(lines[..i + 1], name) == (AnyMatch(lines[..i], name) || Matches(lines[i], name))
    ensures lines[..i + 1] == lines[..i] + [lines[i]]
  {
    var em := Emit(MarkerAbove(lines, i), lines[i], name, e);
    var rest := Go(lines[i + 1..], MarkerAbove(lines, i + 1), name, e);
    GoStep(lines, i, name, e);
    assert (acc + em) + rest == acc + (em + rest);
    AnyMatchSnoc(lines, i, name);
  }

  lemma AnyMatchSnoc(lines: seq<string>, i: nat, name: string)
    requires i < |lines|
    ensures AnyMatch(lines[..i + 1], name) == (AnyMatch(lines[..i], name) || Matches(lines[i], name))
    ensures lines[..i + 1] == lines[..i] + [lines[i]]
  {
    assert lines[..i + 1] == lines[..i] + [lines[i]];
    AnyMatchAppend(lines[..i], [lines[i]], name);
    AnyMatchCons([lines[i]], name);
    assert [lines[i]][1..] == [];
  }

  /** The backward scan: from line `i - 1` towards the top, skip blank lines and report
      whether the first other line is the marker. */
  method PrevCommentFound(lines: seq<string>, i: nat) returns (found: bool)
    requires i <= |lines|
    ensures found == MarkerAbove(lines, i)
  {
    found := false;
    var j := i;
    while j > 0
      invariant 0 <= j <= i
      invariant Fold(false, lines[..j]) == MarkerAbove(lines, i)
    {
      FoldSnoc(false, lines[..j - 1], lines[j - 1]);
      assert lines[..j - 1] + [lines[j - 1]] == lines[..j];
      var prevLine := Strip(lines[j - 1]);
      if prevLine == Marker {
        found := true;
        return;
      } else if prevLine != [] {
        return;
      }
      j := j - 1;
    }
  }

  /** One step of the loop: the line at `i` is emitted with the scan state of the lines
      before it, and the state moves past it. */
  lemma GoStep(lines: seq<string>, i: nat, name: string, e: string)
    requires i < |lines|
    ensures Go(lines[i..], MarkerAbove(lines, i), name, e)
         == Emit(MarkerAbove(lines, i), lines[i], name, e) + Go(lines[i + 1..], MarkerAbove(lines, i + 1), name, e)
  {
    FoldSnoc(false, lines[..i], lines[i]);
    assert lines[..i] + [lines[i]] == lines[..i + 1];
    assert lines[i..][1..] == lines[i + 1..];
  }

  lemma {:induction false} FoldSnoc(a: bool, s: seq<string>, l: string)
    ensures Fold(a, s + [l]) == Next(Fold(a, s), l)
    decreases |s|
  {
    if s != [] {
      assert (s + [l])[1..] == s[1..] + [l];
      FoldSnoc(Next(a, s[0]), s[1..], l);
    } else {
      assert s + [l] == [l];
    }
  }

  lemma {:induction false} FoldAppend(a: bool, x: seq<string>, y: seq<string>)
    ensures Fold(a, x + y) == Fold(Fold(a, x), y)
    decreases |x|
  {
    if x != [] {
      assert (x + y)[1..] == x[1..] + y;
      FoldAppend(Next(a, x[0]), x[1..], y);
    } else {
      assert x + y == y;
    }
  }

  /** The rewrite distributes over concatenation, the state carried across the seam. */
  lemma {:induction false} GoAppend(x: seq<string>, y: seq<string>, a: bool, name: string, e: string)
    ensures Go(x + y, a, name, e) == Go(x, a, name, e) + Go(y, Fold(a, x), name, e)
    decreases |x|
  {
    if x != [] {
      var em := Emit(a, x[0], name, e);
      var b := Next(a, x[0]);
      assert (x + y)[0] == x[0];
      assert (x + y)[1..] == x[1..] + y;
      assert Go(x + y, a, name, e) == em + Go(x[1..] + y, b, name, e);
      assert Go(x, a, name, e) == em + Go(x[1..], b, name, e);
      GoAppend(x[1..], y, b, name, e);
      AppendAssoc(em, Go(x[1..], b, name, e), Go(y, Fold(b, x[1..]), name, e));
    } else {
      assert x + y == y;
    }
  }

  lemma AppendAssoc(p: seq<string>, q: seq<string>, r: seq<string>)
    ensures p + (q + r) == (p + q) + r
  {
  }

  /** Lines without an export of the name pass through unchanged. */
  lemma {:induction false} GoNoMatch(x: seq<string>, a: bool, name: string, e: string)
    requires !AnyMatch(x, name)
    ensures Go(x, a, name, e) == x
    decreases |x|
  {
    if x != [] {
      assert !Matches(x[0], name);
      AnyMatchCons(x, name);
      GoNoMatch(x[1..], Next(a, x[0]), name, e);
    }
  }

  lemma GoSingle(l: string, a: bool, name: string, e: string)
    ensures Go([l], a, name, e) == Emit(a, l, name, e)
    ensures Fold(a, [l]) == Next(a, l)
  {
    assert [l][1..] == [];
  }

  /** A marker followed by an export command is rewritten to the marker and the new
      command, and leaves the scan state off. */
  lemma GoMarked(b: bool, name: string, e1: string, e2: string)
    requires Matches(e1, name)
    ensures Go([Marker, e1], b, name, e2) == [Marker, e2]
    ensures Fold(b, [Marker, e1]) == false
  {
    MarkerFacts(name);
    MatchNotMarker(e1, name);
    GoSingle(Marker, b, name, e2);
    GoSingle(e1, true, name, e2);
    GoAppend([Marker], [e1], b, name, e2);
    FoldAppend(b, [Marker], [e1]);
    assert [Marker] + [e1] == [Marker, e1];
  }

  /** What an emitted group reads as when rewritten again, with another export command:
      the same group with the new command, and the scan state after it is unchanged. */
  lemma EmitAgain(a: bool, l: string, name: string, e1: string, e2: string)
    requires Matches(e1, name) && Matches(e2, name)
    ensures Go(Emit(a, l, name, e1), a, name, e2) == Emit(a, l, name, e2)
    ensures Fold(a, Emit(a, l, name, e1)) == Next(a, l)
  {
    MatchNotMarker(e1, name);
    if Matches(l, name) {
      MatchNotMarker(l, name);
      if a {
        GoSingle(e1, a, name, e2);
      } else {
        GoMarked(a, name, e1, e2);
      }
    } else {
      GoSingle(l, a, name, e2);
    }
  }

  /** Rewriting the output again with a new command only swaps the command. */
  lemma {:induction false} GoOverwrite(x: seq<string>, a: bool, name: string, e1: string, e2: string)
    requires Matches(e1, name) && Matches(e2, name)
    ensures Go(Go(x, a, name, e1), a, name, e2) == Go(x, a, name, e2)
    decreases |x|
  {
    if x != [] {
      var g := Emit(a, x[0], name, e1);
      var rest := Go(x[1..], Next(a, x[0]), name, e1);
      GoAppend(g, rest, a, name, e2);
      EmitAgain(a, x[0], name, e1, e2);
      GoOverwrite(x[1..], Next(a, x[0]), name, e1, e2);
    }
  }

  /** Once an export of the name is present, the new command is in the output. */
  lemma {:induction false} GoContains(x: seq<string>, a: bool, name: string, e: string)
    requires AnyMatch(x, name)
    ensures e in Go(x, a, name, e)
    decreases |x|
  {
    if Matches(x[0], name) {
      assert e in Emit(a, x[0], name, e);
    } else {
      AnyMatchCons(x, name);
      GoContains(x[1..], Next(a, x[0]), name, e);
    }
  }

  lemma UpsertHasCommand(lines: seq<string>, name: string, e: string)
    requires Matches(e, name)
    ensures e in Upsert(lines, name, e) && AnyMatch(Upsert(lines, name, e), name)
  {
    var out := Upsert(lines, name, e);
    if AnyMatch(lines, name) {
      GoContains(lines, false, name, e);
    }
    var k :| 0 <= k < |out| && out[k] == e;
  }

  lemma SeparatorFacts(lines: seq<string>, name: string)
    ensures !AnyMatch(Separator(lines), name)
    ensures UnrelatedLines(Separator(lines), name) == Separator(lines)
  {
    EmptyLineFacts(name);
  }

  /** Saving twice, the second value wins and the first leaves no trace. */
  lemma UpsertOverwrite(lines: seq<string>, name: string, v1: string, v2: string)
    ensures UpsertValue(UpsertValue(lines, name, v1), name, v2) == UpsertValue(lines, name, v2)
  {
    var e1, e2 := ExportCommand(name, v1), ExportCommand(name, v2);
    ExportCommandMatches(name, v1);
    ExportCommandMatches(name, v2);
    MarkerFacts(name);
    EmptyLineFacts(name);
    UpsertHasCommand(lines, name, e1);
    if AnyMatch(lines, name) {
      GoOverwrite(lines, false, name, e1, e2);
    } else {
      var pre := lines + Separator(lines);
      SeparatorFacts(lines, name);
      AnyMatchAppend(lines, Separator(lines), name);
      GoNoMatch(pre, false, name, e2);
      GoAppend(pre, [Marker, e1], false, name, e2);
      GoMarked(Fold(false, pre), name, e1, e2);
      assert Upsert(lines, name, e1) == pre + [Marker, e1];
    }
  }

  /** Saving the same value again changes nothing. */
  lemma UpsertIdempotent(lines: seq<string>, name: string, value: string)
    ensures UpsertValue(UpsertValue(lines, name, value), name, value) == UpsertValue(lines, name, value)
  {
    UpsertOverwrite(lines, name, value, value);
  }

  /** An empty or missing file becomes exactly the marker and the command. */
  lemma UpsertEmpty(name: string, e: string)
    ensures Upsert([], name, e) == [Marker, e]
  {
  }

  /** Every line that is neither an export of the name nor a marker is kept, in order,
      and the only line added besides markers and the command is the separator. */
  lemma {:induction false} GoKeepsUnrelated(x: seq<string>, a: bool, name: string, e: string)
    requires Matches(e, name)
    ensures UnrelatedLines(Go(x, a, name, e), name) == UnrelatedLines(x, name)
    decreases |x|
  {
    if x != [] {
      var g := Emit(a, x[0], name, e);
      UnrelatedAppend(g, Go(x[1..], Next(a, x[0]), name, e), name);
      GoKeepsUnrelated(x[1..], Next(a, x[0]), name, e);
      MarkerFacts(name);
      if Matches(x[0], name) {
        MatchNotMarker(e, name);
        assert UnrelatedLines([e], name) == [] by { assert [e][1..] == []; }
        assert UnrelatedLines(g, name) == [] by {
          if !a { assert g[1..] == [e]; }
        }
      } else {
        assert g[1..] == [];
      }
    }
  }

  lemma UpsertKeepsUnrelated(lines: seq<string>, name: string, e: string)
    requires Matches(e, name)
    ensures UnrelatedLines(Upsert(lines, name, e), name)
         == UnrelatedLines(lines, name) + (if AnyMatch(lines, name) then [] else Separator(lines))
  {
    if AnyMatch(lines, name) {
      GoKeepsUnrelated(lines, false, name, e);
    } else {
      MarkerFacts(name);
      MatchNotMarker(e, name);
      EmptyLineFacts(name);
      UnrelatedAppend(lines, Separator(lines), name);
      UnrelatedAppend(lines + Separator(lines), [Marker, e], name);
      assert UnrelatedLines([Marker, e], name) == [] by {
        assert [Marker, e][1..] == [e];
        assert [e][1..] == [];
      }
      SeparatorFacts(lines, name);
    }
  }

  /** Every line that is not an export of the name, markers included, appears in the
      output of the loop verbatim and in its original order. */
  lemma {:induction false} GoKeepsNonMatching(x: seq<string>, a: bool, name: string, e: string)
    ensures IsSubsequence(NonMatchingLines(x, name), Go(x, a, name, e))
    decreases |x|
  {
    if x != [] {
      var h := if Matches(x[0], name) then [] else [x[0]];
      GoKeepsNonMatching(x[1..], Next(a, x[0]), name, e);
      if h == [] {
        SubsequenceEmpty(Emit(a, x[0], name, e));
      } else {
        SubsequenceRefl([x[0]]);
      }
      SubsequenceAppend(h, Emit(a, x[0], name, e),
                        NonMatchingLines(x[1..], name), Go(x[1..], Next(a, x[0]), name, e));
    }
  }

  /** The upsert deletes no line other than the exports it replaces: the input's other
      lines, markers included, form an ordered subsequence of the output. */
  lemma UpsertKeepsNonMatching(lines: seq<string>, name: string, e: string)
    ensures IsSubsequence(NonMatchingLines(lines, name), Upsert(lines, name, e))
  {
    if AnyMatch(lines, name) {
      GoKeepsNonMatching(lines, false, name, e);
    } else {
      NonMatchingSubsequence(lines, name);
      SubsequenceEmpty(Separator(lines) + [Marker, e]);
      SubsequenceAppend(NonMatchingLines(lines, name), lines, [], Separator(lines) + [Marker, e]);
      assert NonMatchingLines(lines, name) + [] == NonMatchingLines(lines, name);
      assert lines + (Separator(lines) + [Marker, e]) == Upsert(lines, name, e);
    }
  }

  /** Each export of the name becomes one command: the number of exports is kept, and
      every export of the name in the output is the new command. */
  lemma {:induction false} GoReplacesEach(x: seq<string>, a: bool, name: string, e: string)
    requires Matches(e, name)
    ensures CountMatches(Go(x, a, name, e), name) == CountMatches(x, name)
    ensures forall k :: 0 <= k < |Go(x, a, name, e)| && Matches(Go(x, a, name, e)[k], name) ==> Go(x, a, name, e)[k] == e
    decreases |x|
  {
    if x != [] {
      var g := Emit(a, x[0], name, e);
      var rest := Go(x[1..], Next(a, x[0]), name, e);
      GoReplacesEach(x[1..], Next(a, x[0]), name, e);
      CountAppend(g, rest, name);
      EmitReplaces(a, x[0], name, e);
      assert Go(x, a, name, e) == g + rest;
      OnlyAppend(g, rest, name, e);
    }
  }

  /** One line's output holds as many exports of the name as the line, each the command. */
  lemma EmitReplaces(a: bool, l: string, name: string, e: string)
    requires Matches(e, name)
    ensures CountMatches(Emit(a, l, name, e), name) == CountMatches([l], name)
    ensures forall k :: 0 <= k < |Emit(a, l, name, e)| && Matches(Emit(a, l, name, e)[k], name) ==> Emit(a, l, name, e)[k] == e
  {
    MarkerFacts(name);
    assert [l][1..] == [];
    if Matches(l, name) && !a {
      assert [Marker, e][1..] == [e];
      assert [e][1..] == [];
    } else if Matches(l, name) {
      assert [e][1..] == [];
    }
  }

  lemma OnlyAppend(x: seq<string>, y: seq<string>, name: string, e: string)
    requires forall k :: 0 <= k < |x| && Matches(x[k], name) ==> x[k] == e
    requires forall k :: 0 <= k < |y| && Matches(y[k], name) ==> y[k] == e
    ensures forall k :: 0 <= k < |x + y| && Matches((x + y)[k], name) ==> (x + y)[k] == e
  {
    forall k | 0 <= k < |x + y| && Matches((x + y)[k], name) ensures (x + y)[k] == e {
      if k >= |x| { assert (x + y)[k] == y[k - |x|]; }
    }
  }

  /** The scan state, read over the output, is on at every export of the name. */
  predicate Guarded(a: bool, s: seq<string>, name: string)
    decreases |s|
  {
    s == [] || ((Matches(s[0], name) ==> a) && Guarded(Next(a, s[0]), s[1..], name))
  }

  lemma {:induction false} GuardedAppend(a: bool, x: seq<string>, y: seq<string>, name: string)
    requires Guarded(a, x, name) && Guarded(Fold(a, x), y, name)
    ensures Guarded(a, x + y, name)
    decreases |x|
  {
    if x != [] {
      assert (x + y)[0] == x[0];
      assert (x + y)[1..] == x[1..] + y;
      GuardedAppend(Next(a, x[0]), x[1..], y, name);
    } else {
      assert x + y == y;
    }
  }

  lemma {:induction false} GuardedNoMatch(a: bool, x: seq<string>, name: string)
    requires !AnyMatch(x, name)
    ensures Guarded(a, x, name)
    decreases |x|
  {
    if x != [] {
      assert !Matches(x[0], name);
      AnyMatchCons(x, name);
      GuardedNoMatch(Next(a, x[0]), x[1..], name);
    }
  }

  lemma {:induction false} GoGuarded(x: seq<string>, a: bool, name: string, e: string)
    requires Matches(e, name)
    ensures Guarded(a, Go(x, a, name, e), name)
    decreases |x|
  {
    if x != [] {
      var g := Emit(a, x[0], name, e);
      GoGuarded(x[1..], Next(a, x[0]), name, e);
      EmitAgain(a, x[0], name, e, e);
      MarkerFacts(name);
      MatchNotMarker(e, name);
      if Matches(x[0], name) {
        MatchNotMarker(x[0], name);
        if !a {
          assert g[1..] == [e];
        }
      }
      assert Guarded(a, g, name);
      GuardedAppend(a, g, Go(x[1..], Next(a, x[0]), name, e), name);
    }
  }

  lemma {:induction false} GuardedAt(a: bool, s: seq<string>, k: nat, name: string)
    requires Guarded(a, s, name) && k < |s| && Matches(s[k], name)
    ensures Fold(a, s[..k])
    decreases k
  {
    if k > 0 {
      GuardedAt(Next(a, s[0]), s[1..], k - 1, name);
      assert s[..k][1..] == s[1..][..k - 1];
    }
  }

  /** After saving, every export of the name in the file has the marker above it (looking
      back past blank lines), so the next save adds no further marker. */
  lemma UpsertMarked(lines: seq<string>, name: string, e: string)
    requires Matches(e, name)
    ensures forall k :: 0 <= k < |Upsert(lines, name, e)| && Matches(Upsert(lines, name, e)[k], name) ==>
      MarkerAbove(Upsert(lines, name, e), k)
  {
    var out := Upsert(lines, name, e);
    if AnyMatch(lines, name) {
      GoGuarded(lines, false, name, e);
    } else {
      var pre := lines + Separator(lines);
      EmptyLineFacts(name);
      MarkerFacts(name);
      SeparatorFacts(lines, name);
      AnyMatchAppend(lines, Separator(lines), name);
      GuardedNoMatch(false, pre, name);
      assert Guarded(Fold(false, pre), [Marker, e], name) by {
        assert [Marker, e][1..] == [e];
      }
      GuardedAppend(false, pre, [Marker, e], name);
    }
    forall k | 0 <= k < |out| && Matches(out[k], name) ensures MarkerAbove(out, k) {
      GuardedAt(false, out, k, name);
    }
  }

  /** The output is never shorter than the input. */
  lemma {:induction false} GoLonger(x: seq<string>, a: bool, name: string, e: string)
    ensures |Go(x, a, name, e)| >= |x|
    decreases |x|
  {
    if x != [] {
      GoLonger(x[1..], Next(a, x[0]), name, e);
    }
  }

  lemma UpsertLonger(lines: seq<string>, name: string, e: string)
    ensures |Upsert(lines, name, e)| > |lines| || (AnyMatch(lines, name) && |Upsert(lines, name, e)| >= |lines|)
  {
    GoLonger(lines, false, name, e);
  }

  /** The scanner reads the name back from the command the tool writes. */
  lemma ExportCommandScans(name: string, value: string)
    requires IsIdentifier(name)
    ensures MatchExport(ExportCommand(name, value)) == Some(name)
  {
    var q := Quote(value);
    assert ExportCommand(name, value) == ExportLine([], " ", name, [], q) by {
      assert "export" + " " == "export ";
      assert [] + "export" + " " + name + [] + "=" + q == "export " + name + "=" + q;
    }
    MatchExportComplete([], " ", name, [], q);
  }

  /** After saving an identifier, the scanner finds it in the file. */
  lemma UpsertThenScan(lines: seq<string>, name: string, value: string)
    requires IsIdentifier(name)
    ensures name in ExportedNames(UpsertValue(lines, name, value))
  {
    var e := ExportCommand(name, value);
    ExportCommandMatches(name, value);
    UpsertHasCommand(lines, name, e);
    var out := UpsertValue(lines, name, value);
    var k :| 0 <= k < |out| && out[k] == e;
    ExportCommandScans(name, value);
    ExportedNamesExactly(out, name);
  }
}
