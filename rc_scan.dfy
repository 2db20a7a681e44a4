/** `get_user_defined_vars_from_rc` (shell_utils.py): the names the config file exports,
    found with the anchored pattern `^\s*export\s+([a-zA-Z_][a-zA-Z0-9_]*)\s*=`. */
module RcScan {
  import opened Wrappers
  import opened Text
  import opened Files
  import opened RcLocate

  predicate IsIdentStart(c: char) {
    ('a' <= c <= 'z') || ('A' <= c <= 'Z') || c == '_'
  }

  predicate IsIdentChar(c: char) {
    IsIdentStart(c) || ('0' <= c <= '9')
  }

  /** `[a-zA-Z_][a-zA-Z0-9_]*` as a whole string. */
  predicate IsIdentifier(s: string) {
    s != [] && IsIdentStart(s[0]) && forall i :: 0 <= i < |s| ==> IsIdentChar(s[i])
  }

  /** Length of the leading run of whitespace (`\s*`, greedy). */
  function SpaceRun(s: string): (n: nat)
    ensures n <= |s|
  {
    if s != [] && IsSpace(s[0]) then 1 + SpaceRun(s[1..]) else 0
  }

  lemma {:induction false} SpaceRunSpec(s: string)
    ensures AllSpace(s[..SpaceRun(s)]) && (SpaceRun(s) < |s| ==> !IsSpace(s[SpaceRun(s)]))
  {
    if s != [] && IsSpace(s[0]) {
      SpaceRunSpec(s[1..]);
      assert s[..SpaceRun(s)] == [s[0]] + s[1..][..SpaceRun(s[1..])];
    }
  }

  /** Length of the leading run of identifier characters (`[a-zA-Z0-9_]*`, greedy). */
  function IdentRun(s: string): (n: nat)
    ensures n <= |s|
  {
    if s != [] && IsIdentChar(s[0]) then 1 + IdentRun(s[1..]) else 0
  }

  lemma {:induction false} IdentRunSpec(s: string)
    ensures forall i :: 0 <= i < IdentRun(s) ==> IsIdentChar(s[i])
  {
    if s != [] && IsIdentChar(s[0]) {
      IdentRunSpec(s[1..]);
      forall i | 0 <= i < IdentRun(s) ensures IsIdentChar(s[i]) {
        if i > 0 { assert s[i] == s[1..][i - 1]; }
      }
    }
  }

  /** `export_pattern.match(line)` and its group 1, one function per part of the pattern.
      The pattern never needs to backtrack: every greedy run is followed by a character
      it cannot contain, so each run is the only one that can succeed. */
  function MatchExport(line: string): Option<string> {
    MatchKeyword(line[SpaceRun(line)..])
  }

  /** `export`, then the rest. */
  function MatchKeyword(r: string): Option<string> {
    if StartsWith(r, "export") then MatchGap(r[6..]) else None
  }

  /** `\s+`, then the rest. */
  function MatchGap(r: string): Option<string> {
    var b := SpaceRun(r);
    if b == 0 then None else MatchName(r[b..])
  }

  /** `([a-zA-Z_][a-zA-Z0-9_]*)`, then the rest. */
  function MatchName(r: string): Option<string> {
    if r == [] || !IsIdentStart(r[0]) then None
    else
      var n := IdentRun(r);
      if MatchEquals(r[n..]) then Some(r[..n]) else None
  }

  /** `\s*=`. */
  predicate MatchEquals(r: string) {
    var c := SpaceRun(r);
    c < |r| && r[c] == '='
  }

  /** The shape the pattern describes, spelt out: leading whitespace, `export`, at least
      one whitespace character, the name, optional whitespace, `=`, anything. */
  function ExportLine(ws1: string, ws2: string, name: string, ws3: string, rest: string): string {
    ws1 + ("export" + (ws2 + (name + (ws3 + ("=" + rest)))))
  }

  predicate ExportParts(ws1: string, ws2: string, name: string, ws3: string) {
    AllSpace(ws1) && AllSpace(ws2) && ws2 != [] && IsIdentifier(name) && AllSpace(ws3)
  }

  lemma {:induction false} SpaceRunAfter(ws: string, t: string)
    requires AllSpace(ws)
    ensures SpaceRun(ws + t) == |ws| + SpaceRun(t)
  {
    if ws != [] {
      assert (ws + t)[1..] == ws[1..] + t;
      SpaceRunAfter(ws[1..], t);
    } else {
      assert ws + t == t;
    }
  }

  lemma {:induction false} IdentRunOf(name: string, t: string)
    requires forall i :: 0 <= i < |name| ==> IsIdentChar(name[i])
    requires t == [] || !IsIdentChar(t[0])
    ensures IdentRun(name + t) == |name|
  {
    if name != [] {
      assert (name + t)[1..] == name[1..] + t;
      IdentRunOf(name[1..], t);
    } else {
      assert name + t == t;
    }
  }

  // Each part of the pattern accepts exactly its part of the described shape.

  lemma EqualsAccepts(ws3: string, rest: string)
    requires AllSpace(ws3)
    ensures MatchEquals(ws3 + "=" + rest)
  {
    var r := ws3 + ("=" + rest);
    assert ws3 + "=" + rest == r;
    SpaceRunAfter(ws3, "=" + rest);
    assert r[|ws3|] == '=';
  }

  lemma NameAccepts(name: string, tail: string)
    requires IsIdentifier(name) && MatchEquals(tail)
    ensures MatchName(name + tail) == Some(name)
  {
    var r := name + tail;
    assert tail == [] || !IsIdentChar(tail[0]) by {
      SpaceRunSpec(tail);
      if tail != [] && SpaceRun(tail) > 0 {
        assert tail[..SpaceRun(tail)][0] == tail[0];
      }
    }
    IdentRunOf(name, tail);
    assert r[0] == name[0];
    assert r[..|name|] == name && r[|name|..] == tail;
  }

  lemma GapAccepts(ws2: string, tail: string)
    requires AllSpace(ws2) && ws2 != [] && tail != [] && IsIdentStart(tail[0])
    ensures MatchGap(ws2 + tail) == MatchName(tail)
  {
    SpaceRunAfter(ws2, tail);
    assert (ws2 + tail)[|ws2|..] == tail;
  }

  lemma KeywordAccepts(tail: string)
    ensures MatchKeyword("export" + tail) == MatchGap(tail)
  {
    assert ("export" + tail)[..6] == "export";
    assert ("export" + tail)[6..] == tail;
  }

  lemma LeadAccepts(ws1: string, t: string)
    requires AllSpace(ws1) && t != [] && !IsSpace(t[0])
    ensures MatchExport(ws1 + t) == MatchKeyword(t)
  {
    SpaceRunAfter(ws1, t);
    assert (ws1 + t)[|ws1|..] == t;
  }

  lemma AfterKeywordAccepts(ws2: string, name: string, ws3: string, rest: string)
    requires AllSpace(ws2) && ws2 != [] && IsIdentifier(name) && AllSpace(ws3)
    ensures MatchGap(ws2 + (name + (ws3 + "=" + rest))) == Some(name)
  {
    var tail3 := ws3 + "=" + rest;
    var tail2 := name + tail3;
    EqualsAccepts(ws3, rest);
    NameAccepts(name, tail3);
    assert tail2[0] == name[0];
    GapAccepts(ws2, tail2);
  }

  lemma LineAccepts(ws1: string, tail1: string, name: string)
    requires AllSpace(ws1) && MatchGap(tail1) == Some(name)
    ensures MatchExport(ws1 + ("export" + tail1)) == Some(name)
  {
    KeywordAccepts(tail1);
    var t := "export" + tail1;
    assert t[0] == 'e';
    LeadAccepts(ws1, t);
  }

  /** Every line of the described shape matches, and the captured group is its name. */
  lemma MatchExportComplete(ws1: string, ws2: string, name: string, ws3: string, rest: string)
    requires ExportParts(ws1, ws2, name, ws3)
    ensures MatchExport(ExportLine(ws1, ws2, name, ws3, rest)) == Some(name)
  {
    var tail1 := ws2 + (name + (ws3 + "=" + rest));
    assert ws3 + "=" + rest == ws3 + ("=" + rest);
    AfterKeywordAccepts(ws2, name, ws3, rest);
    LineAccepts(ws1, tail1, name);
  }

  // And every match comes apart into those parts.

  lemma EqualsSplits(r: string)
    requires MatchEquals(r)
    ensures AllSpace(r[..SpaceRun(r)]) && r == r[..SpaceRun(r)] + "=" + r[SpaceRun(r) + 1..]
  {
    SpaceRunSpec(r);
  }

  lemma NameSplits(r: string)
    requires MatchName(r).Some?
    ensures IsIdentifier(MatchName(r).value)
    ensures r == MatchName(r).value + r[|MatchName(r).value|..] && MatchEquals(r[|MatchName(r).value|..])
  {
    IdentRunSpec(r);
  }

  lemma GapSplits(r: string)
    requires MatchGap(r).Some?
    ensures SpaceRun(r) > 0 && AllSpace(r[..SpaceRun(r)]) && r == r[..SpaceRun(r)] + r[SpaceRun(r)..]
    ensures MatchGap(r) == MatchName(r[SpaceRun(r)..])
  {
    SpaceRunSpec(r);
  }

  lemma KeywordSplits(r: string)
    requires MatchKeyword(r).Some?
    ensures r == "export" + r[6..] && MatchKeyword(r) == MatchGap(r[6..])
  {
  }

  lemma EqualsSound(r: string) returns (ws3: string, rest: string)
    requires MatchEquals(r)
    ensures AllSpace(ws3) && r == ws3 + ("=" + rest)
  {
    EqualsSplits(r);
    ws3, rest := r[..SpaceRun(r)], r[SpaceRun(r) + 1..];
  }

  lemma NameSound(r: string) returns (ws3: string, rest: string)
    requires MatchName(r).Some?
    ensures IsIdentifier(MatchName(r).value) && AllSpace(ws3)
    ensures r == MatchName(r).value + (ws3 + ("=" + rest))
  {
    NameSplits(r);
    ws3, rest := EqualsSound(r[|MatchName(r).value|..]);
  }

  lemma GapSound(r: string) returns (ws2: string, ws3: string, rest: string)
    requires MatchGap(r).Some?
    ensures AllSpace(ws2) && ws2 != [] && IsIdentifier(MatchGap(r).value) && AllSpace(ws3)
    ensures r == ws2 + (MatchGap(r).value + (ws3 + ("=" + rest)))
  {
    GapSplits(r);
    ws2 := r[..SpaceRun(r)];
    ws3, rest := NameSound(r[SpaceRun(r)..]);
  }

  lemma KeywordSound(r: string) returns (ws2: string, ws3: string, rest: string)
    requires MatchKeyword(r).Some?
    ensures ExportParts([], ws2, MatchKeyword(r).value, ws3)
    ensures r == "export" + (ws2 + (MatchKeyword(r).value + (ws3 + ("=" + rest))))
  {
    KeywordSplits(r);
    ws2, ws3, rest := GapSound(r[6..]);
  }

  /** Every match has the described shape, with the captured group as the name. */
  lemma MatchExportSound(line: string) returns (ws1: string, ws2: string, ws3: string, rest: string)
    requires MatchExport(line).Some?
    ensures ExportParts(ws1, ws2, MatchExport(line).value, ws3)
    ensures line == ExportLine(ws1, ws2, MatchExport(line).value, ws3, rest)
  {
    var a := SpaceRun(line);
    SpaceRunSpec(line);
    ws2, ws3, rest := KeywordSound(line[a..]);
    ws1 := line[..a];
    Assemble(line, a, ws2, MatchExport(line).value, ws3, rest);
  }

  lemma Assemble(line: string, a: nat, ws2: string, name: string, ws3: string, rest: string)
    requires a <= |line| && AllSpace(line[..a]) && ExportParts([], ws2, name, ws3)
    requires line[a..] == "export" + (ws2 + (name + (ws3 + ("=" + rest))))
    ensures ExportParts(line[..a], ws2, name, ws3)
    ensures line == ExportLine(line[..a], ws2, name, ws3, rest)
  {
    assert line == line[..a] + line[a..];
  }

  lemma KeywordRejects(t: string)
    requires t != [] && t[0] != 'e'
    ensures MatchKeyword(t).None?
  {
  }

  /** A commented-out export (`#` before `export`) never matches. */
  lemma CommentNeverMatches(ws: string, rest: string)
    requires AllSpace(ws)
    ensures MatchExport(ws + "#" + rest).None?
  {
    var t := "#" + rest;
    assert ws + "#" + rest == ws + t;
    LeadAccepts(ws, t);
    KeywordRejects(t);
  }

  /** What the pattern captures on each line. */
  function Captures(lines: seq<string>): seq<Option<string>> {
    seq(|lines|, i requires 0 <= i < |lines| => MatchExport(lines[i]))
  }

  /** The names among the captures, accumulated in order. */
  function Captured(ms: seq<Option<string>>): set<string> {
    if ms == [] then {}
    else Captured(ms[..|ms| - 1]) + (if ms[|ms| - 1].Some? then {ms[|ms| - 1].value} else {})
  }

  /** The set of captured names of the lines, accumulated in file order. */
  function ExportedNames(lines: seq<string>): set<string> {
    Captured(Captures(lines))
  }

  lemma {:induction false} CapturedExactly(ms: seq<Option<string>>, n: string)
    ensures n in Captured(ms) <==> exists i :: 0 <= i < |ms| && ms[i] == Some(n)
  {
    if ms != [] {
      var init := ms[..|ms| - 1];
      CapturedExactly(init, n);
      assert forall i :: 0 <= i < |init| ==> init[i] == ms[i];
    }
  }

  /** A name is reported exactly when some line captures it. */
  lemma ExportedNamesExactly(lines: seq<string>, n: string)
    ensures n in ExportedNames(lines) <==> exists i :: 0 <= i < |lines| && MatchExport(lines[i]) == Some(n)
  {
    var ms := Captures(lines);
    CapturedExactly(ms, n);
    if n in ExportedNames(lines) {
      var i :| 0 <= i < |ms| && ms[i] == Some(n);
      assert MatchExport(lines[i]) == Some(n);
    } else {
      forall i | 0 <= i < |lines| ensures MatchExport(lines[i]) != Some(n) {
        assert ms[i] == MatchExport(lines[i]);
      }
    }
  }

  /** Scanning one more line adds its capture. */
  lemma ExportedNamesSnoc(lines: seq<string>, i: nat)
    requires i < |lines|
    ensures ExportedNames(lines[..i + 1])
         == ExportedNames(lines[..i]) + (if MatchExport(lines[i]).Some? then {MatchExport(lines[i]).value} else {})
  {
    var ms := Captures(lines[..i + 1]);
    assert ms[..i] == Captures(lines[..i]);
    assert ms[i] == MatchExport(lines[i]);
  }

  /** The lines the scanner reads: those of the located file, if there is one, it exists
      and it can be read. */
  function RcLines(h: Host): Option<seq<string>> {
    match GetShellConfigFile(h)
    case None => None
    case Some(p) =>
      if !Exists(h, p) then None
      else
        match ReadFile(h, p)
        case Read(text) => Some(SplitLines(text))
        case _ => None
  }

  /** No located file, a missing file or one that raises on reading gives the empty set;
      otherwise the exported names of its lines. */
  method GetUserDefinedVarsFromRc(h: Host) returns (userVars: set<string>)
    ensures RcLines(h).None? ==> userVars == {}
    ensures RcLines(h).Some? ==>
      forall n :: n in userVars <==> exists i :: 0 <= i < |RcLines(h).value| && MatchExport(RcLines(h).value[i]) == Some(n)
  {
    userVars := {};
    var configFile := GetShellConfigFile(h);
    if configFile.Some? && Exists(h, configFile.value) {
      var read := ReadFile(h, configFile.value);
      if read.Read? {
        var lines := SplitLines(read.text);
        userVars := ScanLines(lines);
        forall n ensures n in userVars <==> exists i :: 0 <= i < |lines| && MatchExport(lines[i]) == Some(n) {
          ExportedNamesExactly(lines, n);
        }
      }
    }
  }

  /** The loop of `get_user_defined_vars_from_rc`: each line's captured name is added. */
  method ScanLines(lines: seq<string>) returns (userVars: set<string>)
    ensures userVars == ExportedNames(lines)
  {
    userVars := {};
    for i := 0 to |lines|
      invariant userVars == ExportedNames(lines[..i])
    {
      ExportedNamesSnoc(lines, i);
      var m := MatchExport(lines[i]);
      if m.Some? {
        userVars := userVars + {m.value};
      }
    }
    assert lines[..|lines|] == lines;
  }
}
