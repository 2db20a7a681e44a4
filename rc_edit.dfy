/** What the two newer config-file rewrites (`save_variable` and `delete_variable` in
    shell_utils.py) share: the marker comment, the `export NAME=` prefix a line is
    recognised by, and filtering and counting over line lists. */
module RcEdit {
  import opened Text
  import opened Shlex

  /** `comment_line.strip()` / `comment_prefix`: the marker the tool writes above an export. */
  const Marker: string := "# Added/Updated by EnvTuiApp"

  /** `search_prefix`. */
  function SearchPrefix(name: string): string {
    "export " + name + "="
  }

  /** `line.strip().startswith(search_prefix)`. */
  predicate Matches(line: string, name: string) {
    StartsWith(Strip(line), SearchPrefix(name))
  }

  predicate IsMarker(line: string) {
    Strip(line) == Marker
  }

  predicate AnyMatch(lines: seq<string>, name: string) {
    exists i :: 0 <= i < |lines| && Matches(lines[i], name)
  }

  /** Number of lines recognised as exports of `name`. */
  function CountMatches(lines: seq<string>, name: string): nat {
    if lines == [] then 0
    else (if Matches(lines[0], name) then 1 else 0) + CountMatches(lines[1..], name)
  }

  /** The lines neither rewrite touches on purpose: not an export of `name`, not a marker. */
  predicate Unrelated(line: string, name: string) {
    !Matches(line, name) && !IsMarker(line)
  }

  function UnrelatedLines(lines: seq<string>, name: string): seq<string> {
    if lines == [] then []
    else (if Unrelated(lines[0], name) then [lines[0]] else []) + UnrelatedLines(lines[1..], name)
  }

  /** The lines that are not exports of `name`, in order. */
  function NonMatchingLines(lines: seq<string>, name: string): seq<string> {
    if lines == [] then []
    else (if Matches(lines[0], name) then [] else [lines[0]]) + NonMatchingLines(lines[1..], name)
  }

  /** `x` is `y` with some of its lines left out and the others kept verbatim, in order. */
  predicate IsSubsequence(x: seq<string>, y: seq<string>)
    decreases |y|
  {
    if y == [] then x == []
    else IsSubsequence(x, y[1..]) || (x != [] && x[0] == y[0] && IsSubsequence(x[1..], y[1..]))
  }

  lemma {:induction false} SubsequenceEmpty(y: seq<string>)
    ensures IsSubsequence([], y)
    decreases |y|
  {
    if y != [] {
      SubsequenceEmpty(y[1..]);
    }
  }

  lemma {:induction false} SubsequenceRefl(x: seq<string>)
    ensures IsSubsequence(x, x)
    decreases |x|
  {
    if x != [] {
      SubsequenceRefl(x[1..]);
    }
  }

  lemma {:induction false} SubsequenceAppend(x1: seq<string>, y1: seq<string>, x2: seq<string>, y2: seq<string>)
    requires IsSubsequence(x1, y1) && IsSubsequence(x2, y2)
    ensures IsSubsequence(x1 + x2, y1 + y2)
    decreases |y1|
  {
    if y1 == [] {
      assert x1 + x2 == x2 && y1 + y2 == y2;
    } else {
      assert (y1 + y2)[1..] == y1[1..] + y2;
      if IsSubsequence(x1, y1[1..]) {
        SubsequenceAppend(x1, y1[1..], x2, y2);
      } else {
        SubsequenceAppend(x1[1..], y1[1..], x2, y2);
        assert (x1 + x2)[0] == (y1 + y2)[0];
        assert (x1 + x2)[1..] == x1[1..] + x2;
      }
    }
  }

  /** A prefix of a subsequence is a subsequence. */
  lemma {:induction false} SubsequencePrefix(x: seq<string>, y: seq<string>, k: nat)
    requires IsSubsequence(x, y) && k <= |x|
    ensures IsSubsequence(x[..k], y)
    decreases |y|
  {
    if y == [] {
      assert x[..k] == [];
    } else if IsSubsequence(x, y[1..]) {
      SubsequencePrefix(x, y[1..], k);
    } else if k == 0 {
      assert x[..k] == [];
      SubsequenceEmpty(y);
    } else {
      SubsequencePrefix(x[1..], y[1..], k - 1);
      assert x[..k][1..] == x[1..][..k - 1];
    }
  }

  /** Every line that is not an export of `name` occurs in order in the lines. */
  lemma {:induction false} NonMatchingSubsequence(lines: seq<string>, name: string)
    ensures IsSubsequence(NonMatchingLines(lines, name), lines)
    decreases |lines|
  {
    if lines != [] {
      var h := if Matches(lines[0], name) then [] else [lines[0]];
      NonMatchingSubsequence(lines[1..], name);
      if h == [] {
        SubsequenceEmpty([lines[0]]);
      } else {
        SubsequenceRefl([lines[0]]);
      }
      SubsequenceAppend(h, [lines[0]], NonMatchingLines(lines[1..], name), lines[1..]);
      assert [lines[0]] + lines[1..] == lines;
    }
  }

  lemma {:induction false} UnrelatedAppend(x: seq<string>, y: seq<string>, name: string)
    ensures UnrelatedLines(x + y, name) == UnrelatedLines(x, name) + UnrelatedLines(y, name)
  {
    if x != [] {
      assert (x + y)[1..] == x[1..] + y;
      UnrelatedAppend(x[1..], y, name);
    } else {
      assert x + y == y;
    }
  }

  lemma {:induction false} CountAppend(x: seq<string>, y: seq<string>, name: string)
    ensures CountMatches(x + y, name) == CountMatches(x, name) + CountMatches(y, name)
  {
    if x != [] {
      assert (x + y)[1..] == x[1..] + y;
      CountAppend(x[1..], y, name);
    } else {
      assert x + y == y;
    }
  }

  lemma {:induction false} NoMatchCount(lines: seq<string>, name: string)
    ensures !AnyMatch(lines, name) <==> CountMatches(lines, name) == 0
  {
    if lines != [] {
      NoMatchCount(lines[1..], name);
      if AnyMatch(lines[1..], name) {
        var i :| 0 <= i < |lines[1..]| && Matches(lines[1..][i], name);
        assert Matches(lines[i + 1], name);
      }
      if AnyMatch(lines, name) && !Matches(lines[0], name) {
        var i :| 0 <= i < |lines| && Matches(lines[i], name);
        assert Matches(lines[1..][i - 1], name);
      }
    }
  }

  lemma AnyMatchCons(x: seq<string>, name: string)
    requires x != []
    ensures AnyMatch(x, name) <==> Matches(x[0], name) || AnyMatch(x[1..], name)
  {
    assert forall i :: 0 < i < |x| ==> x[i] == x[1..][i - 1];
    assert forall i :: 0 <= i < |x[1..]| ==> x[1..][i] == x[i + 1];
  }

  lemma AnyMatchAppend(x: seq<string>, y: seq<string>, name: string)
    ensures AnyMatch(x + y, name) <==> AnyMatch(x, name) || AnyMatch(y, name)
  {
    assert forall i :: 0 <= i < |x| ==> (x + y)[i] == x[i];
    assert forall i :: 0 <= i < |y| ==> (x + y)[|x| + i] == y[i];
    assert forall i :: |x| <= i < |x + y| ==> (x + y)[i] == y[i - |x|];
  }

  /** A line recognised as an export is neither blank nor the marker. */
  lemma MatchNotMarker(line: string, name: string)
    requires Matches(line, name)
    ensures Strip(line) != [] && !IsMarker(line)
  {
    assert Strip(line)[0] == SearchPrefix(name)[0] == 'e';
  }

  lemma MarkerFacts(name: string)
    ensures IsMarker(Marker) && !Matches(Marker, name)
  {
    StripTight(Marker);
  }

  lemma EmptyLineFacts(name: string)
    ensures !IsMarker("") && !Matches("", name) && Strip("") == []
  {
    assert SearchPrefix(name) != [];
  }

  /** The export command the tool writes for `name` is recognised as an export of `name`,
      and `strip` leaves it as it is. */
  lemma ExportCommandMatches(name: string, value: string)
    ensures Matches(ExportCommand(name, value), name)
    ensures Strip(ExportCommand(name, value)) == ExportCommand(name, value)
  {
    var e := ExportCommand(name, value);
    var q := Quote(value);
    assert e == SearchPrefix(name) + q;
    assert e[|e| - 1] == q[|q| - 1];
    StripTight(e);
  }

  /** The prefix test respects the end of the name: `export FOOBAR=…` is not an export of
      `FOO`, nor `export FOO=…` one of `FOOBAR`. */
  lemma NameBoundary(name: string, other: string, rest: string)
    requires forall i :: 0 <= i < |other| ==> other[i] != '='
    requires forall i :: 0 <= i < |name| ==> name[i] != '='
    requires name != other
    ensures !StartsWith(SearchPrefix(other) + rest, SearchPrefix(name))
  {
    var s := SearchPrefix(other) + rest;
    var p := SearchPrefix(name);
    if |p| <= |s| {
      var k: int;
      if |name| < |other| {
        k := 7 + |name|;
        assert s[k] == other[|name|];
      } else if |name| > |other| {
        k := 7 + |other|;
        assert p[k] == name[|other|];
      } else {
        var i :| 0 <= i < |name| && name[i] != other[i];
        k := 7 + i;
        assert s[k] == other[i] && p[k] == name[i];
      }
      assert s[..|p|][k] != p[k];
    }
  }
}
