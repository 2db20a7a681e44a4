/** The parts of the machine the core observes: the `SHELL` variable, the home directory,
    which paths exist and what they hold, and whether writes succeed. Reading, writing and
    `mkdir` are not performed; their outcomes are these inputs. */
module Files {
  import opened Text

  /** A regular file either reads as its text or raises on reading. */
  datatype FileState = Readable(text: string) | Unreadable

  /** `files`: the regular files that exist; `dirs`: the directories that exist;
      `writable`: whether creating the config directory and writing the config file
      succeed (a failure of either raises, which the source catches). */
  datatype Host = Host(shell: string, home: string, files: map<string, FileState>,
                       dirs: set<string>, writable: bool)

  /** `Path(p).exists()` / `os.path.exists(p)`. */
  predicate Exists(h: Host, p: string) {
    p in h.files || p in h.dirs
  }

  /** `Path.home() / rel`, equivalently `os.path.expanduser("~/" + rel)`, for a home
      directory given without a trailing slash. */
  function HomeFile(home: string, rel: string): string {
    home + "/" + rel
  }

  /** What reading a path yields. */
  datatype ReadResult = Missing | ReadFailed | Read(text: string)

  /** `read_text()` (or `open(p).read()`) of a path: a missing path is reported as such,
      a directory or an unreadable file raises. */
  function ReadFile(h: Host, p: string): ReadResult {
    if p in h.files then
      match h.files[p]
      case Readable(text) => Read(text)
      case Unreadable => ReadFailed
    else if p in h.dirs then ReadFailed
    else Missing
  }

  /** `"\n".join(lines)`. */
  function Join(lines: seq<string>): string {
    if lines == [] then []
    else if |lines| == 1 then lines[0]
    else lines[0] + "\n" + Join(lines[1..])
  }

  /** The text `write_text` receives from the newer rewrite: lines joined by newlines,
      plus one trailing newline. */
  function Render(lines: seq<string>): string {
    Join(lines) + "\n"
  }

  /** The text `writelines` produces from the older rewrite, whose lines keep their own
      terminators. */
  function Concat(lines: seq<string>): string {
    if lines == [] then [] else lines[0] + Concat(lines[1..])
  }

  predicate NoNewline(s: string) {
    forall i :: 0 <= i < |s| ==> s[i] != '\n'
  }

  /** Position of the first newline, or `|s|`. */
  function NewlineAt(s: string): (i: nat)
    ensures i <= |s| && (i < |s| ==> s[i] == '\n')
  {
    if s == [] || s[0] == '\n' then 0 else 1 + NewlineAt(s[1..])
  }

  /** No newline comes before the one `NewlineAt` finds. */
  lemma {:induction false} NewlineAtFirstOne(s: string)
    ensures NoNewline(s[..NewlineAt(s)])
  {
    if s != [] && s[0] != '\n' {
      var i := NewlineAt(s);
      NewlineAtFirstOne(s[1..]);
      assert forall j :: 1 <= j < i ==> s[..i][j] == s[1..][..i - 1][j - 1];
    }
  }

  /** `str.splitlines()` restricted to `\n` terminators: a final newline does not start
      another line. */
  function SplitLines(s: string): seq<string>
    decreases |s|
  {
    if s == [] then []
    else
      var i := NewlineAt(s);
      if i == |s| then [s] else [s[..i]] + SplitLines(s[i + 1..])
  }

  /** `readlines()`: the text cut after each newline, every line keeping its terminator;
      the last line has none when the text does not end in a newline. */
  function KeepLines(s: string): seq<string>
    decreases |s|
  {
    if s == [] then []
    else
      var i := NewlineAt(s);
      if i == |s| then [s] else [s[..i + 1]] + KeepLines(s[i + 1..])
  }

  /** `writelines(readlines())` writes the text back unchanged. */
  lemma {:induction false} KeepLinesConcat(s: string)
    ensures Concat(KeepLines(s)) == s
    decreases |s|
  {
    if s != [] {
      var i := NewlineAt(s);
      if i == |s| {
        assert Concat([s]) == s + Concat([s][1..]);
        assert [s][1..] == [];
      } else {
        var rest := KeepLines(s[i + 1..]);
        KeepLinesConcat(s[i + 1..]);
        assert ([s[..i + 1]] + rest)[1..] == rest;
        assert s[..i + 1] + s[i + 1..] == s;
      }
    }
  }

  /** Only the last line of `readlines()` can lack its newline. */
  lemma {:induction false} KeepLinesTerminated(s: string, k: nat)
    requires k + 1 < |KeepLines(s)|
    ensures KeepLines(s)[k] != [] && KeepLines(s)[k][|KeepLines(s)[k]| - 1] == '\n'
    decreases |s|
  {
    var i := NewlineAt(s);
    if k > 0 {
      KeepLinesTerminated(s[i + 1..], k - 1);
    }
  }

  /** The last line of `readlines()` ends in the text's last character. */
  lemma {:induction false} KeepLinesLast(s: string) returns (last: string)
    requires s != []
    ensures KeepLines(s) != [] && last == KeepLines(s)[|KeepLines(s)| - 1]
    ensures last != [] && last[|last| - 1] == s[|s| - 1]
    decreases |s|
  {
    var i := NewlineAt(s);
    if i == |s| || i + 1 == |s| {
      KeepLinesWhole(s, i);
      last := s;
    } else {
      var r := s[i + 1..];
      KeepLinesSplit(s, i);
      last := KeepLinesLast(r);
      LastOfCons(s[..i + 1], KeepLines(r), last);
      SuffixLast(s, i + 1);
    }
  }

  /** A text with no newline before its last character is one line. */
  lemma KeepLinesWhole(s: string, i: nat)
    requires s != [] && i == NewlineAt(s) && (i == |s| || i + 1 == |s|)
    ensures KeepLines(s) == [s]
  {
    if i + 1 == |s| {
      assert s[i + 1..] == [] && s[..i + 1] == s;
    }
  }

  /** A text with a newline before its last character is its first line and the rest. */
  lemma KeepLinesSplit(s: string, i: nat)
    requires s != [] && i == NewlineAt(s) && i + 1 < |s|
    ensures KeepLines(s) == [s[..i + 1]] + KeepLines(s[i + 1..])
  {
  }

  lemma SuffixLast(s: string, j: nat)
    requires j < |s|
    ensures s[j..][|s[j..]| - 1] == s[|s| - 1]
  {
  }

  lemma LastOfCons(h: string, t: seq<string>, last: string)
    requires t != [] && last == t[|t| - 1]
    ensures ([h] + t)[|[h] + t| - 1] == last
  {
  }

  lemma NoNewlineAppend(a: string, b: string)
    requires NoNewline(a) && NoNewline(b)
    ensures NoNewline(a + b)
  {
    assert forall i :: |a| <= i < |a + b| ==> (a + b)[i] == b[i - |a|];
  }

  lemma {:induction false} ConcatAppend(x: seq<string>, y: seq<string>)
    ensures Concat(x + y) == Concat(x) + Concat(y)
  {
    if x != [] {
      assert (x + y)[1..] == x[1..] + y;
      ConcatAppend(x[1..], y);
    } else {
      assert x + y == y;
    }
  }

  lemma ConcatPair(a: string, b: string)
    ensures Concat([a, b]) == a + b
  {
    assert [a, b][1..] == [b] && [b][1..] == [];
    assert Concat([b]) == b + Concat([]);
  }

  lemma NewlineAtFirst(l: string, rest: string)
    requires NoNewline(l)
    ensures NewlineAt(l + "\n" + rest) == |l|
  {
    if l != [] {
      assert (l + "\n" + rest)[1..] == l[1..] + "\n" + rest;
      NewlineAtFirst(l[1..], rest);
    }
  }

  /** Reading the written file back gives the same lines, provided there is at least one
      line and no line holds a newline. (An empty list is written as "\n", which reads
      back as one empty line.) */
  lemma {:induction false} RenderReadsBack(lines: seq<string>)
    requires lines != [] && forall i :: 0 <= i < |lines| ==> NoNewline(lines[i])
    ensures SplitLines(Render(lines)) == lines
  {
    var l := lines[0];
    if |lines| == 1 {
      assert Render(lines) == l + "\n" + [];
      SplitAfter(l, []);
    } else {
      RenderCons(lines);
      SplitAfter(l, Render(lines[1..]));
      RenderReadsBack(lines[1..]);
      assert lines == [l] + lines[1..];
    }
  }

  /** A line and its newline come off the front of a longer rendering. */
  lemma RenderCons(lines: seq<string>)
    requires |lines| > 1
    ensures Render(lines) == lines[0] + "\n" + Render(lines[1..])
  {
  }

  /** `splitlines` cuts a newline-free line and its terminator off the front. */
  lemma SplitAfter(l: string, rest: string)
    requires NoNewline(l)
    ensures SplitLines(l + "\n" + rest) == [l] + SplitLines(rest)
  {
    var s := l + "\n" + rest;
    NewlineAtFirst(l, rest);
    assert s[..|l|] == l && s[|l| + 1..] == rest;
  }

  /** No line `splitlines` produces holds a newline. */
  lemma {:induction false} SplitLinesNoNewline(s: string)
    ensures forall k :: 0 <= k < |SplitLines(s)| ==> NoNewline(SplitLines(s)[k])
    decreases |s|
  {
    if s != [] {
      var i := NewlineAt(s);
      NewlineAtFirstOne(s);
      if i < |s| {
        var r := SplitLines(s[i + 1..]);
        SplitLinesNoNewline(s[i + 1..]);
        assert SplitLines(s) == [s[..i]] + r;
        assert forall k :: 0 < k < |SplitLines(s)| ==> SplitLines(s)[k] == r[k - 1];
      }
    }
  }

  /** An empty list of lines is written as a lone newline, which reads back as one empty line. */
  lemma RenderEmpty()
    ensures SplitLines(Render([])) == [""]
  {
    var s := Render([]);
    assert s == "\n" && NewlineAt(s) == 0;
    assert s[..0] == "" && s[1..] == [];
  }

  /** `os.path.dirname(p)`: everything up to the last slash, with trailing slashes removed
      unless only slashes remain. */
  function ParentDir(p: string): string {
    var head := p[..LastSlashEnd(p)];
    if head != [] && !AllSlashes(head) then TrimSlashes(head) else head
  }

  /** Length of the prefix of `p` that ends at its last slash (0 if there is none). */
  function LastSlashEnd(p: string): (n: nat)
    ensures n <= |p| && (n > 0 ==> p[n - 1] == '/')
    ensures forall i :: n <= i < |p| ==> p[i] != '/'
  {
    if p == [] then 0
    else if p[|p| - 1] == '/' then |p|
    else LastSlashEnd(p[..|p| - 1])
  }

  predicate AllSlashes(s: string) {
    forall i :: 0 <= i < |s| ==> s[i] == '/'
  }

  function TrimSlashes(s: string): string {
    if s != [] && s[|s| - 1] == '/' then TrimSlashes(s[..|s| - 1]) else s
  }

  /** The directory of a file directly under the home directory is the home directory. */
  lemma ParentOfHomeFile(home: string, rel: string)
    requires home != [] && home[0] == '/' && home[|home| - 1] != '/'
    requires rel != [] && forall i :: 0 <= i < |rel| ==> rel[i] != '/'
    ensures ParentDir(HomeFile(home, rel)) == home
  {
    var p := HomeFile(home, rel);
    var n := LastSlashEnd(p);
    assert p[|home|] == '/';
    assert n == |home| + 1;
    assert p[..n] == home + "/";
    assert !AllSlashes(home + "/") by { assert (home + "/")[|home| - 1] == home[|home| - 1]; }
    assert (home + "/")[..|home|] == home;
    assert TrimSlashes(home + "/") == TrimSlashes(home) == home;
  }

  lemma TrimSlashesShorter(s: string)
    ensures |TrimSlashes(s)| <= |s|
  {
  }

  /** A path that does not end in a slash is not its own directory. */
  lemma ParentDirShorter(p: string)
    requires p != [] && p[|p| - 1] != '/'
    ensures |ParentDir(p)| < |p|
  {
    TrimSlashesShorter(p[..LastSlashEnd(p)]);
  }
}
