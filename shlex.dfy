/** Python's `shlex.quote`, which the tool uses to build `export NAME=value` commands,
    together with a reader for the shell words it produces (single quotes, simple double
    quotes and unquoted safe characters, as a POSIX shell reads them) so that the quoting
    can be checked against its inverse. */
module Shlex {
  import opened Wrappers
  import opened Text

  /** Characters `shlex.quote` leaves unquoted: `[A-Za-z0-9_@%+=:,./-]`. */
  predicate IsSafeChar(c: char) {
    ('a' <= c <= 'z') || ('A' <= c <= 'Z') || ('0' <= c <= '9') || c in "_@%+=:,./-"
  }

  predicate AllSafe(s: string) {
    forall i :: 0 <= i < |s| ==> IsSafeChar(s[i])
  }

  /** `s.replace("'", "'\"'\"'")`: close the quote, emit a double-quoted `'`, reopen. */
  function EscapeQuotes(s: string): string {
    if s == [] then []
    else (if s[0] == '\'' then "'\"'\"'" else [s[0]]) + EscapeQuotes(s[1..])
  }

  /** `shlex.quote(s)`. The result is never empty and never begins or ends with
      whitespace, so `strip` leaves an export line built from it intact. */
  function Quote(s: string): (r: string)
    ensures r != [] && !IsSpace(r[0]) && !IsSpace(r[|r| - 1])
  {
    if s == [] then "''"
    else if AllSafe(s) then s
    else "'" + EscapeQuotes(s) + "'"
  }

  /** `f'export {name}={shlex.quote(value)}'`, the command both modules build. */
  function ExportCommand(name: string, value: string): string {
    "export " + name + "=" + Quote(value)
  }

  /** The quotes are the only characters quoting adds. */
  lemma {:induction false} EscapeQuotesChars(s: string, c: char)
    requires c in EscapeQuotes(s)
    ensures c in s || c == '\'' || c == '"'
  {
    if s != [] {
      var head := if s[0] == '\'' then "'\"'\"'" else [s[0]];
      if c !in head {
        EscapeQuotesChars(s[1..], c);
      }
    }
  }

  lemma QuoteChars(s: string, c: char)
    requires c in Quote(s)
    ensures c in s || c == '\'' || c == '"'
  {
    if s != [] && !AllSafe(s) {
      assert c in EscapeQuotes(s) || c == '\'';
      if c in EscapeQuotes(s) {
        EscapeQuotesChars(s, c);
      }
    }
  }

  function Prepend(c: char, o: Option<string>): Option<string> {
    match o
    case Some(w) => Some([c] + w)
    case None => None
  }

  function PrependAll(s: string, o: Option<string>): Option<string> {
    match o
    case Some(w) => Some(s + w)
    case None => None
  }

  /** The value a POSIX shell assigns when it reads `s` as one word, for the word forms
      `shlex.quote` emits; `None` for anything outside them (an unquoted special
      character, an unterminated quote, a backslash, `$` or a backquote inside double
      quotes). */
  function ReadWord(s: string): Option<string>
    decreases |s|
  {
    if s == [] then Some([])
    else if s[0] == '\'' then ReadSingle(s[1..])
    else if s[0] == '"' then ReadDouble(s[1..])
    else if IsSafeChar(s[0]) then Prepend(s[0], ReadWord(s[1..]))
    else None
  }

  /** Inside single quotes every character stands for itself up to the closing quote. */
  function ReadSingle(s: string): Option<string>
    decreases |s|
  {
    if s == [] then None
    else if s[0] == '\'' then ReadWord(s[1..])
    else Prepend(s[0], ReadSingle(s[1..]))
  }

  /** Inside double quotes, without the characters that would need expansion. */
  function ReadDouble(s: string): Option<string>
    decreases |s|
  {
    if s == [] then None
    else if s[0] == '"' then ReadWord(s[1..])
    else if s[0] in "\\$`" then None
    else Prepend(s[0], ReadDouble(s[1..]))
  }

  lemma {:induction false} ReadSafe(s: string)
    requires AllSafe(s)
    ensures ReadWord(s) == Some(s)
  {
    if s != [] {
      assert IsSafeChar(s[0]);
      ReadSafe(s[1..]);
      assert [s[0]] + s[1..] == s;
    }
  }

  /** One escaped quote: close, read `"'"`, reopen. */
  lemma ReadEscapedQuote(x: string)
    ensures ReadSingle("'\"'\"'" + x) == Prepend('\'', ReadSingle(x))
  {
    var t3 := "\"" + ("'" + x);
    var t2 := "'" + t3;
    var t1 := "\"" + t2;
    assert "'\"'\"'" + x == "'" + t1;
    ReadAfter("'" + t1);
    ReadAfter(t1);
    ReadAfter(t2);
    ReadAfter(t3);
    ReadAfter("'" + x);
  }

  /** The first step of each reader, on a text whose head is given. */
  lemma ReadAfter(t: string)
    requires t != []
    ensures t[0] == '\'' ==> ReadSingle(t) == ReadWord(t[1..]) && ReadWord(t) == ReadSingle(t[1..])
    ensures t[0] == '"' ==> ReadWord(t) == ReadDouble(t[1..]) && ReadDouble(t) == ReadWord(t[1..])
    ensures t[0] == '\'' ==> ReadDouble(t) == Prepend('\'', ReadDouble(t[1..]))
  {
  }

  /** Any character but the closing quote stands for itself. */
  lemma ReadSinglePlain(c: char, x: string)
    requires c != '\''
    ensures ReadSingle([c] + x) == Prepend(c, ReadSingle(x))
  {
    assert ([c] + x)[1..] == x;
  }

  /** Reading the escaped text inside single quotes gives back the original characters,
      whatever follows the closing quote. */
  lemma {:induction false} ReadEscaped(s: string, tail: string)
    ensures ReadSingle(EscapeQuotes(s) + "'" + tail) == PrependAll(s, ReadWord(tail))
  {
    if s == [] {
      assert EscapeQuotes(s) + "'" + tail == "'" + tail;
      assert ("'" + tail)[1..] == tail;
      match ReadWord(tail)
      case Some(w) => assert s + w == w;
      case None =>
    } else {
      var x := EscapeQuotes(s[1..]) + "'" + tail;
      var head := if s[0] == '\'' then "'\"'\"'" else [s[0]];
      assert EscapeQuotes(s) == head + EscapeQuotes(s[1..]);
      assert EscapeQuotes(s) + "'" + tail == head + x;
      ReadEscaped(s[1..], tail);
      if s[0] == '\'' {
        ReadEscapedQuote(x);
      } else {
        ReadSinglePlain(s[0], x);
      }
      match ReadWord(tail)
      case Some(w) => assert [s[0]] + (s[1..] + w) == s + w;
      case None =>
    }
  }

  /** Quoting round-trips: the shell reads `shlex.quote(s)` back as exactly `s`, whatever
      spaces, quotes or `$` it holds. */
  lemma QuoteReadsBack(s: string)
    ensures ReadWord(Quote(s)) == Some(s)
  {
    if s == [] {
      assert Quote(s)[1..] == "'";
      assert "'"[1..] == [];
    } else if AllSafe(s) {
      ReadSafe(s);
    } else {
      var q := Quote(s);
      ReadEscaped(s, []);
      assert q[1..] == EscapeQuotes(s) + "'" + [];
      assert s + [] == s;
    }
  }

  /** The export command is `export NAME=` followed by one shell word whose value is the
      original value. */
  lemma ExportCommandReadsBack(name: string, value: string)
    ensures StartsWith(ExportCommand(name, value), "export " + name + "=")
    ensures ReadWord(ExportCommand(name, value)[|"export " + name + "="|..]) == Some(value)
  {
    var p := "export " + name + "=";
    assert ExportCommand(name, value)[|p|..] == Quote(value);
    QuoteReadsBack(value);
  }
}
