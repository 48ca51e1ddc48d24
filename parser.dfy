/**
  The configuration file parser: it turns file text into the assignments it
  holds, one record per `NAME=value` line (optionally `export`ed).
  Lines are split on '\n'.
 */
module Parser {
  import opened Text
  import opened Model

  /** A line the parser never looks at: blank after trimming, or a comment. */
  predicate IsSkipped(trimmed: string)
  {
    trimmed == "" || StartsWith(trimmed, "#")
  }

  /** A name the parser accepts: it starts with an ASCII letter or '_'. */
  predicate IsValidNameStart(name: string)
  {
    |name| > 0 && (IsAsciiLetter(name[0]) || name[0] == '_')
  }

  /** The line with a leading "export " removed. */
  function StripExport(line: string): string
  {
    if StartsWith(line, "export ") then line[7..] else line
  }

  /** The heuristic "conditional" flag. */
  predicate StartsConditional(working: string)
  {
    StartsWith(working, "if ") || StartsWith(working, "case ") ||
    StartsWith(working, "while ") || StartsWith(working, "for ")
  }

  // ---------------------------------------------------------------------
  // Quotes

  /** The four escape sequences replaced inside double quotes, in order. */
  function Unescape(s: string): string
  {
    Replace(Replace(Replace(Replace(s, "\\\"", "\""), "\\$", "$"), "\\n", "\n"), "\\t", "\t")
  }

  predicate WrappedIn(s: string, q: char)
  {
    |s| >= 2 && s[0] == q && s[|s| - 1] == q
  }

  /** Strips a double-quote wrapper (and unescapes), then, as a separate
      check on that result, a single-quote wrapper. */
  function RemoveQuotes(value: string): (r: string)
    ensures !WrappedIn(value, '"') && !WrappedIn(value, '\'') ==> r == value
  {
    var afterDouble :=
      if StartsWith(value, "\"") && EndsWith(value, "\"") && |value| >= 2
      then Unescape(value[1..|value| - 1])
      else value;
    if StartsWith(afterDouble, "'") && EndsWith(afterDouble, "'") && |afterDouble| >= 2
    then afterDouble[1..|afterDouble| - 1]
    else afterDouble
  }

  lemma UnescapeWithoutBackslash(s: string)
    requires '\\' !in s
    ensures Unescape(s) == s
  {
    ReplaceAbsent(s, "\\\"", "\"");
    ReplaceAbsent(s, "\\$", "$");
    ReplaceAbsent(s, "\\n", "\n");
    ReplaceAbsent(s, "\\t", "\t");
  }

  /** The four characters that may follow a '\' in an escape. */
  predicate IsEscapable(x: char)
  {
    x == '"' || x == '$' || x == 'n' || x == 't'
  }

  /** The character the escape of `x` stands for. */
  function Escaped(x: char): (c: char)
    requires IsEscapable(x)
    ensures c != '\\'
  {
    if x == 'n' then '\n' else if x == 't' then '\t' else x
  }

  /** A two-character escape `\x`, or a single character other than '\'. */
  predicate EscapeOrPlain(m: string)
  {
    (|m| == 2 && m[0] == '\\' && m[1] != '\\') || (|m| == 1 && m[0] != '\\')
  }

  /** One replacement pass of `Unescape` over a backslash-free text, then an
      escape or a plain character, then any text: only that middle piece can
      change, and it does exactly when it is the pattern. */
  lemma {:induction false} ReplacePassStep(a: string, m: string, b: string, pat: string, rep: string)
    requires '\\' !in a && EscapeOrPlain(m)
    requires |pat| == 2 && pat[0] == '\\' && pat[1] != '\\'
    ensures Replace(a + m + b, pat, rep) == a + (if m == pat then rep else m) + Replace(b, pat, rep)
  {
    assert a + m + b == a + (m + b);
    ReplaceKeepsPrefix(a, m + b, pat, rep);
    if m == pat {
      ReplaceAtFront(pat, b, rep);
    } else if |m| == 2 {
      var s := m + b;
      assert s[..2] == m;
      assert s[1..] == [m[1]] + b;
      ReplaceKeepsPrefix([m[1]], b, pat, rep);
      assert m == [m[0]] + [m[1]];
    } else {
      ReplaceKeepsPrefix(m, b, pat, rep);
    }
  }

  /** An escape after backslash-free text becomes the character it stands
      for, and unescaping carries on after it. */
  lemma {:induction false} UnescapeEscape(a: string, x: char, b: string)
    requires '\\' !in a && IsEscapable(x)
    ensures Unescape(a + ['\\', x] + b) == Unescape(a) + [Escaped(x)] + Unescape(b)
  {
    UnescapeWithoutBackslash(a);
    var e := ['\\', x];
    var c := [Escaped(x)];
    var m1 := if e == "\\\"" then "\"" else e;
    ReplacePassStep(a, e, b, "\\\"", "\"");
    var b1 := Replace(b, "\\\"", "\"");
    var m2 := if m1 == "\\$" then "$" else m1;
    ReplacePassStep(a, m1, b1, "\\$", "$");
    var b2 := Replace(b1, "\\$", "$");
    var m3 := if m2 == "\\n" then "\n" else m2;
    ReplacePassStep(a, m2, b2, "\\n", "\n");
    var b3 := Replace(b2, "\\n", "\n");
    ReplacePassStep(a, m3, b3, "\\t", "\t");
    var m4 := if m3 == "\\t" then "\t" else m3;
    assert m4 == c;
  }

  /** A character that does not start an occurrence is kept. */
  lemma ReplaceSkips(c: char, b: string, pat: string, rep: string)
    requires |pat| > 0 && !StartsWith([c] + b, pat)
    ensures Replace([c] + b, pat, rep) == [c] + Replace(b, pat, rep)
  {
    assert ([c] + b)[1..] == b;
  }

  /** One pass over a backslash followed by `\n` and any text, for a pattern
      whose second character is neither '\' nor 'n': the text after the pair
      is all that changes. */
  lemma {:induction false} PassKeepsEscapedN(b: string, pat: string, rep: string)
    requires |pat| == 2 && pat[0] == '\\' && pat[1] != '\\' && pat[1] != 'n'
    ensures Replace(['\\', '\\', 'n'] + b, pat, rep) == ['\\', '\\', 'n'] + Replace(b, pat, rep)
  {
    var e := ['\\', 'n'];
    var s := ['\\'] + (e + b);
    assert ['\\', '\\', 'n'] + b == s;
    NotStartsWithAt(s, pat, 1);
    ReplaceSkips('\\', e + b, pat, rep);
    assert e + b == "" + e + b;
    ReplacePassStep("", e, b, pat, rep);
  }

  /** The `\n` pass over a backslash followed by `\n`: only the second
      backslash pairs with the 'n'. */
  lemma {:induction false} PassTurnsEscapedN(b: string)
    ensures Replace(['\\', '\\', 'n'] + b, "\\n", "\n") == ['\\', '\n'] + Replace(b, "\\n", "\n")
  {
    var e := ['\\', 'n'];
    var s := ['\\'] + (e + b);
    assert ['\\', '\\', 'n'] + b == s;
    NotStartsWithAt(s, "\\n", 1);
    ReplaceSkips('\\', e + b, "\\n", "\n");
    ReplaceAtFront(e, b, "\n");
  }

  /** The `\t` pass leaves a backslash followed by a newline alone. */
  lemma {:induction false} PassKeepsBackslashNewline(b: string)
    ensures Replace(['\\', '\n'] + b, "\\t", "\t") == ['\\', '\n'] + Replace(b, "\\t", "\t")
  {
    var s := ['\\'] + (['\n'] + b);
    assert ['\\', '\n'] + b == s;
    NotStartsWithAt(s, "\\t", 1);
    ReplaceSkips('\\', ['\n'] + b, "\\t", "\t");
    ReplaceKeepsPrefix(['\n'], b, "\\t", "\t");
  }

  /** The replacements run one after the other, so an escaped backslash is
      not honoured: `\\n` becomes a backslash followed by a newline. */
  lemma {:induction false} UnescapeBackslashBeforeN(b: string)
    ensures Unescape(['\\', '\\', 'n'] + b) == ['\\', '\n'] + Unescape(b)
  {
    PassKeepsEscapedN(b, "\\\"", "\"");
    var b1 := Replace(b, "\\\"", "\"");
    PassKeepsEscapedN(b1, "\\$", "$");
    var b2 := Replace(b1, "\\$", "$");
    PassTurnsEscapedN(b2);
    PassKeepsBackslashNewline(Replace(b2, "\\n", "\n"));
  }

  /** A double-quoted value loses its quotes and is unescaped; the
      single-quote check then runs on that result. */
  lemma RemoveQuotesUnescapes(inner: string)
    ensures !WrappedIn(Unescape(inner), '\'') ==> RemoveQuotes("\"" + inner + "\"") == Unescape(inner)
    ensures WrappedIn(Unescape(inner), '\'') ==>
              RemoveQuotes("\"" + inner + "\"") == Unescape(inner)[1..|Unescape(inner)| - 1]
  {
    var v := "\"" + inner + "\"";
    assert v[1..|v| - 1] == inner;
    assert v[..1] == "\"" && v[|v| - 1..] == "\"";
    var u := Unescape(inner);
    if WrappedIn(u, '\'') {
      assert u[..1] == "'" && u[|u| - 1..] == "'";
    }
  }

  /** A double-quoted value holding one escape in otherwise backslash-free
      text loses its quotes and has the escape replaced, unless the result
      is itself single-quoted. */
  lemma {:induction false} RemoveQuotesEscape(a: string, x: char, b: string)
    requires '\\' !in a && '\\' !in b && IsEscapable(x)
    requires !WrappedIn(a + [Escaped(x)] + b, '\'')
    ensures RemoveQuotes("\"" + (a + ['\\', x] + b) + "\"") == a + [Escaped(x)] + b
  {
    var inner := a + ['\\', x] + b;
    UnescapeEscape(a, x, b);
    UnescapeWithoutBackslash(a);
    UnescapeWithoutBackslash(b);
    assert Unescape(inner) == a + [Escaped(x)] + b;
    RemoveQuotesUnescapes(inner);
  }

  /** A double-quoted value with no backslash loses exactly its quotes,
      unless what is inside is itself single-quoted. */
  lemma RemoveQuotesDouble(inner: string)
    requires '\\' !in inner && !WrappedIn(inner, '\'')
    ensures RemoveQuotes("\"" + inner + "\"") == inner
  {
    UnescapeWithoutBackslash(inner);
    RemoveQuotesUnescapes(inner);
  }

  /** A single-quoted value loses exactly its quotes, with no unescaping. */
  lemma RemoveQuotesSingle(inner: string)
    ensures RemoveQuotes("'" + inner + "'") == inner
  {
    var v := "'" + inner + "'";
    assert v[1..|v| - 1] == inner;
    assert v[..1] == "'" && v[|v| - 1..] == "'";
  }

  /** Both checks apply in turn: double quotes around single quotes both go. */
  lemma RemoveQuotesNested(inner: string)
    requires '\\' !in inner
    ensures RemoveQuotes("\"" + ("'" + inner + "'") + "\"") == inner
  {
    var mid := "'" + inner + "'";
    assert '\\' !in mid;
    UnescapeWithoutBackslash(mid);
    RemoveQuotesUnescapes(mid);
    assert mid[1..|mid| - 1] == inner;
  }

  // ---------------------------------------------------------------------
  // Inline comments

  const Quotes: set<char> := {'"', '\''}

  /** Splits off the text after the first '#' as a comment when an even
      number of quote characters precede that '#'. */
  function ExtractComment(value: string): (r: (string, Option<string>))
  {
    var h := FirstIndex(value, '#');
    if h == |value| then (value, None)
    else if CountOf(value[..h], Quotes) % 2 == 0 then
      var clean := Trim(value[..h]);
      var comment := Trim(value[h + 1..]);
      (clean, if comment == "" then None else Some(comment))
    else (value, None)
  }

  /** No '#': nothing changes. A split, when there is one, is at the first
      '#', behind an even number of quotes; the value is the trimmed text
      before it and holds no '#'; the comment is the trimmed text after it,
      absent when that is empty. */
  lemma ExtractCommentSpec(value: string)
    ensures var r := ExtractComment(value);
      ('#' !in value ==> r == (value, None)) &&
      (r.1.Some? ==> r.1.value != "" && !HasEdgeBlank(r.1.value)) &&
      (r.0 != value || r.1.Some? ==>
        var h := FirstIndex(value, '#');
        h < |value| && CountOf(value[..h], Quotes) % 2 == 0 &&
        r.0 == Trim(value[..h]) && '#' !in r.0 &&
        (r.1.Some? <==> Trim(value[h + 1..]) != "") &&
        (r.1.Some? ==> r.1.value == Trim(value[h + 1..])))
  {
    var h := FirstIndex(value, '#');
    if h < |value| && CountOf(value[..h], Quotes) % 2 == 0 {
      TrimSpec(value[h + 1..]);
      TrimKeepsChars(value[..h]);
    }
  }

  /** With an odd number of quotes before the first '#', nothing is split,
      whatever follows: a later '#' is never looked at. */
  lemma ExtractCommentOddQuotes(before: string, after: string)
    requires '#' !in before && CountOf(before, Quotes) % 2 == 1
    ensures ExtractComment(before + "#" + after) == (before + "#" + after, None)
  {
    var v := before + "#" + after;
    assert v[|before|] == '#' && v[..|before|] == before;
  }

  /** A comment after an unquoted value is split off and both halves trimmed. */
  lemma ExtractCommentSplits(before: string, after: string)
    requires '#' !in before && CountOf(before, Quotes) % 2 == 0
    ensures ExtractComment(before + "#" + after) ==
      (Trim(before), if Trim(after) == "" then None else Some(Trim(after)))
  {
    var v := before + "#" + after;
    FirstIndexAfter(before, '#', after);
    assert v[..|before|] == before && v[|before| + 1..] == after;
  }

  /** The quote-parity check gives up at the first '#': in `"a#b" # note`
      one quote precedes it, so no comment is found at all. */
  lemma ExtractCommentQuotedHash()
    ensures ExtractComment("\"a#b\" # note") == ("\"a#b\" # note", None)
  {
    var before := "\"a";
    assert CountOf(before, Quotes) == 1 by {
      assert before[..1] == "\"";
      assert CountOf(before[..1][..0], Quotes) == 0;
    }
    assert "\"a#b\" # note" == before + "#" + "b\" # note";
    ExtractCommentOddQuotes(before, "b\" # note");
  }

  // ---------------------------------------------------------------------
  // One line

  /** Parses one trimmed, non-skipped line; `fullLine` is the untrimmed line. */
  function ParseLine(line: string, lineNumber: int, fullLine: string): (r: Option<EnvVariable>)
  {
    var isExport := StartsWith(line, "export ");
    var working := if isExport then line[7..] else line;
    var isConditional := StartsConditional(working);
    var eq := FirstIndex(working, '=');
    if eq == |working| then None
    else
      var namePart := Trim(working[..eq]);
      var valuePart := Trim(working[eq + 1..]);
      if !IsValidNameStart(namePart) then None
      else
        var (cleanValue, comment) := ExtractComment(RemoveQuotes(valuePart));
        Some(EnvVariable(namePart, cleanValue, lineNumber, comment, isExport, isConditional, fullLine))
  }

  /** A record carries the given line number and raw line; its name starts
      with a letter or '_', holds no '=' and is trimmed; `isExport` says the
      line started with "export " and `isConditional` that the rest starts
      with a loop or branch keyword. A line without '=' (after "export ")
      gives nothing. */
  lemma ParseLineSpec(line: string, lineNumber: int, fullLine: string)
    ensures var r := ParseLine(line, lineNumber, fullLine);
      (r.Some? ==>
        var v := r.value;
        v.lineNumber == lineNumber && v.rawLine == fullLine && v.kind == EnvironmentVariable &&
        IsValidNameStart(v.name) && '=' !in v.name && !HasEdgeBlank(v.name) &&
        v.isExport == StartsWith(line, "export ") &&
        v.isConditional == StartsConditional(StripExport(line))) &&
      ('=' !in StripExport(line) ==> r == None)
  {
    var working := StripExport(line);
    var eq := FirstIndex(working, '=');
    if eq < |working| {
      TrimSpec(working[..eq]);
      TrimKeepsChars(working[..eq]);
    }
  }

  /** Only the first '=' splits: the name is what precedes it, trimmed, and
      the value is built from everything after it. */
  lemma ParseLineFirstEquals(line: string, name: string, rest: string, n: int, full: string)
    requires StripExport(line) == name + "=" + rest
    requires '=' !in name && IsValidNameStart(Trim(name))
    ensures ParseLine(line, n, full) == Some(EnvVariable(
      Trim(name), ExtractComment(RemoveQuotes(Trim(rest))).0, n,
      ExtractComment(RemoveQuotes(Trim(rest))).1, StartsWith(line, "export "),
      StartsConditional(StripExport(line)), full))
  {
    var working := StripExport(line);
    FirstIndexAfter(name, '=', rest);
    assert working[..|name|] == name && working[|name| + 1..] == rest;
  }

  /** A name whose first character is not a letter or '_' gives nothing. */
  lemma ParseLineRejectsName(line: string, name: string, rest: string, n: int, full: string)
    requires StripExport(line) == name + "=" + rest
    requires '=' !in name && !IsValidNameStart(Trim(name))
    ensures ParseLine(line, n, full) == None
  {
    var working := StripExport(line);
    FirstIndexAfter(name, '=', rest);
    assert working[..|name|] == name;
  }

  /** A name must start with a letter or '_': `1X=5` gives nothing. */
  lemma ParseLineRejectsDigitStart()
    ensures ParseLine("1X=5", 3, "1X=5") == None
  {
    var w, name := "1X=5", "1X";
    assert w == name + "=" + "5";
    NotStartsWithAt(w, "export ", 0);
    TrimNoEdgeBlank(name);
    ParseLineRejectsName(w, name, "5", 3, w);
  }

  /** `export FOO` has no '=' and gives nothing. */
  lemma ParseLineExportWithoutAssignment()
    ensures ParseLine("export FOO", 1, "export FOO") == None
  {
    var w := "export FOO";
    assert w[..7] == "export ";
    assert StripExport(w) == "FOO";
    ParseLineSpec(w, 1, w);
  }

  /** Only the first character of the name is checked: `alias ll='ls -la'`
      is a variable named `alias ll` whose value is `ls -la`. In general an
      alias line gives a variable named "alias " + its name, holding the
      unquoted command. */
  lemma ParseLineAliasIsVariable(name: string, cmd: string, n: int)
    requires name != "" && '=' !in name && !HasEdgeBlank(name) && '#' !in cmd
    ensures var line := "alias " + name + "='" + cmd + "'";
      ParseLine(line, n, line) == Some(EnvVariable("alias " + name, cmd, n, None, false, false, line))
  {
    var kw, rest := "alias " + name, "'" + cmd + "'";
    var w := kw + "=" + rest;
    assert w == "alias " + name + "='" + cmd + "'";
    assert w[0] == 'a' && w[1] == 'l';
    NotStartsWithAt(w, "export ", 1);
    NotStartsWithAt(w, "if ", 0);
    NotStartsWithAt(w, "case ", 0);
    NotStartsWithAt(w, "while ", 0);
    NotStartsWithAt(w, "for ", 0);
    assert kw[|kw| - 1] == name[|name| - 1];
    TrimNoEdgeBlank(kw);
    TrimNoEdgeBlank(rest);
    assert '=' !in kw by {
      forall i | 0 <= i < |kw| ensures kw[i] != '=' {
        if i >= 6 { assert kw[i] == name[i - 6]; }
      }
    }
    RemoveQuotesSingle(cmd);
    ExtractCommentSpec(cmd);
    ParseLineFirstEquals(w, kw, rest, n, w);
  }

  // ---------------------------------------------------------------------
  // A whole file

  /** The records line `n` (1-based) contributes: none or one. */
  function LineRecords(line: string, n: int): (r: seq<EnvVariable>)
    ensures |r| <= 1
    ensures |r| == 1 ==> !IsSkipped(Trim(line)) && Some(r[0]) == ParseLine(Trim(line), n, line)
    ensures |r| == 1 ==> r[0].lineNumber == n && r[0].rawLine == line
  {
    var trimmed := Trim(line);
    ParseLineSpec(trimmed, n, line);
    if IsSkipped(trimmed) then []
    else match ParseLine(trimmed, n, line)
      case None => []
      case Some(v) => [v]
  }

  /** The records of one line, case by case. */
  lemma LineRecordsCases(line: string, n: int)
    ensures IsSkipped(Trim(line)) ==> LineRecords(line, n) == []
    ensures !IsSkipped(Trim(line)) ==>
      (LineRecords(line, n) ==
        if ParseLine(Trim(line), n, line).Some? then [ParseLine(Trim(line), n, line).value] else [])
  {
  }

  /** The records of a sequence of lines, line `n` (1-based) contributing
      `recordsOf(lines[n - 1], n)`, in line order. */
  function Collect(lines: seq<string>, recordsOf: (string, int) -> seq<EnvVariable>): seq<EnvVariable>
  {
    if |lines| == 0 then []
    else Collect(lines[..|lines| - 1], recordsOf) + recordsOf(lines[|lines| - 1], |lines|)
  }

  /** The records of a whole file's lines. */
  function ParseLines(lines: seq<string>): seq<EnvVariable>
  {
    Collect(lines, LineRecords)
  }

  /** One more line adds its records after the others, numbered by its
      place in the file. */
  lemma CollectSnoc(lines: seq<string>, line: string, recordsOf: (string, int) -> seq<EnvVariable>)
    ensures Collect(lines + [line], recordsOf) == Collect(lines, recordsOf) + recordsOf(line, |lines| + 1)
  {
    assert (lines + [line])[..|lines|] == lines;
  }

  /** An empty line gives no record. */
  lemma EmptyLineNoRecord(n: int)
    ensures LineRecords("", n) == []
  {
    assert Trim("") == "";
  }

  /** A line that is not skipped and parses gives exactly its record. */
  lemma LineRecordsOfParsed(line: string, n: int, v: EnvVariable)
    requires Trim(line) == line && !IsSkipped(line) && ParseLine(line, n, line) == Some(v)
    ensures LineRecords(line, n) == [v]
  {
  }

  /** Lines ending in one more line and an empty last part, as a text
      ending in '\n' splits: that line's records follow the others. */
  lemma {:induction false} ParseLinesThenEmpty(lines: seq<string>, line: string)
    ensures ParseLines(lines + [line, ""]) == ParseLines(lines) + LineRecords(line, |lines| + 1)
  {
    assert lines + [line, ""] == (lines + [line]) + [""];
    CollectSnoc(lines + [line], "", LineRecords);
    EmptyLineNoRecord(|lines| + 2);
    CollectSnoc(lines, line, LineRecords);
  }

  /** The records and error message reading `read` gives. */
  function ParseOutcome(read: FileRead): (seq<EnvVariable>, Option<string>)
  {
    match read
    case NotFound => ([], Some("File not found"))
    case NotReadable => ([], Some("Permission denied"))
    case NotDecodable => ([], Some("Unable to read file"))
    case Content(text) => (ParseLines(SplitOn(text, '\n')), None)
  }

  /** Reads a file and collects its assignments. Only a failed read gives an
      error; any text parses, malformed lines being dropped. */
  method ParseFile(read: FileRead) returns (variables: seq<EnvVariable>, error: Option<string>)
    ensures read.NotFound? ==> variables == [] && error == Some("File not found")
    ensures read.NotReadable? ==> variables == [] && error == Some("Permission denied")
    ensures read.NotDecodable? ==> variables == [] && error == Some("Unable to read file")
    ensures read.Content? ==> error == None && variables == ParseLines(SplitOn(read.text, '\n'))
    ensures (variables, error) == ParseOutcome(read)
  {
    match read
    case NotFound => return [], Some("File not found");
    case NotReadable => return [], Some("Permission denied");
    case NotDecodable => return [], Some("Unable to read file");
    case Content(content) =>
      var lines := SplitOn(content, '\n');
      variables := [];
      var index := 0;
      while index < |lines|
        invariant 0 <= index <= |lines|
        invariant variables == ParseLines(lines[..index])
      {
        var line := lines[index];
        var lineNumber := index + 1;
        var trimmedLine := Trim(line);
        assert lines[..index + 1][..index] == lines[..index];
        LineRecordsCases(line, lineNumber);
        if !IsSkipped(trimmedLine) {
          var variable := ParseLine(trimmedLine, lineNumber, line);
          if variable.Some? {
            variables := variables + [variable.value];
          }
        }
        index := index + 1;
      }
      assert lines[..index] == lines;
      error := None;
  }

  /** Each line gives at most one record, numbered by the line it came from
      and carrying that line as its raw line. */
  ghost predicate NumbersByLine(recordsOf: (string, int) -> seq<EnvVariable>)
  {
    forall line, n :: |recordsOf(line, n)| <= 1 &&
      (|recordsOf(line, n)| == 1 ==> recordsOf(line, n)[0].lineNumber == n && recordsOf(line, n)[0].rawLine == line)
  }

  /** Every collected record comes from its own line. */
  lemma {:induction false} CollectFromOwnLine(lines: seq<string>, recordsOf: (string, int) -> seq<EnvVariable>)
    requires NumbersByLine(recordsOf)
    ensures forall k :: 0 <= k < |Collect(lines, recordsOf)| ==>
      var v := Collect(lines, recordsOf)[k];
      1 <= v.lineNumber <= |lines| && v.rawLine == lines[v.lineNumber - 1] &&
      recordsOf(v.rawLine, v.lineNumber) == [v]
    decreases |lines|
  {
    if |lines| > 0 {
      var front := lines[..|lines| - 1];
      CollectFromOwnLine(front, recordsOf);
      var rf := Collect(front, recordsOf);
      var last := recordsOf(lines[|lines| - 1], |lines|);
      var r := Collect(lines, recordsOf);
      forall k | 0 <= k < |r|
        ensures 1 <= r[k].lineNumber <= |lines| && r[k].rawLine == lines[r[k].lineNumber - 1]
        ensures recordsOf(r[k].rawLine, r[k].lineNumber) == [r[k]]
      {
        if k < |rf| {
          assert r[k] == rf[k];
          assert front[rf[k].lineNumber - 1] == lines[rf[k].lineNumber - 1];
        } else {
          assert r[k] == last[0];
        }
      }
    }
  }

  /** Collected line numbers strictly increase. */
  lemma {:induction false} CollectIncreasing(lines: seq<string>, recordsOf: (string, int) -> seq<EnvVariable>)
    requires NumbersByLine(recordsOf)
    ensures forall i, j :: 0 <= i < j < |Collect(lines, recordsOf)| ==>
      Collect(lines, recordsOf)[i].lineNumber < Collect(lines, recordsOf)[j].lineNumber
    decreases |lines|
  {
    if |lines| > 0 {
      var front := lines[..|lines| - 1];
      CollectIncreasing(front, recordsOf);
      CollectFromOwnLine(front, recordsOf);
      var rf := Collect(front, recordsOf);
      var last := recordsOf(lines[|lines| - 1], |lines|);
      var r := Collect(lines, recordsOf);
      forall i, j | 0 <= i < j < |r| ensures r[i].lineNumber < r[j].lineNumber {
        assert r[i] == rf[i];
        if j < |rf| {
          assert r[j] == rf[j];
        } else {
          assert r[j] == last[0];
        }
      }
    }
  }

  /** No line that gives a record is missed: its record sits at index `k`. */
  lemma {:induction false} CollectComplete(lines: seq<string>, recordsOf: (string, int) -> seq<EnvVariable>, n: nat)
    returns (k: nat)
    requires 1 <= n <= |lines| && recordsOf(lines[n - 1], n) != []
    ensures k < |Collect(lines, recordsOf)| && Collect(lines, recordsOf)[k] == recordsOf(lines[n - 1], n)[0]
    decreases |lines|
  {
    var front := lines[..|lines| - 1];
    var r := Collect(lines, recordsOf);
    if n == |lines| {
      k := |Collect(front, recordsOf)|;
    } else {
      assert front[n - 1] == lines[n - 1];
      k := CollectComplete(front, recordsOf, n);
      assert r[k] == Collect(front, recordsOf)[k];
    }
  }

  lemma LineRecordsNumbersByLine()
    ensures NumbersByLine(LineRecords)
  {
  }

  /** The records' line numbers lie between 1 and the number of lines, and
      strictly increase. */
  lemma ParseLinesIncreasing(lines: seq<string>)
    ensures forall k :: 0 <= k < |ParseLines(lines)| ==> 1 <= ParseLines(lines)[k].lineNumber <= |lines|
    ensures forall i, j :: 0 <= i < j < |ParseLines(lines)| ==>
      ParseLines(lines)[i].lineNumber < ParseLines(lines)[j].lineNumber
  {
    var f := LineRecords;
    LineRecordsNumbersByLine();
    CollectFromOwnLine(lines, f);
    CollectIncreasing(lines, f);
    assert ParseLines(lines) == Collect(lines, f);
  }

  /** Every line that gives a record has its record in the result. */
  lemma ParseLinesComplete(lines: seq<string>, n: nat)
    requires 1 <= n <= |lines| && LineRecords(lines[n - 1], n) != []
    ensures exists k :: 0 <= k < |ParseLines(lines)| && ParseLines(lines)[k] == LineRecords(lines[n - 1], n)[0]
  {
    var f := LineRecords;
    var k := CollectComplete(lines, f, n);
    assert ParseLines(lines) == Collect(lines, f);
  }
}
