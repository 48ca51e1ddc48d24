/**
  What the parser makes of a line the editor writes for a variable: the
  name, the value and the export flag come back; a value written with a
  comment comes back still inside its double quotes.
 */
module RoundTrip {
  import opened Text
  import opened Model
  import opened Parser
  import opened Editor

  predicate NoBlank(s: string)
  {
    forall i :: 0 <= i < |s| ==> !IsBlank(s[i])
  }

  /** A name without blanks or '=' followed by '=' never reads as "export ". */
  lemma {:induction false} NotExportPrefix(name: string, rest: string)
    requires name != "" && NoBlank(name) && '=' !in name
    ensures !StartsWith(name + "=" + rest, "export ")
  {
    var w := name + "=" + rest;
    if |name| < 7 {
      assert w[|name|] == '=';
      assert "export "[|name|] != '=';
      NotStartsWithAt(w, "export ", |name|);
    } else {
      assert w[6] == name[6];
      NotStartsWithAt(w, "export ", 6);
    }
  }

  /** A double-quoted value with no '\' or '#' inside, not itself
      single-quoted, loses its quotes and gives no comment. */
  lemma {:induction false} QuotedValue(value: string)
    requires '\\' !in value && '#' !in value && !WrappedIn(value, '\'')
    ensures ExtractComment(RemoveQuotes(Trim("\"" + value + "\""))) == (value, None)
  {
    TrimNoEdgeBlank("\"" + value + "\"");
    RemoveQuotesDouble(value);
    ExtractCommentSpec(value);
  }

  /** A quote-free value in double quotes holds two quotes, one at each
      end, and no '#' when the value has none. */
  lemma {:induction false} QuotedCount(value: string)
    requires '"' !in value && '\'' !in value && '#' !in value
    ensures var quoted := "\"" + value + "\"";
      |quoted| >= 2 && quoted[0] == '"' && quoted[|quoted| - 1] == '"' &&
      '#' !in quoted && CountOf(quoted, Quotes) == 2
  {
    var q := "\"";
    var quoted := q + value + q;
    assert forall i :: 0 <= i < |quoted| ==> quoted[i] == '"' || quoted[i] in value;
    assert CountOf(q, Quotes) == 1 by {
      assert q[..0] == "";
      assert CountOf("", Quotes) == 0;
    }
    CountOfNone(value, Quotes);
    CountOfAppend(q, value, Quotes);
    CountOfAppend(q + value, q, Quotes);
  }

  /** A trimmed, unquoted text split at its first '#' into a part with an
      even number of quotes and a part whose trim is non-empty. */
  lemma {:induction false} CommentSplitAt(rest: string, before: string, after: string)
    requires rest == before + "#" + after && Trim(rest) == rest
    requires !WrappedIn(rest, '"') && !WrappedIn(rest, '\'')
    requires '#' !in before && CountOf(before, Quotes) % 2 == 0 && Trim(after) != ""
    ensures ExtractComment(RemoveQuotes(Trim(rest))) == (Trim(before), Some(Trim(after)))
  {
    ExtractCommentSplits(before, after);
  }

  /** The shape of `quoted + "  # " + c`: where its '#' sits, what lies on
      either side, and that it is trimmed and not wrapped in quotes. */
  lemma {:induction false} CommentLineShape(rest: string, quoted: string, c: string)
    requires |quoted| >= 2 && quoted[0] == '"' && quoted[|quoted| - 1] == '"'
    requires c != "" && !HasEdgeBlank(c) && c[|c| - 1] != '"'
    requires rest == quoted + "  # " + c
    ensures rest == (quoted + "  ") + "#" + (" " + c)
    ensures Trim(rest) == rest && !WrappedIn(rest, '"') && !WrappedIn(rest, '\'')
  {
    assert rest[0] == '"' && rest[|rest| - 1] == c[|c| - 1];
    TrimNoEdgeBlank(rest);
  }

  /** The two sides of the comment split trim back to the quoted text and
      the comment. */
  lemma {:induction false} CommentSides(quoted: string, c: string)
    requires |quoted| >= 2 && quoted[0] == '"' && quoted[|quoted| - 1] == '"'
    requires '#' !in quoted && CountOf(quoted, Quotes) % 2 == 0
    requires c != "" && !HasEdgeBlank(c)
    ensures '#' !in quoted + "  " && CountOf(quoted + "  ", Quotes) % 2 == 0
    ensures Trim(quoted + "  ") == quoted && Trim(" " + c) == c
  {
    var spaces := "  ";
    CountOfNone(spaces, Quotes);
    CountOfAppend(quoted, spaces, Quotes);
    assert "" + quoted + spaces == quoted + spaces;
    TrimBlankEdges("", quoted, spaces);
    assert " " + c + "" == " " + c;
    TrimBlankEdges(" ", c, "");
  }

  /** A text in double quotes with no '#' inside and an even number of
      quotes, followed by "  # " and a trimmed comment that does not end in
      '"': the quoted text is kept whole and the comment is split off. */
  lemma {:induction false} CommentSplit(rest: string, quoted: string, c: string)
    requires |quoted| >= 2 && quoted[0] == '"' && quoted[|quoted| - 1] == '"'
    requires '#' !in quoted && CountOf(quoted, Quotes) % 2 == 0
    requires c != "" && !HasEdgeBlank(c) && c[|c| - 1] != '"'
    requires rest == quoted + "  # " + c
    ensures ExtractComment(RemoveQuotes(Trim(rest))) == (quoted, Some(c))
  {
    CommentLineShape(rest, quoted, c);
    CommentSides(quoted, c);
    CommentSplitAt(rest, quoted + "  ", " " + c);
  }

  /** A quote-free value without '#' in double quotes, then "  # " and a
      comment: the value text keeps its quotes and the comment is split off. */
  lemma {:induction false} QuotedValueWithComment(value: string, c: string)
    requires '"' !in value && '\'' !in value && '#' !in value
    requires c != "" && !HasEdgeBlank(c) && c[|c| - 1] != '"'
    ensures var quoted := "\"" + value + "\"";
      ExtractComment(RemoveQuotes(Trim(quoted + "  # " + c))) == (quoted, Some(c))
  {
    var quoted := "\"" + value + "\"";
    QuotedCount(value);
    CommentSplit(quoted + "  # " + c, quoted, c);
  }

  /** An assignment line whose name is trimmed and whose value text gives
      `(value, comment)` parses to that name, value and comment. */
  lemma {:induction false} ParsedAssignment(line: string, name: string, rest: string, value: string,
                                            comment: Option<string>, n: int)
    requires StripExport(line) == name + "=" + rest
    requires Trim(name) == name && IsValidNameStart(name) && '=' !in name
    requires ExtractComment(RemoveQuotes(Trim(rest))) == (value, comment)
    ensures ParseLine(line, n, line) ==
      Some(EnvVariable(name, value, n, comment, StartsWith(line, "export "), StartsConditional(StripExport(line)), line))
  {
    ParseLineFirstEquals(line, name, rest, n, line);
  }

  /** An assignment line, "export " or not, then a name without blanks or
      '=', then '=' and a rest that does not end in a blank: it starts with
      "export " exactly when it was given one, it has no blank at either end
      and it is not a comment. */
  lemma {:induction false} AssignmentLine(line: string, exported: bool, name: string, rest: string)
    requires IsValidNameStart(name) && NoBlank(name) && '=' !in name
    requires rest != "" && !IsBlank(rest[|rest| - 1])
    requires line == (if exported then "export " else "") + name + "=" + rest
    ensures StripExport(line) == name + "=" + rest && StartsWith(line, "export ") == exported
    ensures Trim(line) == line && !IsSkipped(line)
  {
    var working := name + "=" + rest;
    NotExportPrefix(name, rest);
    if exported {
      assert line == "export " + working;
      assert line[..7] == "export ";
      assert line[7..] == working;
    } else {
      assert line == working;
    }
    assert line[0] != '#' && !HasEdgeBlank(line);
    TrimNoEdgeBlank(line);
  }

  /** An assignment line as the editor writes it, whose value text gives
      `(value, comment)`, is not skipped and parses to that name, value,
      comment and export flag. */
  lemma {:induction false} AssignmentLineParses(line: string, exported: bool, name: string, rest: string,
                                                value: string, comment: Option<string>, n: int)
    requires IsValidNameStart(name) && NoBlank(name) && '=' !in name
    requires rest != "" && !IsBlank(rest[|rest| - 1])
    requires line == (if exported then "export " else "") + name + "=" + rest
    requires ExtractComment(RemoveQuotes(Trim(rest))) == (value, comment)
    ensures Trim(line) == line && !IsSkipped(line)
    ensures ParseLine(line, n, line) ==
      Some(EnvVariable(name, value, n, comment, exported, StartsConditional(StripExport(line)), line))
  {
    AssignmentLine(line, exported, name, rest);
    TrimNoEdgeBlank(name);
    ParsedAssignment(line, name, rest, value, comment, n);
  }

  /** The line written for a variable: the optional "export ", the name,
      '=', the value in double quotes, and the comment if there is one. */
  lemma {:induction false} VariableLineShape(item: EnvVariable)
    requires item.kind == EnvironmentVariable
    ensures !HasComment(item) ==>
      GenerateLine(item) ==
        (if item.isExport then "export " else "") + item.name + "=" + ("\"" + item.value + "\"")
    ensures HasComment(item) ==>
      GenerateLine(item) ==
        (if item.isExport then "export " else "") + item.name + "=" +
        ("\"" + item.value + "\"" + "  # " + item.comment.value)
  {
  }

  /** A variable without a comment whose name starts with a letter or '_'
      and holds no blank or '=', and whose value holds no '\' or '#' and is
      not itself single-quoted, renders as a line the parser does not skip
      and reads back with the same name, value and export flag, on the line
      number it is given. */
  lemma {:induction false} RoundTripVariable(item: EnvVariable, n: int)
    requires item.kind == EnvironmentVariable && !HasComment(item)
    requires IsValidNameStart(item.name) && NoBlank(item.name) && '=' !in item.name
    requires '\\' !in item.value && '#' !in item.value && !WrappedIn(item.value, '\'')
    ensures var line := GenerateLine(item);
      Trim(line) == line && !IsSkipped(line) &&
      ParseLine(line, n, line) ==
        Some(EnvVariable(item.name, item.value, n, None, item.isExport, StartsConditional(StripExport(line)), line))
  {
    var rest := "\"" + item.value + "\"";
    VariableLineShape(item);
    QuotedValue(item.value);
    AssignmentLineParses(GenerateLine(item), item.isExport, item.name, rest, item.value, None, n);
  }

  /** With a non-empty comment (trimmed, not ending in '"'), a variable whose
      value holds no quote or '#' reads back with its value still wrapped in
      the double quotes, and with its comment. */
  lemma {:induction false} RoundTripVariableWithComment(item: EnvVariable, n: int)
    requires item.kind == EnvironmentVariable && HasComment(item)
    requires IsValidNameStart(item.name) && NoBlank(item.name) && '=' !in item.name
    requires '"' !in item.value && '\'' !in item.value && '#' !in item.value
    requires !HasEdgeBlank(item.comment.value) && item.comment.value[|item.comment.value| - 1] != '"'
    ensures var line := GenerateLine(item);
      Trim(line) == line && !IsSkipped(line) &&
      ParseLine(line, n, line) ==
        Some(EnvVariable(item.name, "\"" + item.value + "\"", n, item.comment, item.isExport,
                         StartsConditional(StripExport(line)), line))
  {
    var c := item.comment.value;
    var quoted := "\"" + item.value + "\"";
    QuotedValueWithComment(item.value, c);
    var rest := quoted + "  # " + c;
    assert rest[|rest| - 1] == c[|c| - 1];
    VariableLineShape(item);
    AssignmentLineParses(GenerateLine(item), item.isExport, item.name, rest, quoted, item.comment, n);
  }

  // ---------------------------------------------------------------------
  // Reading back a file after an append

  /** Appending a one-line text whose record is `v` adds `v`, and only `v`,
      after the records the file already had. */
  lemma {:induction false} AppendedRecords(content: string, line: string, v: EnvVariable)
    requires '\n' !in line
    requires LineRecords(line, |KeptLines(content)| + 1) == [v]
    ensures ParseLines(SplitOn(AppendLine(content, line), '\n')) == ParseLines(KeptLines(content)) + [v]
  {
    AppendLineLines(content, line);
    ParseLinesThenEmpty(KeptLines(content), line);
  }

  /** A variable added to a file, with a name and value on one line, is read
      back by the file parser as the file's last record, numbered after the
      lines the file had, with the same name, value and export flag. */
  lemma {:induction false} AddedVariableReadsBack(content: string, item: EnvVariable)
    requires item.kind == EnvironmentVariable && !HasComment(item)
    requires IsValidNameStart(item.name) && NoBlank(item.name) && '=' !in item.name
    requires '\\' !in item.value && '#' !in item.value && !WrappedIn(item.value, '\'')
    requires '\n' !in item.name && '\n' !in item.value
    ensures var line := GenerateLine(item);
      ParseLines(SplitOn(AppendLine(content, line), '\n')) ==
        ParseLines(KeptLines(content)) +
        [EnvVariable(item.name, item.value, |KeptLines(content)| + 1, None, item.isExport,
                     StartsConditional(StripExport(line)), line)]
  {
    var line := GenerateLine(item);
    var n := |KeptLines(content)| + 1;
    var v := EnvVariable(item.name, item.value, n, None, item.isExport, StartsConditional(StripExport(line)), line);
    PlainLineOneLine(item);
    RoundTripVariable(item, n);
    LineRecordsOfParsed(line, n, v);
    AppendedRecords(content, line, v);
  }

  /** The same with a comment: the added variable is the file's last record,
      its value still in double quotes and its comment kept. */
  lemma {:induction false} AddedCommentedVariableReadsBack(content: string, item: EnvVariable)
    requires item.kind == EnvironmentVariable && HasComment(item)
    requires IsValidNameStart(item.name) && NoBlank(item.name) && '=' !in item.name
    requires '"' !in item.value && '\'' !in item.value && '#' !in item.value
    requires !HasEdgeBlank(item.comment.value) && item.comment.value[|item.comment.value| - 1] != '"'
    requires '\n' !in item.name && '\n' !in item.value && '\n' !in item.comment.value
    ensures var line := GenerateLine(item);
      ParseLines(SplitOn(AppendLine(content, line), '\n')) ==
        ParseLines(KeptLines(content)) +
        [EnvVariable(item.name, "\"" + item.value + "\"", |KeptLines(content)| + 1, item.comment, item.isExport,
                     StartsConditional(StripExport(line)), line)]
  {
    var line := GenerateLine(item);
    var n := |KeptLines(content)| + 1;
    var v := EnvVariable(item.name, "\"" + item.value + "\"", n, item.comment, item.isExport,
                         StartsConditional(StripExport(line)), line);
    CommentedLineOneLine(item);
    RoundTripVariableWithComment(item, n);
    LineRecordsOfParsed(line, n, v);
    AppendedRecords(content, line, v);
  }

  lemma PlainLineOneLine(item: EnvVariable)
    requires item.kind == EnvironmentVariable && !HasComment(item)
    requires '\n' !in item.name && '\n' !in item.value
    ensures '\n' !in GenerateLine(item)
  {
    VariableLineShape(item);
  }

  lemma CommentedLineOneLine(item: EnvVariable)
    requires item.kind == EnvironmentVariable && HasComment(item)
    requires '\n' !in item.name && '\n' !in item.value && '\n' !in item.comment.value
    ensures '\n' !in GenerateLine(item)
  {
    VariableLineShape(item);
  }
}
