/**
  The configuration file editor. Every edit reads the file, changes its
  text or its '\n'-separated lines, and writes the result back. Reading and
  writing are inputs here: a `FileRead` says what reading gave and a
  `WriteAccess` what writing will do; an edit returns the text it writes or
  the error it reports.
 */
module Editor {
  import opened Text
  import opened Model

  // ---------------------------------------------------------------------
  // Errors

  datatype ConfigEditError =
    | FileNotFound
    | PermissionDenied
    | ReadError
    | WriteError
    | InvalidLineNumber
    | BackupFailed
    | Unknown(message: string)

  /** The message shown for an error: a fixed non-empty text per case, the
      carried message for `Unknown`. */
  function ErrorDescription(e: ConfigEditError): (r: string)
    ensures e.Unknown? ==> r == e.message
    ensures !e.Unknown? ==> |r| == MessageLength(e) > 0
  {
    match e
    case FileNotFound => "Configuration file not found"
    case PermissionDenied => "Permission denied. Please check file permissions."
    case ReadError => "Failed to read configuration file"
    case WriteError => "Failed to write to configuration file"
    case InvalidLineNumber => "Invalid line number"
    case BackupFailed => "Failed to create backup"
    case Unknown(message) => message
  }

  /** The six fixed messages tell their errors apart. */
  lemma {:induction false} ErrorDescriptionsDistinct(a: ConfigEditError, b: ConfigEditError)
    requires !a.Unknown? && !b.Unknown? && a != b
    ensures ErrorDescription(a) != ErrorDescription(b)
  {
  }

  /** The length of each fixed message; no two are alike. */
  function MessageLength(e: ConfigEditError): nat
    requires !e.Unknown?
  {
    match e
    case FileNotFound => 28
    case PermissionDenied => 49
    case ReadError => 33
    case WriteError => 37
    case InvalidLineNumber => 19
    case BackupFailed => 23
  }

  // ---------------------------------------------------------------------
  // Reading and writing, as inputs

  /** What writing will do: succeed, be refused (not writable), or fail. */
  datatype WriteAccess = Writable | NotWritable | WriteFails

  /** The outcome of an edit: the text written, or the error returned. */
  datatype EditResult = Written(content: string) | Failed(error: ConfigEditError)

  /** The error a failed read reports: existence is checked first, then
      readability, then decoding. */
  function ReadFailure(read: FileRead): (e: ConfigEditError)
    requires !read.Content?
    ensures read.NotFound? <==> e == FileNotFound
    ensures read.NotReadable? <==> e == PermissionDenied
    ensures read.NotDecodable? <==> e == ReadError
  {
    match read
    case NotFound => FileNotFound
    case NotReadable => PermissionDenied
    case NotDecodable => ReadError
  }

  /** Writing `content`: it is written exactly when the file is writable and
      the write succeeds; otherwise permission or write failure. */
  function WriteFile(access: WriteAccess, content: string): (r: EditResult)
    ensures r.Written? <==> access.Writable?
    ensures r.Written? ==> r.content == content
    ensures r.Failed? ==> r.error == (if access.NotWritable? then PermissionDenied else WriteError)
  {
    match access
    case Writable => Written(content)
    case NotWritable => Failed(PermissionDenied)
    case WriteFails => Failed(WriteError)
  }

  // ---------------------------------------------------------------------
  // Rendering an item as text

  predicate HasComment(item: EnvVariable)
  {
    item.comment.Some? && item.comment.value != ""
  }

  /** The placeholder body written for a new function. */
  const FunctionBody := "    # Function body"

  /** The item's text by kind, before any comment. */
  function RenderItem(item: EnvVariable): string
  {
    match item.kind
    case EnvironmentVariable =>
      (if item.isExport then "export " else "") + item.name + "=\"" + item.value + "\""
    case Alias => "alias " + item.name + "='" + item.value + "'"
    case Function => item.name + "() {\n" + FunctionBody + "\n}"
    case Source => "source " + item.value
    case Export => "export " + item.name
    case Other => item.rawLine
  }

  /** The line written for an item: its text by kind, followed by
      "  # comment" when it has a non-empty comment. */
  function GenerateLine(item: EnvVariable): (r: string)
    ensures HasComment(item) ==>
      (EndsWith(r, "  # " + item.comment.value) && r[..|r| - |item.comment.value| - 4] == RenderItem(item))
    ensures !HasComment(item) ==> r == RenderItem(item)
  {
    var line := RenderItem(item);
    if HasComment(item) then
      var r := line + "  # " + item.comment.value;
      assert r[..|line|] == line;
      r
    else line
  }

  /** Every kind but `Function` renders on one line when its fields hold no
      newline. */
  lemma GenerateLineOneLine(item: EnvVariable)
    requires item.kind != Function
    requires '\n' !in item.name && '\n' !in item.value && '\n' !in item.rawLine
    requires item.comment.Some? ==> '\n' !in item.comment.value
    ensures '\n' !in GenerateLine(item)
  {
    var line := RenderItem(item);
    if HasComment(item) {
      assert GenerateLine(item) == line + "  # " + item.comment.value;
    }
  }

  /** A function renders as three lines: its header, the placeholder body
      and the closing brace, which carries the comment. */
  lemma GenerateLineFunction(item: EnvVariable)
    requires item.kind == Function && '\n' !in item.name
    requires item.comment.Some? ==> '\n' !in item.comment.value
    ensures SplitOn(GenerateLine(item), '\n') ==
      [item.name + "() {", FunctionBody,
       "}" + (if HasComment(item) then "  # " + item.comment.value else "")]
  {
    var head := item.name + "() {";
    var tail := "}" + (if HasComment(item) then "  # " + item.comment.value else "");
    assert GenerateLine(item) == head + ['\n'] + FunctionBody + ['\n'] + tail;
    SplitThree(head, FunctionBody, tail, '\n');
  }

  // ---------------------------------------------------------------------
  // Line surgery

  /** `x` inserted at index `k`: the lines before keep their places, the
      lines from `k` on move one down. */
  function InsertAt(ls: seq<string>, k: nat, x: string): (r: seq<string>)
    requires k <= |ls|
    ensures |r| == |ls| + 1 && r[k] == x
    ensures forall i :: 0 <= i < k ==> r[i] == ls[i]
    ensures forall i :: k <= i < |ls| ==> r[i + 1] == ls[i]
  {
    ls[..k] + [x] + ls[k..]
  }

  /** The line at index `k` removed: the lines before keep their places, the
      lines after move one up. */
  function RemoveAt(ls: seq<string>, k: nat): (r: seq<string>)
    requires k < |ls|
    ensures |r| == |ls| - 1
    ensures forall i :: 0 <= i < k ==> r[i] == ls[i]
    ensures forall i :: k <= i < |r| ==> r[i] == ls[i + 1]
  {
    ls[..k] + ls[k + 1..]
  }

  /** Removing what was just inserted gives the lines back. */
  lemma RemoveAtInsertAt(ls: seq<string>, k: nat, x: string)
    requires k <= |ls|
    ensures RemoveAt(InsertAt(ls, k, x), k) == ls
  {
    var r := RemoveAt(InsertAt(ls, k, x), k);
    assert forall i :: 0 <= i < |ls| ==> r[i] == ls[i];
  }

  function Min(a: int, b: int): int { if a < b then a else b }

  // ---------------------------------------------------------------------
  // Appending

  /** The text after an append: a '\n' is added first when the text is
      non-empty and does not end in one, then the line and a '\n'. */
  function AppendLine(content: string, line: string): (r: string)
    ensures StartsWith(r, content) && EndsWith(r, line + "\n")
    ensures |r| == |content| + |line| + 1 + (if content != "" && !EndsWith(content, "\n") then 1 else 0)
    ensures content != "" && !EndsWith(content, "\n") ==> r[|content|] == '\n'
  {
    var c := if content != "" && !EndsWith(content, "\n") then content + "\n" else content;
    var tail := line + "\n";
    var r := c + tail;
    assert c[..|content|] == content;
    assert r[..|content|] == content;
    assert r[|c|..] == tail;
    r
  }

  /** The lines the file had before the append, without the empty part that
      follows a final '\n'. */
  function KeptLines(content: string): (r: seq<string>)
  {
    if content == "" then []
    else if EndsWith(content, "\n") then
      var ls := SplitOn(content, '\n');
      ls[..|ls| - 1]
    else SplitOn(content, '\n')
  }

  /** Read back as lines, an append keeps every line the file had, in order,
      and adds the new line followed by the empty part after the final '\n'. */
  lemma {:induction false} AppendLineLines(content: string, line: string)
    requires '\n' !in line
    ensures SplitOn(AppendLine(content, line), '\n') == KeptLines(content) + [line, ""]
  {
    var tail := line + "\n";
    assert SplitOn(tail, '\n') == [line, ""] by {
      assert tail == line + ['\n'] + "";
      SplitAround(line, "", '\n');
      SplitWithoutSep(line, '\n');
    }
    if content == "" {
      assert AppendLine(content, line) == tail;
    } else if EndsWith(content, "\n") {
      AppendAfterNewline(content, tail);
      assert AppendLine(content, line) == content + tail;
    } else {
      assert AppendLine(content, line) == content + ['\n'] + tail;
      SplitAround(content, tail, '\n');
    }
  }

  lemma {:induction false} AppendAfterNewline(content: string, tail: string)
    requires EndsWith(content, "\n")
    ensures SplitOn(content + tail, '\n') == KeptLines(content) + SplitOn(tail, '\n')
  {
    var c0 := content[..|content| - 1];
    assert content == c0 + ['\n'] + "";
    SplitAround(c0, "", '\n');
    assert content + tail == c0 + ['\n'] + tail;
    SplitAround(c0, tail, '\n');
  }

  /** Appends an item's line at the end of the file. */
  method AddConfigItem(item: EnvVariable, read: FileRead, access: WriteAccess) returns (r: EditResult)
    ensures !read.Content? ==> r == Failed(ReadFailure(read))
    ensures read.Content? ==> r == WriteFile(access, AppendLine(read.text, GenerateLine(item)))
  {
    if !read.Content? {
      return Failed(ReadFailure(read));
    }
    var content := read.text;
    var lineToAdd := GenerateLine(item);
    if content != "" && !EndsWith(content, "\n") {
      content := content + "\n";
    }
    content := content + lineToAdd + "\n";
    r := WriteFile(access, content);
  }

  // ---------------------------------------------------------------------
  // Inserting, deleting and replacing one line

  /** Inserts an item's line at index `lineNumber` (after line `lineNumber`),
      clamped to the end of the file. A negative index is a run-time trap in
      the source, hence the precondition. */
  method InsertConfigItem(item: EnvVariable, read: FileRead, access: WriteAccess, lineNumber: int)
    returns (r: EditResult)
    requires read.Content? ==> lineNumber >= 0
    ensures !read.Content? ==> r == Failed(ReadFailure(read))
    ensures read.Content? ==>
      var ls := SplitOn(read.text, '\n');
      r == WriteFile(access, JoinWith(InsertAt(ls, Min(lineNumber, |ls|), GenerateLine(item)), '\n'))
  {
    if !read.Content? {
      return Failed(ReadFailure(read));
    }
    var lines := SplitOn(read.text, '\n');
    var insertIndex := Min(lineNumber, |lines|);
    var lineToAdd := GenerateLine(item);
    lines := lines[..insertIndex] + [lineToAdd] + lines[insertIndex..];
    r := WriteFile(access, JoinWith(lines, '\n'));
  }

  /** Deletes line `lineNumber` (1-based); a number outside 1..count is
      reported and nothing is written. */
  method DeleteConfigItem(read: FileRead, access: WriteAccess, lineNumber: int) returns (r: EditResult)
    ensures !read.Content? ==> r == Failed(ReadFailure(read))
    ensures read.Content? ==>
      var ls := SplitOn(read.text, '\n');
      if 1 <= lineNumber <= |ls| then r == WriteFile(access, JoinWith(RemoveAt(ls, lineNumber - 1), '\n'))
      else r == Failed(InvalidLineNumber)
  {
    if !read.Content? {
      return Failed(ReadFailure(read));
    }
    var lines := SplitOn(read.text, '\n');
    if !(lineNumber > 0 && lineNumber <= |lines|) {
      return Failed(InvalidLineNumber);
    }
    lines := lines[..lineNumber - 1] + lines[lineNumber..];
    r := WriteFile(access, JoinWith(lines, '\n'));
  }

  /** Replaces line `lineNumber` (1-based) by the item's line; a number
      outside 1..count is reported and nothing is written. */
  method UpdateConfigItem(read: FileRead, access: WriteAccess, lineNumber: int, newItem: EnvVariable)
    returns (r: EditResult)
    ensures !read.Content? ==> r == Failed(ReadFailure(read))
    ensures read.Content? ==>
      var ls := SplitOn(read.text, '\n');
      if 1 <= lineNumber <= |ls| then r == WriteFile(access, JoinWith(ls[lineNumber - 1 := GenerateLine(newItem)], '\n'))
      else r == Failed(InvalidLineNumber)
  {
    if !read.Content? {
      return Failed(ReadFailure(read));
    }
    var lines := SplitOn(read.text, '\n');
    if !(lineNumber > 0 && lineNumber <= |lines|) {
      return Failed(InvalidLineNumber);
    }
    lines := lines[lineNumber - 1 := GenerateLine(newItem)];
    r := WriteFile(access, JoinWith(lines, '\n'));
  }

  /** Read back, the text written by an insert has exactly the inserted
      line sequence when the new line holds no '\n'. */
  lemma InsertReadBack(content: string, k: nat, line: string)
    requires k <= |SplitOn(content, '\n')| && '\n' !in line
    ensures var ls := InsertAt(SplitOn(content, '\n'), k, line);
      SplitOn(JoinWith(ls, '\n'), '\n') == ls
  {
    var orig := SplitOn(content, '\n');
    var ls := InsertAt(orig, k, line);
    SplitPartsLackSep(content, '\n');
    assert Lacks(ls, '\n') by {
      forall i | 0 <= i < |ls| ensures '\n' !in ls[i] {
        if i > k { assert ls[i] == orig[i - 1]; }
      }
    }
    SplitJoinParts(ls, '\n');
  }

  /** Read back, the text written by a delete has exactly the remaining lines;
      deleting the only line leaves the empty text. */
  lemma DeleteReadBack(content: string, k: nat)
    requires k < |SplitOn(content, '\n')|
    ensures var ls := RemoveAt(SplitOn(content, '\n'), k);
      (|ls| >= 1 ==> SplitOn(JoinWith(ls, '\n'), '\n') == ls) &&
      (|ls| == 0 ==> JoinWith(ls, '\n') == "")
  {
    var orig := SplitOn(content, '\n');
    var ls := RemoveAt(orig, k);
    SplitPartsLackSep(content, '\n');
    if |ls| >= 1 {
      assert Lacks(ls, '\n') by {
        forall i | 0 <= i < |ls| ensures '\n' !in ls[i] {
          if i >= k { assert ls[i] == orig[i + 1]; }
        }
      }
      SplitJoinParts(ls, '\n');
    }
  }

  /** Read back, the text written by an update differs from the original
      lines only at the replaced line. */
  lemma UpdateReadBack(content: string, k: nat, line: string)
    requires k < |SplitOn(content, '\n')| && '\n' !in line
    ensures var orig := SplitOn(content, '\n');
      var back := SplitOn(JoinWith(orig[k := line], '\n'), '\n');
      |back| == |orig| && back[k] == line &&
      forall i :: 0 <= i < |orig| && i != k ==> back[i] == orig[i]
  {
    var orig := SplitOn(content, '\n');
    var ls := orig[k := line];
    SplitPartsLackSep(content, '\n');
    assert Lacks(ls, '\n');
    SplitJoinParts(ls, '\n');
  }

  // ---------------------------------------------------------------------
  // Deleting several lines

  predicate NonIncreasing(s: seq<int>)
  {
    forall i, j :: 0 <= i < j < |s| ==> s[i] >= s[j]
  }

  /** `x` placed in a non-increasing sequence before the first element it is
      not smaller than. */
  function InsertDescending(s: seq<int>, x: int): (r: seq<int>)
    requires NonIncreasing(s)
    ensures NonIncreasing(r) && multiset(r) == multiset(s) + multiset{x}
    ensures r[0] == if |s| > 0 && s[0] > x then s[0] else x
  {
    if |s| == 0 || x >= s[0] then [x] + s
    else
      var t := InsertDescending(s[1..], x);
      assert s == [s[0]] + s[1..];
      assert t[0] <= s[0];
      [s[0]] + t
  }

  /** The source's `sorted(by: >)`: the same numbers, largest first. */
  function SortDescending(ns: seq<int>): (r: seq<int>)
    ensures NonIncreasing(r) && multiset(r) == multiset(ns)
  {
    if |ns| == 0 then []
    else
      assert ns == [ns[0]] + ns[1..];
      InsertDescending(SortDescending(ns[1..]), ns[0])
  }

  /** One step of the loop: line `n` (1-based) is removed when it is within
      the current count, and skipped otherwise. */
  function DeleteLine(ls: seq<string>, n: int): (r: seq<string>)
    ensures 1 <= n <= |ls| ==> r == RemoveAt(ls, n - 1)
    ensures !(1 <= n <= |ls|) ==> r == ls
  {
    if 1 <= n <= |ls| then RemoveAt(ls, n - 1) else ls
  }

  /** The loop's effect: the numbers processed in the given order. */
  function DeleteInOrder(ls: seq<string>, ns: seq<int>): seq<string>
    decreases |ns|
  {
    if |ns| == 0 then ls else DeleteInOrder(DeleteLine(ls, ns[0]), ns[1..])
  }

  /** Deletes several lines: the numbers are taken largest first, and a
      number outside 1..current count is skipped. */
  method DeleteMultipleItems(read: FileRead, access: WriteAccess, lineNumbers: seq<int>)
    returns (r: EditResult)
    ensures !read.Content? ==> r == Failed(ReadFailure(read))
    ensures read.Content? ==>
      r == WriteFile(access, JoinWith(DeleteInOrder(SplitOn(read.text, '\n'), SortDescending(lineNumbers)), '\n'))
  {
    if !read.Content? {
      return Failed(ReadFailure(read));
    }
    var lines := SplitOn(read.text, '\n');
    var sortedLines := SortDescending(lineNumbers);
    var i := 0;
    while i < |sortedLines|
      invariant 0 <= i <= |sortedLines|
      invariant DeleteInOrder(lines, sortedLines[i..]) == DeleteInOrder(SplitOn(read.text, '\n'), sortedLines)
    {
      var lineNum := sortedLines[i];
      assert sortedLines[i..][1..] == sortedLines[i + 1..];
      if lineNum > 0 && lineNum <= |lines| {
        lines := lines[..lineNum - 1] + lines[lineNum..];
      }
      i := i + 1;
    }
    r := WriteFile(access, JoinWith(lines, '\n'));
  }

  /** The lines whose 1-based numbers are not in `gone`, in order: an
      independent statement of "those positions removed". */
  function Without(ls: seq<string>, gone: set<int>): seq<string>
  {
    if |ls| == 0 then []
    else Without(ls[..|ls| - 1], gone) + (if |ls| in gone then [] else [ls[|ls| - 1]])
  }

  lemma {:induction false} WithoutKeepsTail(a: seq<string>, b: seq<string>, gone: set<int>)
    requires forall n :: n in gone ==> n <= |a|
    ensures Without(a + b, gone) == Without(a, gone) + b
    decreases |b|
  {
    if |b| == 0 {
      assert a + b == a;
    } else {
      var b0 := b[..|b| - 1];
      assert (a + b)[..|a + b| - 1] == a + b0;
      WithoutKeepsTail(a, b0, gone);
      assert b0 + [b[|b| - 1]] == b;
    }
  }

  lemma {:induction false} WithoutAgree(a: seq<string>, s: set<int>, t: set<int>)
    requires forall n :: 1 <= n <= |a| ==> (n in s <==> n in t)
    ensures Without(a, s) == Without(a, t)
    decreases |a|
  {
    if |a| > 0 {
      WithoutAgree(a[..|a| - 1], s, t);
    }
  }

  lemma {:induction false} WithoutSnoc(a: seq<string>, x: string, gone: set<int>)
    ensures Without(a + [x], gone) == Without(a, gone) + (if |a| + 1 in gone then [] else [x])
  {
    assert (a + [x])[..|a|] == a;
  }

  /** Removing line `d` and then the lines in `gone`, all before `d`, is
      removing them all. */
  lemma {:induction false} RemoveThenWithout(ls: seq<string>, d: int, gone: set<int>)
    requires 1 <= d <= |ls|
    requires forall n :: n in gone ==> n < d
    ensures Without(RemoveAt(ls, d - 1), gone) == Without(ls, gone + {d})
  {
    var a, x, b := ls[..d - 1], ls[d - 1], ls[d..];
    var all := gone + {d};
    assert RemoveAt(ls, d - 1) == a + b;
    assert ls == (a + [x]) + b;
    calc {
      Without(ls, all);
      { WithoutKeepsTail(a + [x], b, all); }
      Without(a + [x], all) + b;
      { WithoutSnoc(a, x, all); }
      Without(a, all) + b;
      { WithoutAgree(a, all, gone); }
      Without(a, gone) + b;
      { WithoutKeepsTail(a, b, gone); }
      Without(a + b, gone);
    }
  }

  /** The numbers a sequence holds. */
  function Numbers(s: seq<int>): set<int>
  {
    set n | n in s
  }

  predicate Decreasing(s: seq<int>)
  {
    forall i, j :: 0 <= i < j < |s| ==> s[i] > s[j]
  }

  lemma {:induction false} NumbersOfCons(ds: seq<int>)
    requires |ds| > 0
    ensures Numbers(ds) == Numbers(ds[1..]) + {ds[0]}
  {
    assert ds == [ds[0]] + ds[1..];
  }

  /** Strictly decreasing in-range numbers remove exactly their lines. */
  lemma {:induction false} DeleteDecreasing(ls: seq<string>, ds: seq<int>)
    requires Decreasing(ds)
    requires forall i :: 0 <= i < |ds| ==> 1 <= ds[i] <= |ls|
    ensures DeleteInOrder(ls, ds) == Without(ls, Numbers(ds))
    decreases |ds|
  {
    if |ds| == 0 {
      assert Numbers(ds) == {};
      WithoutAgreeEmpty(ls);
    } else {
      var d, rest := ds[0], ds[1..];
      var ls' := RemoveAt(ls, d - 1);
      assert DeleteInOrder(ls, ds) == DeleteInOrder(ls', rest);
      assert forall i :: 0 <= i < |rest| ==> rest[i] == ds[i + 1] && rest[i] < d;
      DeleteDecreasing(ls', rest);
      var gone := Numbers(rest);
      RemoveThenWithout(ls, d, gone);
      NumbersOfCons(ds);
    }
  }

  lemma {:induction false} WithoutAgreeEmpty(ls: seq<string>)
    ensures Without(ls, {}) == ls
    decreases |ls|
  {
    if |ls| > 0 {
      WithoutAgreeEmpty(ls[..|ls| - 1]);
    }
  }

  predicate Distinct(s: seq<int>)
  {
    forall i, j :: 0 <= i < j < |s| ==> s[i] != s[j]
  }

  lemma {:induction false} DistinctOnce(s: seq<int>, x: int)
    requires Distinct(s)
    ensures multiset(s)[x] <= 1
    decreases |s|
  {
    if |s| > 0 {
      var s0 := s[..|s| - 1];
      assert s == s0 + [s[|s| - 1]];
      DistinctOnce(s0, x);
      if s[|s| - 1] == x {
        assert x !in s0;
      }
    }
  }

  lemma RepeatTwice(s: seq<int>, i: nat, j: nat)
    requires i < j < |s| && s[i] == s[j]
    ensures multiset(s)[s[i]] >= 2
  {
    assert s == s[..j] + s[j..];
    assert s[i] in s[..j] && s[j] in s[j..];
  }

  /** Sorting distinct numbers largest first makes them strictly decrease. */
  lemma {:induction false} SortDistinctDecreasing(ns: seq<int>)
    requires Distinct(ns)
    ensures Decreasing(SortDescending(ns))
  {
    var ds := SortDescending(ns);
    forall i, j | 0 <= i < j < |ds|
      ensures ds[i] > ds[j]
    {
      if ds[i] == ds[j] {
        RepeatTwice(ds, i, j);
        DistinctOnce(ns, ds[i]);
        assert false;
      }
    }
  }

  /** Sorting keeps the set of numbers. */
  lemma {:induction false} SortKeepsNumbers(ns: seq<int>)
    ensures Numbers(SortDescending(ns)) == Numbers(ns)
  {
    var ds := SortDescending(ns);
    forall n
      ensures n in ds <==> n in ns
    {
      assert n in ds <==> n in multiset(ds);
      assert n in ns <==> n in multiset(ns);
    }
  }

  /** For distinct numbers that are all line numbers of the file, the result
      is the file with exactly those lines removed, whatever the input
      order. */
  lemma {:induction false} DeleteMultipleDistinct(ls: seq<string>, ns: seq<int>)
    requires Distinct(ns)
    requires forall i :: 0 <= i < |ns| ==> 1 <= ns[i] <= |ls|
    ensures DeleteInOrder(ls, SortDescending(ns)) == Without(ls, Numbers(ns))
  {
    var ds := SortDescending(ns);
    SortDistinctDecreasing(ns);
    SortKeepsNumbers(ns);
    forall i | 0 <= i < |ds|
      ensures 1 <= ds[i] <= |ls|
    {
      assert ds[i] in Numbers(ds);
    }
    DeleteDecreasing(ls, ds);
  }

  /** Numbers that are none of them line numbers of the file change nothing. */
  lemma {:induction false} DeleteOutOfRange(ls: seq<string>, ns: seq<int>)
    requires forall i :: 0 <= i < |ns| ==> !(1 <= ns[i] <= |ls|)
    ensures DeleteInOrder(ls, ns) == ls
    decreases |ns|
  {
    if |ns| > 0 {
      assert forall i :: 0 <= i < |ns[1..]| ==> ns[1..][i] == ns[i + 1];
      DeleteOutOfRange(ls, ns[1..]);
    }
  }

  /** Whatever order they come in, out-of-range numbers leave the file as it was. */
  lemma DeleteMultipleOutOfRange(ls: seq<string>, ns: seq<int>)
    requires forall i :: 0 <= i < |ns| ==> !(1 <= ns[i] <= |ls|)
    ensures DeleteInOrder(ls, SortDescending(ns)) == ls
  {
    var ds := SortDescending(ns);
    forall i | 0 <= i < |ds| ensures !(1 <= ds[i] <= |ls|) {
      assert ds[i] in multiset(ns);
    }
    DeleteOutOfRange(ls, ds);
  }

  /** Duplicates are not removed: `[2, 2]` on three lines deletes line 2 and
      then the line that moved into its place. */
  lemma DeleteMultipleDuplicate()
    ensures DeleteInOrder(["a", "b", "c"], SortDescending([2, 2])) == ["a"]
  {
    assert SortDescending([2, 2]) == [2, 2];
    assert DeleteLine(["a", "b", "c"], 2) == ["a", "c"];
    assert DeleteLine(["a", "c"], 2) == ["a"];
  }
}
