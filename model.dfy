/**
  The records the application passes around: one configuration item
  (`EnvVariable`), one configuration file (`ConfigFile`) and one shell with
  its files (`Shell`), together with their derived read-only properties.
 */
module Model {
  import opened Text

  datatype Option<T> = None | Some(value: T)

  /** The six kinds of configuration item the editor knows how to render. */
  datatype ItemKind = EnvironmentVariable | Alias | Function | Source | Export | Other

  /** One configuration item. The defaults are those of the source's
      initializer; `kind` is last so that the source's argument order works. */
  datatype EnvVariable = EnvVariable(
    name: string,
    value: string,
    lineNumber: int,
    comment: Option<string> := None,
    isExport: bool := true,
    isConditional: bool := false,
    rawLine: string := "",
    kind: ItemKind := EnvironmentVariable)

  /** Building an item from name, value and line number alone: no comment,
      exported, not conditional, no raw line, a plain variable. */
  lemma EnvVariableDefaults(name: string, value: string, lineNumber: int)
    ensures var v := EnvVariable(name, value, lineNumber);
      v.name == name && v.value == value && v.lineNumber == lineNumber &&
      v.comment == None && v.isExport && !v.isConditional && v.rawLine == "" &&
      v.kind == EnvironmentVariable
  {
  }

  // ---------------------------------------------------------------------
  // Derived properties of an item

  /** The value looks like a path: it has a '/', and it starts with '/' or
      '~' or holds a ':'. */
  predicate IsPathValue(v: EnvVariable)
  {
    Contains(v.value, "/") &&
    (StartsWith(v.value, "/") || StartsWith(v.value, "~") || Contains(v.value, ":"))
  }

  lemma IsPathValueByChars(v: EnvVariable)
    ensures IsPathValue(v) <==>
      '/' in v.value && (v.value[0] == '/' || v.value[0] == '~' || ':' in v.value)
  {
    ContainsChar(v.value, '/');
    ContainsChar(v.value, ':');
    if |v.value| > 0 {
      assert v.value[..1] == [v.value[0]];
    }
  }

  /** The name, upper-cased, is "PATH" or ends with "PATH". */
  predicate IsPathVariable(v: EnvVariable)
  {
    Upper(v.name) == "PATH" || EndsWith(Upper(v.name), "PATH")
  }

  /** The `== "PATH"` test adds nothing to the suffix test. */
  lemma IsPathVariableIsSuffixTest(v: EnvVariable)
    ensures IsPathVariable(v) <==> EndsWith(Upper(v.name), "PATH")
  {
    var u := Upper(v.name);
    if u == "PATH" {
      assert u[|u| - 4..] == u;
    }
  }

  /** Parts of `s` between separators, empty parts dropped: Swift's
      `split(separator:)` with its default of omitting empty parts. */
  function NonEmptyParts(s: string, sep: char): (r: seq<string>)
    ensures forall i :: 0 <= i < |r| ==> r[i] != "" && sep !in r[i]
  {
    SplitPartsLackSep(s, sep);
    DropEmpty(SplitOn(s, sep))
  }

  function DropEmpty(ls: seq<string>): (r: seq<string>)
    ensures forall i :: 0 <= i < |r| ==> r[i] != ""
    ensures forall i :: 0 <= i < |r| ==> r[i] in ls
  {
    if |ls| == 0 then []
    else if ls[0] == "" then DropEmpty(ls[1..])
    else [ls[0]] + DropEmpty(ls[1..])
  }

  lemma {:induction false} DropEmptyOfNonEmpty(ls: seq<string>)
    requires forall i :: 0 <= i < |ls| ==> ls[i] != ""
    ensures DropEmpty(ls) == ls
    decreases |ls|
  {
    if |ls| > 0 { DropEmptyOfNonEmpty(ls[1..]); }
  }

  /** The parts of a PATH-like value; None when the variable is not PATH-like. */
  function PathComponents(v: EnvVariable): (r: Option<seq<string>>)
    ensures r.None? <==> !IsPathVariable(v)
    ensures r.Some? ==> forall i :: 0 <= i < |r.value| ==> r.value[i] != "" && ':' !in r.value[i]
  {
    if !IsPathVariable(v) then None else Some(NonEmptyParts(v.value, ':'))
  }

  /** `s` has no separator at either end and no two separators in a row. */
  predicate WellSeparated(s: string, sep: char)
  {
    (|s| > 0 ==> s[0] != sep && s[|s| - 1] != sep) &&
    forall i :: 0 <= i < |s| - 1 ==> !(s[i] == sep && s[i + 1] == sep)
  }

  /** With no trailing and no doubled separator, only the first part can be
      empty, and it is empty exactly when `s` is empty or starts with `sep`. */
  lemma {:induction false} SplitPartsNonEmpty(s: string, sep: char)
    requires |s| > 0 ==> s[|s| - 1] != sep
    requires forall i :: 0 <= i < |s| - 1 ==> !(s[i] == sep && s[i + 1] == sep)
    ensures SplitOn(s, sep)[0] == "" <==> (|s| == 0 || s[0] == sep)
    ensures forall k :: 1 <= k < |SplitOn(s, sep)| ==> SplitOn(s, sep)[k] != ""
    decreases |s|
  {
    if |s| > 0 {
      var t := SplitOn(s[1..], sep);
      SplitPartsNonEmpty(s[1..], sep);
      if s[0] == sep {
        assert |s| >= 2 && s[1] != sep;
      }
    }
  }

  /** A well-separated PATH-like value is rebuilt by joining its parts with ':'. */
  lemma PathComponentsJoin(v: EnvVariable)
    requires IsPathVariable(v) && WellSeparated(v.value, ':')
    ensures PathComponents(v).Some? && JoinWith(PathComponents(v).value, ':') == v.value
  {
    var parts := SplitOn(v.value, ':');
    SplitPartsNonEmpty(v.value, ':');
    JoinSplit(v.value, ':');
    if v.value == "" {
      assert parts == [""];
    } else {
      DropEmptyOfNonEmpty(parts);
    }
  }

  /** The value references another variable: it holds "$" or "${". */
  predicate ContainsVariableRefs(v: EnvVariable)
  {
    Contains(v.value, "$") || Contains(v.value, "${")
  }

  /** The "${" test adds nothing: the test is just "holds a '$'". */
  lemma ContainsVariableRefsIsDollar(v: EnvVariable)
    ensures ContainsVariableRefs(v) <==> '$' in v.value
  {
    ContainsChar(v.value, '$');
    if Contains(v.value, "${") {
      ContainsPrefixOf(v.value, "${", "$");
    }
  }

  // ---------------------------------------------------------------------
  // Shells and configuration files

  datatype ShellType = Bash | Zsh | Fish

  /** The shell's display name (the enum's raw value). */
  function ShellName(t: ShellType): string
  {
    match t
    case Bash => "Bash"
    case Zsh => "Zsh"
    case Fish => "Fish"
  }

  /** The file names probed for each shell, in the source's order. */
  function ConfigFileNames(t: ShellType): (r: seq<string>)
    ensures |r| >= 1
    ensures forall i :: 0 <= i < |r| ==> r[i] != "" && '/' !in r[i]
  {
    match t
    case Bash => [".bashrc", ".bash_profile", ".bash_login", ".profile"]
    case Zsh => [".zshrc", ".zprofile", ".zshenv"]
    case Fish => ["config.fish"]
  }

  /** One configuration file. `fileExists` is the source's `exists`; the
      modification date is an abstract timestamp. */
  datatype ConfigFile = ConfigFile(
    path: string,
    shellType: ShellType,
    variables: seq<EnvVariable> := [],
    lastModified: Option<int> := None,
    fileExists: bool := true,
    parseError: Option<string> := None)

  /** Building a file record from path and shell alone: no variables, no
      date, present, no parse error. */
  lemma ConfigFileDefaults(path: string, t: ShellType)
    ensures var f := ConfigFile(path, t);
      f.path == path && f.shellType == t && f.variables == [] &&
      f.lastModified == None && f.fileExists && f.parseError == None
  {
  }

  /** The text after the last '/', a model of `lastPathComponent` for paths
      without a trailing '/'. */
  function LastComponent(path: string): (r: string)
    ensures '/' !in r
    ensures EndsWith(path, r)
    ensures '/' !in path ==> r == path
  {
    if |path| == 0 || path[|path| - 1] == '/' then ""
    else
      var r := LastComponent(path[..|path| - 1]) + [path[|path| - 1]];
      assert path == path[..|path| - 1] + [path[|path| - 1]];
      r
  }

  lemma {:induction false} LastComponentAfterSlash(dir: string, name: string)
    requires '/' !in name
    ensures LastComponent(dir + "/" + name) == name
    decreases |name|
  {
    var p := dir + "/" + name;
    if |name| > 0 {
      var n' := name[..|name| - 1];
      assert p[..|p| - 1] == dir + "/" + n';
      LastComponentAfterSlash(dir, n');
      assert n' + [name[|name| - 1]] == name;
    } else {
      assert p[|p| - 1] == '/';
    }
  }

  function FileName(f: ConfigFile): string
  {
    LastComponent(f.path)
  }

  /** The path with the home directory shown as "~". The prefix test is on
      characters, not on path components. */
  function DisplayPath(f: ConfigFile, home: string): (r: string)
    ensures StartsWith(f.path, home) ==> |r| == |f.path| - |home| + 1 && r[0] == '~' && r[1..] == f.path[|home|..]
    ensures !StartsWith(f.path, home) ==> r == f.path
  {
    if StartsWith(f.path, home) then "~" + f.path[|home|..] else f.path
  }

  /** A home that is a character prefix of a sibling directory is still
      replaced: home "/Users/a" shows "/Users/ab/x" as "~b/x". */
  lemma DisplayPathIsCharacterPrefix(t: ShellType)
    ensures DisplayPath(ConfigFile("/Users/ab/x", t), "/Users/a") == "~b/x"
  {
    var p := "/Users/ab/x";
    assert p[..|"/Users/a"|] == "/Users/a";
    assert p[|"/Users/a"|..] == "b/x";
  }

  /** What reading a file from disk gave: its text, or why there is none
      (absent, not readable, not valid UTF-8). */
  datatype FileRead = Content(text: string) | NotFound | NotReadable | NotDecodable

  /** A shell and its configuration files; `id` stands for the source's UUID. */
  datatype Shell = Shell(id: nat, shellType: ShellType, configFiles: seq<ConfigFile> := [])
}
