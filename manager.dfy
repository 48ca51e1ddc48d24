/**
  The service that finds each shell's configuration files under the home
  directory, parses them, and answers queries over all their variables.

  The disk is a map from path to what lies there; the home directory is a
  value given when the service is built.
 */
module Manager {
  import opened Text
  import opened Model
  import opened Parser
  import opened Search

  // ---------------------------------------------------------------------
  // The disk, as the service sees it

  /** A file on disk: its text, or the reason it cannot be read, and its
      modification time when the attributes give one. */
  datatype DiskFile =
    | Readable(text: string, modified: Option<int>)
    | Unreadable(modified: Option<int>)
    | Undecodable(modified: Option<int>)

  type Disk = map<string, DiskFile>

  /** What the parser gets when it reads `path`. */
  function ReadAt(disk: Disk, path: string): (r: FileRead)
    ensures r.NotFound? <==> path !in disk
  {
    if path !in disk then NotFound
    else match disk[path]
      case Readable(text, _) => Content(text)
      case Unreadable(_) => NotReadable
      case Undecodable(_) => NotDecodable
  }

  // ---------------------------------------------------------------------
  // Paths

  /** Where a shell keeps a configuration file: fish under
      `~/.config/fish/`, bash and zsh directly in the home directory. */
  function ConstructPath(home: string, fileName: string, t: ShellType): string
  {
    if t == Fish then home + "/.config/fish/" + fileName else home + "/" + fileName
  }

  /** A constructed path lies under the home directory and its last
      component is the file name. */
  lemma ConstructPathSpec(home: string, fileName: string, t: ShellType)
    requires '/' !in fileName
    ensures var p := ConstructPath(home, fileName, t);
      StartsWith(p, home + "/") && LastComponent(p) == fileName
  {
    var p := ConstructPath(home, fileName, t);
    if t == Fish {
      assert p == (home + "/.config/fish") + "/" + fileName;
      LastComponentAfterSlash(home + "/.config/fish", fileName);
    } else {
      LastComponentAfterSlash(home, fileName);
    }
    assert p[..|home + "/"|] == home + "/";
  }

  /** A constructed path is shown relative to the home directory. */
  lemma ConstructedDisplayPath(home: string, fileName: string, t: ShellType)
    ensures var p := ConstructPath(home, fileName, t);
      DisplayPath(ConfigFile(p, t), home) ==
        (if t == Fish then "~/.config/fish/" else "~/") + fileName
  {
    var p := ConstructPath(home, fileName, t);
    assert p[..|home|] == home;
    if t == Fish {
      assert p[|home|..] == "/.config/fish/" + fileName;
    } else {
      assert p[|home|..] == "/" + fileName;
    }
  }

  // ---------------------------------------------------------------------
  // Loading the files of one shell

  /** The record built for one file name: parsed variables and error from
      the read, present exactly when the path is on disk. */
  function LoadedFile(t: ShellType, home: string, disk: Disk, fileName: string): ConfigFile
  {
    var path := ConstructPath(home, fileName, t);
    var outcome := ParseOutcome(ReadAt(disk, path));
    ConfigFile(path, t, outcome.0,
               if path in disk then disk[path].modified else None,
               path in disk, outcome.1)
  }

  /** One record per file name, in the names' order. */
  function LoadEach(t: ShellType, home: string, disk: Disk, names: seq<string>): (r: seq<ConfigFile>)
    ensures |r| == |names|
  {
    seq(|names|, i requires 0 <= i < |names| => LoadedFile(t, home, disk, names[i]))
  }

  /** The record at each position is the one loaded for the name there. */
  lemma LoadEachAt(t: ShellType, home: string, disk: Disk, names: seq<string>)
    ensures var r := LoadEach(t, home, disk, names);
      forall i :: 0 <= i < |names| ==> r[i] == LoadedFile(t, home, disk, names[i])
  {
  }

  /** `a` sorts before `b`: existing files first, then by file name. */
  predicate Before(a: ConfigFile, b: ConfigFile)
  {
    if a.fileExists != b.fileExists then a.fileExists else LexLess(FileName(a), FileName(b))
  }

  lemma BeforeAsymmetric(a: ConfigFile, b: ConfigFile)
    requires Before(a, b)
    ensures !Before(b, a)
  {
    if a.fileExists == b.fileExists { LexLessAsymmetric(FileName(a), FileName(b)); }
  }

  /** "Not after" chains: if `b` is not before `a` and `c` not before `b`,
      then `c` is not before `a`. */
  lemma NotBeforeTransitive(a: ConfigFile, b: ConfigFile, c: ConfigFile)
    requires !Before(b, a) && !Before(c, b)
    ensures !Before(c, a)
  {
    if a.fileExists == b.fileExists == c.fileExists {
      var na, nb, nc := FileName(a), FileName(b), FileName(c);
      if LexLess(nc, na) && na != nb {
        LexLessTotal(na, nb);
        LexLessTransitive(nc, na, nb);
      }
    }
  }

  /** No file is followed by one that sorts before it. */
  predicate PrioritySorted(s: seq<ConfigFile>)
  {
    forall i, j :: 0 <= i < j < |s| ==> !Before(s[j], s[i])
  }

  /** Puts `f` in front of the first file that does not sort before it. */
  function InsertByPriority(f: ConfigFile, s: seq<ConfigFile>): seq<ConfigFile>
    decreases |s|
  {
    if |s| == 0 then [f]
    else if Before(s[0], f) then [s[0]] + InsertByPriority(f, s[1..])
    else [f] + s
  }

  /** Inserting puts `f` at some position and moves nothing else. */
  lemma {:induction false} InsertByPrioritySplice(f: ConfigFile, s: seq<ConfigFile>) returns (k: nat)
    ensures k <= |s| && InsertByPriority(f, s) == s[..k] + [f] + s[k..]
    decreases |s|
  {
    if |s| == 0 {
      k := 0;
    } else if Before(s[0], f) {
      var t := s[1..];
      var j := InsertByPrioritySplice(f, t);
      k := j + 1;
      assert InsertByPriority(f, s) == [s[0]] + InsertByPriority(f, t);
      assert s[..k] == [s[0]] + t[..j] && s[k..] == t[j..];
    } else {
      k := 0;
    }
  }

  /** An element spliced into a sequence adds one occurrence of itself. */
  lemma SpliceCounts<T>(s: seq<T>, k: nat, x: T)
    requires k <= |s|
    ensures multiset(s[..k] + [x] + s[k..]) == multiset(s) + multiset{x}
  {
    assert s == s[..k] + s[k..];
  }

  lemma InsertByPriorityPermutes(f: ConfigFile, s: seq<ConfigFile>)
    ensures multiset(InsertByPriority(f, s)) == multiset(s) + multiset{f}
  {
    var k := InsertByPrioritySplice(f, s);
    SpliceCounts(s, k, f);
  }

  /** Inserting adds `f` and nothing else. */
  lemma {:induction false} InsertByPriorityMembers(f: ConfigFile, s: seq<ConfigFile>)
    ensures forall x :: x in InsertByPriority(f, s) ==> x == f || x in s
    decreases |s|
  {
    if |s| > 0 && Before(s[0], f) {
      InsertByPriorityMembers(f, s[1..]);
      assert forall x :: x in s[1..] ==> x in s;
    }
  }

  /** A sorted list stays sorted under a new head that no element sorts
      before. */
  lemma ConsSorted(x: ConfigFile, rest: seq<ConfigFile>)
    requires PrioritySorted(rest)
    requires forall y :: y in rest ==> !Before(y, x)
    ensures PrioritySorted([x] + rest)
  {
    var r := [x] + rest;
    forall i, j | 0 <= i < j < |r|
      ensures !Before(r[j], r[i])
    {
      assert r[j] == rest[j - 1];
      if i > 0 { assert r[i] == rest[i - 1]; }
    }
  }

  lemma TailSorted(s: seq<ConfigFile>)
    requires PrioritySorted(s) && |s| > 0
    ensures PrioritySorted(s[1..])
  {
    forall i, j | 0 <= i < j < |s[1..]|
      ensures !Before(s[1..][j], s[1..][i])
    {
      assert s[1..][i] == s[i + 1] && s[1..][j] == s[j + 1];
    }
  }

  /** `f` can go in front of a sorted list whose head does not sort before
      it. */
  lemma FrontSorted(f: ConfigFile, s: seq<ConfigFile>)
    requires PrioritySorted(s) && |s| > 0 && !Before(s[0], f)
    ensures PrioritySorted([f] + s)
  {
    forall y | y in s
      ensures !Before(y, f)
    {
      var k :| 0 <= k < |s| && s[k] == y;
      if k > 0 { NotBeforeTransitive(f, s[0], s[k]); }
    }
    ConsSorted(f, s);
  }

  lemma {:induction false} InsertByPrioritySorted(f: ConfigFile, s: seq<ConfigFile>)
    requires PrioritySorted(s)
    ensures PrioritySorted(InsertByPriority(f, s))
    decreases |s|
  {
    if |s| > 0 {
      if Before(s[0], f) {
        var rest := InsertByPriority(f, s[1..]);
        TailSorted(s);
        InsertByPrioritySorted(f, s[1..]);
        InsertByPriorityMembers(f, s[1..]);
        BeforeAsymmetric(s[0], f);
        forall x | x in rest
          ensures !Before(x, s[0])
        {
          if x != f {
            var k :| 0 <= k < |s[1..]| && s[1..][k] == x;
            assert s[k + 1] == x;
          }
        }
        ConsSorted(s[0], rest);
      } else {
        FrontSorted(f, s);
      }
    }
  }

  /** The source's sort of a shell's files, by insertion. */
  function SortByPriority(fs: seq<ConfigFile>): seq<ConfigFile>
    decreases |fs|
  {
    if |fs| == 0 then []
    else InsertByPriority(fs[|fs| - 1], SortByPriority(fs[..|fs| - 1]))
  }

  lemma {:induction false} SortByPriorityPermutes(fs: seq<ConfigFile>)
    ensures multiset(SortByPriority(fs)) == multiset(fs)
    decreases |fs|
  {
    if |fs| > 0 {
      var front := fs[..|fs| - 1];
      SortByPriorityPermutes(front);
      InsertByPriorityPermutes(fs[|fs| - 1], SortByPriority(front));
      assert fs == front + [fs[|fs| - 1]];
    }
  }

  lemma {:induction false} SortByPrioritySorted(fs: seq<ConfigFile>)
    ensures PrioritySorted(SortByPriority(fs))
    decreases |fs|
  {
    if |fs| > 0 {
      SortByPrioritySorted(fs[..|fs| - 1]);
      InsertByPrioritySorted(fs[|fs| - 1], SortByPriority(fs[..|fs| - 1]));
    }
  }

  /** In a list sorted by priority, existing files come before missing
      ones, and within each group no file name is followed by a smaller
      one. */
  lemma PrioritySortedGroups(r: seq<ConfigFile>)
    requires PrioritySorted(r)
    ensures forall i, j :: 0 <= i < j < |r| && r[j].fileExists ==> r[i].fileExists
    ensures forall i, j :: 0 <= i < j < |r| && r[i].fileExists == r[j].fileExists ==>
      !LexLess(FileName(r[j]), FileName(r[i]))
  {
    forall i, j | 0 <= i < j < |r|
      ensures r[j].fileExists ==> r[i].fileExists
      ensures r[i].fileExists == r[j].fileExists ==> !LexLess(FileName(r[j]), FileName(r[i]))
    {
      assert !Before(r[j], r[i]);
    }
  }

  /** The sorted files are the same files, every existing file comes before
      every missing one, and within each group no file name is followed by a
      smaller one. */
  lemma SortByPrioritySpec(fs: seq<ConfigFile>)
    ensures var r := SortByPriority(fs);
      multiset(r) == multiset(fs) && |r| == |fs| &&
      PrioritySorted(r) &&
      (forall i, j :: 0 <= i < j < |r| && r[j].fileExists ==> r[i].fileExists) &&
      (forall i, j :: 0 <= i < j < |r| && r[i].fileExists == r[j].fileExists ==>
         !LexLess(FileName(r[j]), FileName(r[i])))
  {
    var r := SortByPriority(fs);
    SortByPriorityPermutes(fs);
    assert |r| == |multiset(r)| == |multiset(fs)| == |fs|;
    SortByPrioritySorted(fs);
    PrioritySortedGroups(r);
  }

  /** The files of one shell as the service lists them. */
  function ShellFiles(t: ShellType, home: string, disk: Disk): seq<ConfigFile>
  {
    SortByPriority(LoadEach(t, home, disk, ConfigFileNames(t)))
  }

  /** No shell probes the same name twice (the names differ in length). */
  lemma ConfigFileNamesDistinct(t: ShellType)
    ensures var ns := ConfigFileNames(t);
      forall i, j :: 0 <= i < j < |ns| ==> ns[i] != ns[j]
  {
    var ns := ConfigFileNames(t);
    assert forall i, j :: 0 <= i < j < |ns| ==> |ns[i]| != |ns[j]|;
  }

  /** A loaded record carries the name it was loaded for. */
  lemma LoadEachNames(t: ShellType, home: string, disk: Disk, ns: seq<string>)
    requires forall k :: 0 <= k < |ns| ==> '/' !in ns[k]
    ensures var loaded := LoadEach(t, home, disk, ns);
      forall k :: 0 <= k < |ns| ==> FileName(loaded[k]) == ns[k]
  {
    LoadEachAt(t, home, disk, ns);
    forall k | 0 <= k < |ns|
      ensures FileName(LoadEach(t, home, disk, ns)[k]) == ns[k]
    {
      ConstructPathSpec(home, ns[k], t);
    }
  }

  /** Every shell lists at least one file. */
  lemma ShellFilesNonEmpty(t: ShellType, home: string, disk: Disk)
    ensures |ShellFiles(t, home, disk)| == |ConfigFileNames(t)| > 0
  {
    var loaded := LoadEach(t, home, disk, ConfigFileNames(t));
    SortByPriorityPermutes(loaded);
    var r := SortByPriority(loaded);
    assert |r| == |multiset(r)|;
  }

  /** Records named by distinct names are all different. */
  lemma {:induction false} DistinctByName(loaded: seq<ConfigFile>)
    requires forall i, j :: 0 <= i < j < |loaded| ==> FileName(loaded[i]) != FileName(loaded[j])
    ensures forall x :: multiset(loaded)[x] <= 1
  {
    forall i, j | 0 <= i < j < |loaded|
      ensures loaded[i] != loaded[j]
    {
      assert FileName(loaded[i]) != FileName(loaded[j]);
    }
    DistinctCountsOnce(loaded);
  }

  /** Pairwise different elements each occur once. */
  lemma {:induction false} DistinctCountsOnce<T>(s: seq<T>)
    requires forall i, j :: 0 <= i < j < |s| ==> s[i] != s[j]
    ensures forall x :: multiset(s)[x] <= 1
  {
    forall x | x in multiset(s)
      ensures multiset(s)[x] <= 1
    {
      var a :| 0 <= a < |s| && s[a] == x;
      var before, after := s[..a], s[a + 1..];
      assert s == before + [x] + after;
      assert forall k :: 0 <= k < |before| ==> before[k] == s[k];
      assert forall k :: 0 <= k < |after| ==> after[k] == s[a + 1 + k];
      assert x !in before && x !in after;
    }
  }

  /** A record that occurs twice counts twice. */
  lemma TwiceCounted(r: seq<ConfigFile>, i: nat, j: nat)
    requires i < j < |r| && r[i] == r[j]
    ensures multiset(r)[r[i]] >= 2
  {
    assert r == r[..i] + [r[i]] + r[i + 1..j] + [r[j]] + r[j + 1..];
  }

  /** A reordering of records with distinct names, sorted by priority: the
      names within each group strictly ascend. */
  lemma {:induction false} ReorderedStrictly(loaded: seq<ConfigFile>, r: seq<ConfigFile>)
    requires multiset(r) == multiset(loaded)
    requires forall i, j :: 0 <= i < j < |loaded| ==> FileName(loaded[i]) != FileName(loaded[j])
    requires forall i, j :: 0 <= i < j < |r| && r[i].fileExists == r[j].fileExists ==>
      !LexLess(FileName(r[j]), FileName(r[i]))
    ensures forall i, j :: 0 <= i < j < |r| && r[i].fileExists == r[j].fileExists ==>
      LexLess(FileName(r[i]), FileName(r[j]))
  {
    DistinctByName(loaded);
    forall i, j | 0 <= i < j < |r| && r[i].fileExists == r[j].fileExists
      ensures LexLess(FileName(r[i]), FileName(r[j]))
    {
      assert r[i] in multiset(loaded) && r[j] in multiset(loaded);
      var a :| 0 <= a < |loaded| && loaded[a] == r[i];
      var b :| 0 <= b < |loaded| && loaded[b] == r[j];
      if a == b {
        TwiceCounted(r, i, j);
        assert false;
      }
      assert FileName(r[i]) != FileName(r[j]);
      LexLessTotal(FileName(r[i]), FileName(r[j]));
    }
  }

  /** `r` holds one record for each of the names `ns` and no other, and
      within the existing files and within the missing ones the names
      strictly ascend. */
  predicate OneFilePerName(r: seq<ConfigFile>, ns: seq<string>)
  {
    |r| == |ns| &&
    (forall j :: 0 <= j < |r| ==> FileName(r[j]) in ns) &&
    (forall i :: 0 <= i < |ns| ==> exists j :: 0 <= j < |r| && FileName(r[j]) == ns[i]) &&
    (forall i, j :: 0 <= i < j < |r| && r[i].fileExists == r[j].fileExists ==>
       LexLess(FileName(r[i]), FileName(r[j])))
  }

  /** A reordering, sorted by priority, of one record per distinct name
      holds each name once, and the names within each group ascend. */
  lemma OnePerName(loaded: seq<ConfigFile>, r: seq<ConfigFile>, ns: seq<string>)
    requires |loaded| == |ns| && multiset(r) == multiset(loaded)
    requires forall k :: 0 <= k < |ns| ==> FileName(loaded[k]) == ns[k]
    requires forall i, j :: 0 <= i < j < |ns| ==> ns[i] != ns[j]
    requires forall i, j :: 0 <= i < j < |r| && r[i].fileExists == r[j].fileExists ==>
      !LexLess(FileName(r[j]), FileName(r[i]))
    ensures OneFilePerName(r, ns)
  {
    assert |r| == |multiset(r)| == |multiset(loaded)| == |loaded|;
    forall j | 0 <= j < |r|
      ensures FileName(r[j]) in ns
    {
      assert r[j] in multiset(loaded);
      var k :| 0 <= k < |loaded| && loaded[k] == r[j];
    }
    forall i | 0 <= i < |ns|
      ensures exists j :: 0 <= j < |r| && FileName(r[j]) == ns[i]
    {
      assert loaded[i] in multiset(r);
      var j :| 0 <= j < |r| && r[j] == loaded[i];
    }
    ReorderedStrictly(loaded, r);
  }

  /** A shell lists one file per name it probes, no name twice, and within
      the existing files and within the missing ones the names strictly
      ascend. */
  lemma ShellFilesOnePerName(t: ShellType, home: string, disk: Disk)
    ensures OneFilePerName(ShellFiles(t, home, disk), ConfigFileNames(t))
  {
    var ns := ConfigFileNames(t);
    var loaded := LoadEach(t, home, disk, ns);
    SortByPrioritySpec(loaded);
    ConfigFileNamesDistinct(t);
    LoadEachNames(t, home, disk, ns);
    OnePerName(loaded, SortByPriority(loaded), ns);
  }

  // ---------------------------------------------------------------------
  // Shells and their variables

  /** The three shells in the order the service loads them. */
  function LoadedShells(home: string, disk: Disk, firstId: nat): seq<Shell>
  {
    [Shell(firstId, Bash, ShellFiles(Bash, home, disk)),
     Shell(firstId + 1, Zsh, ShellFiles(Zsh, home, disk)),
     Shell(firstId + 2, Fish, ShellFiles(Fish, home, disk))]
  }

  lemma LoadedShellsAre(home: string, disk: Disk, firstId: nat, bash: seq<ConfigFile>,
                        zsh: seq<ConfigFile>, fish: seq<ConfigFile>)
    requires bash == ShellFiles(Bash, home, disk) && zsh == ShellFiles(Zsh, home, disk)
    requires fish == ShellFiles(Fish, home, disk)
    ensures LoadedShells(home, disk, firstId) ==
      [Shell(firstId, Bash, bash), Shell(firstId + 1, Zsh, zsh), Shell(firstId + 2, Fish, fish)]
  {
  }

  /** The shells that list at least one file. */
  function KeepNonEmpty(ss: seq<Shell>): (r: seq<Shell>)
    ensures forall i :: 0 <= i < |r| ==> r[i].configFiles != [] && r[i] in ss
    ensures (forall i :: 0 <= i < |ss| ==> ss[i].configFiles != []) ==> r == ss
    decreases |ss|
  {
    if |ss| == 0 then []
    else
      var r := (if ss[0].configFiles == [] then [] else [ss[0]]) + KeepNonEmpty(ss[1..]);
      assert forall x :: x in ss[1..] ==> x in ss;
      r
  }

  /** Three shells that each list a file are all kept. */
  lemma KeepNonEmptyThree(ss: seq<Shell>)
    requires |ss| == 3 && ss[0].configFiles != [] && ss[1].configFiles != [] && ss[2].configFiles != []
    ensures KeepNonEmpty(ss) == ss
  {
  }

  /** The variables of the existing files, file by file. */
  function ExistingVariables(fs: seq<ConfigFile>): seq<EnvVariable>
  {
    if |fs| == 0 then []
    else ExistingVariables(fs[..|fs| - 1]) +
         (if fs[|fs| - 1].fileExists then fs[|fs| - 1].variables else [])
  }

  /** The variables of every existing file, shell by shell. */
  function AllVariables(ss: seq<Shell>): seq<EnvVariable>
  {
    if |ss| == 0 then []
    else AllVariables(ss[..|ss| - 1]) + ExistingVariables(ss[|ss| - 1].configFiles)
  }

  /** An item is in the list of all variables exactly when some existing
      file of some shell holds it. */
  lemma {:induction false} AllVariablesMember(ss: seq<Shell>, v: EnvVariable)
    ensures v in AllVariables(ss) <==>
      exists i, j :: 0 <= i < |ss| && 0 <= j < |ss[i].configFiles| &&
        ss[i].configFiles[j].fileExists && v in ss[i].configFiles[j].variables
    decreases |ss|
  {
    if |ss| > 0 {
      var front, last := ss[..|ss| - 1], ss[|ss| - 1];
      AllVariablesMember(front, v);
      ExistingVariablesMember(last.configFiles, v);
      assert AllVariables(ss) == AllVariables(front) + ExistingVariables(last.configFiles);
      if v in AllVariables(ss) {
        if v in AllVariables(front) {
          var i, j :| 0 <= i < |front| && 0 <= j < |front[i].configFiles| &&
            front[i].configFiles[j].fileExists && v in front[i].configFiles[j].variables;
          assert ss[i] == front[i];
        } else {
          var j :| 0 <= j < |last.configFiles| && last.configFiles[j].fileExists &&
            v in last.configFiles[j].variables;
          assert ss[|ss| - 1] == last;
        }
      }
      if exists i, j :: 0 <= i < |ss| && 0 <= j < |ss[i].configFiles| &&
          ss[i].configFiles[j].fileExists && v in ss[i].configFiles[j].variables {
        var i, j :| 0 <= i < |ss| && 0 <= j < |ss[i].configFiles| &&
          ss[i].configFiles[j].fileExists && v in ss[i].configFiles[j].variables;
        if i < |front| {
          assert front[i] == ss[i];
        }
      }
    }
  }

  lemma {:induction false} ExistingVariablesMember(fs: seq<ConfigFile>, v: EnvVariable)
    ensures v in ExistingVariables(fs) <==>
      exists j :: 0 <= j < |fs| && fs[j].fileExists && v in fs[j].variables
    decreases |fs|
  {
    if |fs| > 0 {
      var front, last := fs[..|fs| - 1], fs[|fs| - 1];
      ExistingVariablesMember(front, v);
      if v in ExistingVariables(fs) && v !in ExistingVariables(front) {
        assert last.fileExists && v in last.variables;
      }
      if exists j :: 0 <= j < |fs| && fs[j].fileExists && v in fs[j].variables {
        var j :| 0 <= j < |fs| && fs[j].fileExists && v in fs[j].variables;
        if j < |front| {
          assert front[j] == fs[j];
        }
      }
    }
  }

  /** The number of variables in the existing files, summed file by file
      and shell by shell. */
  function FileVariableCount(fs: seq<ConfigFile>): nat
  {
    if |fs| == 0 then 0
    else (if fs[0].fileExists then |fs[0].variables| else 0) + FileVariableCount(fs[1..])
  }

  function VariableCount(ss: seq<Shell>): nat
  {
    if |ss| == 0 then 0 else FileVariableCount(ss[0].configFiles) + VariableCount(ss[1..])
  }

  lemma {:induction false} ExistingVariablesCount(fs: seq<ConfigFile>)
    ensures |ExistingVariables(fs)| == FileVariableCount(fs)
    decreases |fs|
  {
    if |fs| > 0 {
      ExistingVariablesCount(fs[..|fs| - 1]);
      FileVariableCountSnoc(fs[..|fs| - 1], fs[|fs| - 1]);
      assert fs[..|fs| - 1] + [fs[|fs| - 1]] == fs;
    }
  }

  lemma {:induction false} FileVariableCountSnoc(fs: seq<ConfigFile>, f: ConfigFile)
    ensures FileVariableCount(fs + [f]) ==
      FileVariableCount(fs) + (if f.fileExists then |f.variables| else 0)
    decreases |fs|
  {
    if |fs| > 0 {
      assert (fs + [f])[1..] == fs[1..] + [f];
      FileVariableCountSnoc(fs[1..], f);
    }
  }

  lemma {:induction false} VariableCountSnoc(ss: seq<Shell>, s: Shell)
    ensures VariableCount(ss + [s]) == VariableCount(ss) + FileVariableCount(s.configFiles)
    decreases |ss|
  {
    if |ss| > 0 {
      assert (ss + [s])[1..] == ss[1..] + [s];
      VariableCountSnoc(ss[1..], s);
    }
  }

  /** The list of all variables is as long as the file-by-file count says. */
  lemma {:induction false} AllVariablesCount(ss: seq<Shell>)
    ensures |AllVariables(ss)| == VariableCount(ss)
    decreases |ss|
  {
    if |ss| > 0 {
      AllVariablesCount(ss[..|ss| - 1]);
      ExistingVariablesCount(ss[|ss| - 1].configFiles);
      VariableCountSnoc(ss[..|ss| - 1], ss[|ss| - 1]);
      assert ss[..|ss| - 1] + [ss[|ss| - 1]] == ss;
    }
  }

  // ---------------------------------------------------------------------
  // The service

  class ShellConfigManager {
    var shells: seq<Shell>
    var isLoading: bool
    /** The id the next loaded shell gets: a stand-in for a fresh UUID. */
    var nextId: nat
    const home: string

    /** Building the service loads every shell's files. */
    constructor (home: string, disk: Disk)
      ensures this.home == home && !isLoading && nextId == 3
      ensures shells == LoadedShells(home, disk, 0)
    {
      this.home := home;
      shells := [];
      isLoading := false;
      nextId := 0;
      new;
      LoadConfigs(disk);
    }

    /** Reloads the three shells; each lists one record per probed name, so
        none is dropped. */
    method LoadConfigs(disk: Disk)
      modifies this
      ensures shells == KeepNonEmpty(LoadedShells(home, disk, old(nextId)))
      ensures shells == LoadedShells(home, disk, old(nextId))
      ensures !isLoading && nextId == old(nextId) + 3
    {
      var firstId := nextId;
      isLoading := true;
      var bashConfigs := LoadConfigsForShell(Bash, disk);
      var zshConfigs := LoadConfigsForShell(Zsh, disk);
      var fishConfigs := LoadConfigsForShell(Fish, disk);
      nextId := firstId + 3;
      var loadedShells := [Shell(firstId, Bash, bashConfigs), Shell(firstId + 1, Zsh, zshConfigs),
                           Shell(firstId + 2, Fish, fishConfigs)];
      LoadedShellsAre(home, disk, firstId, bashConfigs, zshConfigs, fishConfigs);
      KeepNonEmptyThree(loadedShells);
      shells := KeepNonEmpty(loadedShells);
      isLoading := false;
    }

    /** One record per probed name, then sorted by priority. */
    method LoadConfigsForShell(t: ShellType, disk: Disk) returns (files: seq<ConfigFile>)
      ensures files == ShellFiles(t, home, disk) && files != []
    {
      var names := ConfigFileNames(t);
      var configFiles: seq<ConfigFile> := [];
      var i := 0;
      while i < |names|
        invariant 0 <= i <= |names| && |configFiles| == i
        invariant forall k :: 0 <= k < i ==> configFiles[k] == LoadedFile(t, home, disk, names[k])
      {
        var configFile := LoadFile(t, disk, names[i]);
        configFiles := configFiles + [configFile];
        i := i + 1;
      }
      LoadEachAt(t, home, disk, names);
      assert configFiles == LoadEach(t, home, disk, names);
      files := SortByPriority(configFiles);
      ShellFilesNonEmpty(t, home, disk);
    }

    /** The record for one file name: its path, its parsed variables or
        read error, and whether and when it was last modified on disk. */
    method LoadFile(t: ShellType, disk: Disk, fileName: string) returns (configFile: ConfigFile)
      ensures configFile == LoadedFile(t, home, disk, fileName)
    {
      var path := ConstructPath(home, fileName, t);
      var variables, error := ParseFile(ReadAt(disk, path));
      var lastModified: Option<int> := None;
      var present := false;
      if path in disk {
        present := true;
        lastModified := disk[path].modified;
      }
      configFile := ConfigFile(path, t, variables, lastModified, present, error);
    }

    /** Reloading from the disk as it now is. */
    method Refresh(disk: Disk)
      modifies this
      ensures shells == LoadedShells(home, disk, old(nextId))
      ensures !isLoading && nextId == old(nextId) + 3
    {
      LoadConfigs(disk);
    }

    /** The variables of every existing file, in shell order then file order. */
    method GetAllVariables() returns (allVariables: seq<EnvVariable>)
      ensures allVariables == AllVariables(shells)
      ensures |allVariables| == VariableCount(shells)
    {
      allVariables := [];
      var i := 0;
      while i < |shells|
        invariant 0 <= i <= |shells|
        invariant allVariables == AllVariables(shells[..i])
      {
        var files := shells[i].configFiles;
        var j := 0;
        while j < |files|
          invariant 0 <= j <= |files|
          invariant allVariables == AllVariables(shells[..i]) + ExistingVariables(files[..j])
        {
          if files[j].fileExists {
            allVariables := allVariables + files[j].variables;
          }
          assert files[..j + 1][..j] == files[..j];
          j := j + 1;
        }
        assert files[..j] == files;
        assert shells[..i + 1][..i] == shells[..i];
        i := i + 1;
      }
      assert shells[..i] == shells;
      AllVariablesCount(shells);
    }

    /** The given file's variables, or every variable, narrowed to those
        matching the query; an empty query narrows nothing. */
    method SearchVariables(query: string, configFile: Option<ConfigFile>) returns (result: seq<EnvVariable>)
      ensures result == SearchItems(query, if configFile.Some? then configFile.value.variables else AllVariables(shells))
    {
      var variables: seq<EnvVariable>;
      if configFile.Some? {
        variables := configFile.value.variables;
      } else {
        variables := GetAllVariables();
      }
      if query == "" {
        return variables;
      }
      var lowercasedQuery := Lower(query);
      result := Filter(variables, lowercasedQuery);
    }

    /** The distinct names of all variables, ascending. */
    method GetUniqueVariableNames() returns (names: seq<string>)
      ensures StrictlyAscending(names)
      ensures forall n :: n in names <==> exists v :: v in AllVariables(shells) && v.name == n
    {
      var variables := GetAllVariables();
      names := SortedUnique(Names(variables));
    }

    /** How many variables the existing files hold. */
    method GetTotalVariableCount() returns (count: nat)
      ensures count == |AllVariables(shells)| == VariableCount(shells)
    {
      var variables := GetAllVariables();
      count := |variables|;
    }
  }
}
