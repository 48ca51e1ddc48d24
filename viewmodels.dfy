/**
  The state behind the variable list and the shell sidebar: which items are
  shown for the current search, and which shells are expanded.
 */
module ViewModels {
  import opened Text
  import opened Model
  import opened Search
  import opened Manager

  // ---------------------------------------------------------------------
  // The variable list

  class EnvVariableViewModel {
    var variables: seq<EnvVariable>
    var filteredVariables: seq<EnvVariable>
    var searchText: string
    var selectedVariable: Option<EnvVariable>
    var configFile: Option<ConfigFile>

    /** The shown items are some of the loaded ones, in their order. */
    predicate Consistent()
      reads this
    {
      IsSubsequence(filteredVariables, variables)
    }

    /** The list opens empty, with no search and nothing selected. */
    constructor ()
      ensures variables == [] && filteredVariables == [] && searchText == ""
      ensures selectedVariable == None && configFile == None
      ensures Consistent()
    {
      variables := [];
      filteredVariables := [];
      searchText := "";
      selectedVariable := None;
      configFile := None;
    }

    /** Shows the given file's items, or none, under the current search. */
    method SetConfigFile(file: Option<ConfigFile>)
      modifies this
      ensures configFile == file
      ensures variables == (if file.Some? then file.value.variables else [])
      ensures filteredVariables == SearchItems(searchText, variables)
      ensures searchText == old(searchText) && selectedVariable == old(selectedVariable)
      ensures Consistent()
    {
      configFile := file;
      variables := if file.Some? then file.value.variables else [];
      FilterVariables(searchText);
    }

    /** Shows every variable the service holds, under the current search. */
    method LoadAllVariables(manager: ShellConfigManager)
      modifies this
      ensures variables == AllVariables(manager.shells)
      ensures filteredVariables == SearchItems(searchText, variables)
      ensures searchText == old(searchText) && selectedVariable == old(selectedVariable)
      ensures configFile == old(configFile)
      ensures Consistent()
    {
      variables := manager.GetAllVariables();
      FilterVariables(searchText);
    }

    /** Narrows the shown items to those matching the query; what the search
        field's subscription runs once typing settles. */
    method FilterVariables(query: string)
      modifies this
      ensures filteredVariables == SearchItems(query, variables)
      ensures variables == old(variables) && searchText == old(searchText)
      ensures selectedVariable == old(selectedVariable) && configFile == old(configFile)
      ensures Consistent()
    {
      if query == "" {
        filteredVariables := variables;
        return;
      }
      var lowercasedQuery := Lower(query);
      filteredVariables := Filter(variables, lowercasedQuery);
    }

    /** Empties the search field; the shown items wait for the subscription. */
    method ClearSearch()
      modifies this
      ensures searchText == ""
      ensures variables == old(variables) && filteredVariables == old(filteredVariables)
      ensures selectedVariable == old(selectedVariable) && configFile == old(configFile)
    {
      searchText := "";
    }

    function VariableCount(): nat
      reads this
    {
      |filteredVariables|
    }

    function TotalCount(): nat
      reads this
    {
      |variables|
    }

    /** Some items are hidden by a search. */
    predicate IsFiltered()
      reads this
    {
      searchText != "" && |filteredVariables| != |variables|
    }

    /** No more items are shown than are loaded. */
    lemma CountWithinTotal()
      requires Consistent()
      ensures VariableCount() <= TotalCount()
    {
      SubsequenceShorter(filteredVariables, variables);
    }

    /** Once the shown items follow the search text, the list is filtered
        exactly when that text is non-empty and some item fails to match. */
    lemma IsFilteredMeans()
      requires filteredVariables == SearchItems(searchText, variables)
      ensures IsFiltered() <==>
        searchText != "" && exists i :: 0 <= i < |variables| && !Matches(variables[i], Lower(searchText))
    {
      SearchDropsSomething(searchText, variables);
    }
  }

  // ---------------------------------------------------------------------
  // The shell sidebar

  /** Some file of the list exists. */
  predicate HasExistingFile(fs: seq<ConfigFile>)
  {
    exists j :: 0 <= j < |fs| && fs[j].fileExists
  }

  /** The ids of the shells that have an existing file. */
  function ExpandableIds(ss: seq<Shell>): set<nat>
  {
    if |ss| == 0 then {}
    else ExpandableIds(ss[..|ss| - 1]) +
         (if HasExistingFile(ss[|ss| - 1].configFiles) then {ss[|ss| - 1].id} else {})
  }

  /** An id is expandable exactly when some shell with that id has an
      existing file. */
  lemma {:induction false} ExpandableIdsMember(ss: seq<Shell>, id: nat)
    ensures id in ExpandableIds(ss) <==>
      exists i :: 0 <= i < |ss| && ss[i].id == id && HasExistingFile(ss[i].configFiles)
    decreases |ss|
  {
    if |ss| > 0 {
      var front := ss[..|ss| - 1];
      ExpandableIdsMember(front, id);
      assert forall i :: 0 <= i < |front| ==> front[i] == ss[i];
    }
  }

  /** The set with `id`'s membership flipped. */
  function Toggled(s: set<nat>, id: nat): (r: set<nat>)
    ensures id in r <==> id !in s
    ensures forall x :: x != id ==> (x in r <==> x in s)
  {
    if id in s then s - {id} else s + {id}
  }

  /** Toggling twice restores the set. */
  lemma ToggleTwice(s: set<nat>, id: nat)
    ensures Toggled(Toggled(s, id), id) == s
  {
  }

  /** The number of existing files in a list. */
  function ExistingCount(fs: seq<ConfigFile>): nat
  {
    if |fs| == 0 then 0 else (if fs[0].fileExists then 1 else 0) + ExistingCount(fs[1..])
  }

  /** The number of existing files over all shells, summed shell by shell. */
  function ExistingFileCount(ss: seq<Shell>): nat
  {
    if |ss| == 0 then 0 else ExistingCount(ss[0].configFiles) + ExistingFileCount(ss[1..])
  }

  lemma {:induction false} ExistingCountZero(fs: seq<ConfigFile>)
    ensures ExistingCount(fs) == 0 <==> !HasExistingFile(fs)
    decreases |fs|
  {
    if |fs| > 0 {
      ExistingCountZero(fs[1..]);
      assert forall j :: 1 <= j < |fs| ==> fs[j] == fs[1..][j - 1];
    }
  }

  /** No file is counted exactly when no shell has an existing file, that
      is, when no shell is expandable. */
  lemma {:induction false} ExistingFileCountZero(ss: seq<Shell>)
    ensures ExistingFileCount(ss) == 0 <==>
      forall i :: 0 <= i < |ss| ==> !HasExistingFile(ss[i].configFiles)
    decreases |ss|
  {
    if |ss| > 0 {
      ExistingCountZero(ss[0].configFiles);
      ExistingFileCountZero(ss[1..]);
      assert forall i :: 1 <= i < |ss| ==> ss[i] == ss[1..][i - 1];
    }
  }

  class ShellListViewModel {
    var shells: seq<Shell>
    var selectedConfigFile: Option<ConfigFile>
    var expandedShells: set<nat>

    constructor ()
      ensures shells == [] && selectedConfigFile == None && expandedShells == {}
    {
      shells := [];
      selectedConfigFile := None;
      expandedShells := {};
    }

    /** What the subscription to the service does with newly published
        shells: show them and expand those with an existing file. */
    method ShellsPublished(published: seq<Shell>)
      modifies this
      ensures shells == published
      ensures expandedShells == old(expandedShells) + ExpandableIds(published)
      ensures selectedConfigFile == old(selectedConfigFile)
    {
      shells := published;
      AutoExpandShells(published);
    }

    /** Adds the id of every shell with an existing file; no id is removed. */
    method AutoExpandShells(ss: seq<Shell>)
      modifies this
      ensures expandedShells == old(expandedShells) + ExpandableIds(ss)
      ensures shells == old(shells) && selectedConfigFile == old(selectedConfigFile)
    {
      var i := 0;
      while i < |ss|
        invariant 0 <= i <= |ss|
        invariant expandedShells == old(expandedShells) + ExpandableIds(ss[..i])
        invariant shells == old(shells) && selectedConfigFile == old(selectedConfigFile)
      {
        var shell := ss[i];
        var hasExistingFiles := HasExistingFile(shell.configFiles);
        if hasExistingFiles {
          expandedShells := expandedShells + {shell.id};
        }
        assert ss[..i + 1][..i] == ss[..i];
        i := i + 1;
      }
      assert ss[..i] == ss;
    }

    /** Flips whether the shell is expanded and leaves every other id. */
    method ToggleExpansion(shell: Shell)
      modifies this
      ensures expandedShells == Toggled(old(expandedShells), shell.id)
      ensures IsExpanded(shell) <==> !old(IsExpanded(shell))
      ensures shells == old(shells) && selectedConfigFile == old(selectedConfigFile)
    {
      if shell.id in expandedShells {
        expandedShells := expandedShells - {shell.id};
      } else {
        expandedShells := expandedShells + {shell.id};
      }
    }

    predicate IsExpanded(shell: Shell)
      reads this
    {
      shell.id in expandedShells
    }

    method SelectConfigFile(file: ConfigFile)
      modifies this
      ensures selectedConfigFile == Some(file)
      ensures shells == old(shells) && expandedShells == old(expandedShells)
    {
      selectedConfigFile := Some(file);
    }

    /** How many existing files the shown shells list; none exactly when no
        shown shell has an existing file. */
    function TotalConfigFileCount(): (r: nat)
      reads this
      ensures r == 0 <==> forall i :: 0 <= i < |shells| ==> !HasExistingFile(shells[i].configFiles)
    {
      ExistingFileCountZero(shells);
      ExistingFileCount(shells)
    }
  }
}
