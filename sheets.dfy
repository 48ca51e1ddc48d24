/**
  The add and edit sheets: the fields a user fills in, when the sheet may be
  submitted, and the item each sheet builds from its fields.
 */
module Sheets {
  import opened Text
  import opened Model

  /** The input fields both sheets hold. */
  datatype SheetState = SheetState(
    kind: ItemKind,
    name: string,
    value: string,
    comment: string,
    isExport: bool)

  /** The add sheet opens on an exported plain variable with empty fields. */
  function AddSheetInitial(): SheetState
  {
    SheetState(EnvironmentVariable, "", "", "", true)
  }

  /** A sheet may be submitted when its trimmed name is non-empty and, for a
      source line, its trimmed value is non-empty too. */
  predicate IsValid(s: SheetState)
  {
    Trim(s.name) != "" && (s.kind == Source ==> Trim(s.value) != "")
  }

  /** Validity in terms of the fields themselves: the name holds a character
      other than a space or tab, and so does the value of a source line. */
  lemma IsValidMeans(s: SheetState)
    ensures IsValid(s) <==>
      (exists i :: 0 <= i < |s.name| && !IsBlank(s.name[i])) &&
      (s.kind == Source ==> exists i :: 0 <= i < |s.value| && !IsBlank(s.value[i]))
  {
    TrimSpec(s.name);
    TrimSpec(s.value);
  }

  /** The freshly opened add sheet cannot be submitted. */
  lemma AddSheetInitialInvalid()
    ensures !IsValid(AddSheetInitial())
  {
    assert Trim("") == "";
  }

  /** A comment field as stored: absent when it trims to nothing. */
  function TrimmedComment(c: string): (r: Option<string>)
    ensures r.None? <==> forall i :: 0 <= i < |c| ==> IsBlank(c[i])
    ensures r.Some? ==> r.value == Trim(c) && r.value != "" && !HasEdgeBlank(r.value)
  {
    TrimSpec(c);
    if Trim(c) == "" then None else Some(Trim(c))
  }

  /** The item a sheet builds at the given line number: trimmed fields, no
      raw line, the chosen kind and export flag. */
  function BuildItem(s: SheetState, lineNumber: int): (r: EnvVariable)
    ensures r.kind == s.kind && r.isExport == s.isExport && !r.isConditional
    ensures r.lineNumber == lineNumber && r.rawLine == ""
    ensures r.name == Trim(s.name) && r.value == Trim(s.value) && r.comment == TrimmedComment(s.comment)
    ensures !HasEdgeBlank(r.name) && !HasEdgeBlank(r.value)
    ensures r.comment.None? <==> forall i :: 0 <= i < |s.comment| ==> IsBlank(s.comment[i])
    ensures r.comment.Some? ==> r.comment.value != "" && !HasEdgeBlank(r.comment.value)
  {
    TrimSpec(s.name);
    TrimSpec(s.value);
    EnvVariable(Trim(s.name), Trim(s.value), lineNumber, TrimmedComment(s.comment),
                s.isExport, false, "", s.kind)
  }

  /** The add sheet's item: it has no line yet, and a valid sheet gives it
      a name, and a source line a value. */
  function AddItem(s: SheetState): (r: EnvVariable)
    ensures r.lineNumber == 0 && r.rawLine == "" && r.kind == s.kind && r.isExport == s.isExport
    ensures r.name == Trim(s.name) && r.value == Trim(s.value) && r.comment == TrimmedComment(s.comment)
    ensures !r.isConditional
    ensures IsValid(s) ==> r.name != "" && (r.kind == Source ==> r.value != "")
  {
    BuildItem(s, 0)
  }

  /** The edit sheet opens on the item's own fields; a missing comment shows
      as an empty field. */
  function EditSheetInitial(v: EnvVariable): (s: SheetState)
    ensures s.kind == v.kind && s.name == v.name && s.value == v.value && s.isExport == v.isExport
    ensures v.comment.None? ==> s.comment == ""
    ensures v.comment.Some? ==> s.comment == v.comment.value
  {
    SheetState(v.kind, v.name, v.value, if v.comment.Some? then v.comment.value else "", v.isExport)
  }

  /** The edit sheet's item: it stays on the edited item's line. */
  function SaveChanges(original: EnvVariable, s: SheetState): (r: EnvVariable)
    ensures r.lineNumber == original.lineNumber && r.rawLine == ""
    ensures r.kind == s.kind && r.isExport == s.isExport
    ensures r.name == Trim(s.name) && r.value == Trim(s.value) && r.comment == TrimmedComment(s.comment)
    ensures !r.isConditional
    ensures IsValid(s) ==> r.name != "" && (r.kind == Source ==> r.value != "")
  {
    BuildItem(s, original.lineNumber)
  }

  /** An item whose fields are already as a sheet stores them. */
  predicate Normalised(v: EnvVariable)
  {
    !HasEdgeBlank(v.name) && !HasEdgeBlank(v.value) &&
    (v.comment.Some? ==> v.comment.value != "" && !HasEdgeBlank(v.comment.value))
  }

  /** A normalised item's own fields build it again. */
  lemma {:induction false} RebuildNormalised(v: EnvVariable)
    requires Normalised(v)
    ensures BuildItem(EditSheetInitial(v), v.lineNumber) == v.(rawLine := "", isConditional := false)
  {
    var s := EditSheetInitial(v);
    TrimNoEdgeBlank(v.name);
    TrimNoEdgeBlank(v.value);
    if v.comment.Some? {
      TrimNoEdgeBlank(v.comment.value);
      assert TrimmedComment(s.comment) == v.comment;
    } else {
      assert TrimmedComment(s.comment) == None by { assert s.comment == ""; }
    }
  }

  /** Saving without edits keeps the kind, the export flag, the line and a
      missing comment; an item already normalised comes back the same,
      except that its raw line is dropped and it is no longer conditional. */
  lemma {:induction false} SaveUnedited(v: EnvVariable)
    ensures SaveChanges(v, EditSheetInitial(v)).kind == v.kind
    ensures SaveChanges(v, EditSheetInitial(v)).isExport == v.isExport
    ensures SaveChanges(v, EditSheetInitial(v)).lineNumber == v.lineNumber
    ensures v.comment.None? ==> SaveChanges(v, EditSheetInitial(v)).comment.None?
    ensures Normalised(v) ==>
      SaveChanges(v, EditSheetInitial(v)) == v.(rawLine := "", isConditional := false)
  {
    var s := EditSheetInitial(v);
    if v.comment.None? {
      assert |s.comment| == 0;
    }
    if Normalised(v) {
      RebuildNormalised(v);
    }
  }

  /** A saved item, opened and saved again without edits, is unchanged. */
  lemma SaveTwice(original: EnvVariable, s: SheetState)
    ensures var r := SaveChanges(original, s);
      SaveChanges(r, EditSheetInitial(r)) == r
  {
    var r := SaveChanges(original, s);
    assert r == BuildItem(s, original.lineNumber);
    assert Normalised(r);
    SaveUnedited(r);
    assert r.(rawLine := "", isConditional := false) == r;
  }

  predicate AllBlank(s: string)
  {
    forall i :: 0 <= i < |s| ==> IsBlank(s[i])
  }

  /** Spaces and tabs typed around the fields do not reach the item: a sheet
      whose name, value and comment are padded versions of trimmed texts
      builds the item holding exactly those texts. */
  lemma {:induction false} BuildFromPadded(kind: ItemKind, isExport: bool, lineNumber: int,
                                           pre: string, post: string, name: string, value: string, comment: string)
    requires AllBlank(pre) && AllBlank(post)
    requires name != "" && !HasEdgeBlank(name) && value != "" && !HasEdgeBlank(value)
    requires comment != "" && !HasEdgeBlank(comment)
    ensures BuildItem(SheetState(kind, pre + name + post, pre + value + post, pre + comment + post, isExport), lineNumber) ==
      EnvVariable(name, value, lineNumber, Some(comment), isExport, false, "", kind)
  {
    TrimBlankEdges(pre, name, post);
    TrimBlankEdges(pre, value, post);
    TrimBlankEdges(pre, comment, post);
  }
}
