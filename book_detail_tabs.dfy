/**
 * The book detail tabs: the description tab, and the reading-sheet tab with
 * its template choice, the editor that starts and saves a sheet, and the
 * text shown for each answer.
 */
module BookDetailTabs {
  import opened Types
  import opened Seqs
  import opened ReadingSheets
  import opened LibraryStore

  // ---------------------------------------------------------------------
  // Templates and labels
  // ---------------------------------------------------------------------

  /**
   * `getFieldsForType`. `LIBRE_FIELDS` is not modelled; the free-form
   * template's fields come in as `libreFields`.
   */
  function FieldsForType(t: SheetType, libreFields: seq<SheetField>): (fields: seq<SheetField>)
    ensures t == Essai ==> fields == EssaiFields
    ensures t == RomanHistoire ==> fields == RomanFields
    ensures t == Libre ==> fields == libreFields
  {
    match t
    case Essai => EssaiFields
    case RomanHistoire => RomanFields
    case Libre => libreFields
  }

  /** `getSheetLabel`. */
  function SheetLabel(t: SheetType): string {
    match t
    case Essai => "Essai"
    case RomanHistoire => "Roman / Histoire"
    case Libre => "Fiche libre"
  }

  /** The three templates are told apart by their labels. */
  lemma SheetLabels(a: SheetType, b: SheetType)
    ensures SheetLabel(Essai) == "Essai"
    ensures SheetLabel(RomanHistoire) == "Roman / Histoire"
    ensures SheetLabel(Libre) == "Fiche libre"
    ensures SheetLabel(a) == SheetLabel(b) <==> a == b
  {
  }

  // ---------------------------------------------------------------------
  // The description tab
  // ---------------------------------------------------------------------

  const NoDescription: string := "Aucune description disponible pour ce livre."

  /** `renderDescription`: the description, or a fixed text when it is missing or empty. */
  function RenderDescription(description: Option<string>): (html: string)
    ensures html != ""
    ensures description.Some? && description.value != "" ==> html == description.value
    ensures description.None? || description.value == "" ==> html == NoDescription
  {
    if description.Some? && description.value != "" then description.value else NoDescription
  }

  // ---------------------------------------------------------------------
  // The sheet editor
  // ---------------------------------------------------------------------

  /**
   * The `reduce` of `handleStartSheet`: one empty answer per field id of
   * the template, and nothing else.
   */
  function InitialResponses(fields: seq<SheetField>): (responses: map<string, string>)
    ensures responses.Keys == set id | id in FieldIds(fields)
    ensures forall k :: k in responses ==> responses[k] == ""
  {
    if fields == [] then map[]
    else
      var init := fields[..|fields| - 1];
      assert FieldIds(fields) == FieldIds(init) + [fields[|fields| - 1].id];
      InitialResponses(init)[fields[|fields| - 1].id := ""]
  }

  /** A template with distinct ids starts with as many answers as it has fields. */
  lemma InitialResponsesSize(fields: seq<SheetField>)
    requires Distinct(FieldIds(fields))
    ensures |InitialResponses(fields)| == |fields|
  {
    DistinctCardinality(FieldIds(fields));
    assert InitialResponses(fields).Keys == set id | id in FieldIds(fields);
  }

  datatype Tab = Resume | Fiche

  /** The component's local state: the selected tab, the template being filled in, and its answers. */
  datatype Editor = Editor(activeTab: Tab, sheetType: Option<SheetType>, sheetResponses: map<string, string>)

  function InitialEditor(): (e: Editor)
    ensures e.activeTab == Resume && e.sheetType.None? && e.sheetResponses == map[]
  {
    Editor(Resume, None, map[])
  }

  /** `handleStartSheet(t)`: choose the template and blank out one answer per field. */
  function StartSheet(e: Editor, t: SheetType, libreFields: seq<SheetField>): (r: Editor)
    ensures r.activeTab == e.activeTab
    ensures r.sheetType == Some(t)
    ensures r.sheetResponses.Keys == set id | id in FieldIds(FieldsForType(t, libreFields))
    ensures forall k :: k in r.sheetResponses ==> r.sheetResponses[k] == ""
  {
    Editor(e.activeTab, Some(t), InitialResponses(FieldsForType(t, libreFields)))
  }

  /** What `handleSaveSheet` leaves: the next editor state and the sheet it passes to the store, if any. */
  datatype SaveOutcome = SaveOutcome(editor: Editor, saved: Option<ReadingSheet>)

  /**
   * `handleSaveSheet`: without a chosen template nothing happens; otherwise
   * the answers are saved as a sheet created and updated at `now`, the
   * template choice is cleared and the sheet tab is selected.
   */
  function SaveSheet(e: Editor, now: int): (r: SaveOutcome)
    ensures e.sheetType.None? ==> r.editor == e && r.saved.None?
    ensures e.sheetType.Some? ==> r.saved.Some?
    ensures r.saved.Some? ==>
              && r.saved.value.sheetType == e.sheetType.value
              && r.saved.value.responses == e.sheetResponses
              && r.saved.value.createdAt == r.saved.value.updatedAt == now
    ensures e.sheetType.Some? ==>
              r.editor.sheetType.None? && r.editor.activeTab == Fiche && r.editor.sheetResponses == e.sheetResponses
  {
    match e.sheetType
    case None => SaveOutcome(e, None)
    case Some(t) =>
      SaveOutcome(e.(sheetType := None, activeTab := Fiche), Some(ReadingSheet(t, e.sheetResponses, now, now)))
  }

  // ---------------------------------------------------------------------
  // Displaying a saved sheet
  // ---------------------------------------------------------------------

  const Unset: string := "Non renseigné"

  /** The text shown for one field of a saved sheet. */
  function DisplayValue(field: SheetField, responses: map<string, string>): (v: string)
    ensures v != ""
    ensures field.id !in responses || responses[field.id] == "" ==> v == Unset
    ensures field.id in responses && responses[field.id] != "" && field.fieldType == Some(Rating) ==>
              v == responses[field.id] + " / 5"
    ensures field.id in responses && responses[field.id] != "" && field.fieldType != Some(Rating) ==>
              v == responses[field.id]
  {
    var raw := if field.id in responses then responses[field.id] else "";
    if raw == "" then Unset
    else if field.fieldType == Some(Rating) then raw + " / 5"
    else raw
  }

  /** The texts shown for a saved sheet, one per field of its template. */
  function Displayed(sheet: ReadingSheet, libreFields: seq<SheetField>): (vs: seq<string>)
    ensures |vs| == |FieldsForType(sheet.sheetType, libreFields)|
    ensures forall i :: 0 <= i < |vs| ==>
              vs[i] == DisplayValue(FieldsForType(sheet.sheetType, libreFields)[i], sheet.responses)
  {
    var fields := FieldsForType(sheet.sheetType, libreFields);
    seq(|fields|, i requires 0 <= i < |fields| => DisplayValue(fields[i], sheet.responses))
  }

  /** A novel/history sheet shows every filled-in answer as written. */
  lemma RomanShowsVerbatim(sheet: ReadingSheet, libreFields: seq<SheetField>, i: int)
    requires sheet.sheetType == RomanHistoire
    requires 0 <= i < |RomanFields|
    requires RomanFields[i].id in sheet.responses && sheet.responses[RomanFields[i].id] != ""
    ensures Displayed(sheet, libreFields)[i] == sheet.responses[RomanFields[i].id]
  {
    RomanUntyped(i);
  }

  /**
   * Starting a sheet and saving it untouched, into a library that holds the
   * book, leaves on each of the book's entries a sheet of the chosen
   * template, updated when the store saved it, with one blank answer per
   * field, so that every field shows as not filled in.
   */
  lemma SavedBlankSheet(
    e: Editor, t: SheetType, libreFields: seq<SheetField>, now: int,
    library: seq<LibraryBook>, bookId: string, storedAt: int, i: int)
    requires 0 <= i < |library| && library[i].book.id == bookId
    ensures var out := SaveSheet(StartSheet(e, t, libreFields), now);
      && out.saved.Some?
      && out.editor.activeTab == Fiche
      && var entry := WithSheet(library, bookId, out.saved.value, storedAt)[i];
         && entry.readingSheet.Some?
         && entry.readingSheet.value.sheetType == t
         && entry.readingSheet.value.updatedAt == storedAt
         && entry.readingSheet.value.responses.Keys == set id | id in FieldIds(FieldsForType(t, libreFields))
         && forall k :: 0 <= k < |FieldsForType(t, libreFields)| ==>
              Displayed(entry.readingSheet.value, libreFields)[k] == Unset
  {
    var started := StartSheet(e, t, libreFields);
    var out := SaveSheet(started, now);
    var sheet := WithSheet(library, bookId, out.saved.value, storedAt)[i].readingSheet.value;
    assert sheet.responses == started.sheetResponses;
    forall k | 0 <= k < |FieldsForType(t, libreFields)|
      ensures Displayed(sheet, libreFields)[k] == Unset
    {
      var f := FieldsForType(t, libreFields)[k];
      assert FieldIds(FieldsForType(t, libreFields))[k] == f.id;
      assert f.id in sheet.responses && sheet.responses[f.id] == "";
    }
  }
}
