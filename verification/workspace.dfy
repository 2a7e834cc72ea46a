/** The note workspace of `App`: its state record and one pure transition per
    event handler. Each handler runs to completion on one event, so the
    React state setters it calls are applied together as one step. */
module Workspace {
  import opened Wrappers
  import opened Notes
  import Text

  /** `tempNote`: the title and content being typed in the editor. */
  datatype Draft = Draft(title: string, content: string)

  /** The cleared draft `{ title: '', content: '' }`. */
  const EmptyDraft := Draft("", "")

  /** The component state: the stored collection and the transient UI state. */
  datatype State = State(
    notes: seq<Note>,
    selectedId: Option<string>,
    draft: Draft,
    isEditing: bool,
    showDeleteConfirm: bool)

  /** The JavaScript test `if (selectedId)`: `null` and the empty string are
      both falsy. */
  predicate HasSelection(s: State)
    ensures !HasSelection(s) <==> s.selectedId == None || s.selectedId == Some("")
  {
    s.selectedId.Some? && s.selectedId.value != ""
  }

  /** `selectedNote`: the first note carrying the selected id; `null` matches
      no note. */
  function SelectedNote(s: State): (r: Option<Note>)
    ensures r.Some? ==> s.selectedId == Some(r.value.id) && r.value in s.notes
    ensures s.selectedId.Some? && HasId(s.notes, s.selectedId.value) ==> r.Some?
    ensures r.Some? ==> exists k :: 0 <= k < |s.notes| && r.value == s.notes[k]
                                    && forall j :: 0 <= j < k ==> Some(s.notes[j].id) != s.selectedId
  {
    if s.selectedId.None? then None else Find(s.notes, s.selectedId.value)
  }

  /** `note ? { title: note.title, content: note.content } : { title: '', content: '' }` */
  function DraftOf(note: Option<Note>): (d: Draft)
    ensures note.None? ==> d == EmptyDraft
    ensures note.Some? ==> d.title == note.value.title && d.content == note.value.content
  {
    match note
    case None => EmptyDraft
    case Some(n) => Draft(n.title, n.content)
  }

  /** The state the component mounts with: the stored notes, the first of them
      (in stored order) selected, nothing being edited. */
  function Init(notes: seq<Note>): (s: State)
    ensures s.notes == notes
    ensures |notes| == 0 ==> s.selectedId.None?
    ensures |notes| > 0 ==> s.selectedId == Some(notes[0].id)
    ensures s.draft == EmptyDraft && !s.isEditing && !s.showDeleteConfirm
  {
    State(notes, if |notes| > 0 then Some(notes[0].id) else None, EmptyDraft, false, false)
  }

  /** `handleSelectNote(id)`: show note `id`, leaving any editing and any
      pending delete confirmation. */
  function SelectNote(s: State, id: string): (r: State)
    ensures r.notes == s.notes
    ensures r.selectedId == Some(id)
    ensures r.draft == EmptyDraft && !r.isEditing && !r.showDeleteConfirm
  {
    State(s.notes, Some(id), EmptyDraft, false, false)
  }

  /** `handleNewNote`: open an empty editor for a note not yet stored. */
  function NewNote(s: State): (r: State)
    ensures r.notes == s.notes
    ensures r.selectedId.None?
    ensures r.draft == EmptyDraft && r.isEditing && !r.showDeleteConfirm
  {
    State(s.notes, None, EmptyDraft, true, false)
  }

  /** `handleEditNote`: with a selection, open the editor on the selected
      note's title and content (an empty draft if no note carries the id);
      without one, only dismiss the delete confirmation. */
  function EditNote(s: State): (r: State)
    ensures r.notes == s.notes && r.selectedId == s.selectedId
    ensures !r.showDeleteConfirm
    ensures !HasSelection(s) ==> r.draft == s.draft && r.isEditing == s.isEditing
    ensures HasSelection(s) ==> r.isEditing
    ensures HasSelection(s) ==>
              (SelectedNote(s).Some? ==> r.draft.title == SelectedNote(s).value.title
                                         && r.draft.content == SelectedNote(s).value.content)
              && (SelectedNote(s).None? ==> r.draft == EmptyDraft)
  {
    if HasSelection(s) then
      s.(isEditing := true, draft := DraftOf(Find(s.notes, s.selectedId.value)), showDeleteConfirm := false)
    else
      s.(showDeleteConfirm := false)
  }

  /** The blocking message `alert('Title cannot be empty')`. */
  datatype Alert = TitleCannotBeEmpty

  /** What a save leads to: the next state, and the alert shown, if any. */
  datatype Reaction = Reaction(next: State, alert: Option<Alert>)

  /** Which branch of `handleSaveNote` runs: it edits in place when there is
      a selection and the editor is open, and creates a note otherwise. */
  predicate EditsInPlace(s: State) {
    HasSelection(s) && s.isEditing
  }

  /** `handleSaveNote`, given the clock reading `now` and the identifier
      `freshId` that `String(Date.now())` yields. A title that is blank after
      trimming raises the alert and changes nothing. Otherwise the edit
      branch rewrites the notes carrying the selected id in place and the
      create branch puts a new note in front of the collection and selects
      it; both close the editor and the delete confirmation and keep the
      draft. */
  function SaveNote(s: State, now: int, freshId: string): (r: Reaction)
    ensures r.alert.Some? <==> Text.AllWhitespace(s.draft.title)
    ensures r.alert.Some? ==> r.next == s
    ensures r.alert.None? ==>
              !r.next.isEditing && !r.next.showDeleteConfirm && r.next.draft == s.draft
    // edit branch
    ensures r.alert.None? && EditsInPlace(s) ==>
              && r.next.selectedId == s.selectedId
              && |r.next.notes| == |s.notes|
              && (forall i :: 0 <= i < |s.notes| ==>
                    r.next.notes[i].id == s.notes[i].id
                    && r.next.notes[i].createdAt == s.notes[i].createdAt)
              && (forall i :: 0 <= i < |s.notes| && Some(s.notes[i].id) == s.selectedId ==>
                    r.next.notes[i].title == s.draft.title
                    && r.next.notes[i].content == s.draft.content
                    && r.next.notes[i].updatedAt == now)
              && (forall i :: 0 <= i < |s.notes| && Some(s.notes[i].id) != s.selectedId ==>
                    r.next.notes[i] == s.notes[i])
    // create branch
    ensures r.alert.None? && !EditsInPlace(s) ==>
              && |r.next.notes| == |s.notes| + 1
              && r.next.notes[1..] == s.notes
              && r.next.notes[0] == Note(freshId, s.draft.title, s.draft.content, now, now)
              && r.next.selectedId == Some(freshId)
  {
    Text.BlankIffAllWhitespace(s.draft.title);
    if Text.IsBlank(s.draft.title) then
      Reaction(s, Some(TitleCannotBeEmpty))
    else if EditsInPlace(s) then
      var id := s.selectedId.value;
      var notes := Touch(s.notes, id, s.draft.title, s.draft.content, now);
      Reaction(s.(notes := notes, isEditing := false, showDeleteConfirm := false), None)
    else
      var note := Note(freshId, s.draft.title, s.draft.content, now, now);
      Reaction(s.(notes := [note] + s.notes, selectedId := Some(freshId),
                  isEditing := false, showDeleteConfirm := false), None)
  }

  /** The `TypeError` raised by reading `.id` of `undefined`. */
  datatype Crash = ReadIdOfUndefined

  /** `handleDeleteNote`: without a selection nothing happens. Otherwise the
      notes carrying the selected id are filtered out; the selection moves to
      the first surviving note in stored order when the collection held more
      than one note, and is cleared otherwise; the editor, draft and
      confirmation are reset. When more than one note is stored but all carry
      the selected id, the filtered list is empty and reading its first `id`
      throws. */
  function DeleteNote(s: State): (r: Result<State, Crash>)
    ensures !HasSelection(s) ==> r == Success(s)
    ensures r.Failure? <==>
              HasSelection(s) && |s.notes| > 1
              && forall i :: 0 <= i < |s.notes| ==> Some(s.notes[i].id) == s.selectedId
    ensures HasSelection(s) && r.Success? ==>
              && r.value.notes == Without(s.notes, s.selectedId.value)
              && (r.value.selectedId.Some? <==> |s.notes| > 1)
              && (r.value.selectedId.Some? ==> r.value.selectedId == Some(r.value.notes[0].id))
              && r.value.draft == EmptyDraft && !r.value.isEditing && !r.value.showDeleteConfirm
  {
    if !HasSelection(s) then
      Success(s)
    else
      var id := s.selectedId.value;
      var rest := Without(s.notes, id);
      assert rest == [] <==> forall i :: 0 <= i < |s.notes| ==> s.notes[i].id == id by {
        if rest != [] {
          assert rest[0] in rest;
        } else {
          forall i | 0 <= i < |s.notes| ensures s.notes[i].id == id {
            assert s.notes[i] in s.notes;
          }
        }
      }
      if |s.notes| > 1 && rest == [] then
        Failure(ReadIdOfUndefined)
      else
        Success(State(rest, if |s.notes| > 1 then Some(rest[0].id) else None, EmptyDraft, false, false))
  }

  /** `handleCancelEdit`: close the editor and the confirmation, keep the
      collection and the selection, and put the draft back to the selected
      note's stored title and content (empty when there is none). */
  function CancelEdit(s: State): (r: State)
    ensures r.notes == s.notes && r.selectedId == s.selectedId
    ensures !r.isEditing && !r.showDeleteConfirm
    ensures HasSelection(s) && SelectedNote(s).Some? ==>
              r.draft.title == SelectedNote(s).value.title
              && r.draft.content == SelectedNote(s).value.content
    ensures !(HasSelection(s) && SelectedNote(s).Some?) ==> r.draft == EmptyDraft
  {
    var draft := if HasSelection(s) then DraftOf(Find(s.notes, s.selectedId.value)) else EmptyDraft;
    s.(isEditing := false, showDeleteConfirm := false, draft := draft)
  }

  /** `handleTitleChange`: only the draft title changes. */
  function ChangeTitle(s: State, text: string): (r: State)
    ensures r.draft.title == text && r.draft.content == s.draft.content
    ensures r.notes == s.notes && r.selectedId == s.selectedId
    ensures r.isEditing == s.isEditing && r.showDeleteConfirm == s.showDeleteConfirm
  {
    s.(draft := s.draft.(title := text))
  }

  /** `handleContentChange`: only the draft content changes. */
  function ChangeContent(s: State, text: string): (r: State)
    ensures r.draft.content == text && r.draft.title == s.draft.title
    ensures r.notes == s.notes && r.selectedId == s.selectedId
    ensures r.isEditing == s.isEditing && r.showDeleteConfirm == s.showDeleteConfirm
  {
    s.(draft := s.draft.(content := text))
  }

  /** `confirmDeleteNote`: ask for confirmation; nothing else changes. */
  function ConfirmDeleteNote(s: State): (r: State)
    ensures r.showDeleteConfirm
    ensures r.notes == s.notes && r.selectedId == s.selectedId
    ensures r.draft == s.draft && r.isEditing == s.isEditing
  {
    s.(showDeleteConfirm := true)
  }

  /** The dialog's Cancel button, `setShowDeleteConfirm(false)`: dismiss the
      confirmation; nothing else changes. */
  function CancelDelete(s: State): (r: State)
    ensures !r.showDeleteConfirm
    ensures r.notes == s.notes && r.selectedId == s.selectedId
    ensures r.draft == s.draft && r.isEditing == s.isEditing
  {
    s.(showDeleteConfirm := false)
  }

  /** Cancelling an edit a second time has no further effect. */
  lemma CancelEditIdempotent(s: State)
    ensures CancelEdit(CancelEdit(s)) == CancelEdit(s)
  {
  }

  /** Dismissing the delete confirmation a second time has no further effect. */
  lemma CancelDeleteIdempotent(s: State)
    ensures CancelDelete(CancelDelete(s)) == CancelDelete(s)
  {
  }
}
