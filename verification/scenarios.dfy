/** End-to-end interaction sequences, and two concrete states that show the
    component choosing a selection by stored order rather than by the
    newest-first order of the list pane. */
module Scenarios {
  import opened Wrappers
  import opened Notes
  import opened Workspace
  import opened Session
  import Text
  import Display

  /** From an empty collection, New, typing a title and Save store exactly
      one note with that title, created and updated at the same instant, and
      select it. */
  lemma CreateFirstNote(title: string, now: int, freshId: string)
    requires !Text.AllWhitespace(title) && freshId != ""
    ensures var r := Run(Init([]), [ClickNew, TypeTitle(title), Submit(now, freshId)]);
            && r.notes == [Note(freshId, title, "", now, now)]
            && r.selectedId == Some(freshId)
            && ModeOf(r) == IdleViewing
  {
    var s1 := Step(Init([]), ClickNew);
    var s2 := Step(s1, TypeTitle(title));
    var s3 := Step(s2, Submit(now, freshId));
    RunCons(Init([]), ClickNew, [TypeTitle(title), Submit(now, freshId)]);
    RunCons(s1, TypeTitle(title), [Submit(now, freshId)]);
    RunCons(s2, Submit(now, freshId), []);
    assert s3.notes == [s3.notes[0]] + s3.notes[1..];
  }

  /** Saving a blank title right after New raises the alert and leaves the
      workspace, still writing a new note, exactly as it was. */
  lemma BlankTitleIsRejected(s: State, blank: string, now: int, freshId: string)
    requires Text.AllWhitespace(blank)
    ensures var r1 := Step(Step(s, ClickNew), TypeTitle(blank));
            && SaveNote(r1, now, freshId).alert == Some(TitleCannotBeEmpty)
            && Step(r1, Submit(now, freshId)) == r1
            && ModeOf(r1) == EditingNew
  {
  }

  /** Selecting a stored note, pressing Edit and typing new content leaves
      the editor open on that note with its title and the new content. */
  lemma EditorOnStoredNote(s: State, k: nat, body: string)
    requires Valid(s) && k < |s.notes|
    ensures var s3 := Step(Step(Step(s, ClickNote(s.notes[k].id)), ClickEdit), TypeContent(body));
            && s3.notes == s.notes && s3.selectedId == Some(s.notes[k].id)
            && EditsInPlace(s3) && s3.draft == Draft(s.notes[k].title, body)
  {
    var s1 := Step(s, ClickNote(s.notes[k].id));
    assert HasSelection(s1) && s1.notes == s.notes;
    assert Find(s.notes, s.notes[k].id) == Some(s.notes[k]);
  }

  /** Selecting a stored note, editing its content and saving rewrites that
      note in place: same identifier, title and creation time, the new
      content, and an update time moved forward to `now`. */
  lemma EditExistingNote(s: State, k: nat, body: string, now: int, freshId: string)
    requires Valid(s) && k < |s.notes| && NotAfter(s.notes, now)
    requires !Text.AllWhitespace(s.notes[k].title)
    ensures var r := Run(s, [ClickNote(s.notes[k].id), ClickEdit, TypeContent(body), Submit(now, freshId)]);
            && |r.notes| == |s.notes|
            && r.notes[k] == s.notes[k].(content := body, updatedAt := now)
            && r.notes[k].updatedAt >= s.notes[k].updatedAt
            && r.selectedId == Some(s.notes[k].id)
  {
    var id := s.notes[k].id;
    var s1 := Step(s, ClickNote(id));
    var s2 := Step(s1, ClickEdit);
    var s3 := Step(s2, TypeContent(body));
    RunCons(s, ClickNote(id), [ClickEdit, TypeContent(body), Submit(now, freshId)]);
    RunCons(s1, ClickEdit, [TypeContent(body), Submit(now, freshId)]);
    RunCons(s2, TypeContent(body), [Submit(now, freshId)]);
    RunCons(s3, Submit(now, freshId), []);
    EditorOnStoredNote(s, k, body);
    SaveRewritesSelected(s3, k, now, freshId);
  }

  /** Saving an open editor on the note at position `k` rewrites that note
      with the draft and `now`, and keeps the selection. */
  lemma SaveRewritesSelected(t: State, k: nat, now: int, freshId: string)
    requires EditsInPlace(t) && k < |t.notes| && t.selectedId == Some(t.notes[k].id)
    requires !Text.AllWhitespace(t.draft.title)
    ensures var r := Step(t, Submit(now, freshId));
            && |r.notes| == |t.notes|
            && r.notes[k] == t.notes[k].(title := t.draft.title, content := t.draft.content, updatedAt := now)
            && r.selectedId == t.selectedId
  {
    var n := SaveNote(t, now, freshId).next.notes[k];
    assert n.id == t.notes[k].id && n.createdAt == t.notes[k].createdAt;
  }

  /** Selecting a note, editing its content and cancelling discards the
      typed text: the collection is untouched and the draft shows the stored
      note again. */
  lemma CancelDiscardsEdits(s: State, id: string, text: string)
    requires Valid(s) && HasId(s.notes, id)
    ensures var r := Run(s, [ClickNote(id), ClickEdit, TypeContent(text), ClickCancelEdit]);
            && r.notes == s.notes
            && r.selectedId == Some(id)
            && r.draft == DraftOf(Find(s.notes, id))
            && ModeOf(r) == IdleViewing
  {
    var s1 := Step(s, ClickNote(id));
    var s2 := Step(s1, ClickEdit);
    var s3 := Step(s2, TypeContent(text));
    RunCons(s, ClickNote(id), [ClickEdit, TypeContent(text), ClickCancelEdit]);
    RunCons(s1, ClickEdit, [TypeContent(text), ClickCancelEdit]);
    RunCons(s2, TypeContent(text), [ClickCancelEdit]);
    RunCons(s3, ClickCancelEdit, []);
    var k :| 0 <= k < |s.notes| && s.notes[k].id == id;
  }

  /** Three stored notes, the oldest first in storage and the newest last. */
  const Older := Note("1", "older", "", 1, 1)
  const Middle := Note("2", "middle", "", 2, 2)
  const Newest := Note("3", "newest", "", 3, 9)

  /** The component mounts on the first stored note, which need not be the
      one the list pane shows on top. */
  lemma MountSelectsFirstStored()
    ensures Init([Older, Newest]).selectedId == Some(Older.id)
    ensures Display.SortForDisplay([Older, Newest])[0] == Newest
  {
    assert [Older, Newest][1..] == [Newest];
  }

  /** After a delete the selection moves to the first survivor in stored
      order, not to the most recently updated survivor heading the list. */
  lemma DeleteSelectsFirstStored()
    ensures var s := Init([Older, Middle, Newest]);
            var r := DeleteNote(s);
            && r == Success(State([Middle, Newest], Some(Middle.id), EmptyDraft, false, false))
            && Display.SortForDisplay(r.value.notes)[0] == Newest
  {
    var s := Init([Older, Middle, Newest]);
    assert [Older, Middle, Newest][1..] == [Middle, Newest];
    assert [Middle, Newest][1..] == [Newest];
    assert Without([Older, Middle, Newest], "1") == [Middle, Newest];
  }
}
