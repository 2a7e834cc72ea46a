/** Sequences of user events driving the workspace, the invariant every
    reachable state keeps, and the four-state view of the editor. */
module Session {
  import opened Wrappers
  import opened Notes
  import opened Workspace
  import Text
  import Display

  /** The user interactions the rendered component wires to its handlers.
      `Submit` carries what the handler reads from the environment: the clock
      reading and the identifier `String(Date.now())`. */
  datatype Event =
    | ClickNote(id: string)
    | ClickNew
    | ClickEdit
    | Submit(now: int, freshId: string)
    | ClickCancelEdit
    | TypeTitle(title: string)
    | TypeContent(content: string)
    | ClickDelete
    | ClickConfirmDelete
    | ClickKeepNote

  /** What the surroundings guarantee about an event: list items exist only
      for stored notes, and a save runs on a clock that has not gone back and
      obtains an identifier no stored note carries (a millisecond timestamp,
      never the empty string). */
  predicate EnvOk(s: State, ev: Event) {
    match ev
    case ClickNote(id) => HasId(s.notes, id)
    case Submit(now, freshId) => freshId != "" && !HasId(s.notes, freshId) && NotAfter(s.notes, now)
    case _ => true
  }

  /** The invariant of reachable states: identifiers are unique and never
      empty, no note was updated before it was created, and a selection names
      a stored note. */
  predicate Valid(s: State) {
    && UniqueIds(s.notes)
    && (forall i :: 0 <= i < |s.notes| ==> s.notes[i].id != "")
    && TimestampsOrdered(s.notes)
    && (s.selectedId.Some? ==> HasId(s.notes, s.selectedId.value))
  }

  /** One event, handled to completion. A save that raises the alert leaves
      the state as it was; a delete that would throw is not applied (it
      cannot happen in a valid state, see `DeleteWhenValid`). Only saving
      and deleting touch the stored collection. */
  function Step(s: State, ev: Event): (r: State)
    ensures !(ev.Submit? || ev.ClickConfirmDelete?) ==> r.notes == s.notes
    ensures ev.Submit? && Text.AllWhitespace(s.draft.title) ==> r == s
    ensures ev.ClickConfirmDelete? && DeleteNote(s).Failure? ==> r == s
    ensures ev.ClickConfirmDelete? && !HasSelection(s) ==> r == s
    ensures ev.ClickNote? ==> r.selectedId == Some(ev.id) && !r.isEditing
    ensures ev.ClickNew? ==> r.selectedId.None? && r.isEditing && r.draft == EmptyDraft
  {
    match ev
    case ClickNote(id) => SelectNote(s, id)
    case ClickNew => NewNote(s)
    case ClickEdit => EditNote(s)
    case Submit(now, freshId) => SaveNote(s, now, freshId).next
    case ClickCancelEdit => CancelEdit(s)
    case TypeTitle(title) => ChangeTitle(s, title)
    case TypeContent(content) => ChangeContent(s, content)
    case ClickDelete => ConfirmDeleteNote(s)
    case ClickConfirmDelete => DeleteNote(s).GetOr(s)
    case ClickKeepNote => CancelDelete(s)
  }

  /** The events of `evs`, handled one after the other from `s`. */
  function Run(s: State, evs: seq<Event>): State
    decreases |evs|
  {
    if |evs| == 0 then s else Run(Step(s, evs[0]), evs[1..])
  }

  /** Running a sequence is running its first event, then the rest. */
  lemma RunCons(s: State, ev: Event, evs: seq<Event>)
    ensures Run(s, [ev] + evs) == Run(Step(s, ev), evs)
  {
    assert ([ev] + evs)[1..] == evs;
  }

  /** In a valid state the truthiness test `if (selectedId)` is exactly the
      test for a selection: no stored note has the empty identifier. */
  lemma SelectionTruthyWhenValid(s: State)
    requires Valid(s)
    ensures HasSelection(s) <==> s.selectedId.Some?
  {
    if s.selectedId.Some? {
      var k :| 0 <= k < |s.notes| && s.notes[k].id == s.selectedId.value;
    }
  }

  /** Every event of `evs` meets `EnvOk` in the state it arrives in. */
  predicate Admissible(s: State, evs: seq<Event>)
    decreases |evs|
  {
    |evs| == 0 || (EnvOk(s, evs[0]) && Admissible(Step(s, evs[0]), evs[1..]))
  }

  /** The component mounts in a valid state when the stored notes have unique
      identifiers and ordered timestamps. */
  lemma InitValid(notes: seq<Note>)
    requires UniqueIds(notes) && TimestampsOrdered(notes)
    requires forall i :: 0 <= i < |notes| ==> notes[i].id != ""
    ensures Valid(Init(notes))
  {
  }

  /** Filtering keeps every per-note fact of a valid state. */
  lemma WithoutKeepsNoteFacts(notes: seq<Note>, id: string)
    requires TimestampsOrdered(notes)
    requires forall i :: 0 <= i < |notes| ==> notes[i].id != ""
    ensures TimestampsOrdered(Without(notes, id))
    ensures forall i :: 0 <= i < |Without(notes, id)| ==> Without(notes, id)[i].id != ""
  {
    var rest := Without(notes, id);
    forall i | 0 <= i < |rest|
      ensures rest[i].createdAt <= rest[i].updatedAt && rest[i].id != ""
    {
      assert rest[i] in notes;
    }
  }

  /** In a valid state with a selection, the delete filter removes exactly
      the selected note and leaves at least one note when more than one was
      stored. */
  lemma SelectedDeleteSplices(s: State) returns (k: nat)
    requires Valid(s) && HasSelection(s)
    ensures k < |s.notes| && Some(s.notes[k].id) == s.selectedId
    ensures Without(s.notes, s.selectedId.value) == s.notes[..k] + s.notes[k + 1..]
    ensures |Without(s.notes, s.selectedId.value)| == |s.notes| - 1
  {
    k := FirstIndexOf(s.notes, s.selectedId.value).value;
    WithoutUniqueIsSplice(s.notes, k);
  }

  /** In a valid state a delete never throws. With a selection it removes
      exactly the selected note, keeping the others in stored order; the new
      selection is the first of them, and is cleared exactly when none is
      left. */
  lemma DeleteWhenValid(s: State)
    requires Valid(s)
    ensures DeleteNote(s).Success?
    ensures HasSelection(s) ==>
              var r := DeleteNote(s).value;
              && (exists k :: 0 <= k < |s.notes| && Some(s.notes[k].id) == s.selectedId
                               && r.notes == s.notes[..k] + s.notes[k + 1..])
              && |r.notes| == |s.notes| - 1
              && (r.selectedId.None? <==> |r.notes| == 0)
              && Valid(r)
  {
    if HasSelection(s) {
      var id := s.selectedId.value;
      var k := SelectedDeleteSplices(s);
      var rest := Without(s.notes, id);
      assert |s.notes| > 1 ==> rest != [];
      var r := DeleteNote(s).value;
      assert r.notes == rest;
      WithoutKeepsUnique(s.notes, id);
      WithoutKeepsNoteFacts(s.notes, id);
      if r.selectedId.Some? {
        assert r.notes[0].id == r.selectedId.value;
      }
    }
  }

  /** A save in a valid state keeps every stored note: it is still found by
      its identifier, with the same creation time and an update time that
      has not moved back. */
  lemma {:induction false} SaveKeepsHistory(s: State, now: int, freshId: string)
    requires Valid(s) && EnvOk(s, Submit(now, freshId))
    ensures var r := SaveNote(s, now, freshId).next;
            forall n :: n in s.notes ==>
              && Find(r.notes, n.id).Some?
              && Find(r.notes, n.id).value.createdAt == n.createdAt
              && Find(r.notes, n.id).value.updatedAt >= n.updatedAt
  {
    var r := SaveNote(s, now, freshId).next;
    SaveKeepsValid(s, now, freshId);
    forall n | n in s.notes
      ensures && Find(r.notes, n.id).Some?
              && Find(r.notes, n.id).value.createdAt == n.createdAt
              && Find(r.notes, n.id).value.updatedAt >= n.updatedAt
    {
      var i :| 0 <= i < |s.notes| && s.notes[i] == n;
      var j := if |r.notes| == |s.notes| then i else i + 1;
      assert r.notes[j].id == n.id;
      assert Find(r.notes, n.id) == Some(r.notes[j]);
    }
  }

  /** A save on a consistent clock with a fresh identifier keeps the state
      valid. */
  lemma SaveKeepsValid(s: State, now: int, freshId: string)
    requires Valid(s) && EnvOk(s, Submit(now, freshId))
    ensures Valid(SaveNote(s, now, freshId).next)
  {
    var r := SaveNote(s, now, freshId).next;
    if !Text.AllWhitespace(s.draft.title) {
      if EditsInPlace(s) {
        var k :| 0 <= k < |s.notes| && s.notes[k].id == s.selectedId.value;
        assert r.notes[k].id == s.selectedId.value;
      } else {
        forall i, j | 0 <= i < j < |r.notes| ensures r.notes[i].id != r.notes[j].id {
          assert r.notes[j] == s.notes[j - 1];
          if i > 0 {
            assert r.notes[i] == s.notes[i - 1];
          }
        }
        assert r.notes[0].id == freshId;
      }
    }
  }

  /** Every event admitted by its surroundings keeps the state valid. */
  lemma StepPreservesValid(s: State, ev: Event)
    requires Valid(s) && EnvOk(s, ev)
    ensures Valid(Step(s, ev))
  {
    match ev
    case Submit(now, freshId) =>
      SaveKeepsValid(s, now, freshId);
    case ClickConfirmDelete =>
      DeleteWhenValid(s);
    case _ =>
  }

  /** Any admissible sequence of events from a valid state ends in a valid
      state. */
  lemma {:induction false} RunPreservesValid(s: State, evs: seq<Event>)
    requires Valid(s) && Admissible(s, evs)
    ensures Valid(Run(s, evs))
    decreases |evs|
  {
    if |evs| > 0 {
      StepPreservesValid(s, evs[0]);
      RunPreservesValid(Step(s, evs[0]), evs[1..]);
    }
  }

  /** The editor's four states: nothing shown, a note shown, a new note
      being written, a stored note being edited. */
  datatype Mode = IdleEmpty | IdleViewing | EditingNew | EditingExisting

  function ModeOf(s: State): Mode {
    if s.isEditing then
      if HasSelection(s) then EditingExisting else EditingNew
    else
      if HasSelection(s) then IdleViewing else IdleEmpty
  }

  /** How each admitted event moves the editor between its four states. */
  lemma ModeAfterStep(s: State, ev: Event)
    requires Valid(s) && EnvOk(s, ev)
    ensures var m := ModeOf(Step(s, ev));
            && (ev.ClickNote? ==> m == IdleViewing)
            && (ev.ClickNew? ==> m == EditingNew)
            && (ev.ClickEdit? ==> m == if HasSelection(s) then EditingExisting else ModeOf(s))
            && (ev.Submit? ==> m == if Text.AllWhitespace(s.draft.title) then ModeOf(s) else IdleViewing)
            && (ev.ClickCancelEdit? ==> m == if HasSelection(s) then IdleViewing else IdleEmpty)
            && (ev.ClickConfirmDelete? && HasSelection(s) ==>
                  m == if |s.notes| > 1 then IdleViewing else IdleEmpty)
            && (ev.ClickConfirmDelete? && !HasSelection(s) ==> m == ModeOf(s))
            && (ev.TypeTitle? || ev.TypeContent? || ev.ClickDelete? || ev.ClickKeepNote? ==>
                  m == ModeOf(s))
  {
    match ev
    case ClickNote(id) =>
      var k :| 0 <= k < |s.notes| && s.notes[k].id == id;
    case ClickConfirmDelete =>
      DeleteWhenValid(s);
      var r := DeleteNote(s).value;
      if HasSelection(s) && r.selectedId.Some? {
        StepPreservesValid(s, ev);
        assert r.notes[0].id != "";
      }
    case _ =>
  }

  /** After a successful save the saved draft is what the detail pane shows:
      the selected note carries the draft's title and content, so cancelling
      right away gives back the same draft. */
  lemma SavedDraftIsShown(s: State, now: int, freshId: string)
    requires Valid(s) && EnvOk(s, Submit(now, freshId))
    requires !Text.AllWhitespace(s.draft.title)
    ensures var r := SaveNote(s, now, freshId).next;
            && SelectedNote(r).Some?
            && SelectedNote(r).value.title == s.draft.title
            && SelectedNote(r).value.content == s.draft.content
            && CancelEdit(r).draft == s.draft
  {
    var r := SaveNote(s, now, freshId).next;
    if EditsInPlace(s) {
      var n := Find(r.notes, s.selectedId.value);
      var k :| 0 <= k < |s.notes| && s.notes[k].id == s.selectedId.value;
      assert r.notes[k].id == s.selectedId.value;
      var i :| 0 <= i < |r.notes| && r.notes[i] == n.value;
    } else {
      assert r.notes[0].id == freshId;
    }
  }

  /** A newly created note heads the list pane: its update time is the
      latest, and it comes first among notes tied with it. */
  lemma NewNoteHeadsList(s: State, now: int, freshId: string)
    requires Valid(s) && EnvOk(s, Submit(now, freshId))
    requires !Text.AllWhitespace(s.draft.title) && !EditsInPlace(s)
    ensures var r := SaveNote(s, now, freshId).next;
            Display.SortForDisplay(r.notes)[0] == r.notes[0]
  {
    var r := SaveNote(s, now, freshId).next;
    var rest := Display.SortForDisplay(s.notes);
    assert r.notes[1..] == s.notes;
    if |rest| > 0 {
      assert rest[0] in multiset(s.notes);
      assert rest[0].updatedAt <= now;
    }
  }
}
