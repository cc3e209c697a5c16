/** The storage manager and a list model connected by signals. */
module NotesSignals {
  import opened StorageIndex
  import opened StorageInvariants
  import opened StorageRuns
  import opened NoteOrder
  import opened NotesViews
  import opened NotesViewSteps
  import opened StorageManagerClass
  import opened NotesListModelClass

  lemma NoneIsNoId(s: Store)
    requires Inv(s)
    ensures NO_ID !in s.notebookIds && NO_ID !in s.tagIds && NO_ID !in s.live
    ensures forall k :: Distinct(ListAt(s.tagNotes, k))
  {
  }

  method PerformLinks(model: NotesListModel, op: Op)
    requires SetsLinks(op) && Inv(model.storage.State()) && Addressed(model.storage.State(), op)
    modifies model`noteIds, model.storage
    ensures model.storage.State() == Apply(old(model.storage.State()), op)
    ensures model.noteIds == ViewAfter(old(model.storage.State()), model.view, old(model.noteIds), op)
  {
    hide Inv, TagsSlot, FavouriteSlot, NotebookCreated, NotebookSet, TagCreated, TagsSet, TagAdded, FavouriteSet,
      Elements;
    var storage := model.storage;
    NoneIsNoId(storage.State());
    match op {
      case CreateNotebook(existing, first) =>
        var nb := storage.CreateNotebook(existing, first);
        model.NotebookForNoteChanged(first, nb);
      case SetNotebook(n, nb) =>
        var changed := storage.SetNotebookForNote(n, nb);
        if changed {
          model.NotebookForNoteChanged(n, nb);
        }
      case CreateTag(existing, first) =>
        var t := storage.CreateTag(existing, first);
        model.TagsForNoteChanged(first, storage.ReadGist(first).tagIds);
      case SetTags(n, tags) =>
        var changed := storage.SetTagsOnNote(n, tags);
        if changed {
          model.TagsForNoteChanged(n, tags);
        }
      case AddTag(n, t) =>
        var had := t in storage.ReadGist(n).tagIds;
        storage.AddTagToNote(n, t);
        if t != NO_ID && !had {
          model.TagsForNoteChanged(n, storage.ReadGist(n).tagIds);
        }
      case SetFavourite(n, favourite) =>
        var changed := storage.SetFavouriteNote(n, favourite);
        if changed {
          model.NoteFavouritenessChanged(n, favourite);
        }
    }
  }

  method PerformOther(model: NotesListModel, op: Op)
    requires !SetsLinks(op) && !op.CreateNote? && !op.ExpungeNotebook? && Inv(model.storage.State())
    requires Addressed(model.storage.State(), op)
    modifies model`noteIds, model.storage
    ensures model.storage.State() == Apply(old(model.storage.State()), op)
    ensures model.noteIds == ViewAfter(old(model.storage.State()), model.view, old(model.noteIds), op)
  {
    hide Inv, NoteCreatedSlot, DisplayDataSlot, TrashednessSlot, NoteEdited, NoteRefreshed, MovedToTrash,
      Restored, NoteExpunged, NoteExpungedFromTrash, TagExpunged;
    var storage := model.storage;
    NoneIsNoId(storage.State());
    match op {
      case ReceiveNote(created, updated, guid) =>
        var n := storage.SetSyncedNoteGist(NO_ID, created, updated, guid);
        model.NoteCreated(n);
      case RefreshNote(n, created, updated, guid) =>
        var before := storage.ReadGist(n).updatedTime;
        var _ := storage.SetSyncedNoteGist(n, created, updated, guid);
        model.NoteDisplayDataChanged(n, before != updated);
      case EditNote(n, now, changed) =>
        storage.UpdateTimeOfNote(n, now, changed);
        if changed {
          model.NoteDisplayDataChanged(n, true);
        } else {
          SilentEdit(old(storage.State()), model.view, model.noteIds, op);
        }
      case SyncNote(n, updated) =>
        var before := storage.ReadGist(n).updatedTime;
        storage.UpdateTimeOfNote(n, updated, false);
        model.NoteDisplayDataChanged(n, before != updated);
      case SetDefault(nb) =>
        storage.SetDefaultNotebookId(nb);
      case Trash(n) =>
        var moved := storage.MoveNoteToTrash(n);
        if moved {
          model.NoteTrashednessChanged(n, true);
        }
      case Restore(n) =>
        var restored := storage.RestoreNoteFromTrash(n);
        if restored {
          model.NoteTrashednessChanged(n, false);
        }
      case Expunge(n) =>
        storage.ExpungeNote(n);
        model.NoteExpunged(n);
      case ExpungeFromTrash(n) =>
        var expunged := storage.ExpungeNoteFromTrash(n);
        if expunged {
          model.NoteExpunged(n);
        }
      case ExpungeTag(t) =>
        storage.ExpungeTag(t);
    }
  }

  method PerformCreateNote(model: NotesListModel, now: int)
    requires Inv(model.storage.State())
    modifies model`noteIds, model.storage
    ensures model.storage.State() == Apply(old(model.storage.State()), CreateNote(now))
    ensures model.noteIds == ViewAfter(old(model.storage.State()), model.view, old(model.noteIds), CreateNote(now))
  {
    hide Inv, NoteCreatedSlot, NotebookSlot, NotebookSet;
    NewNoteIsLast(model.storage.State(), now);
    var notebook := model.storage.defaultNotebookId;
    var n := model.storage.CreateNote(now);
    model.NoteCreated(n);
    model.NotebookForNoteChanged(n, notebook);
  }

  lemma NewNoteIsLast(s: Store, now: int)
    ensures NoteCreated(s, now).maxNote == s.maxNote + 1
  {
  }

  method PerformExpungeNotebook(model: NotesListModel, nb: Id)
    requires Inv(model.storage.State())
    modifies model`noteIds, model.storage
    ensures model.storage.State() == Apply(old(model.storage.State()), ExpungeNotebook(nb))
    ensures model.noteIds == ViewAfter(old(model.storage.State()), model.view, old(model.noteIds), ExpungeNotebook(nb))
  {
    hide Inv, NotebookSlot, NotebookExpunged, MovedByExpunge;
    NoneIsNoId(model.storage.State());
    var target := if nb == model.storage.defaultNotebookId then NO_ID else model.storage.defaultNotebookId;
    var moved := model.storage.ExpungeNotebook(nb);
    ghost var s' := model.storage.State();
    var i := 0;
    while i < |moved|
      invariant i <= |moved|
      invariant model.noteIds == MovesFollowed(s', model.view, old(model.noteIds), moved[..i], target)
      modifies model`noteIds
    {
      assert moved[..i + 1][..i] == moved[..i];
      model.NotebookForNoteChanged(moved[i], target);
      i := i + 1;
    }
    assert moved[..i] == moved;
  }

  lemma SilentEdit(s: Store, v: View, list: seq<Id>, op: Op)
    requires op.EditNote? && !op.changed
    ensures ViewAfter(s, v, list, op) == list
  {
    hide NoteEdited;
  }

  /** An operation and the slot it triggers: the index does what its specification says, and the list model ends as a
      reload would show it, if and only if it follows the operation well. */
  method Perform(model: NotesListModel, op: Op)
    requires Sound(model.storage.State()) && NewestFirst(model.storage.State(), model.storage.State().allNotes)
    requires Addressed(model.storage.State(), op) && Allowed(model.storage.State(), op)
    requires model.noteIds == Load(model.storage.State(), model.view)
    modifies model`noteIds, model.storage
    ensures model.storage.State() == Apply(old(model.storage.State()), op) && Sound(model.storage.State())
    ensures model.noteIds == Load(model.storage.State(), model.view)
        <==> FollowsWell(old(model.storage.State()), model.view, op)
  {
    hide Inv, HomeInv, NewestFirst, Apply, ViewAfter, Load, FollowsWell, Addressed, Allowed;
    ViewFollowsIff(model.storage.State(), model.view, op);
    StepSoundIff(model.storage.State(), op);
    if SetsLinks(op) {
      PerformLinks(model, op);
    } else if op.CreateNote? {
      PerformCreateNote(model, op.now);
    } else if op.ExpungeNotebook? {
      PerformExpungeNotebook(model, op.notebook);
    } else {
      PerformOther(model, op);
    }
  }
}
