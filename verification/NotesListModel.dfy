/** The list model behind a view of notes: it keeps the ids shown, and changes them when the storage manager reports a
    change. */
module NotesListModelClass {
  import opened StorageIndex
  import opened NoteOrder
  import opened NotesViews
  import opened StorageManagerClass

  /** The first `done` ids of `list` have been filtered, into the first `i` of `ordered`; the others are still there. */
  ghost predicate IsFiltered(list: seq<Id>, chosen: seq<Id>, done: nat, ordered: seq<Id>, i: nat) {
    done <= |list| && i <= |ordered| && ordered == Existing(list[..done], chosen) + list[done..]
    && i == |Existing(list[..done], chosen)|
  }

  lemma NoneFiltered(list: seq<Id>, chosen: seq<Id>)
    ensures IsFiltered(list, chosen, 0, list, 0)
  {
    ExistingOfNone(chosen);
    assert list[..0] == [] && [] + list[0..] == list;
  }

  lemma OneFiltered(list: seq<Id>, chosen: seq<Id>, done: nat, ordered: seq<Id>, i: nat)
    requires IsFiltered(list, chosen, done, ordered, i) && i < |ordered|
    ensures done < |list|
    ensures if ordered[i] in chosen then IsFiltered(list, chosen, done + 1, ordered, i + 1)
            else IsFiltered(list, chosen, done + 1, ordered[..i] + ordered[i + 1..], i)
  {
    hide Existing;
    var kept, x, rest := Existing(list[..done], chosen), list[done], list[done + 1..];
    assert list[done..] == [x] + rest && list[..done + 1] == list[..done] + [x];
    ExistingOfLast(list[..done], x, chosen);
    assert kept + ([x] + rest) == kept + [x] + rest;
    assert ordered[..i] == kept && ordered[i + 1..] == rest;
  }

  lemma AllFiltered(list: seq<Id>, chosen: seq<Id>, done: nat, ordered: seq<Id>, i: nat)
    requires IsFiltered(list, chosen, done, ordered, i) && i == |ordered|
    ensures ordered == Existing(list, chosen) && done == |list|
  {
    assert list[..|list|] == list;
  }

  class NotesListModel {
    const storage: StorageManager
    var view: View
    var noteIds: seq<Id>

    constructor (storage: StorageManager)
      ensures this.storage == storage && view == NoNotes && noteIds == []
    {
      this.storage := storage;
      view := NoNotes;
      noteIds := [];
    }

    method SetNotesListQuery(v: View)
      modifies this
      ensures view == v
      ensures noteIds == if v == old(view) then old(noteIds) else Load(storage.State(), v)
    {
      if view != v {
        view := v;
        LoadNotes();
      }
    }

    /** The ids of `list` that are chosen, in the order of `list`. */
    method Choose(list: seq<Id>, chosen: seq<Id>) returns (ordered: seq<Id>)
      ensures ordered == Existing(list, chosen)
    {
      hide Existing, IsFiltered;
      ordered := list;
      NoneFiltered(list, chosen);
      ghost var done := 0;
      var i := 0;
      while i < |ordered|
        invariant i <= |ordered| && IsFiltered(list, chosen, done, ordered, i)
        decreases |list| - done
      {
        OneFiltered(list, chosen, done, ordered, i);
        if ordered[i] in chosen {
          i := i + 1;
        } else {
          ordered := ordered[..i] + ordered[i + 1..];
        }
        done := done + 1;
      }
      AllFiltered(list, chosen, done, ordered, i);
    }

    method LoadNotes()
      modifies this`noteIds
      ensures noteIds == Load(storage.State(), view)
    {
      noteIds := [];
      match view {
        case NoNotes =>
        case AllNotes => noteIds := storage.allNotes;
        case NotesInNotebook(nb) =>
          if nb == NO_ID || nb !in storage.notebookIds {
            NoneExisting(storage.allNotes);
            return;
          }
          noteIds := Choose(storage.allNotes, ListAt(storage.notebookNotes, nb));
        case NotesWithTag(t) =>
          if t == NO_ID {
            NoneExisting(storage.allNotes);
            return;
          }
          noteIds := Choose(storage.allNotes, ListAt(storage.tagNotes, t));
        case FavouriteNotes => noteIds := Choose(storage.allNotes, storage.favourites);
        case TrashNotes => noteIds := storage.trash;
      }
    }

    method InsertNote(n: Id)
      modifies this`noteIds
      ensures noteIds == Inserted(storage.State(), n, old(noteIds))
    {
      var pos := storage.NoteInsertionPositionInNotesList(n, noteIds);
      noteIds := noteIds[..pos] + [n] + noteIds[pos..];
    }

    method IndexOf(n: Id) returns (pos: int)
      ensures pos < 0 ==> n !in noteIds
      ensures pos >= 0 ==> pos < |noteIds| && noteIds[pos] == n && n !in noteIds[..pos]
    {
      pos := 0;
      while pos < |noteIds|
        invariant 0 <= pos <= |noteIds| && n !in noteIds[..pos]
      {
        if noteIds[pos] == n {
          return;
        }
        pos := pos + 1;
      }
      pos := -1;
    }

    method RemoveNoteAt(pos: nat)
      requires pos < |noteIds| && noteIds[pos] !in noteIds[..pos]
      modifies this`noteIds
      ensures noteIds == Removed(old(noteIds), old(noteIds[pos]))
    {
      RemovedAt(noteIds[..pos], noteIds[pos], noteIds[pos + 1..]);
      assert noteIds == noteIds[..pos] + [noteIds[pos]] + noteIds[pos + 1..];
      noteIds := noteIds[..pos] + noteIds[pos + 1..];
    }

    method NoteCreated(n: Id)
      modifies this`noteIds
      ensures noteIds == NoteCreatedSlot(storage.State(), view, old(noteIds), n)
    {
      hide Inserted;
      if n == NO_ID || !view.AllNotes? || n in noteIds {
        return;
      }
      InsertNote(n);
    }

    method NoteExpunged(n: Id)
      modifies this`noteIds
      ensures noteIds == NoteExpungedSlot(old(noteIds), n)
    {
      hide Removed;
      if n == NO_ID {
        return;
      }
      var pos := IndexOf(n);
      if pos < 0 {
        RemovedAbsent(noteIds, n);
        return;
      }
      RemoveNoteAt(pos);
    }

    method NoteDisplayDataChanged(n: Id, timestampChanged: bool)
      modifies this`noteIds
      ensures noteIds == DisplayDataSlot(storage.State(), old(noteIds), n, timestampChanged)
    {
      hide Inserted, Removed;
      if n == NO_ID {
        return;
      }
      var pos := IndexOf(n);
      if pos < 0 {
        return;
      }
      if timestampChanged {
        RemoveNoteAt(pos);
        InsertNote(n);
      }
    }

    method NotebookForNoteChanged(n: Id, nb: Id)
      modifies this`noteIds
      ensures noteIds == NotebookSlot(storage.State(), view, old(noteIds), n, nb)
    {
      hide Inserted, Removed;
      if n == NO_ID || nb == NO_ID || !view.NotesInNotebook? {
        return;
      }
      var pos := IndexOf(n);
      if pos >= 0 && nb != view.notebook {
        RemoveNoteAt(pos);
      }
      if pos < 0 && nb == view.notebook {
        InsertNote(n);
      }
    }

    method TagsForNoteChanged(n: Id, tags: seq<Id>)
      modifies this`noteIds
      ensures noteIds == TagsSlot(storage.State(), view, old(noteIds), n, tags)
    {
      hide Inserted, Removed;
      if n == NO_ID || !view.NotesWithTag? {
        return;
      }
      var pos := IndexOf(n);
      var found := view.tag in tags;
      if pos >= 0 && !found {
        RemoveNoteAt(pos);
      }
      if pos < 0 && found {
        InsertNote(n);
      }
    }

    method NoteFavouritenessChanged(n: Id, favourite: bool)
      modifies this`noteIds
      ensures noteIds == FavouriteSlot(storage.State(), view, old(noteIds), n, favourite)
    {
      hide Inserted, Removed;
      if n == NO_ID || !view.FavouriteNotes? {
        return;
      }
      var pos := IndexOf(n);
      if pos >= 0 && !favourite {
        RemoveNoteAt(pos);
      }
      if pos < 0 && favourite {
        InsertNote(n);
      }
    }

    method NoteTrashednessChanged(n: Id, trashed: bool)
      modifies this`noteIds
      ensures noteIds == TrashednessSlot(storage.State(), view, old(noteIds), n, trashed)
    {
      hide Inserted, Removed;
      if n == NO_ID {
        return;
      }
      var pos := IndexOf(n);
      if view.TrashNotes? {
        if pos >= 0 && !trashed {
          RemoveNoteAt(pos);
        }
        if pos < 0 && trashed {
          InsertNote(n);
        }
      } else if pos >= 0 && trashed {
        RemoveNoteAt(pos);
      } else if pos < 0 && !trashed {
        if view.NotesInNotebook? && storage.ReadGist(n).notebookId == view.notebook {
          InsertNote(n);
        } else if view.NotesWithTag? && view.tag in storage.ReadGist(n).tagIds {
          InsertNote(n);
        } else if view.FavouriteNotes? && storage.ReadGist(n).favourite {
          InsertNote(n);
        }
      }
    }
  }
}
