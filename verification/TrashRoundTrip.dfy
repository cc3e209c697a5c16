/** Restoring a note undoes moving it to the trash. */
module TrashRoundTrip {
  import opened StorageIndex
  import opened StorageInvariants
  import opened StorageRuns
  import opened NoteOrder
  import opened NotesViewSteps

  ghost predicate SameMembers(a: seq<Id>, b: seq<Id>) {
    forall x :: x in a <==> x in b
  }

  lemma TrashedFields(s: Store, n: Id)
    requires n != NO_ID && !GistOf(s, n).trashed
    ensures var s1 := MovedToTrash(s, n);
            && s1 == s.(gists := s1.gists, trash := Added(s.trash, n), allNotes := Removed(s.allNotes, n),
                favourites := Removed(s.favourites, n),
                        tagNotes := RemovedUnder(s.tagNotes, Elements(GistOf(s, n).tagIds) - {NO_ID}, n))
            && (forall x :: GistOf(s1, x) == if x == n then GistOf(s, n).(trashed := true) else GistOf(s, x))
            && (forall x :: TimeOf(s1, x) == TimeOf(s, x))
  {
    hide Removed, RemovedUnder, Added, Elements;
  }

  /** The fields that trashing and restoring touch, one after the other. */
  lemma TrashedThenRestored(s: Store, n: Id)
    requires Sound(s) && n in s.live && !GistOf(s, n).trashed
    requires GistOf(s, n).notebookId == NO_ID ==> s.defaultNotebookId == NO_ID
    ensures var g := GistOf(s, n);
            var t := Restored(MovedToTrash(s, n), n);
            && (forall x :: GistOf(t, x) == GistOf(s, x))
            && t == s.(gists := t.gists, allNotes := t.allNotes,
                       tagNotes := AddedUnder(RemovedUnder(s.tagNotes, Elements(g.tagIds) - {NO_ID}, n),
                           Elements(g.tagIds), n),
                       favourites := if g.favourite then Added(Removed(s.favourites, n), n)
                           else Removed(s.favourites, n))
  {
    LiveFacts(s, n);
    TrashFacts(s);
    NotNone(s);
    hide Inv, IdsOk, AddedUnder, RemovedUnder, Added, Removed, Restored, Existing, TagsOk, MovedToTrash;
    NoteIdsInRange(s, n);
    TrashedFields(s, n);
    IdsRemoved(s.allNotes, n, s.maxNote);
    OwnTagsExist(s, n);
    RestoredShape(MovedToTrash(s, n), n);
    RemovedAgain(s.trash, n);
  }

  lemma OwnTagsExist(s: Store, n: Id)
    requires n in s.live && TagsOk(s, n) && !GistOf(s, n).trashed
    ensures Existing(GistOf(s, n).tagIds, s.tagIds) == GistOf(s, n).tagIds
  {
    AllExisting(GistOf(s, n).tagIds, s.tagIds);
  }

  lemma RemovedAgain(list: seq<Id>, n: Id)
    requires n !in list && n != NO_ID
    ensures Removed(Added(list, n), n) == list
  {
  }

  /** Trashing a note and restoring it gives back its gist, the lists of notebooks and of trash, and the members of all
      other lists; and the order of the list of all notes, exactly when the note was the last of its age. */
  lemma TrashRestoreRoundTrip(s: Store, n: Id)
    requires Sound(s) && n in s.live && !GistOf(s, n).trashed
    requires GistOf(s, n).notebookId == NO_ID ==> s.defaultNotebookId == NO_ID
    ensures var t := Restored(MovedToTrash(s, n), n);
            && (forall x :: GistOf(t, x) == GistOf(s, x))
            && t == s.(gists := t.gists, allNotes := t.allNotes, tagNotes := t.tagNotes, favourites := t.favourites)
            && SameMembers(t.allNotes, s.allNotes) && SameMembers(t.favourites, s.favourites)
            && (forall k :: SameMembers(ListAt(t.tagNotes, k), ListAt(s.tagNotes, k)))
            && (NewestFirst(s, s.allNotes) ==>
                (t.allNotes == s.allNotes <==> LastOfItsAge(s, n, s.allNotes, s.allNotes)))
  {
    TrashedThenRestored(s, n);
    OrderAfterRoundTrip(s, n);
    FavouritesAfterRoundTrip(s, n);
    TagsAfterRoundTrip(s, n);
    hide Sound, Restored, MovedToTrash, LastOfItsAge, NewestFirst, AddedUnder, RemovedUnder, Removed;
  }

  lemma OrderAfterRoundTrip(s: Store, n: Id)
    requires Sound(s) && n in s.live && !GistOf(s, n).trashed
    ensures var t := Restored(MovedToTrash(s, n), n);
            && SameMembers(t.allNotes, s.allNotes)
            && (NewestFirst(s, s.allNotes) ==>
                (t.allNotes == s.allNotes <==> LastOfItsAge(s, n, s.allNotes, s.allNotes)))
  {
    hide Inv, HomeInv, Inserted, Removed, Restored, MovedToTrash, NewestFirst, LastOfItsAge, Distinct, TimeOf;
    var rest := Removed(s.allNotes, n);
    AllNotesFacts(s);
    NotNone(s);
    RemovedFrom(s.allNotes, n);
    RestoredByTime(s, n);
    InsertedAt(s, n, rest);
    if NewestFirst(s, s.allNotes) {
      ReinsertedIff(s, n, s.allNotes);
    }
  }

  lemma RestoredByTime(s: Store, n: Id)
    requires Sound(s) && n in s.live && !GistOf(s, n).trashed
    ensures Restored(MovedToTrash(s, n), n).allNotes == Inserted(s, n, Removed(s.allNotes, n))
  {
    hide Inv, HomeInv, Inserted, Removed, Restored, MovedToTrash, Distinct;
    AllNotesFacts(s);
    NotNone(s);
    var s1 := MovedToTrash(s, n);
    TrashedFields(s, n);
    RemovedFrom(s.allNotes, n);
    StepSoundIff(s, Trash(n));
    RestoredOrder(s1, n);
    RestoredGists(s1, n);
    PositionInSameTimes(s, Restored(s1, n), n, Removed(s.allNotes, n));
  }

  lemma FavouritesAfterRoundTrip(s: Store, n: Id)
    requires Inv(s) && n in s.live && !GistOf(s, n).trashed
    ensures var g := GistOf(s, n);
            SameMembers(if g.favourite then Added(Removed(s.favourites, n), n)
                else Removed(s.favourites, n), s.favourites)
  {
    LiveFacts(s, n);
    assert IdsOk(s.favourites, s.maxNote);
    hide Inv, Added, Removed, NotebookOk, TagsOk;
    IdsRemoved(s.favourites, n, s.maxNote);
    IdsAdded(Removed(s.favourites, n), n, s.maxNote);
  }

  lemma TagsAfterRoundTrip(s: Store, n: Id)
    requires Inv(s) && n in s.live && !GistOf(s, n).trashed
    ensures var tags := Elements(GistOf(s, n).tagIds);
            forall k :: SameMembers(ListAt(AddedUnder(RemovedUnder(s.tagNotes, tags - {NO_ID}, n), tags, n), k),
                ListAt(s.tagNotes, k))
  {
    hide AddedUnder, RemovedUnder, NotebookOk, ListedOk, NotebookInv, ListInv, ListsOk, Distinct;
    LiveFacts(s, n);
    var tags := Elements(GistOf(s, n).tagIds);
    var without := RemovedUnder(s.tagNotes, tags - {NO_ID}, n);
    ListsRemoved(s.tagNotes, tags - {NO_ID}, n, s.maxTag, s.maxNote);
    ListsAdded(without, tags, n, s.maxTag, s.maxNote);
  }
}
