/** Runs from the empty store after which one more operation breaks the index, or leaves a view out of step with a
    reload: the exceptions to the theorems do occur. */
module ReachableFailures {
  import opened StorageIndex
  import opened StorageInvariants
  import opened StorageRuns
  import opened NoteOrder
  import opened NotesViews
  import opened NotesViewSteps
  import opened NotesViewRuns

  const NEW_NOTE := ReceiveNote(1, 1, "")
  const NEW_NOTEBOOK := CreateNotebook(NO_ID, NO_ID)
  const NEW_TAG := CreateTag(NO_ID, NO_ID)

  lemma OneMore(ops: seq<Op>, op: Op)
    requires RunAllowed(EMPTY, ops) && Addressed(Run(EMPTY, ops), op) && Allowed(Run(EMPTY, ops), op)
    ensures RunAllowed(EMPTY, ops + [op]) && Run(EMPTY, ops + [op]) == Apply(Run(EMPTY, ops), op)
  {
    assert (ops + [op])[..|ops|] == ops;
  }

  lemma ThreeAllowed(a: Op, b: Op, c: Op)
    requires Addressed(EMPTY, a) && Allowed(EMPTY, a)
    requires var s := Apply(EMPTY, a); Addressed(s, b) && Allowed(s, b)
    requires var s := Apply(Apply(EMPTY, a), b); Addressed(s, c) && Allowed(s, c)
    ensures RunAllowed(EMPTY, [a, b, c]) && Run(EMPTY, [a, b, c]) == Apply(Apply(Apply(EMPTY, a), b), c)
    ensures Sound(Run(EMPTY, [a, b, c]))
  {
    hide Apply, Addressed, Allowed, Sound;
    assert [] + [a] == [a] && [a] + [b] == [a, b] && [a, b] + [c] == [a, b, c];
    OneMore([], a);
    OneMore([a], b);
    OneMore([a, b], c);
    RunKeepsSound([a, b, c]);
  }

  // The stores on the way

  const NOTE := Gist(NO_ID, [], false, false, 1, 1, "")

  function OneNote(): Store {
    EMPTY.(gists := map[1 := NOTE], allNotes := [1], maxNote := 1, live := {1})
  }

  function OneTrashed(): Store {
    OneNote().(gists := map[1 := NOTE.(trashed := true)], allNotes := [], trash := [1])
  }

  function WithNotebook(s: Store): Store {
    s.(notebookIds := [1], notebookNotes := map[1 := []], defaultNotebookId := 1, maxNotebook := 1)
  }

  function WithTagOne(s: Store): Store {
    s.(tagIds := [1], tagNotes := map[1 := []], maxTag := 1)
  }

  function TwoNotes(): Store {
    EMPTY.(gists := map[1 := NOTE, 2 := NOTE], allNotes := [2, 1], maxNote := 2, live := {1, 2})
  }

  lemma FirstNote()
    ensures Apply(EMPTY, NEW_NOTE) == OneNote()
  {
  }

  lemma SecondNote()
    ensures Apply(OneNote(), NEW_NOTE) == TwoNotes()
  {
  }

  lemma NoteTrashed()
    ensures Apply(OneNote(), Trash(1)) == OneTrashed()
  {
  }

  lemma NotebookMade(s: Store)
    requires s.notebookIds == [] && s.notebookNotes == map[] && s.maxNotebook == 0
    ensures Apply(s, NEW_NOTEBOOK) == WithNotebook(s)
  {
  }

  lemma TagMade(s: Store)
    requires s.tagIds == [] && s.tagNotes == map[] && s.maxTag == 0
    ensures Apply(s, NEW_TAG) == WithTagOne(s)
  {
  }

  // The failures

  /** A note received without a notebook and trashed before there is one: restoring it names the default notebook in its
      gist, but leaves the note out of that notebook. */
  lemma RestoreOutsideNotebook()
    ensures var ops := [NEW_NOTE, Trash(1), NEW_NOTEBOOK];
            var s := Run(EMPTY, ops);
            var s' := Apply(s, Restore(1));
            && RunAllowed(EMPTY, ops) && Sound(s) && Addressed(s, Restore(1)) && !Sound(s')
            && GistOf(s', 1).notebookId == 1 && 1 !in ListAt(s'.notebookNotes, 1)
  {
    hide Apply, Run, RunAllowed, Sound;
    FirstNote();
    NoteTrashed();
    NotebookMade(OneTrashed());
    ThreeAllowed(NEW_NOTE, Trash(1), NEW_NOTEBOOK);
    StepSoundIff(WithNotebook(OneTrashed()), Restore(1));
    RestoredToDefault(WithNotebook(OneTrashed()));
  }

  lemma RestoredToDefault(s: Store)
    requires GistOf(s, 1).trashed && GistOf(s, 1).notebookId == NO_ID && s.notebookIds == [1]
    requires s.defaultNotebookId == 1 && s.notebookNotes == map[1 := []]
    ensures var s' := Apply(s, Restore(1)); GistOf(s', 1).notebookId == 1 && 1 !in ListAt(s'.notebookNotes, 1)
  {
    hide Existing, Removed, Inserted, AddedUnder;
  }

  /** A note put in the first notebook: making a notebook of the same name around the note takes it out of the list. */
  lemma CreateEmptiesNotebook()
    ensures var ops := [NEW_NOTEBOOK, NEW_NOTE, SetNotebook(1, 1)];
            var s := Run(EMPTY, ops);
            && RunAllowed(EMPTY, ops) && Sound(s)
            && Addressed(s, CreateNotebook(1, 1)) && !Sound(Apply(s, CreateNotebook(1, 1)))
  {
    hide Apply, Run, RunAllowed, Sound;
    NotebookMade(EMPTY);
    NoteInNotebookStore();
    NoteMovedIn();
    ThreeAllowed(NEW_NOTEBOOK, NEW_NOTE, SetNotebook(1, 1));
    StepSoundIff(Apply(WithNotebook(OneNote()), SetNotebook(1, 1)), CreateNotebook(1, 1));
  }

  lemma NoteInNotebookStore()
    ensures Apply(WithNotebook(EMPTY), NEW_NOTE) == WithNotebook(OneNote())
  {
  }

  lemma NoteMovedIn()
    ensures var s := Apply(WithNotebook(OneNote()), SetNotebook(1, 1));
            s.live == {1} && s.notebookIds == [1] && GistOf(s, 1).notebookId == 1
  {
    hide AddedUnder, RemovedUnder;
  }

  /** A trashed note that gets a tag joins the view of the tag, which does not show it when loaded anew. */
  lemma TrashedNoteJoinsView()
    ensures var ops := [NEW_NOTE, Trash(1), NEW_TAG];
            var s, v, op := Run(EMPTY, ops), NotesWithTag(1), AddTag(1, 1);
            && RunAllowed(EMPTY, ops) && Sound(s) && Addressed(s, op) && Allowed(s, op)
            && Load(s, v) == [] && ViewAfter(s, v, [], op) == [1] && Load(Apply(s, op), v) == []
  {
    hide Apply, Run, RunAllowed, Sound, ViewAfter, Load;
    FirstNote();
    NoteTrashed();
    TagMade(OneTrashed());
    ThreeAllowed(NEW_NOTE, Trash(1), NEW_TAG);
    TaggedInView(WithTagOne(OneTrashed()));
  }

  lemma TaggedInView(s: Store)
    requires s.allNotes == [] && GistOf(s, 1).tagIds == []
    ensures var v, op := NotesWithTag(1), AddTag(1, 1);
            Load(s, v) == [] && ViewAfter(s, v, [], op) == [1] && Load(Apply(s, op), v) == []
  {
    hide AddedUnder, Chosen;
    assert Inserted(Apply(s, AddTag(1, 1)), 1, []) == [1];
  }

  /** A restored note is missing from the view of all notes. */
  lemma RestoredNoteNotShown()
    ensures var ops := [NEW_TAG, NEW_NOTE, Trash(1)];
            var s, v, op := Run(EMPTY, ops), AllNotes, Restore(1);
            && RunAllowed(EMPTY, ops) && Sound(s) && Addressed(s, op) && Allowed(s, op)
            && Load(s, v) == [] && ViewAfter(s, v, [], op) == [] && Load(Apply(s, op), v) == [1]
  {
    hide Apply, Run, RunAllowed, Sound, ViewAfter, Load;
    TagMade(EMPTY);
    NoteBesideTag();
    ThreeAllowed(NEW_TAG, NEW_NOTE, Trash(1));
    RestoredUnseen(WithTagOne(OneTrashed()));
  }

  lemma NoteBesideTag()
    ensures Apply(WithTagOne(EMPTY), NEW_NOTE) == WithTagOne(OneNote())
    ensures Apply(WithTagOne(OneNote()), Trash(1)) == WithTagOne(OneTrashed())
  {
  }

  lemma RestoredUnseen(s: Store)
    requires s.allNotes == [] && GistOf(s, 1).trashed
    ensures Load(s, AllNotes) == [] && ViewAfter(s, AllNotes, [], Restore(1)) == []
    ensures Load(Apply(s, Restore(1)), AllNotes) == [1]
  {
    hide Restored, Inserted;
    RestoredOrder(s, 1);
    OnlyOne(Restored(s, 1), 1);
  }

  lemma OnlyOne(s: Store, n: Id)
    ensures Inserted(s, n, []) == [n]
  {
  }

  /** Two notes of the same time: the one listed first joins the favourites second. */
  lemma SameTimeJoinsLater()
    ensures var ops := [NEW_NOTE, NEW_NOTE, SetFavourite(1, true)];
            var s, v, op := Run(EMPTY, ops), FavouriteNotes, SetFavourite(2, true);
            && RunAllowed(EMPTY, ops) && Sound(s) && NewestFirst(s, s.allNotes) && Addressed(s, op) && Allowed(s, op)
            && ViewAfter(s, v, Load(s, v), op) != Load(Apply(s, op), v)
  {
    hide Apply, Run, RunAllowed, Sound, ViewAfter, Load, FollowsWell, NewestFirst;
    FirstNote();
    SecondNote();
    ThreeAllowed(NEW_NOTE, NEW_NOTE, SetFavourite(1, true));
    var s := Apply(TwoNotes(), SetFavourite(1, true));
    FirstIsFavourite(s);
    ViewFollowsIff(s, FavouriteNotes, SetFavourite(2, true));
  }

  function OneFavourite(): Store {
    TwoNotes().(gists := map[1 := NOTE.(favourite := true), 2 := NOTE], favourites := [1])
  }

  lemma FavouriteSetIs()
    ensures Apply(TwoNotes(), SetFavourite(1, true)) == OneFavourite()
  {
    assert map[1 := NOTE, 2 := NOTE][1 := NOTE.(favourite := true)] == map[1 := NOTE.(favourite := true), 2 := NOTE];
  }

  lemma FirstIsFavourite(s: Store)
    requires s == Apply(TwoNotes(), SetFavourite(1, true))
    ensures s.live == {1, 2} && NewestFirst(s, s.allNotes)
    ensures !FollowsWell(s, FavouriteNotes, SetFavourite(2, true))
  {
    hide Apply, Existing;
    FavouriteSetIs();
    FavouritesShown(s);
    assert TimeOf(s, 1) == 1 == TimeOf(s, 2);
    assert s.allNotes[0] == 2 && s.allNotes[1] == 1;
    assert !LastOfItsAge(s, 2, s.allNotes, [1]);
  }

  lemma FavouritesShown(s: Store)
    requires s.allNotes == [2, 1] && s.favourites == [1]
    ensures Load(s, FavouriteNotes) == [1]
  {
    hide Existing;
    SecondOfTwo(2, 1, [1]);
  }

  lemma SecondOfTwo(a: Id, b: Id, ids: seq<Id>)
    requires a !in ids && b in ids
    ensures Existing([a, b], ids) == [b]
  {
    hide Existing;
    ExistingOfTwo([a], [b], ids);
    NoneOfOne(a, ids);
    AllExisting([b], ids);
    assert [a] + [b] == [a, b];
  }

  lemma NoneOfOne(a: Id, ids: seq<Id>)
    requires a !in ids
    ensures Existing([a], ids) == []
  {
    assert [a][..0] == [];
  }

  const NEWER_NOTE := ReceiveNote(2, 2, "")

  function OlderAndNewer(): Store {
    EMPTY.(gists := map[1 := NOTE, 2 := Gist(NO_ID, [], false, false, 2, 2, "")],
           allNotes := [2, 1], maxNote := 2, live := {1, 2})
  }

  lemma NewerNote()
    ensures Apply(OneNote(), NEWER_NOTE) == OlderAndNewer()
  {
  }

  /** A fetched or pushed note that gets a newer time than the note before it stays behind that note in the list of all
      notes, but comes first in the view of all notes. */
  lemma SyncedNoteOutOfOrder()
    ensures var ops := [NEW_NOTE, NEWER_NOTE, NEW_TAG];
            var s, op := Run(EMPTY, ops), SyncNote(1, 3);
            var s' := Apply(s, op);
            && RunAllowed(EMPTY, ops) && Sound(s) && NewestFirst(s, s.allNotes) && Addressed(s, op) && Allowed(s, op)
            && !NewestFirst(s', s'.allNotes) && ViewAfter(s, AllNotes, Load(s, AllNotes), op) != Load(s', AllNotes)
  {
    hide Apply, Run, RunAllowed, Sound, ViewAfter, Load, NewestFirst;
    FirstNote();
    NewerNote();
    TagMade(OlderAndNewer());
    ThreeAllowed(NEW_NOTE, NEWER_NOTE, NEW_TAG);
    OutOfOrder(WithTagOne(OlderAndNewer()));
  }

  lemma OutOfOrder(s: Store)
    requires Sound(s) && s.allNotes == [2, 1] && s.live == {1, 2} && TimeOf(s, 1) == 1 && TimeOf(s, 2) == 2
    requires GistOf(s, 1).updatedTime == 1
    ensures var op := SyncNote(1, 3);
            var s' := Apply(s, op);
            && NewestFirst(s, s.allNotes) && Addressed(s, op) && Allowed(s, op)
            && !NewestFirst(s', s'.allNotes) && ViewAfter(s, AllNotes, Load(s, AllNotes), op) != Load(s', AllNotes)
  {
    NewerBeforeOlder(s);
    DoesNotFit(s);
    DoesNotStay(s);
    hide Sound, ViewAfter, FollowsWell, KeepsOrder, NewestFirst, Apply;
    ViewFollowsIff(s, AllNotes, SyncNote(1, 3));
    StepKeepsOrderIff(s, SyncNote(1, 3));
  }

  lemma NewerBeforeOlder(s: Store)
    requires s.allNotes == [2, 1] && TimeOf(s, 1) == 1 && TimeOf(s, 2) == 2
    ensures NewestFirst(s, s.allNotes)
  {
    hide TimeOf;
    assert s.allNotes[0] == 2 && s.allNotes[1] == 1;
  }

  lemma DoesNotFit(s: Store)
    requires s.allNotes == [2, 1] && TimeOf(s, 2) == 2
    ensures !KeepsOrder(s, SyncNote(1, 3))
  {
    hide TimeOf;
    assert s.allNotes[1] == 1 && s.allNotes[0] == 2;
  }

  lemma DoesNotStay(s: Store)
    requires s.allNotes == [2, 1] && TimeOf(s, 2) == 2 && GistOf(s, 1).updatedTime == 1
    ensures !FollowsWell(s, AllNotes, SyncNote(1, 3))
  {
    var s' := Apply(s, SyncNote(1, 3));
    assert TimeOf(s', 1) == 3 && TimeOf(s', 2) == 2;
    hide TimeOf, Apply;
    assert s.allNotes[1] == 1 && s.allNotes[0] == 2 && 2 in s.allNotes[..1];
    assert !StaysInPlace(s', 1, s.allNotes);
  }

  // A trashed note of a notebook that is expunged

  function TwoNotebooks(): Store {
    EMPTY.(notebookIds := [2, 1], notebookNotes := map[1 := [], 2 := []], defaultNotebookId := 1, maxNotebook := 2)
  }

  function WithNoteInSecond(trashed: bool): Store {
    TwoNotebooks().(
      gists := map[1 := NOTE.(notebookId := 2, trashed := trashed)], notebookNotes := map[1 := [], 2 := [1]],
      allNotes := if trashed then [] else [1], trash := if trashed then [1] else [], maxNote := 1, live := {1})
  }

  lemma SecondNotebook()
    ensures Apply(WithNotebook(EMPTY), NEW_NOTEBOOK) == TwoNotebooks()
  {
  }

  function NoteBesideTwo(): Store {
    TwoNotebooks().(gists := map[1 := NOTE], allNotes := [1], maxNote := 1, live := {1})
  }

  lemma NoteReceivedBesideTwo()
    ensures Apply(TwoNotebooks(), NEW_NOTE) == NoteBesideTwo()
  {
  }

  lemma NotePutInSecond()
    ensures Apply(NoteBesideTwo(), SetNotebook(1, 2)) == WithNoteInSecond(false)
  {
    var m := NoteBesideTwo().notebookNotes;
    assert RemovedUnder(m, {NO_ID} - {NO_ID}, 1) == m;
    assert Added([], 1) == [1];
    assert AddedUnder(m, {2}, 1).Keys == {1, 2};
    assert AddedUnder(m, {2}, 1) == map[1 := [], 2 := [1]];
  }

  lemma NoteTrashedInSecond()
    ensures Apply(WithNoteInSecond(false), Trash(1)) == WithNoteInSecond(true)
  {
  }

  lemma FiveAllowed()
    ensures var ops := [NEW_NOTEBOOK, NEW_NOTEBOOK, NEW_NOTE, SetNotebook(1, 2), Trash(1)];
            RunAllowed(EMPTY, ops) && Run(EMPTY, ops) == WithNoteInSecond(true) && Sound(Run(EMPTY, ops))
  {
    hide Apply, Run, RunAllowed, Sound;
    var three := [NEW_NOTEBOOK, NEW_NOTEBOOK, NEW_NOTE];
    var four := [NEW_NOTEBOOK, NEW_NOTEBOOK, NEW_NOTE, SetNotebook(1, 2)];
    assert three + [SetNotebook(1, 2)] == four;
    assert four + [Trash(1)] == [NEW_NOTEBOOK, NEW_NOTEBOOK, NEW_NOTE, SetNotebook(1, 2), Trash(1)];
    NotebookMade(EMPTY);
    SecondNotebook();
    NoteReceivedBesideTwo();
    ThreeAllowed(NEW_NOTEBOOK, NEW_NOTEBOOK, NEW_NOTE);
    OneMore(three, SetNotebook(1, 2));
    NotePutInSecond();
    OneMore(four, Trash(1));
    NoteTrashedInSecond();
    RunKeepsSound(four + [Trash(1)]);
  }

  /** A trashed note moves to the default notebook when its own is expunged, and joins the view of the default notebook,
      which does not show it when loaded anew. */
  lemma ExpungedNotebookShowsTrashed()
    ensures var ops := [NEW_NOTEBOOK, NEW_NOTEBOOK, NEW_NOTE, SetNotebook(1, 2), Trash(1)];
            var s, v, op := Run(EMPTY, ops), NotesInNotebook(1), ExpungeNotebook(2);
            && RunAllowed(EMPTY, ops) && Sound(s) && Addressed(s, op) && Allowed(s, op)
            && ViewAfter(s, v, Load(s, v), op) != Load(Apply(s, op), v)
  {
    hide Apply, Run, RunAllowed, Sound, ViewAfter, Load, FollowsWell;
    FiveAllowed();
    var s := WithNoteInSecond(true);
    TrashedNoteMoves(s);
    ViewFollowsIff(s, NotesInNotebook(1), ExpungeNotebook(2));
  }

  lemma TrashedNoteMoves(s: Store)
    requires s == WithNoteInSecond(true)
    ensures Allowed(s, ExpungeNotebook(2)) && NewestFirst(s, s.allNotes)
    ensures !FollowsWell(s, NotesInNotebook(1), ExpungeNotebook(2))
  {
    hide Existing, LastOfItsAge;
    var ns := ListAt(s.notebookNotes, 2);
    assert ns == [1] && ns[..0] == [];
    assert MovedIds(s, [], 1) == [] && NotesMoved(s, [], 1) == s;
    assert MovedIds(s, ns, 1) == [1];
    assert MovedByExpunge(s, 2) == [1];
  }
}
