/** A view that follows one change of the index, against a view that is loaded anew. */
module NotesViewSteps {
  import opened StorageIndex
  import opened StorageInvariants
  import opened StorageRuns
  import opened NoteOrder
  import opened NotesViews

  function CreatedNotebook(s: Store, existing: Id): Id {
    if existing == NO_ID then s.maxNotebook + 1 else existing
  }

  /** What the slot makes of the view as the moves of `ms` to notebook `nb` are announced one after the other. */
  function MovesFollowed(s: Store, v: View, list: seq<Id>, ms: seq<Id>, nb: Id): seq<Id> {
    if ms == [] then list
    else NotebookSlot(s, v, MovesFollowed(s, v, list, ms[..|ms| - 1], nb), ms[|ms| - 1], nb)
  }

  /** What the view shows after the signals of the operation. Of the store the slots read gists, which are final when
      they run, and times, which only change before. */
  function ViewAfter(s: Store, v: View, list: seq<Id>, op: Op): seq<Id> {
    var s' := Apply(s, op);
    match op
    case CreateNote(_) =>
      NotebookSlot(s', v, NoteCreatedSlot(s', v, list, s'.maxNote), s'.maxNote, s.defaultNotebookId)
    case ExpungeNotebook(nb) => MovesFollowed(s', v, list, MovedByExpunge(s, nb), ExpungeTarget(s, nb))
    case ReceiveNote(_, _, _) => NoteCreatedSlot(s', v, list, s'.maxNote)
    case RefreshNote(n, _, updated, _) => DisplayDataSlot(s', list, n, GistOf(s, n).updatedTime != updated)
    case EditNote(n, _, changed) => DisplayDataSlot(s', list, n, changed)
    case SyncNote(n, updated) => DisplayDataSlot(s', list, n, GistOf(s, n).updatedTime != updated)
    case SetDefault(_) => list
    case CreateNotebook(existing, first) => NotebookSlot(s', v, list, first, CreatedNotebook(s, existing))
    case SetNotebook(n, nb) => if GistOf(s, n).notebookId == nb then list else NotebookSlot(s', v, list, n, nb)
    case CreateTag(_, first) => TagsSlot(s', v, list, first, GistOf(s', first).tagIds)
    case SetTags(n, tags) =>
      if Elements(tags) == Elements(GistOf(s, n).tagIds) then list else TagsSlot(s', v, list, n, tags)
    case AddTag(n, t) =>
      if t == NO_ID || t in GistOf(s, n).tagIds then list else TagsSlot(s', v, list, n, GistOf(s', n).tagIds)
    case SetFavourite(n, favourite) =>
      if GistOf(s, n).favourite == favourite then list else FavouriteSlot(s', v, list, n, favourite)
    case Trash(n) => if GistOf(s, n).trashed then list else TrashednessSlot(s', v, list, n, true)
    case Restore(n) => if GistOf(s, n).trashed then TrashednessSlot(s', v, list, n, false) else list
    case Expunge(n) => NoteExpungedSlot(list, n)
    case ExpungeFromTrash(n) => if n in s.trash && GistOf(s, n).guid == "" then NoteExpungedSlot(list, n) else list
    case ExpungeTag(_) => list
  }

  /** The note the operation links or unlinks. */
  function Subject(op: Op): Id {
    match op
    case CreateNotebook(_, first) => first
    case SetNotebook(n, _) => n
    case CreateTag(_, first) => first
    case SetTags(n, _) => n
    case AddTag(n, _) => n
    case SetFavourite(n, _) => n
    case _ => NO_ID
  }

  predicate SetsLinks(op: Op) {
    op.CreateNotebook? || op.SetNotebook? || op.CreateTag? || op.SetTags? || op.AddTag? || op.SetFavourite?
  }

  /** Whether the operation changes the note and emits its signal, and the view listens to it. */
  predicate Signals(s: Store, v: View, op: Op)
    requires SetsLinks(op)
  {
    && Subject(op) != NO_ID
    && match op
       case CreateNotebook(_, _) => v.NotesInNotebook?
       case SetNotebook(n, nb) => nb != NO_ID && GistOf(s, n).notebookId != nb && v.NotesInNotebook?
       case CreateTag(_, _) => v.NotesWithTag?
       case SetTags(n, tags) => Elements(tags) != Elements(GistOf(s, n).tagIds) && v.NotesWithTag?
       case AddTag(n, t) => t != NO_ID && t !in GistOf(s, n).tagIds && v.NotesWithTag?
       case SetFavourite(n, favourite) => GistOf(s, n).favourite != favourite && v.FavouriteNotes?
  }

  /** The membership that the slot acts on, when it acts. */
  predicate Member(s: Store, v: View, op: Op)
    requires SetsLinks(op)
  {
    if op.CreateNotebook? then v == NotesInNotebook(CreatedNotebook(s, op.existing))
    else if op.SetNotebook? then v == NotesInNotebook(op.notebook)
    else if op.SetFavourite? then op.favourite
    else v.NotesWithTag? && v.tag in GistOf(Apply(s, op), Subject(op)).tagIds
  }

  /** The time is later than those of the notes of the list. */
  predicate IsNewest(s: Store, time: int, list: seq<Id>) {
    list == [] || time > TimeOf(s, list[0])
  }

  /** For the views that show a part of the list of all notes: no trashed note joins, nor one that a note shown after
      it is as old as, be it one of the notes that an expunged notebook leaves to the default one; a note made here
      is newer than those of the default notebook; and the tag shown is not expunged with notes. */
  predicate FilterFollowsWell(s: Store, v: View, op: Op) {
    if SetsLinks(op) then
      Signals(s, v, op) && Member(s, v, op) && Subject(op) !in Load(s, v) ==> Joins(s, Subject(op), Load(s, v))
    else if op.ExpungeTag? then v == NotesWithTag(op.tag) ==> Load(s, v) == []
    else if op.CreateNote? then
      v == NotesInNotebook(s.defaultNotebookId) && s.defaultNotebookId != NO_ID ==> IsNewest(s, op.now, Load(s, v))
    else if op.ExpungeNotebook? then
      v == NotesInNotebook(ExpungeTarget(s, op.notebook)) ==>
        AllJoin(s, s.allNotes, Load(s, v), MovedByExpunge(s, op.notebook))
    else if op.Restore? && GistOf(s, op.note).trashed && GistOf(s, op.note).notebookId == NO_ID then
      v != NotesInNotebook(NO_ID)
    else true
  }

  /** For the view of all notes: a new note is newer than all others, and no note is restored. */
  predicate AllFollowsWell(s: Store, op: Op) {
    match op
    case CreateNote(now) => IsNewest(s, now, s.allNotes)
    case ReceiveNote(created, updated, guid) =>
      IsNewest(s, Timestamp(Gist(NO_ID, [], false, false, created, updated, guid)), s.allNotes)
    case Restore(n) => !GistOf(s, n).trashed
    case _ => true
  }

  /** For the view of the trash: the notes are trashed from the oldest to the newest, and stay so. */
  predicate TrashFollowsWell(s: Store, op: Op) {
    match op
    case Trash(n) => !GistOf(s, n).trashed ==> s.trash == [] || TimeOf(s, n) > TimeOf(s, s.trash[0])
    case RefreshNote(n, _, updated, _) =>
      n in s.trash && GistOf(s, n).updatedTime != updated ==> StaysInPlace(Apply(s, op), n, s.trash)
    case EditNote(n, _, changed) => n in s.trash && changed ==> StaysInPlace(Apply(s, op), n, s.trash)
    case _ => true
  }

  /** Exactly when a view still agrees with a reload. A fetched or pushed note gets a new time without being
      reordered in the list of all notes, but the views reorder it. */
  predicate FollowsWell(s: Store, v: View, op: Op) {
    if op.SyncNote? then
      op.note in Load(s, v) && GistOf(s, op.note).updatedTime != op.updated ==>
        StaysInPlace(Apply(s, op), op.note, Load(s, v))
    else if Filters(v) then FilterFollowsWell(s, v, op)
    else if v.AllNotes? then AllFollowsWell(s, op)
    else v.TrashNotes? ==> TrashFollowsWell(s, op)
  }

  // The parts of the index a view depends on

  lemma ChosenOf(s: Store, v: View, n: Id)
    requires Sound(s) && Filters(v) && n in s.allNotes
    ensures n in s.live && !GistOf(s, n).trashed
    ensures v != NotesInNotebook(NO_ID) ==> (n in Chosen(s, v) <==> Belongs(s, v, n))
    ensures v == NotesInNotebook(NO_ID) ==> Chosen(s, v) == []
  {
    hide Distinct;
    assert n in s.live;
    LiveFacts(s, n);
  }

  lemma AllNotesFacts(s: Store)
    requires Inv(s)
    ensures Distinct(s.allNotes) && NO_ID !in s.allNotes
    ensures forall n :: n in s.allNotes ==> n in s.live && !GistOf(s, n).trashed && IsNoteId(s, n)
    ensures forall n :: n in s.live && !GistOf(s, n).trashed ==> n in s.allNotes
  {
    forall n | n in s.live && !GistOf(s, n).trashed ensures n in s.allNotes {
      assert ListedOk(s, n);
    }
    forall n | n in s.allNotes ensures n in s.live && !GistOf(s, n).trashed && IsNoteId(s, n) {
      assert ListedOk(s, n);
    }
  }

  /** Sound stores agree on who is chosen when they agree on the gists. */
  lemma ChosenAgrees(s: Store, s': Store, v: View, n: Id)
    requires Sound(s) && Sound(s') && Filters(v) && n in s.allNotes && n in s'.allNotes
    requires Belongs(s', v, n) == Belongs(s, v, n)
    ensures n in Chosen(s', v) <==> n in Chosen(s, v)
  {
    ChosenOf(s, v, n);
    ChosenOf(s', v, n);
  }

  /** The gists of the other notes stay as they are, and the times of all notes. */
  ghost predicate OnlyGistOf(n: Id, s: Store, s': Store) {
    && s'.allNotes == s.allNotes
    && (forall x :: TimeOf(s', x) == TimeOf(s, x))
    && forall x :: x != n ==> GistOf(s', x) == GistOf(s, x)
  }

  lemma OnlyGistMeansOnlyLinks(n: Id, s: Store, s': Store, v: View)
    requires Sound(s) && Sound(s') && Filters(v) && OnlyGistOf(n, s, s')
    ensures OnlyLinksOf(n, s, s', v)
  {
    hide Sound, Chosen;
    forall x | x != n && x in s.allNotes ensures x in Chosen(s', v) <==> x in Chosen(s, v) {
      ChosenAgrees(s, s', v, x);
    }
  }

  /** The gist of a note after an operation that sets links. */
  function GistAfter(s: Store, op: Op, n: Id): Gist
    requires SetsLinks(op)
  {
    var g := GistOf(s, n);
    if n == NO_ID || n != Subject(op) then g
    else if op.CreateNotebook? then g.(notebookId := CreatedNotebook(s, op.existing))
    else if op.SetNotebook? then if op.notebook == NO_ID then g else g.(notebookId := op.notebook)
    else if op.CreateTag? then g.(tagIds := Added(g.tagIds, if op.existing == NO_ID then s.maxTag + 1 else op.existing))
    else if op.SetTags? then g.(tagIds := op.tags)
    else if op.AddTag? then if op.tag == NO_ID || op.tag in g.tagIds then g else g.(tagIds := g.tagIds + [op.tag])
    else g.(favourite := op.favourite)
  }

  lemma GistsAfter(s: Store, op: Op)
    requires SetsLinks(op)
    ensures Apply(s, op).allNotes == s.allNotes && forall n :: GistOf(Apply(s, op), n) == GistAfter(s, op, n)
  {
    hide AddedUnder, RemovedUnder, NewlyTagged, Added, Removed, Elements, TagCreated, TagsSet, NotebookCreated;
    if op.CreateNotebook? {
      NotebookCreatedGists(s, op);
    } else if op.CreateTag? {
      TagCreatedGists(s, op);
    } else if op.SetTags? {
      TagsSetGists(s, op);
    }
  }

  lemma NotebookListedGists(s: Store, existing: Id, first: Id)
    ensures var s1 := NotebookListed(s, existing, first); s1.allNotes == s.allNotes && s1.gists == s.gists
  {
    hide AddedUnder;
  }

  lemma NotebookCreatedGists(s: Store, op: Op)
    requires op.CreateNotebook?
    ensures Apply(s, op).allNotes == s.allNotes && forall n :: GistOf(Apply(s, op), n) == GistAfter(s, op, n)
  {
    hide AddedUnder, RemovedUnder, Added, Removed, NotebookListed;
    NotebookListedGists(s, op.existing, op.firstNote);
  }

  lemma TagCreatedGists(s: Store, op: Op)
    requires op.CreateTag?
    ensures Apply(s, op).allNotes == s.allNotes && forall n :: GistOf(Apply(s, op), n) == GistAfter(s, op, n)
  {
    hide AddedUnder, Added;
  }

  lemma TagsSetGists(s: Store, op: Op)
    requires op.SetTags?
    ensures Apply(s, op).allNotes == s.allNotes && forall n :: GistOf(Apply(s, op), n) == GistAfter(s, op, n)
  {
    hide AddedUnder, RemovedUnder, NewlyTagged, Elements;
  }

  lemma SetsLinksOfSubject(s: Store, op: Op)
    requires SetsLinks(op)
    ensures OnlyGistOf(Subject(op), s, Apply(s, op))
  {
    hide Apply, Added;
    GistsAfter(s, op);
  }

  lemma SlotIsPlaced(s: Store, v: View, list: seq<Id>, op: Op)
    requires SetsLinks(op) && (Subject(op) == NO_ID ==> op.CreateTag? || op.CreateNotebook?)
    ensures ViewAfter(s, v, list, op)
            == if Signals(s, v, op) then Placed(Apply(s, op), list, Subject(op), Member(s, v, op)) else list
  {
    hide AddedUnder, RemovedUnder, NewlyTagged, Added, Removed, Placed;
  }

  /** A view that does not listen, or is not told, has nothing to show anew. */
  lemma SilentLeavesMembership(s: Store, v: View, op: Op, n: Id)
    requires SetsLinks(op) && Filters(v) && !Signals(s, v, op) && n != NO_ID
    ensures Belongs(Apply(s, op), v, n) == Belongs(s, v, n)
  {
    hide Apply, Elements, Added;
    GistsAfter(s, op);
    if op.SetTags? && v.NotesWithTag? && n == op.note {
      SameElements(op.tags, GistOf(s, n).tagIds, v.tag);
    }
  }

  lemma SameElements(a: seq<Id>, b: seq<Id>, x: Id)
    requires Elements(a) == Elements(b)
    ensures x in a <==> x in b
  {
    assert x in Elements(a) <==> x in a;
    assert x in Elements(b) <==> x in b;
  }

  lemma LinksFollowIff(s: Store, v: View, op: Op)
    requires Sound(s) && NewestFirst(s, s.allNotes) && Filters(v) && SetsLinks(op) && Addressed(s, op) && Allowed(s, op)
    ensures ViewAfter(s, v, Load(s, v), op) == Load(Apply(s, op), v) <==> FilterFollowsWell(s, v, op)
  {
    hide Apply, ViewAfter, Placed, Load, Chosen, Inv, HomeInv, NewestFirst, Joins, Signals, Member, Belongs, Allowed;
    var s', n := Apply(s, op), Subject(op);
    StepSoundIff(s, op);
    SetsLinksOfSubject(s, op);
    OnlyGistMeansOnlyLinks(n, s, s', v);
    AllNotesFacts(s);
    NotNone(s);
    SlotIsPlaced(s, v, Load(s, v), op);
    if Signals(s, v, op) {
      if n in s.allNotes {
        MemberIsChosen(s, v, op);
      }
      PlacedMatchesIff(s, s', v, n, Member(s, v, op));
    } else {
      forall x | x in s.allNotes ensures x in Chosen(s', v) <==> x in Chosen(s, v) {
        SilentLeavesMembership(s, v, op, x);
        ChosenAgrees(s, s', v, x);
      }
      UnchangedView(s, s', v);
    }
  }

  lemma NotNone(s: Store)
    requires Inv(s)
    ensures NO_ID !in s.live
  {
  }

  lemma MemberIsChosen(s: Store, v: View, op: Op)
    requires Sound(Apply(s, op)) && Filters(v) && SetsLinks(op) && Subject(op) in Apply(s, op).allNotes
    requires Signals(s, v, op)
    ensures Subject(op) in Chosen(Apply(s, op), v) <==> Member(s, v, op)
  {
    hide Apply, Added, Chosen, Inv, HomeInv;
    GistsAfter(s, op);
    ChosenOf(Apply(s, op), v, Subject(op));
  }

  // The operations that change times, trash and the set of notes

  lemma NewNoteUnseen(s: Store, v: View, n: Id)
    requires Inv(s) && Filters(v) && n > s.maxNote
    ensures n !in Chosen(s, v)
  {
    hide Distinct;
  }

  lemma ReceivedFollows(s: Store, v: View, g: Gist)
    requires Inv(s) && Filters(v)
    ensures Load(NoteReceived(s, g), v) == Load(s, v)
  {
    hide Existing, Chosen, Inv;
    var s', n := NoteReceived(s, g), s.maxNote + 1;
    SameChosen(s, s', v);
    NewNoteUnseen(s, v, n);
    ExistingAround([], n, s.allNotes, Chosen(s, v));
    assert [] + [n] + s.allNotes == s'.allNotes;
    ExistingOfNone(Chosen(s, v));
  }

  lemma TimesFollow(s: Store, v: View, n: Id, g: Gist, reorder: bool)
    requires Inv(s) && NewestFirst(s, s.allNotes) && Filters(v) && n != NO_ID
    ensures var s1 := WithGist(s, n, g);
            Load(if reorder then Reordered(s1, n) else s1, v)
            == DisplayDataSlot(if reorder then Reordered(s1, n) else s1, Load(s, v), n, reorder)
  {
    hide Existing, Inserted, Removed, NewestFirst, Chosen, Inv;
    var s1 := WithGist(s, n, g);
    AllNotesFacts(s);
    SameChosen(s, s1, v);
    if reorder {
      var s' := Reordered(s1, n);
      SameChosen(s, s', v);
      if n in s.allNotes {
        RemovedFrom(s.allNotes, n);
        PositionInSameTimes(s1, s', n, Removed(s.allNotes, n));
        MovedNoteMatches(s, s', v, n);
      }
    }
  }

  lemma TrashFollows(s: Store, v: View, n: Id)
    requires Sound(s) && Filters(v) && n in s.live && !GistOf(s, n).trashed
    ensures Load(MovedToTrash(s, n), v) == TrashednessSlot(MovedToTrash(s, n), v, Load(s, v), n, true)
  {
    hide Existing, Removed, RemovedUnder, Chosen, Inv, HomeInv, Distinct;
    var s' := MovedToTrash(s, n);
    StepSoundIff(s, Trash(n));
    NotNone(s);
    AllNotesFacts(s);
    RemovedFrom(s.allNotes, n);
    forall x | x in s.allNotes && x != n ensures x in Chosen(s', v) <==> x in Chosen(s, v) {
      ChosenAgrees(s, s', v, x);
    }
    RemovedNoteMatches(s, s', v, n);
    if n !in Load(s, v) {
      RemovedAbsent(Load(s, v), n);
    }
  }

  lemma NotMovedToTrash(s: Store, n: Id)
    requires GistOf(s, n).trashed
    ensures MovedToTrash(s, n) == s
  {
  }

  lemma RestoredOrder(s: Store, n: Id)
    requires n != NO_ID && n !in s.allNotes && GistOf(s, n).trashed
    ensures Restored(s, n).allNotes == Inserted(Restored(s, n), n, s.allNotes)
  {
    hide AddedUnder, Existing, InsertionPosition;
    var g := GistOf(s, n);
    var nb := if g.notebookId in s.notebookIds then g.notebookId else s.defaultNotebookId;
    var tags := Existing(g.tagIds, s.tagIds);
    var s1 := WithGist(s, n, g.(trashed := false, notebookId := nb, tagIds := tags))
              .(tagNotes := AddedUnder(s.tagNotes, Elements(tags), n), allNotes := Added(s.allNotes, n));
    assert Removed(s1.allNotes, n) == s.allNotes by {
      RemovedAt([], n, s.allNotes);
      assert [] + [n] + s.allNotes == s1.allNotes && [] + s.allNotes == s.allNotes;
    }
    PositionInSameTimes(s1, Restored(s, n), n, s.allNotes);
  }

  lemma RestoredGists(s: Store, n: Id)
    requires Inv(s) && n in s.live && GistOf(s, n).trashed
    ensures forall x :: TimeOf(Restored(s, n), x) == TimeOf(s, x)
    ensures forall x :: x != n ==> GistOf(Restored(s, n), x) == GistOf(s, x)
    ensures var g' := GistOf(Restored(s, n), n);
            && !g'.trashed
            && g'.notebookId == if GistOf(s, n).notebookId in s.notebookIds then GistOf(s, n).notebookId
                else s.defaultNotebookId
    ensures Restored(s, n).live == s.live
  {
    NoteIdsInRange(s, n);
    hide Restored, Inv, Existing, IdsOk, AddedUnder, Removed, Added;
    RestoredShape(s, n);
  }

  lemma RestoreFollowsIff(s: Store, v: View, n: Id)
    requires Sound(s) && NewestFirst(s, s.allNotes) && Filters(v) && n in s.live && GistOf(s, n).trashed
    requires Allowed(s, Restore(n))
    ensures Load(Restored(s, n), v) == TrashednessSlot(Restored(s, n), v, Load(s, v), n, false)
            <==> GistOf(s, n).notebookId == NO_ID ==> v != NotesInNotebook(NO_ID)
  {
    hide Existing, Inserted, Restored, Chosen, Inv, Distinct, NewestFirst;
    var s' := Restored(s, n);
    StepSoundIff(s, Restore(n));
    NotNone(s);
    AllNotesFacts(s);
    AllNotesFacts(s');
    RestoredGists(s, n);
    NotebookIdsOk(s);
    RestoredOrder(s, n);
    InsertedHas(s', n, s.allNotes);
    InsertedHas(s', n, Load(s, v));
    assert n in s'.allNotes;
    forall x | x in s.allNotes ensures x in Chosen(s', v) <==> x in Chosen(s, v) {
      ChosenAgrees(s, s', v, x);
    }
    hide HomeInv, Sound;
    ChosenOf(s', v, n);
    InsertedNoteMatches(s, s', v, n);
  }

  lemma ExpungeFollows(s: Store, v: View, n: Id)
    requires Sound(s) && Filters(v)
    ensures Load(NoteExpunged(s, n), v) == NoteExpungedSlot(Load(s, v), n)
  {
    hide Existing, Removed, RemovedUnder, Chosen, Inv, HomeInv, Distinct;
    var s' := NoteExpunged(s, n);
    StepSoundIff(s, Expunge(n));
    AllNotesFacts(s);
    if n != NO_ID {
      RemovedFrom(s.allNotes, n);
      forall x | x in s.allNotes && x != n ensures x in Chosen(s', v) <==> x in Chosen(s, v) {
        ChosenAgrees(s, s', v, x);
      }
      RemovedNoteMatches(s, s', v, n);
    }
  }

  lemma TrashedNotInAll(s: Store, n: Id)
    requires Inv(s) && n in s.trash
    ensures n !in s.allNotes
  {
    assert ListedOk(s, n);
  }

  lemma ExpungeTagFollowsIff(s: Store, v: View, t: Id)
    requires Sound(s) && Filters(v)
    ensures Load(TagExpunged(s, t), v) == Load(s, v) <==> v == NotesWithTag(t) ==> Load(s, v) == []
  {
    hide Existing, Removed, Inv, HomeInv, Distinct;
    var s' := TagExpunged(s, t);
    if t != NO_ID {
      TagDroppedHomes(s, ListAt(s.tagNotes, t), t);
    }
    if v == NotesWithTag(t) {
      NoneExisting(s'.allNotes);
    } else {
      UnchangedView(s, s', v);
    }
  }

  lemma OthersFollowIff(s: Store, v: View, op: Op)
    requires Sound(s) && NewestFirst(s, s.allNotes) && Filters(v) && !SetsLinks(op) && !op.SyncNote?
    requires !op.CreateNote? && !op.ExpungeNotebook? && Addressed(s, op) && Allowed(s, op)
    ensures ViewAfter(s, v, Load(s, v), op) == Load(Apply(s, op), v) <==> FilterFollowsWell(s, v, op)
  {
    hide Load, Inv, HomeInv, NewestFirst, TagExpunged, NoteExpunged, Restored, MovedToTrash, Removed, Inserted,
      TrashednessSlot;
    NotNone(s);
    match op {
      case ReceiveNote(created, updated, guid) =>
          ReceivedFollows(s, v, Gist(NO_ID, [], false, false, created, updated, guid));
      case RefreshNote(n, created, updated, guid) =>
        TimesFollow(s, v, n, GistOf(s, n).(createdTime := created, updatedTime := updated, guid := guid),
            GistOf(s, n).updatedTime != updated);
      case EditNote(n, now, changed) => TimesFollow(s, v, n, GistOf(s, n).(updatedTime := now), changed);
      case SetDefault(nb) => SameView(s, DefaultSet(s, nb), v);
      case Trash(n) =>
        if !GistOf(s, n).trashed {
          TrashFollows(s, v, n);
        } else {
          NotMovedToTrash(s, n);
        }
      case Restore(n) =>
        if GistOf(s, n).trashed {
          RestoreFollowsIff(s, v, n);
        } else {
          NotRestored(s, n);
        }
      case Expunge(n) => ExpungeFollows(s, v, n);
      case ExpungeFromTrash(n) =>
        SameView(s, NoteExpungedFromTrash(s, n), v);
        if n in s.trash {
          TrashedNotInAll(s, n);
          NotShown(s, v, n);
        }
      case ExpungeTag(t) => ExpungeTagFollowsIff(s, v, t);
    }
  }

  lemma SameView(s: Store, s': Store, v: View)
    requires s'.notebookIds == s.notebookIds && s'.notebookNotes == s.notebookNotes && s'.tagNotes == s.tagNotes
    requires s'.favourites == s.favourites
    requires s'.allNotes == s.allNotes && Filters(v)
    ensures Load(s', v) == Load(s, v)
  {
  }

  lemma NotShown(s: Store, v: View, n: Id)
    requires Filters(v) && n !in s.allNotes
    ensures Removed(Load(s, v), n) == Load(s, v)
  {
    RemovedAbsent(Load(s, v), n);
  }

  // The views of all notes and of the trash

  lemma LinksUnseen(s: Store, v: View, list: seq<Id>, op: Op)
    requires SetsLinks(op) && !Filters(v)
    ensures ViewAfter(s, v, list, op) == list && Apply(s, op).allNotes == s.allNotes && Apply(s, op).trash == s.trash
  {
    hide AddedUnder, RemovedUnder, NewlyTagged, Added, Removed, Elements, Placed;
    GistsAfter(s, op);
  }

  lemma AllFollowsIff(s: Store, op: Op)
    requires Inv(s) && Addressed(s, op) && !op.SyncNote? && !op.CreateNote? && !op.ExpungeNotebook?
    ensures ViewAfter(s, AllNotes, s.allNotes, op) == Apply(s, op).allNotes <==> AllFollowsWell(s, op)
  {
    hide Inv, Inserted, Removed, RemovedUnder, TagDropped, Restored, NotebookSet, NotebookCreated, TagCreated, TagsSet,
        TagAdded, FavouriteSet,
      Distinct, DisplayDataSlot, Reordered, Signals, Member;
    NotNone(s);
    AllNotesFacts(s);
    match op {
      case ReceiveNote(created, updated, guid) =>
        ReceivedByTimeIff(s, Gist(NO_ID, [], false, false, created, updated, guid));
      case RefreshNote(n, created, updated, guid) =>
        TimesInAll(s, n, GistOf(s, n).(createdTime := created, updatedTime := updated, guid := guid),
            GistOf(s, n).updatedTime != updated);
      case EditNote(n, now, changed) => TimesInAll(s, n, GistOf(s, n).(updatedTime := now), changed);
      case Restore(n) =>
        RestoredHasNote(s, n);
      case Expunge(n) =>
      case ExpungeFromTrash(n) =>
        if n in s.trash {
          TrashedNotInAll(s, n);
          RemovedAbsent(s.allNotes, n);
        }
      case ExpungeTag(t) =>
        TagDroppedHomes(s, ListAt(s.tagNotes, t), t);
      case Trash(n) =>
      case SetDefault(_) =>
      case _ => LinksUnseen(s, AllNotes, s.allNotes, op);
    }
  }

  lemma TimesInAll(s: Store, n: Id, g: Gist, reorder: bool)
    requires Inv(s) && n in s.live
    ensures var s1 := WithGist(s, n, g);
            var s' := if reorder then Reordered(s1, n) else s1;
            DisplayDataSlot(s', s.allNotes, n, reorder) == s'.allNotes
  {
    NotNone(s);
    hide Inserted, Removed, Inv;
    var s1 := WithGist(s, n, g);
    PositionInSameTimes(s1, Reordered(s1, n), n, Removed(s.allNotes, n));
  }

  lemma ReceivedByTimeIff(s: Store, g: Gist)
    requires Inv(s)
    ensures var s', n := NoteReceived(s, g), s.maxNote + 1;
            && n !in s.allNotes
            && (Inserted(s', n, s.allNotes) == s'.allNotes
                <==> s.allNotes == [] || Timestamp(g) > TimeOf(s, s.allNotes[0]))
  {
    hide Inserted;
    var s', n := NoteReceived(s, g), s.maxNote + 1;
    AllNotesFacts(s);
    InsertedFirstIff(s', n, s.allNotes);
    if s.allNotes != [] {
      assert s.allNotes[0] in s.allNotes && s.allNotes[0] != n;
    }
  }

  lemma RestoredHasNote(s: Store, n: Id)
    requires Inv(s) && n in s.live
    ensures GistOf(s, n).trashed ==> n !in s.allNotes && n in Restored(s, n).allNotes
    ensures !GistOf(s, n).trashed ==> Restored(s, n) == s
  {
    AllNotesFacts(s);
    hide Restored, Inserted, Inv;
    NotNone(s);
    if GistOf(s, n).trashed {
      RestoredOrder(s, n);
      InsertedHas(Restored(s, n), n, s.allNotes);
    } else {
      NotRestored(s, n);
    }
  }

  lemma TrashFacts(s: Store)
    requires Inv(s)
    ensures Distinct(s.trash)
    ensures forall n :: n in s.live ==> (n in s.trash <==> GistOf(s, n).trashed)
  {
    forall n | n in s.live ensures n in s.trash <==> GistOf(s, n).trashed {
      assert ListedOk(s, n);
    }
  }

  lemma TrashedByTimeIff(s: Store, n: Id)
    requires Inv(s) && n in s.live && !GistOf(s, n).trashed
    ensures Placed(MovedToTrash(s, n), s.trash, n, true) == MovedToTrash(s, n).trash
            <==> s.trash == [] || TimeOf(s, n) > TimeOf(s, s.trash[0])
  {
    NotNone(s);
    TrashFacts(s);
    hide Inserted, Removed, RemovedUnder, Inv;
    var s' := MovedToTrash(s, n);
    InsertedFirstIff(s', n, s.trash);
  }

  lemma TimesInTrashIff(s: Store, n: Id, g: Gist, reorder: bool)
    requires Inv(s) && n in s.live
    ensures var s1 := WithGist(s, n, g);
            var s' := if reorder then Reordered(s1, n) else s1;
            && s'.trash == s.trash
            && (DisplayDataSlot(s', s.trash, n, reorder) == s.trash
                <==> (n in s.trash && reorder ==> StaysInPlace(s', n, s.trash)))
  {
    NotNone(s);
    TrashFacts(s);
    hide Inserted, Removed, Inv, StaysInPlace;
    var s1 := WithGist(s, n, g);
    if n in s.trash && reorder {
      ReinsertedInPlaceIff(Reordered(s1, n), n, s.trash);
    }
  }

  lemma RestoredTrash(s: Store, n: Id)
    requires Inv(s) && n in s.live
    ensures Restored(s, n).trash == if GistOf(s, n).trashed then Removed(s.trash, n) else s.trash
  {
    NotNone(s);
    hide Existing, AddedUnder, Removed, Inv, Inserted;
  }

  lemma TrashViewFollowsIff(s: Store, op: Op)
    requires Inv(s) && Addressed(s, op) && !op.SyncNote? && !op.CreateNote? && !op.ExpungeNotebook?
    ensures ViewAfter(s, TrashNotes, s.trash, op) == Apply(s, op).trash <==> TrashFollowsWell(s, op)
  {
    hide Inv, Inserted, Removed, RemovedUnder, TagDropped, Restored, NotebookSet, NotebookCreated, TagCreated, TagsSet,
        TagAdded, FavouriteSet,
      Distinct, DisplayDataSlot, Reordered, StaysInPlace, Placed, MovedToTrash;
    NotNone(s);
    TrashFacts(s);
    match op {
      case Trash(n) =>
        if GistOf(s, n).trashed {
          NotMovedToTrash(s, n);
        } else {
          TrashedByTimeIff(s, n);
        }
      case Restore(n) =>
        RestoredTrash(s, n);
        if GistOf(s, n).trashed {
          PlacedOut(Restored(s, n), s.trash, n);
        }
      case RefreshNote(n, created, updated, guid) =>
        TimesInTrashIff(s, n, GistOf(s, n).(createdTime := created, updatedTime := updated, guid := guid),
            GistOf(s, n).updatedTime != updated);
      case EditNote(n, now, changed) => TimesInTrashIff(s, n, GistOf(s, n).(updatedTime := now), changed);
      case ExpungeTag(t) => TagDroppedHomes(s, ListAt(s.tagNotes, t), t);
      case ReceiveNote(_, _, _) =>
      case SetDefault(_) =>
      case Expunge(_) =>
      case ExpungeFromTrash(_) =>
      case _ => LinksUnseen(s, TrashNotes, s.trash, op);
    }
  }

  lemma PlacedOut(s: Store, list: seq<Id>, n: Id)
    ensures Placed(s, list, n, false) == Removed(list, n)
  {
    if n !in list {
      RemovedAbsent(list, n);
    }
  }

  lemma LoadIsDistinct(s: Store, v: View)
    requires Inv(s)
    ensures Distinct(Load(s, v))
  {
    AllNotesFacts(s);
    TrashFacts(s);
    assert Distinct([]);
    hide Inv, Chosen, Existing;
    if Filters(v) {
      ExistingIsDistinct(s.allNotes, Chosen(s, v));
    }
  }

  lemma SyncedNoteFollowsIff(s: Store, v: View, n: Id, updated: int)
    requires Inv(s) && n in s.live
    ensures var op := SyncNote(n, updated);
            ViewAfter(s, v, Load(s, v), op) == Load(Apply(s, op), v) <==> FollowsWell(s, v, op)
  {
    NotNone(s);
    LoadIsDistinct(s, v);
    hide Inv, Inserted, Removed, Existing, StaysInPlace, Distinct;
    var s' := Apply(s, SyncNote(n, updated));
    assert Load(s', v) == Load(s, v);
    if n in Load(s, v) {
      ReinsertedInPlaceIff(s', n, Load(s, v));
    }
  }

  lemma NothingShown(s: Store, op: Op)
    requires !op.ExpungeNotebook?
    ensures ViewAfter(s, NoNotes, [], op) == []
  {
    hide Apply, Inserted;
  }

  lemma SyncedIsAddressed(s: Store, op: Op)
    requires op.SyncNote? && Addressed(s, op)
    ensures op.note in s.live
  {
  }

  // Operations that announce more than one change

  lemma MovesUnseen(s: Store, v: View, list: seq<Id>, ms: seq<Id>, nb: Id)
    requires !v.NotesInNotebook? || nb == NO_ID || (nb != v.notebook && forall m :: m in ms ==> m !in list)
    ensures MovesFollowed(s, v, list, ms, nb) == list
  {
    hide Removed, Inserted;
    if ms != [] {
      var front := ms[..|ms| - 1];
      assert forall m :: m in front ==> m in ms;
      assert ms[|ms| - 1] in ms;
      MovesUnseen(s, v, list, front, nb);
    }
  }

  lemma {:induction false} MovesAway(s: Store, v: View, list: seq<Id>, ms: seq<Id>, nb: Id)
    requires v.NotesInNotebook? && nb != v.notebook && nb != NO_ID && Distinct(list) && NO_ID !in ms
    ensures Distinct(MovesFollowed(s, v, list, ms, nb))
    ensures forall x :: x in MovesFollowed(s, v, list, ms, nb) <==> x in list && x !in ms
  {
    hide Removed, Inserted, Distinct;
    if ms != [] {
      var front, m := ms[..|ms| - 1], ms[|ms| - 1];
      assert forall x :: x in ms <==> x in front || x == m;
      MovesAway(s, v, list, front, nb);
      RemovedFrom(MovesFollowed(s, v, list, front, nb), m);
    }
  }

  lemma {:induction false} MovesIn(s: Store, v: View, list: seq<Id>, ms: seq<Id>, nb: Id)
    requires v == NotesInNotebook(nb) && nb != NO_ID && NO_ID !in ms && Distinct(ms) && forall m :: m in ms ==>
        m !in list
    ensures MovesFollowed(s, v, list, ms, nb) == InsertedAll(s, list, ms)
  {
    hide Removed, Inserted, Distinct;
    if ms != [] {
      var front, m := ms[..|ms| - 1], ms[|ms| - 1];
      DistinctFront(ms);
      assert m in ms && forall x :: x in front ==> x in ms;
      MovesIn(s, v, list, front, nb);
      InsertedAllElements(s, list, front);
    }
  }

  lemma DistinctFront(list: seq<Id>)
    requires Distinct(list) && list != []
    ensures Distinct(list[..|list| - 1]) && list[|list| - 1] !in list[..|list| - 1]
  {
  }

  lemma {:induction false} InsertedAllInSameTimes(s: Store, s': Store, list: seq<Id>, ns: seq<Id>)
    requires forall x :: TimeOf(s', x) == TimeOf(s, x)
    ensures InsertedAll(s', list, ns) == InsertedAll(s, list, ns)
  {
    hide Inserted, TimeOf;
    if ns != [] {
      var front := ns[..|ns| - 1];
      InsertedAllInSameTimes(s, s', list, front);
      PositionInSameTimes(s, s', ns[|ns| - 1], InsertedAll(s, list, front));
    }
  }

  lemma {:induction false} MovedIdsAre(s: Store, ns: seq<Id>, nb: Id)
    requires Distinct(ns) && NO_ID !in ns && nb != NO_ID
    ensures Distinct(MovedIds(s, ns, nb))
    ensures forall x :: x in MovedIds(s, ns, nb) <==> x in ns && GistOf(s, x).notebookId != nb
  {
    hide NotesMoved, Distinct, GistOf;
    if ns == [] {
      DistinctNone();
    } else {
      var front, n := ns[..|ns| - 1], ns[|ns| - 1];
      DistinctFront(ns);
      assert forall x :: x in ns <==> x in front || x == n;
      MovedIdsAre(s, front, nb);
      NotesMovedGists(s, front, nb);
      DistinctWith(MovedIds(s, front, nb), n);
    }
  }

  lemma DistinctNone()
    ensures Distinct([])
  {
  }

  lemma DistinctWith(list: seq<Id>, x: Id)
    requires Distinct(list) && x !in list
    ensures Distinct(list + [x])
  {
  }

  /** What expunging a notebook changes: only notes of that notebook move, and only to the default one. */
  lemma ExpungedNotebook(s: Store, nb: Id)
    requires Sound(s) && Allowed(s, ExpungeNotebook(nb)) && !KeepsNotebook(s, nb)
    ensures var s', ms, to := NotebookExpunged(s, nb), MovedByExpunge(s, nb), s.defaultNotebookId;
            && nb != NO_ID && nb != to && ExpungeTarget(s, nb) == to
            && s'.allNotes == s.allNotes && s'.trash == s.trash && s'.tagNotes == s.tagNotes
                && s'.favourites == s.favourites
            && nb !in s'.notebookIds && Distinct(ms) && NO_ID !in ms && (to == NO_ID ==> ms == [])
            && (forall x :: TimeOf(s', x) == TimeOf(s, x))
            && (forall x :: x in s.live ==>
                  && (x in ms <==> GistOf(s, x).notebookId == nb)
                  && GistOf(s', x) == if x in ms then GistOf(s, x).(notebookId := to) else GistOf(s, x))
  {
    NotebookIdsOk(s);
    ListedNotesAreIds(s, nb);
    NotebookListOk(s, nb);
    RemovedNotebook(s, nb);
    hide Inv, Removed, Distinct, NotesMoved, MovedIds;
    var ns, to := ListAt(s.notebookNotes, nb), s.defaultNotebookId;
    NotesMovedElsewhere(s, ns, to);
    if to != NO_ID {
      NotesMovedGists(s, ns, to);
      MovedIdsAre(s, ns, to);
    } else {
      NoneMoved(s, to);
    }
  }

  lemma NoneMoved(s: Store, nb: Id)
    ensures MovedIds(s, [], nb) == [] && NotesMoved(s, [], nb) == s && Distinct([])
  {
  }

  lemma NotebookListOk(s: Store, nb: Id)
    requires Sound(s)
    ensures Distinct(ListAt(s.notebookNotes, nb)) && NO_ID !in ListAt(s.notebookNotes, nb)
    ensures forall n :: n in s.live && n in ListAt(s.notebookNotes, nb) ==> GistOf(s, n).notebookId == nb
    ensures s.defaultNotebookId == NO_ID ==> ListAt(s.notebookNotes, nb) == []
  {
    hide HomeInv;
    forall n | n in s.live && n in ListAt(s.notebookNotes, nb) ensures GistOf(s, n).notebookId == nb {
      assert NotebookOk(s, n);
    }
    if s.defaultNotebookId == NO_ID {
      NoNotebooks(s);
      HasElement(ListAt(s.notebookNotes, nb));
    }
  }

  lemma NoNotebooks(s: Store)
    requires Sound(s) && s.defaultNotebookId == NO_ID
    ensures s.maxNotebook == 0
  {
    NotebookIdsOk(s);
    hide Inv;
  }

  lemma {:induction false} NotesMovedElsewhere(s: Store, ns: seq<Id>, nb: Id)
    ensures var s' := NotesMoved(s, ns, nb);
            && s'.allNotes == s.allNotes && s'.trash == s.trash && s'.tagNotes == s.tagNotes
                && s'.favourites == s.favourites
            && s'.notebookIds == s.notebookIds && forall x :: TimeOf(s', x) == TimeOf(s, x)
  {
    hide AddedUnder, RemovedUnder;
    if ns != [] {
      NotesMovedElsewhere(s, ns[..|ns| - 1], nb);
    }
  }

  lemma ExpungeNotebookFollowsIff(s: Store, v: View, nb: Id)
    requires Sound(s) && NewestFirst(s, s.allNotes) && Filters(v) && Allowed(s, ExpungeNotebook(nb))
    requires !KeepsNotebook(s, nb)
    ensures var op := ExpungeNotebook(nb);
            ViewAfter(s, v, Load(s, v), op) == Load(Apply(s, op), v) <==> FilterFollowsWell(s, v, op)
  {
    hide Sound, NewestFirst, Chosen, Existing, AllJoin, MovesFollowed, NotebookExpunged, MovedByExpunge, Distinct;
    ExpungedNotebook(s, nb);
    var s', ms, to := NotebookExpunged(s, nb), MovedByExpunge(s, nb), s.defaultNotebookId;
    StepSoundIff(s, ExpungeNotebook(nb));
    ShownNotes(s, v);
    if v == NotesInNotebook(to) && to != NO_ID {
      MovedInFollowsIff(s, s', v, ms);
    } else if v == NotesInNotebook(nb) {
      LoadIsDistinctIn(s, v);
      if to != NO_ID {
        MovesAway(s', v, Load(s, v), ms, to);
      }
      AllMovedAway(s, s', v, ms, nb, to);
    } else {
      MovesUnseen(s', v, Load(s, v), ms, to);
      StillShown(s, s', v, ms, nb);
      NoneJoin(s, s.allNotes, Load(s, v));
    }
  }

  lemma LoadIsDistinctIn(s: Store, v: View)
    requires Sound(s)
    ensures Distinct(Load(s, v))
  {
    LoadIsDistinct(s, v);
    hide Inv;
  }

  /** What a filtering view shows. */
  lemma ShownNotes(s: Store, v: View)
    requires Sound(s) && Filters(v)
    ensures Distinct(s.allNotes)
    ensures forall x :: x in s.allNotes ==> x in s.live && x != NO_ID
    ensures forall x :: x in Load(s, v) ==> x in s.allNotes && v != NotesInNotebook(NO_ID) && Belongs(s, v, x)
  {
    hide Inv, HomeInv, Chosen, Existing;
    AllNotesFacts(s);
    forall x | x in Load(s, v) ensures v != NotesInNotebook(NO_ID) && Belongs(s, v, x) {
      ChosenOf(s, v, x);
    }
  }

  lemma MovedInFollowsIff(s: Store, s': Store, v: View, ms: seq<Id>)
    requires Sound(s) && Sound(s') && NewestFirst(s, s.allNotes) && v == NotesInNotebook(s.defaultNotebookId)
    requires v.notebook != NO_ID && s'.allNotes == s.allNotes && Distinct(ms) && NO_ID !in ms
    requires forall x :: TimeOf(s', x) == TimeOf(s, x)
    requires forall x :: x in s.live ==>
               && (x in ms ==> GistOf(s, x).notebookId != v.notebook)
               && GistOf(s', x) == if x in ms then GistOf(s, x).(notebookId := v.notebook) else GistOf(s, x)
    ensures MovesFollowed(s', v, Load(s, v), ms, v.notebook) == Load(s', v) <==> AllJoin(s, s.allNotes, Load(s, v), ms)
  {
    ShownNotes(s, v);
    hide Sound, NewestFirst, Chosen, Existing, AllJoin, MovesFollowed, Distinct, TimeOf;
    var ids := Chosen(s, v);
    MovesIn(s', v, Load(s, v), ms, v.notebook);
    InsertedAllInSameTimes(s, s', Load(s, v), ms);
    forall x | x in s.allNotes ensures x in Chosen(s', v) <==> x in ids + ms {
      ChosenOf(s, v, x);
      ChosenOf(s', v, x);
    }
    ExistingAgrees(s.allNotes, Chosen(s', v), ids + ms);
    InsertedAllMatchesIff(s, s.allNotes, ids, ms);
  }

  lemma AllMovedAway(s: Store, s': Store, v: View, ms: seq<Id>, nb: Id, to: Id)
    requires v == NotesInNotebook(nb) && nb !in s'.notebookIds
    requires forall x :: x in Load(s, v) ==> x in ms
    requires to != NO_ID ==>
               forall x :: x in MovesFollowed(s', v, Load(s, v), ms, to) <==> x in Load(s, v) && x !in ms
    requires to == NO_ID ==> ms == []
    ensures MovesFollowed(s', v, Load(s, v), ms, to) == [] == Load(s', v)
  {
    NoneExisting(s'.allNotes);
    var list := MovesFollowed(s', v, Load(s, v), ms, to);
    hide MovesFollowed, Existing;
    if to == NO_ID {
      MovesUnseen(s', v, Load(s, v), ms, to);
    }
    HasElement(list);
  }

  lemma HasElement(list: seq<Id>)
    ensures list != [] ==> exists x :: x in list
  {
    if list != [] {
      assert list[0] in list;
    }
  }

  lemma StillShown(s: Store, s': Store, v: View, ms: seq<Id>, nb: Id)
    requires Sound(s) && Sound(s') && Filters(v) && s'.allNotes == s.allNotes
    requires v != NotesInNotebook(nb)
    requires forall x :: x in s.live ==>
               && (x in ms <==> GistOf(s, x).notebookId == nb)
               && GistOf(s', x) == if x in ms then GistOf(s, x).(notebookId := s.defaultNotebookId) else GistOf(s, x)
    requires v == NotesInNotebook(s.defaultNotebookId) ==> ms == []
    ensures Load(s', v) == Load(s, v)
  {
    ShownNotes(s, v);
    hide Sound, Chosen, Existing;
    forall x | x in s.allNotes ensures x in Chosen(s', v) <==> x in Chosen(s, v) {
      ChosenAgrees(s, s', v, x);
    }
    UnchangedView(s, s', v);
  }

  /** Expunging a notebook leaves the other views alone. */
  lemma ExpungeNotebookElsewhere(s: Store, v: View, nb: Id)
    requires !Filters(v)
    ensures var op := ExpungeNotebook(nb); ViewAfter(s, v, Load(s, v), op) == Load(s, v) == Load(Apply(s, op), v)
  {
    hide MovesFollowed, NotesMoved, Removed, MovedByExpunge;
    NotesMovedElsewhere(s, ListAt(s.notebookNotes, nb), ExpungeTarget(s, nb));
    MovesUnseen(NotebookExpunged(s, nb), v, Load(s, v), MovedByExpunge(s, nb), ExpungeTarget(s, nb));
  }

  lemma KeptNotebookFollows(s: Store, v: View, nb: Id)
    requires KeepsNotebook(s, nb)
    ensures var op := ExpungeNotebook(nb);
            && ViewAfter(s, v, Load(s, v), op) == Load(s, v) == Load(Apply(s, op), v)
            && (Filters(v) ==> FilterFollowsWell(s, v, op))
  {
    hide Load, AllJoin;
    NoneJoin(s, s.allNotes, Load(s, v));
  }

  /** The store after a note is made on the device. */
  lemma CreatedNote(s: Store, now: int)
    requires Sound(s)
    ensures var s', n := NoteCreated(s, now), s.maxNote + 1;
            && Sound(s') && s'.maxNote == n && n !in s.allNotes && n !in s.live && s'.allNotes == [n] + s.allNotes
            && s'.trash == s.trash && TimeOf(s', n) == now
            && (forall x :: x != n ==> GistOf(s', x) == GistOf(s, x))
            && GistOf(s', n) == Gist(s.defaultNotebookId, [], false, false, now, now, "")
  {
    NotebookIdsOk(s);
    AllNotesFacts(s);
    hide Inv, HomeInv, NotebookSet;
    StepSoundIff(s, CreateNote(now));
    var s1 := NoteReceived(s, Gist(NO_ID, [], false, false, now, now, ""));
    NotebookSetGist(s1, s.maxNote + 1, s.defaultNotebookId);
    NotebookSetLists(s1, s.maxNote + 1, s.defaultNotebookId);
  }

  lemma NotebookSetLists(s: Store, n: Id, nb: Id)
    ensures NotebookSet(s, n, nb).allNotes == s.allNotes && NotebookSet(s, n, nb).trash == s.trash
  {
    hide AddedUnder, RemovedUnder;
  }

  /** After the creation of a note: a view agrees with a reload exactly when the note is newer than those shown where it
      appears. */
  lemma CreateFollowsIff(s: Store, v: View, now: int)
    requires Sound(s)
    ensures var op := CreateNote(now);
            ViewAfter(s, v, Load(s, v), op) == Load(Apply(s, op), v) <==> FollowsWell(s, v, op)
  {
    hide Sound, Inserted, Existing, Chosen, TimeOf, NoteCreated;
    var s', n := NoteCreated(s, now), s.maxNote + 1;
    CreatedNote(s, now);
    if v.AllNotes? {
      InsertedFirstIff(s', n, s.allNotes);
      FirstTime(s, s', s.allNotes);
    } else if Filters(v) {
      CreatedNoteShownIff(s, s', v, now);
      ShownNotes(s, v);
      InsertedFirstIff(s', n, Load(s, v));
      FirstTime(s, s', Load(s, v));
    }
  }

  lemma FirstTime(s: Store, s': Store, list: seq<Id>)
    requires forall x :: x in list ==> GistOf(s', x) == GistOf(s, x)
    ensures list != [] ==> TimeOf(s', list[0]) == TimeOf(s, list[0])
  {
  }

  lemma CreatedNoteShownIff(s: Store, s': Store, v: View, now: int)
    requires Sound(s) && Filters(v) && s' == NoteCreated(s, now)
    ensures var n := s.maxNote + 1;
            Load(s', v) == if v == NotesInNotebook(s.defaultNotebookId) && s.defaultNotebookId != NO_ID
                           then [n] + Load(s, v) else Load(s, v)
  {
    hide Sound, Existing, Chosen, NoteCreated, TimeOf;
    CreatedNote(s, now);
    ShownNotes(s, v);
    ChosenOf(s', v, s.maxNote + 1) by {
      assert s.maxNote + 1 in s'.allNotes;
    }
    forall x | x in s.allNotes ensures x in Chosen(s', v) <==> x in Chosen(s, v) {
      ChosenAgrees(s, s', v, x);
    }
    FirstShown(s.allNotes, s.maxNote + 1, Chosen(s, v), Chosen(s', v));
  }

  lemma FirstShown(list: seq<Id>, n: Id, ids: seq<Id>, ids': seq<Id>)
    requires forall x :: x in list ==> (x in ids' <==> x in ids)
    ensures Existing([n] + list, ids') == if n in ids' then [n] + Existing(list, ids) else Existing(list, ids)
  {
    hide Existing;
    ExistingAround([], n, list, ids');
    ExistingOfNone(ids');
    ExistingAgrees(list, ids, ids');
    assert [] + [n] + list == [n] + list;
    assert [] + [n] + Existing(list, ids) == [n] + Existing(list, ids);
    assert [] + Existing(list, ids) == Existing(list, ids);
  }

  lemma ExpungingFollowsIff(s: Store, v: View, nb: Id)
    requires Sound(s) && NewestFirst(s, s.allNotes) && Allowed(s, ExpungeNotebook(nb))
    ensures var op := ExpungeNotebook(nb);
            ViewAfter(s, v, Load(s, v), op) == Load(Apply(s, op), v) <==> FollowsWell(s, v, op)
  {
    hide Sound, ViewAfter, Load, Apply, FilterFollowsWell, NewestFirst, Allowed, KeepsNotebook;
    if KeepsNotebook(s, nb) {
      KeptNotebookFollows(s, v, nb);
      if !Filters(v) {
        ExpungeNotebookElsewhere(s, v, nb);
      }
    } else if Filters(v) {
      ExpungeNotebookFollowsIff(s, v, nb);
    } else {
      ExpungeNotebookElsewhere(s, v, nb);
    }
  }

  /** After each change of a sound index, a view that showed what a reload shows still does, if and only if the
      change is one the view follows well. */
  lemma ViewFollowsIff(s: Store, v: View, op: Op)
    requires Sound(s) && NewestFirst(s, s.allNotes) && Addressed(s, op) && Allowed(s, op)
    ensures ViewAfter(s, v, Load(s, v), op) == Load(Apply(s, op), v) <==> FollowsWell(s, v, op)
  {
    hide Inv, HomeInv, ViewAfter, Chosen, Existing, Apply, FilterFollowsWell, AllFollowsWell, TrashFollowsWell,
      NewestFirst, Allowed, Addressed;
    if op.SyncNote? {
      SyncedIsAddressed(s, op);
      SyncedNoteFollowsIff(s, v, op.note, op.updated);
    } else if op.CreateNote? {
      CreateFollowsIff(s, v, op.now);
    } else if op.ExpungeNotebook? {
      ExpungingFollowsIff(s, v, op.notebook);
    } else if Filters(v) {
      if SetsLinks(op) {
        LinksFollowIff(s, v, op);
      } else {
        OthersFollowIff(s, v, op);
      }
    } else if v.AllNotes? {
      AllFollowsIff(s, op);
    } else if v.TrashNotes? {
      TrashViewFollowsIff(s, op);
    } else {
      NothingShown(s, op);
    }
  }
}
