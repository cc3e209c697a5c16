/** Every run of the operations, in any order, keeps the index. */
module StorageRuns {
  import opened StorageIndex
  import opened StorageInvariants

  /** What the user interface and the synchronizer may ask for. The `existing` notebook or tag is the one that the name
      map gives for the wanted name. */
  datatype Op =
    | CreateNote(now: int)
    | ReceiveNote(created: int, updated: int, guid: string)
    | RefreshNote(note: Id, created: int, updated: int, guid: string)
    | EditNote(note: Id, now: int, changed: bool)
    | SyncNote(note: Id, updated: int)
    | CreateNotebook(existing: Id, firstNote: Id)
    | SetDefault(notebook: Id)
    | SetNotebook(note: Id, notebook: Id)
    | CreateTag(existing: Id, firstNote: Id)
    | SetTags(note: Id, tags: seq<Id>)
    | AddTag(note: Id, tag: Id)
    | SetFavourite(note: Id, favourite: bool)
    | Trash(note: Id)
    | Restore(note: Id)
    | Expunge(note: Id)
    | ExpungeFromTrash(note: Id)
    | ExpungeNotebook(notebook: Id)
    | ExpungeTag(tag: Id)

  function Apply(s: Store, op: Op): Store {
    match op
    case CreateNote(now) => NoteCreated(s, now)
    case ReceiveNote(created, updated, guid) => NoteReceived(s, Gist(NO_ID, [], false, false, created, updated, guid))
    case RefreshNote(n, created, updated, guid) => NoteRefreshed(s, n, created, updated, guid)
    case EditNote(n, now, changed) => NoteEdited(s, n, now, changed)
    case SyncNote(n, updated) => NoteEdited(s, n, updated, false)
    case CreateNotebook(existing, first) => NotebookCreated(s, existing, first)
    case SetDefault(nb) => DefaultSet(s, nb)
    case SetNotebook(n, nb) => NotebookSet(s, n, nb)
    case CreateTag(existing, first) => TagCreated(s, existing, first)
    case SetTags(n, tags) => TagsSet(s, n, tags)
    case AddTag(n, t) => TagAdded(s, n, t)
    case SetFavourite(n, favourite) => FavouriteSet(s, n, favourite)
    case Trash(n) => MovedToTrash(s, n)
    case Restore(n) => Restored(s, n)
    case Expunge(n) => NoteExpunged(s, n)
    case ExpungeFromTrash(n) => NoteExpungedFromTrash(s, n)
    case ExpungeNotebook(nb) => NotebookExpunged(s, nb)
    case ExpungeTag(t) => TagExpunged(s, t)
  }

  /** The ids of notes are those of notes not expunged, and names lead to existing notebooks and tags. */
  predicate Addressed(s: Store, op: Op) {
    match op
    case CreateNotebook(existing, first) => (first == NO_ID || first in s.live)
        && (existing == NO_ID || existing in s.notebookIds)
    case CreateTag(existing, first) => (first == NO_ID || first in s.live)
        && (existing == NO_ID || existing in s.tagIds)
    case RefreshNote(n, _, _, _) => n in s.live
    case EditNote(n, _, _) => n in s.live
    case SyncNote(n, _) => n in s.live
    case SetNotebook(n, _) => n in s.live
    case SetTags(n, _) => n in s.live
    case AddTag(n, _) => n in s.live
    case SetFavourite(n, _) => n in s.live
    case Trash(n) => n in s.live
    case Restore(n) => n in s.live
    case _ => true
  }

  /** What a caller has to see to. */
  predicate Allowed(s: Store, op: Op) {
    match op
    case CreateNotebook(existing, first) => first == NO_ID || existing == NO_ID
        || GistOf(s, first).notebookId != existing
    case SetNotebook(n, nb) => nb == NO_ID || nb in s.notebookIds
    case SetTags(n, tags) =>
      Distinct(tags) && forall t :: t in tags ==> t in s.tagIds || (GistOf(s, n).trashed && t in GistOf(s, n).tagIds)
    case AddTag(n, t) => t == NO_ID || t in s.tagIds || t in GistOf(s, n).tagIds
    case Restore(n) => GistOf(s, n).trashed && GistOf(s, n).notebookId == NO_ID ==> s.defaultNotebookId == NO_ID
    case ExpungeNotebook(nb) => nb == NO_ID || nb != s.defaultNotebookId || exists k :: k in s.notebookIds && k != nb
    case _ => true
  }

  /** There is a default notebook once there has been a notebook, and the notebook of every note exists. */
  ghost predicate HomeInv(s: Store) {
    && (s.defaultNotebookId in s.notebookIds
        || (s.notebookIds == [] && s.defaultNotebookId == NO_ID && s.maxNotebook == 0))
    && forall n :: n in s.live ==> GistOf(s, n).notebookId == NO_ID || GistOf(s, n).notebookId in s.notebookIds
  }

  ghost predicate Sound(s: Store) {
    Inv(s) && HomeInv(s)
  }

  const EMPTY := Store(map[], [], [], [], [], map[], NO_ID, [], map[], 0, 0, 0, {})

  lemma EmptyIsSound()
    ensures Sound(EMPTY)
  {
    assert Distinct([]);
  }

  /** No note changes notebook, and the notebooks stay. */
  ghost predicate SameHomes(s: Store, s': Store) {
    && s'.notebookIds == s.notebookIds && s'.defaultNotebookId == s.defaultNotebookId && s'.maxNotebook == s.maxNotebook
    && forall n :: n in s'.live ==>
         GistOf(s', n).notebookId == NO_ID || (n in s.live && GistOf(s', n).notebookId == GistOf(s, n).notebookId)
  }

  lemma HomeFrame(s: Store, s': Store)
    requires HomeInv(s) && SameHomes(s, s')
    ensures HomeInv(s')
  {
  }

  lemma {:induction false} TagDroppedHomes(s: Store, ns: seq<Id>, t: Id)
    ensures var s' := TagDropped(s, ns, t);
            && s' == s.(gists := s'.gists)
            && forall n :: GistOf(s', n).notebookId == GistOf(s, n).notebookId
  {
    if ns != [] {
      TagDroppedHomes(s, ns[..|ns| - 1], t);
    }
  }

  lemma ReorderedOnlyOrders(s: Store, n: Id)
    ensures Reordered(s, n) == s.(allNotes := Reordered(s, n).allNotes)
  {
  }

  predicate LeavesHomes(op: Op) {
    !(op.CreateNote? || op.CreateNotebook? || op.SetDefault? || op.SetNotebook? || op.Restore? || op.ExpungeNotebook?)
  }

  lemma TimesLeaveHomes(s: Store, op: Op)
    requires op.ReceiveNote? || op.RefreshNote? || op.EditNote? || op.SyncNote?
    requires s.maxNote + 1 !in s.live
    ensures SameHomes(s, Apply(s, op))
  {
    hide Reordered;
    match op {
      case ReceiveNote(created, updated, guid) =>
      case RefreshNote(n, created, updated, guid) =>
        ReorderedOnlyOrders(WithGist(s, n,
            GistOf(s, n).(createdTime := created, updatedTime := updated, guid := guid)), n);
      case EditNote(n, now, changed) =>
        ReorderedOnlyOrders(WithGist(s, n, GistOf(s, n).(updatedTime := now)), n);
      case SyncNote(n, updated) =>
    }
  }

  lemma TagOpsLeaveHomes(s: Store, op: Op)
    requires op.CreateTag? || op.SetTags? || op.AddTag? || op.ExpungeTag?
    ensures SameHomes(s, Apply(s, op))
  {
    hide Added, Removed, AddedUnder, RemovedUnder, NewlyTagged, TagDropped;
    match op {
      case CreateTag(existing, first) =>
      case SetTags(n, tags) =>
      case AddTag(n, t) =>
      case ExpungeTag(t) =>
        TagDroppedHomes(s, ListAt(s.tagNotes, t), t);
    }
  }

  lemma OtherOpsKeepHomes(s: Store, op: Op)
    requires HomeInv(s) && LeavesHomes(op) && s.maxNote + 1 !in s.live
    ensures HomeInv(Apply(s, op))
  {
    hide Added, Removed, AddedUnder, RemovedUnder, HomeInv, TagCreated, TagsSet, TagAdded, TagExpunged, NoteReceived,
      NoteRefreshed, NoteEdited;
    match op {
      case SetFavourite(n, favourite) =>
      case Trash(n) =>
      case Expunge(n) =>
      case ExpungeFromTrash(n) =>
      case ReceiveNote(_, _, _) => TimesLeaveHomes(s, op);
      case RefreshNote(_, _, _, _) => TimesLeaveHomes(s, op);
      case EditNote(_, _, _) => TimesLeaveHomes(s, op);
      case SyncNote(_, _) => TimesLeaveHomes(s, op);
      case _ => TagOpsLeaveHomes(s, op);
    }
    HomeFrame(s, Apply(s, op));
  }

  lemma NotebookSetKeepsHomes(s: Store, n: Id, nb: Id)
    requires HomeInv(s) && (nb == NO_ID || nb in s.notebookIds)
    ensures HomeInv(NotebookSet(s, n, nb))
  {
    hide AddedUnder, RemovedUnder;
  }

  lemma NotebookCreatedKeepsHomes(s: Store, existing: Id, first: Id)
    requires Sound(s) && (existing == NO_ID || existing in s.notebookIds)
    requires Allowed(s, CreateNotebook(existing, first)) && (first == NO_ID || first in s.live)
    ensures HomeInv(NotebookCreated(s, existing, first))
  {
    hide AddedUnder, RemovedUnder, Distinct;
    if first != NO_ID {
      LiveFacts(s, first);
    }
    hide NotebookCreated, NotebookSet, NotebookInv, TagInv, ListInv;
    NotebookIdsOk(s);
    NotebookCreatedIsMove(s, existing, first);
    var nb := if existing == NO_ID then s.maxNotebook + 1 else existing;
    var s1 := if existing == NO_ID then NotebookIntroduced(s) else s;
    if s1.maxNotebook == 1 && existing == NO_ID {
      FirstNotebookHome(s, first);
    } else {
      assert HomeInv(s1);
      NotebookSetKeepsHomes(s1, first, nb);
    }
  }

  lemma NotebookIdsOk(s: Store)
    requires Inv(s)
    ensures forall k :: k in s.notebookIds ==> 0 < k <= s.maxNotebook
    ensures s.maxNote + 1 !in s.live && NO_ID !in s.live
  {
  }

  lemma FirstNotebookHome(s: Store, first: Id)
    requires HomeInv(s) && s.maxNotebook == 0 && s.notebookIds == []
    ensures HomeInv(FirstNotebookIsDefault(NotebookSet(NotebookIntroduced(s), first, 1), 1))
  {
    hide AddedUnder, RemovedUnder;
  }

  lemma RestoredKeepsHomes(s: Store, n: Id)
    requires HomeInv(s) && IdsOk(s.allNotes, s.maxNote) && IsNoteId(s, n)
    ensures HomeInv(Restored(s, n))
  {
    hide Restored, IdsOk, Removed, Added, AddedUnder, Existing;
    if GistOf(s, n).trashed {
      RestoredShape(s, n);
    } else {
      NotRestored(s, n);
    }
  }

  lemma NotebookExpungedKeepsHomes(s: Store, nb: Id)
    requires Sound(s) && Allowed(s, ExpungeNotebook(nb))
    ensures HomeInv(NotebookExpunged(s, nb))
  {
    NotebookIdsOk(s);
    hide Inv, NotesMoved, Removed;
    if nb != NO_ID && nb != s.defaultNotebookId {
      var ns := ListAt(s.notebookNotes, nb);
      ListedNotesAreIds(s, nb);
      NotesMovedKeeps(s, ns, s.defaultNotebookId);
      RemovedNotebook(s, nb);
    }
  }

  lemma RemovedNotebook(s: Store, nb: Id)
    requires Inv(s)
    ensures forall k :: k in Removed(s.notebookIds, nb) <==> k in s.notebookIds && k != nb
  {
    RemovedFrom(s.notebookIds, nb);
  }

  /** The last notebook is the default one and takes it along. */
  lemma LastNotebookExpunged(s: Store, nb: Id)
    requires Sound(s) && !Allowed(s, ExpungeNotebook(nb))
    ensures !HomeInv(NotebookExpunged(s, nb))
  {
    NotebookIdsOk(s);
    RemovedNotebook(s, nb);
    hide Inv, Removed;
    NotesNotMoved(s, ListAt(s.notebookNotes, nb));
  }

  lemma StepKeepsInvIff(s: Store, op: Op)
    requires Sound(s) && Addressed(s, op) && !op.ExpungeNotebook? && !op.SetNotebook?
    ensures Inv(Apply(s, op)) <==> Allowed(s, op)
  {
    NotebookIdsOk(s);
    if op.CreateNotebook? || op.SetDefault? || op.Restore? || op.ExpungeTag? {
      NotebookStepKeepsInvIff(s, op);
    } else {
      OtherStepKeepsInvIff(s, op);
    }
  }

  lemma OtherStepKeepsInvIff(s: Store, op: Op)
    requires Inv(s) && Addressed(s, op)
    requires !(op.CreateNotebook? || op.SetDefault? || op.Restore? || op.ExpungeTag? || op.ExpungeNotebook?
        || op.SetNotebook?)
    ensures Inv(Apply(s, op)) <==> Allowed(s, op)
  {
    hide Inv, NoteCreated, NoteReceived, TagCreated, TagsSet, TagAdded, FavouriteSet, MovedToTrash, NoteExpunged,
      NoteExpungedFromTrash;
    NotebookIdsOk(s);
    match op {
      case CreateNote(now) => NoteCreatedKeeps(s, now);
      case ReceiveNote(created, updated, guid) =>
          NoteReceivedKeeps(s, Gist(NO_ID, [], false, false, created, updated, guid));
      case RefreshNote(n, created, updated, guid) =>
        LiveFacts(s, n);
        TimesKeep(s, n, GistOf(s, n).(createdTime := created, updatedTime := updated, guid := guid));
      case EditNote(n, now, changed) =>
        LiveFacts(s, n);
        TimesKeep(s, n, GistOf(s, n).(updatedTime := now));
      case SyncNote(n, updated) =>
        LiveFacts(s, n);
        TimesKeep(s, n, GistOf(s, n).(updatedTime := updated));
      case CreateTag(existing, first) => TagCreatedKeeps(s, existing, first);
      case SetTags(n, tags) =>
        TagsSetKeepsIff(s, n, tags);
        TagIdsInRange(s, n, tags);
      case AddTag(n, t) => TagAddedKeepsIff(s, n, t);
      case SetFavourite(n, favourite) => FavouriteSetKeeps(s, n, favourite);
      case Trash(n) => MovedToTrashKeeps(s, n);
      case Expunge(n) => NoteExpungedKeeps(s, n);
      case ExpungeFromTrash(n) => NoteExpungedFromTrashKeeps(s, n);
    }
  }

  lemma TagIdsInRange(s: Store, n: Id, tags: seq<Id>)
    requires Inv(s) && n in s.live
    ensures Allowed(s, SetTags(n, tags)) ==> IdsOk(tags, s.maxTag)
    ensures IdsOk(tags, s.maxTag) ==> Distinct(tags)
  {
    LiveFacts(s, n);
  }

  lemma NotebookStepKeepsInvIff(s: Store, op: Op)
    requires Sound(s) && Addressed(s, op) && (op.CreateNotebook? || op.SetDefault? || op.Restore? || op.ExpungeTag?)
    ensures Inv(Apply(s, op)) <==> Allowed(s, op)
  {
    hide Inv, NotebookCreated, DefaultSet, Restored, TagExpunged;
    NotebookIdsOk(s);
    match op {
      case CreateNotebook(existing, first) =>
        NotebookCreatedKeepsIff(s, existing, first);
      case SetDefault(nb) =>
        DefaultSetKeeps(s, nb);
      case Restore(n) =>
        RestoredKeepsIff(s, n);
      case ExpungeTag(t) => TagExpungedKeeps(s, t);
    }
  }

  lemma DefaultSetKeeps(s: Store, nb: Id)
    requires Inv(s)
    ensures Inv(DefaultSet(s, nb))
  {
    hide Distinct;
    var s' := DefaultSet(s, nb);
    TagFrame(s, s');
    ListFrame(s, s');
    forall n | n in s'.live ensures NotebookOk(s', n) {
      assert NotebookOk(s, n);
    }
  }

  /** An operation on existing objects keeps the index sound exactly when it is allowed. */
  lemma StepSoundIff(s: Store, op: Op)
    requires Sound(s) && Addressed(s, op)
    ensures Sound(Apply(s, op)) <==> Allowed(s, op)
  {
    hide Inv, NotebookCreated, NotebookSet, Restored, NotebookExpunged, NoteCreated;
    NotebookIdsOk(s);
    match op {
      case CreateNote(now) =>
        StepKeepsInvIff(s, op);
        NoteCreatedKeepsHomes(s, now);
      case CreateNotebook(existing, first) =>
        StepKeepsInvIff(s, op);
        if Allowed(s, op) {
          NotebookCreatedKeepsHomes(s, existing, first);
        }
      case SetDefault(nb) =>
        StepKeepsInvIff(s, op);
      case SetNotebook(n, nb) =>
        SetNotebookSoundIff(s, n, nb);
      case Restore(n) =>
        StepKeepsInvIff(s, op);
        NoteIdsInRange(s, n);
        RestoredKeepsHomes(s, n);
      case ExpungeNotebook(nb) =>
        if Allowed(s, op) {
          NotebookExpungedSound(s, nb);
        } else {
          LastNotebookExpunged(s, nb);
        }
      case _ =>
        StepKeepsInvIff(s, op);
        OtherOpsKeepHomes(s, op);
    }
  }

  lemma NoteIdsInRange(s: Store, n: Id)
    requires Inv(s) && n in s.live
    ensures IsNoteId(s, n) && IdsOk(s.allNotes, s.maxNote)
  {
  }

  lemma NoteCreatedKeepsHomes(s: Store, now: int)
    requires HomeInv(s)
    ensures HomeInv(NoteCreated(s, now))
  {
    var s1 := NoteReceived(s, Gist(NO_ID, [], false, false, now, now, ""));
    HomeFrame(s, s1);
    NotebookSetKeepsHomes(s1, s.maxNote + 1, s.defaultNotebookId);
  }

  lemma SetNotebookSoundIff(s: Store, n: Id, nb: Id)
    requires Sound(s) && n in s.live
    ensures Sound(NotebookSet(s, n, nb)) <==> Allowed(s, SetNotebook(n, nb))
  {
    NotebookIdsOk(s);
    NoteIdsInRange(s, n);
    hide Inv, NotebookSet;
    NotebookSetGist(s, n, nb);
    if Allowed(s, SetNotebook(n, nb)) {
      NotebookSetKeeps(s, n, nb);
      NotebookSetKeepsHomes(s, n, nb);
    } else {
      NotebookSetLive(s, n, nb);
      assert GistOf(NotebookSet(s, n, nb), n).notebookId == nb;
    }
  }

  lemma NotebookSetLive(s: Store, n: Id, nb: Id)
    ensures NotebookSet(s, n, nb).live == s.live
  {
  }

  lemma NotebookExpungedSound(s: Store, nb: Id)
    requires Sound(s) && Allowed(s, ExpungeNotebook(nb))
    ensures Sound(NotebookExpunged(s, nb))
  {
    NotebookIdsOk(s);
    hide Inv, NotebookExpunged;
    NotebookExpungedKeepsHomes(s, nb);
    NotebookExpungedKeepsIff(s, nb);
  }

  function Run(s: Store, ops: seq<Op>): Store {
    if ops == [] then s else Apply(Run(s, ops[..|ops| - 1]), ops[|ops| - 1])
  }

  /** Each operation is addressed to existing objects and allowed where it is made. */
  predicate RunAllowed(s: Store, ops: seq<Op>) {
    ops == [] ||
    (var front, op := ops[..|ops| - 1], ops[|ops| - 1];
     RunAllowed(s, front) && Addressed(Run(s, front), op) && Allowed(Run(s, front), op))
  }

  /** Whatever is done, in any order: the links between notes, notebooks, tags, trash and favourites agree. */
  lemma {:induction false} RunKeepsSound(ops: seq<Op>)
    requires RunAllowed(EMPTY, ops)
    ensures Sound(Run(EMPTY, ops))
  {
    hide Sound, Apply, Addressed, Allowed;
    if ops == [] {
      EmptyIsSound();
    } else {
      RunKeepsSound(ops[..|ops| - 1]);
      StepSoundIff(Run(EMPTY, ops[..|ops| - 1]), ops[|ops| - 1]);
    }
  }

  /** What that means for each note created and not expunged: its notebook exists and is the only one that lists it, so
      taking it out of that list always finds it; it is either in the list of all notes or in the trash; and until it is
      trashed, exactly its tags list it, all of them exist, and it is among the favourites iff it is one. */
  lemma RunLinksAgree(ops: seq<Op>, n: Id)
    requires RunAllowed(EMPTY, ops) && n in Run(EMPTY, ops).live
    ensures var s := Run(EMPTY, ops);
            var g := GistOf(s, n);
            && (g.notebookId != NO_ID ==>
                  g.notebookId in s.notebookIds && forall k :: n in ListAt(s.notebookNotes, k) <==> k == g.notebookId)
            && (n in s.trash <==> g.trashed) && (n in s.allNotes <==> !g.trashed)
            && (!g.trashed ==> (n in s.favourites <==> g.favourite))
            && (!g.trashed ==> forall t :: n in ListAt(s.tagNotes, t) <==> t in g.tagIds)
            && (!g.trashed ==> forall t :: t in g.tagIds ==> t in s.tagIds)
            && (forall t :: n in ListAt(s.tagNotes, t) ==> t in g.tagIds && t in s.tagIds)
  {
    RunKeepsSound(ops);
    LiveFacts(Run(EMPTY, ops), n);
    hide Inv, Run, RunAllowed;
  }
}
