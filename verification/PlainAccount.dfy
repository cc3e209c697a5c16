/** The account as plain notes, notebooks and tags without any list, and what each operation means for it. The redundant
    index refines it. */
module PlainAccount {
  import opened StorageIndex
  import opened StorageInvariants
  import opened StorageRuns

  datatype PlainNote = PlainNote(notebook: Id, tags: set<Id>, trashed: bool, favourite: bool, created: int,
      updated: int, guid: string)

  datatype Account = Account(notes: map<Id, PlainNote>, notebooks: set<Id>, tags: set<Id>, default: Id, lastNote: nat,
      lastNotebook: nat, lastTag: nat)

  /** Of its tags, a note has those that exist: a trashed one may name others. */
  function Plain(s: Store, n: Id): PlainNote {
    var g := GistOf(s, n);
    PlainNote(g.notebookId, Elements(g.tagIds) * Elements(s.tagIds), g.trashed, g.favourite, g.createdTime,
              g.updatedTime, g.guid)
  }

  function AccountOf(s: Store): Account {
    Account(map n | n in s.live :: Plain(s, n), Elements(s.notebookIds), Elements(s.tagIds), s.defaultNotebookId,
            s.maxNote, s.maxNotebook, s.maxTag)
  }

  // What each operation means

  function NoteAdded(a: Account, note: PlainNote): Account {
    a.(notes := a.notes[a.lastNote + 1 := note], lastNote := a.lastNote + 1)
  }

  /** The notebook, which is the default one if it is the first ever made, takes the note. */
  function NotebookMade(a: Account, existing: Id, first: Id): Account {
    var nb := if existing == NO_ID then a.lastNotebook + 1 else existing;
    a.(notebooks := a.notebooks + {nb},
       lastNotebook := if existing == NO_ID then nb else a.lastNotebook,
       default := if nb == 1 then nb else a.default,
       notes := if first in a.notes then a.notes[first := a.notes[first].(notebook := nb)] else a.notes)
  }

  function TagMade(a: Account, existing: Id, first: Id): Account {
    var t := if existing == NO_ID then a.lastTag + 1 else existing;
    a.(tags := a.tags + {t},
       lastTag := if existing == NO_ID then t else a.lastTag,
       notes := if first in a.notes then a.notes[first := a.notes[first].(tags := a.notes[first].tags + {t})]
           else a.notes)
  }

  /** The default notebook stays; the notes of any other move there. */
  function NotebookGone(a: Account, nb: Id): Account {
    if nb == a.default then a else
      a.(notebooks := a.notebooks - {nb},
         notes := map n | n in a.notes ::
           if a.notes[n].notebook == nb then a.notes[n].(notebook := a.default) else a.notes[n])
  }

  function TagGone(a: Account, t: Id): Account {
    a.(tags := a.tags - {t}, notes := map n | n in a.notes :: a.notes[n].(tags := a.notes[n].tags - {t}))
  }

  predicate IsOnNote(op: Op) {
    || op.RefreshNote? || op.EditNote? || op.SyncNote? || op.SetNotebook? || op.SetTags? || op.AddTag?
    || op.SetFavourite? || op.Trash? || op.Restore?
  }

  /** What becomes of the note that the operation is about. */
  function OnNote(a: Account, op: Op, note: PlainNote): PlainNote {
    match op
    case RefreshNote(_, created, updated, guid) => note.(created := created, updated := updated, guid := guid)
    case EditNote(_, now, _) => note.(updated := now)
    case SyncNote(_, updated) => note.(updated := updated)
    case SetNotebook(_, nb) => if nb == NO_ID then note else note.(notebook := nb)
    case SetTags(_, tags) => note.(tags := Elements(tags) * a.tags)
    case AddTag(_, t) => note.(tags := note.tags + {t} * a.tags)
    case SetFavourite(_, favourite) => note.(favourite := favourite)
    case Trash(_) => note.(trashed := true)
    case Restore(_) => note.(trashed := false)
    case _ => note
  }

  function Done(a: Account, op: Op): Account {
    match op
    case CreateNote(now) => NoteAdded(a, PlainNote(a.default, {}, false, false, now, now, ""))
    case ReceiveNote(created, updated, guid) => NoteAdded(a, PlainNote(NO_ID, {}, false, false, created, updated, guid))
    case CreateNotebook(existing, first) => NotebookMade(a, existing, first)
    case CreateTag(existing, first) => TagMade(a, existing, first)
    case SetDefault(nb) => if nb in a.notebooks then a.(default := nb) else a
    case Expunge(n) => a.(notes := a.notes - {n})
    case ExpungeFromTrash(n) =>
      if n in a.notes && a.notes[n].trashed && a.notes[n].guid == "" then a.(notes := a.notes - {n}) else a
    case ExpungeNotebook(nb) => if nb == NO_ID then a else NotebookGone(a, nb)
    case ExpungeTag(t) => TagGone(a, t)
    case _ => if op.note in a.notes then a.(notes := a.notes[op.note := OnNote(a, op, a.notes[op.note])]) else a
  }

  // The index does what it means

  /** Nothing but the gist of `n`, and lists of notes. */
  ghost predicate OnlyNote(n: Id, s: Store, s': Store) {
    && SameIds(s, s') && forall x :: x != n ==> GistOf(s', x) == GistOf(s, x)
  }

  lemma NoteChanges(n: Id, s: Store, s': Store)
    requires OnlyNote(n, s, s') && n in s.live
    ensures AccountOf(s') == AccountOf(s).(notes := AccountOf(s).notes[n := Plain(s', n)])
  {
    assert AccountOf(s').notes == AccountOf(s).notes[n := Plain(s', n)];
  }

  lemma TimesRefine(s: Store, op: Op)
    requires op.RefreshNote? || op.EditNote? || op.SyncNote?
    requires op.note in s.live && op.note != NO_ID
    ensures AccountOf(Apply(s, op)) == Done(AccountOf(s), op)
  {
    hide Reordered;
    match op {
      case RefreshNote(n, created, updated, guid) =>
        ReorderedOnlyOrders(WithGist(s, n,
            GistOf(s, n).(createdTime := created, updatedTime := updated, guid := guid)), n);
      case EditNote(n, now, changed) =>
        ReorderedOnlyOrders(WithGist(s, n, GistOf(s, n).(updatedTime := now)), n);
      case SyncNote(n, updated) =>
    }
    NoteChanges(op.note, s, Apply(s, op));
  }

  /** The note gets the gist `g`, and the rest of the account stays as it is. */
  lemma GistSet(n: Id, s: Store, s': Store, g: Gist)
    requires n in s.live && SameIds(s, s') && s'.gists == s.gists[n := g]
    ensures AccountOf(s') == AccountOf(s).(notes := AccountOf(s).notes[n := Plain(s', n)])
    ensures GistOf(s', n) == g
  {
    NoteChanges(n, s, s');
  }

  lemma NothingSet(n: Id, s: Store)
    requires n in s.live
    ensures AccountOf(s).(notes := AccountOf(s).notes[n := Plain(s, n)]) == AccountOf(s)
  {
    assert AccountOf(s).notes[n := Plain(s, n)] == AccountOf(s).notes;
  }

  lemma NotebookSetRefines(s: Store, n: Id, nb: Id)
    requires n in s.live && n != NO_ID
    ensures AccountOf(NotebookSet(s, n, nb)) == Done(AccountOf(s), SetNotebook(n, nb))
  {
    hide NotebookSet, AccountOf;
    NotebookSetGist(s, n, nb);
    NoteChanges(n, s, NotebookSet(s, n, nb));
    NoteOf(s, n);
  }

  lemma NoteOf(s: Store, n: Id)
    ensures n in AccountOf(s).notes <==> n in s.live
    ensures n in s.live ==> AccountOf(s).notes[n] == Plain(s, n)
    ensures AccountOf(s).tags == Elements(s.tagIds) && AccountOf(s).notebooks == Elements(s.notebookIds)
    ensures AccountOf(s).default == s.defaultNotebookId
  {
  }

  lemma TagsSetRefines(s: Store, n: Id, tags: seq<Id>)
    requires n in s.live && n != NO_ID
    ensures AccountOf(TagsSet(s, n, tags)) == Done(AccountOf(s), SetTags(n, tags))
  {
    hide AddedUnder, RemovedUnder, NewlyTagged, AccountOf;
    GistSet(n, s, TagsSet(s, n, tags), GistOf(s, n).(tagIds := tags));
    NoteOf(s, n);
  }

  lemma TagAddedRefines(s: Store, n: Id, t: Id)
    requires n in s.live && n != NO_ID && NO_ID !in s.tagIds
    ensures AccountOf(TagAdded(s, n, t)) == Done(AccountOf(s), AddTag(n, t))
  {
    hide AddedUnder, AccountOf;
    var g := GistOf(s, n);
    NoteOf(s, n);
    if t == NO_ID || t in g.tagIds {
      NothingSet(n, s);
      assert Plain(s, n).tags + {t} * Elements(s.tagIds) == Plain(s, n).tags;
    } else {
      var s' := TagAdded(s, n, t);
      GistSet(n, s, s', g.(tagIds := g.tagIds + [t]));
      assert Elements(g.tagIds + [t]) == Elements(g.tagIds) + {t};
      assert Plain(s', n).tags == Plain(s, n).tags + {t} * Elements(s.tagIds);
    }
  }

  lemma FavouriteSetRefines(s: Store, n: Id, favourite: bool)
    requires n in s.live && n != NO_ID
    ensures AccountOf(FavouriteSet(s, n, favourite)) == Done(AccountOf(s), SetFavourite(n, favourite))
  {
    hide Added, Removed, AccountOf;
    NoteOf(s, n);
    if GistOf(s, n).favourite == favourite {
      NothingSet(n, s);
    } else {
      GistSet(n, s, FavouriteSet(s, n, favourite), GistOf(s, n).(favourite := favourite));
    }
  }

  lemma TrashRefines(s: Store, n: Id)
    requires n in s.live && n != NO_ID
    ensures AccountOf(MovedToTrash(s, n)) == Done(AccountOf(s), Trash(n))
  {
    hide Added, Removed, RemovedUnder, AccountOf;
    NoteOf(s, n);
    if GistOf(s, n).trashed {
      NothingSet(n, s);
    } else {
      GistSet(n, s, MovedToTrash(s, n), GistOf(s, n).(trashed := true));
    }
  }

  lemma RestoreRefines(s: Store, n: Id)
    requires Sound(s) && n in s.live && Allowed(s, Restore(n))
    ensures AccountOf(Restored(s, n)) == Done(AccountOf(s), Restore(n))
  {
    NoteIdsInRange(s, n);
    NotebookIdsOk(s);
    hide Inv, Restored, Added, Removed, AddedUnder, Existing, IdsOk, AccountOf;
    NoteOf(s, n);
    var g := GistOf(s, n);
    if g.trashed {
      RestoredShape(s, n);
      ExistingElements(g.tagIds, s.tagIds);
      GistSet(n, s, Restored(s, n), GistOf(Restored(s, n), n));
      assert Elements(g.tagIds) * Elements(s.tagIds) * Elements(s.tagIds) == Elements(g.tagIds) * Elements(s.tagIds);
    } else {
      NotRestored(s, n);
      NothingSet(n, s);
    }
  }

  lemma ExistingElements(list: seq<Id>, ids: seq<Id>)
    ensures Elements(Existing(list, ids)) == Elements(list) * Elements(ids)
  {
  }

  lemma ReceiveRefines(s: Store, g: Gist)
    requires Inv(s) && g.tagIds == []
    ensures AccountOf(NoteReceived(s, g)) ==
            NoteAdded(AccountOf(s), PlainNote(g.notebookId, {}, g.trashed, g.favourite, g.createdTime, g.updatedTime,
                g.guid))
  {
    NotebookIdsOk(s);
    hide Inv;
    var s', n := NoteReceived(s, g), s.maxNote + 1;
    assert Elements([]) * Elements(s.tagIds) == {};
    assert AccountOf(s').notes == AccountOf(s).notes[n := Plain(s', n)];
  }

  lemma CreateRefines(s: Store, now: int)
    requires Inv(s)
    ensures AccountOf(NoteCreated(s, now)) == Done(AccountOf(s), CreateNote(now))
  {
    hide Inv, NoteReceived, NotebookSet, AccountOf;
    var g := Gist(NO_ID, [], false, false, now, now, "");
    ReceiveRefines(s, g);
    var s1, n := NoteReceived(s, g), s.maxNote + 1;
    ReceivedIsLive(s, g);
    NotebookSetRefines(s1, n, s.defaultNotebookId);
    NoteOf(s, n);
    LastNoteOf(s);
  }

  lemma ReceivedIsLive(s: Store, g: Gist)
    ensures s.maxNote + 1 in NoteReceived(s, g).live
  {
  }

  lemma LastNoteOf(s: Store)
    ensures AccountOf(s).lastNote == s.maxNote
  {
  }

  /** A new notebook, or an existing one, without a note. */
  lemma NotebookAloneRefines(s: Store, existing: Id)
    requires existing == NO_ID || existing in s.notebookIds
    requires NO_ID !in s.live
    ensures var s' := NotebookCreated(s, existing, NO_ID);
            AccountOf(s') == Done(AccountOf(s), CreateNotebook(existing, NO_ID))
            && s'.live == s.live && s'.gists == s.gists && s'.tagIds == s.tagIds
  {
    var s', nb := NotebookCreated(s, existing, NO_ID), if existing == NO_ID then s.maxNotebook + 1 else existing;
    assert Elements(s'.notebookIds) == Elements(s.notebookIds) + {nb};
    assert nb in s'.notebookIds;
    SameNotes(s, s');
  }

  lemma SameNotes(s: Store, s': Store)
    requires s'.live == s.live && s'.gists == s.gists && s'.tagIds == s.tagIds
    ensures AccountOf(s').notes == AccountOf(s).notes && forall n :: GistOf(s', n) == GistOf(s, n)
  {
  }

  lemma NotebookMadeRefines(s: Store, existing: Id, first: Id)
    requires (first == NO_ID || first in s.live) && (existing == NO_ID || existing in s.notebookIds)
    requires NO_ID !in s.live
    ensures AccountOf(NotebookCreated(s, existing, first)) == Done(AccountOf(s), CreateNotebook(existing, first))
  {
    NotebookAloneRefines(s, existing);
    if first != NO_ID {
      var s1, s' := NotebookCreated(s, existing, NO_ID), NotebookCreated(s, existing, first);
      var nb := if existing == NO_ID then s.maxNotebook + 1 else existing;
      NotebookMadeFor(s, existing, first);
      hide NotebookCreated, AccountOf;
      GistSet(first, s1, s', GistOf(s, first).(notebookId := nb));
      NoteOf(s, first);
      LastNotebookOf(s);
    }
  }

  lemma LastNotebookOf(s: Store)
    ensures AccountOf(s).lastNotebook == s.maxNotebook && AccountOf(s).lastTag == s.maxTag
  {
  }

  lemma NotebookMadeFor(s: Store, existing: Id, first: Id)
    requires first != NO_ID
    ensures var s1, s' := NotebookCreated(s, existing, NO_ID), NotebookCreated(s, existing, first);
            var nb := if existing == NO_ID then s.maxNotebook + 1 else existing;
            SameIds(s1, s') && s'.gists == s1.gists[first := GistOf(s, first).(notebookId := nb)]
  {
    hide AddedUnder, RemovedUnder;
  }

  /** No note has a tag of a number that has not been given to any. */
  lemma TagIsNew(s: Store, n: Id)
    requires Inv(s) && n in s.live
    ensures s.maxTag + 1 !in GistOf(s, n).tagIds
  {
    LiveFacts(s, n);
  }

  lemma OtherTagsStay(s: Store, n: Id, tags: seq<Id>, t: Id)
    requires t !in GistOf(s, n).tagIds
    ensures Elements(GistOf(s, n).tagIds) * Elements([t] + tags) == Elements(GistOf(s, n).tagIds) * Elements(tags)
  {
  }

  lemma TagAloneRefines(s: Store, existing: Id)
    requires Inv(s) && (existing == NO_ID || existing in s.tagIds)
    ensures var s' := TagCreated(s, existing, NO_ID);
            AccountOf(s') == Done(AccountOf(s), CreateTag(existing, NO_ID))
            && s'.live == s.live && s'.gists == s.gists
  {
    NotebookIdsOk(s);
    hide Inv;
    var s', t := TagCreated(s, existing, NO_ID), if existing == NO_ID then s.maxTag + 1 else existing;
    assert Elements(s'.tagIds) == Elements(s.tagIds) + {t};
    forall n | n in s.live ensures Plain(s', n) == Plain(s, n) {
      if existing == NO_ID {
        TagIsNew(s, n);
        OtherTagsStay(s, n, s.tagIds, t);
      }
    }
    assert AccountOf(s').notes == AccountOf(s).notes;
  }

  lemma TagMadeFor(s: Store, existing: Id, first: Id)
    requires first != NO_ID
    ensures var s1, s' := TagCreated(s, existing, NO_ID), TagCreated(s, existing, first);
            var t := if existing == NO_ID then s.maxTag + 1 else existing;
            SameIds(s1, s')
            && s'.gists == s1.gists[first := GistOf(s, first).(tagIds := Added(GistOf(s, first).tagIds, t))]
  {
    hide AddedUnder, Added;
  }

  lemma AddedElements(list: seq<Id>, t: Id)
    requires t != NO_ID
    ensures Elements(Added(list, t)) == Elements(list) + {t}
  {
  }

  lemma TagMadeRefines(s: Store, existing: Id, first: Id)
    requires Inv(s) && (first == NO_ID || first in s.live) && (existing == NO_ID || existing in s.tagIds)
    ensures AccountOf(TagCreated(s, existing, first)) == Done(AccountOf(s), CreateTag(existing, first))
  {
    hide TagCreated, AccountOf, Inv, Distinct, Added;
    TagAloneRefines(s, existing);
    TagIdsOk(s);
    NotebookIdsOk(s);
    NoteOf(s, NO_ID);
    if first != NO_ID {
      var s1, s' := TagCreated(s, existing, NO_ID), TagCreated(s, existing, first);
      var g, t := GistOf(s, first), if existing == NO_ID then s.maxTag + 1 else existing;
      TagMadeFor(s, existing, first);
      MadeTagExists(s, existing);
      GistSet(first, s1, s', g.(tagIds := Added(g.tagIds, t)));
      AddedElements(g.tagIds, t);
      assert Plain(s', first).tags == Plain(s1, first).tags + {t};
      NoteOf(s, first);
      NoteOf(s1, first);
      LastNotebookOf(s);
    }
  }

  lemma MadeTagExists(s: Store, existing: Id)
    requires existing == NO_ID || existing in s.tagIds
    ensures (if existing == NO_ID then s.maxTag + 1 else existing) in TagCreated(s, existing, NO_ID).tagIds
  {
  }

  lemma TagIdsOk(s: Store)
    requires Inv(s)
    ensures NO_ID !in s.tagIds && Distinct(s.tagIds) && Distinct(s.notebookIds)
  {
  }

  lemma NoteGone(s: Store, s': Store, n: Id)
    requires s'.live == s.live - {n} && s'.gists == s.gists - {n}
    requires s' == s.(live := s'.live, gists := s'.gists, notebookNotes := s'.notebookNotes, tagNotes := s'.tagNotes,
                 allNotes := s'.allNotes, favourites := s'.favourites, trash := s'.trash)
    ensures AccountOf(s') == AccountOf(s).(notes := AccountOf(s).notes - {n})
  {
    assert AccountOf(s').notes == AccountOf(s).notes - {n};
  }

  lemma ExpungeRefines(s: Store, n: Id)
    requires NO_ID !in s.live
    ensures AccountOf(NoteExpunged(s, n)) == Done(AccountOf(s), Expunge(n))
  {
    hide RemovedUnder, Removed, AccountOf;
    if n == NO_ID {
      NoteOf(s, n);
      assert AccountOf(s).notes - {n} == AccountOf(s).notes;
    } else {
      NoteGone(s, NoteExpunged(s, n), n);
    }
  }

  lemma TrashIsListed(s: Store, n: Id)
    requires Inv(s)
    ensures n in s.trash <==> n in s.live && GistOf(s, n).trashed
  {
    if n in s.live {
      LiveFacts(s, n);
    }
  }

  lemma ExpungeFromTrashRefines(s: Store, n: Id)
    requires Inv(s)
    ensures AccountOf(NoteExpungedFromTrash(s, n)) == Done(AccountOf(s), ExpungeFromTrash(n))
  {
    NotebookIdsOk(s);
    TrashIsListed(s, n);
    hide Inv, Removed, AccountOf;
    NoteOf(s, n);
    if n in s.trash && GistOf(s, n).guid == "" {
      NoteGone(s, NoteExpungedFromTrash(s, n), n);
    }
  }

  lemma RemovedElements(list: seq<Id>, t: Id)
    requires Distinct(list)
    ensures Elements(Removed(list, t)) == Elements(list) - {t}
  {
    RemovedFrom(list, t);
  }

  lemma NoTagGone(s: Store)
    requires NO_ID !in s.tagIds
    ensures TagGone(AccountOf(s), NO_ID) == AccountOf(s)
  {
    var a := AccountOf(s);
    assert a.tags - {NO_ID} == a.tags;
    forall n | n in s.live ensures a.notes[n].tags - {NO_ID} == a.notes[n].tags {
      assert NO_ID !in Plain(s, n).tags;
    }
    assert TagGone(a, NO_ID).notes == a.notes;
  }

  /** Whether or not the gist of a note still names the tag, the tag is not among those that exist. */
  lemma TagGoneFrom(s: Store, n: Id, t: Id)
    requires Inv(s) && n in s.live && t != NO_ID
    ensures Plain(TagExpunged(s, t), n) == Plain(s, n).(tags := Plain(s, n).tags - {t})
  {
    hide Inv, TagExpunged, Removed, Distinct;
    var s' := TagExpunged(s, t);
    TagIdsOk(s);
    TagExpungedShape(s, t);
    RemovedElements(s.tagIds, t);
    LiveTagsDistinct(s, n);
    RemovedElements(GistOf(s, n).tagIds, t);
    assert Plain(s', n).tags == Plain(s, n).tags - {t};
  }

  lemma ExpungeTagRefines(s: Store, t: Id)
    requires Inv(s)
    ensures AccountOf(TagExpunged(s, t)) == Done(AccountOf(s), ExpungeTag(t))
  {
    hide Inv, TagExpunged, Removed, Distinct;
    TagIdsOk(s);
    if t == NO_ID {
      NoTagGone(s);
      NoTagExpunged(s);
    } else {
      var s' := TagExpunged(s, t);
      TagExpungedShape(s, t);
      RemovedElements(s.tagIds, t);
      forall n | n in s.live ensures Plain(s', n) == Plain(s, n).(tags := Plain(s, n).tags - {t}) {
        TagGoneFrom(s, n, t);
      }
      assert AccountOf(s').notes == Done(AccountOf(s), ExpungeTag(t)).notes;
    }
  }

  lemma NoTagExpunged(s: Store)
    ensures TagExpunged(s, NO_ID) == s
  {
  }

  lemma LiveTagsDistinct(s: Store, n: Id)
    requires Inv(s) && n in s.live
    ensures Distinct(GistOf(s, n).tagIds)
  {
    LiveFacts(s, n);
  }

  lemma TagExpungedShape(s: Store, t: Id)
    requires Inv(s) && t != NO_ID
    ensures var s' := TagExpunged(s, t);
            && s' == s.(gists := s'.gists, tagIds := Removed(s.tagIds, t), tagNotes := s'.tagNotes)
            && forall n :: GistOf(s', n) == GistOf(s, n)
                 || GistOf(s', n) == GistOf(s, n).(tagIds := Removed(GistOf(s, n).tagIds, t))
  {
    hide Removed, TagDropped;
    var ns := ListAt(s.tagNotes, t);
    assert Distinct(ns);
    TagDroppedGists(s, ns, t);
  }

  /** Whatever lists a note of the notebook moves it. */
  lemma ExpungeNotebookRefines(s: Store, nb: Id)
    requires Sound(s) && Allowed(s, ExpungeNotebook(nb))
    ensures AccountOf(NotebookExpunged(s, nb)) == Done(AccountOf(s), ExpungeNotebook(nb))
  {
    hide Inv, HomeInv, NotesMoved, Removed, Distinct, NotebookExpunged;
    NotebookIdsOk(s);
    TagIdsOk(s);
    if nb == NO_ID || nb == s.defaultNotebookId {
      NotebookKept(s, nb);
    } else {
      NotebookExpungedShape(s, nb);
      RemovedElements(s.notebookIds, nb);
      var s' := NotebookExpunged(s, nb);
      assert AccountOf(s').notes == Done(AccountOf(s), ExpungeNotebook(nb)).notes;
    }
  }

  lemma NotebookKept(s: Store, nb: Id)
    requires Inv(s) && Allowed(s, ExpungeNotebook(nb)) && (nb == NO_ID || nb == s.defaultNotebookId)
    ensures NotebookExpunged(s, nb) == s
  {
    NotebookIdsOk(s);
    hide Inv;
  }

  lemma NotebookExpungedShape(s: Store, nb: Id)
    requires Sound(s) && nb != NO_ID && nb != s.defaultNotebookId
    ensures var s' := NotebookExpunged(s, nb);
            && s'.live == s.live && s'.tagIds == s.tagIds && s'.notebookIds == Removed(s.notebookIds, nb)
            && s'.defaultNotebookId == s.defaultNotebookId
            && s'.maxNote == s.maxNote && s'.maxNotebook == s.maxNotebook && s'.maxTag == s.maxTag
            && forall n :: n in s.live ==>
                 GistOf(s', n) == if GistOf(s, n).notebookId == nb then GistOf(s, n).(notebookId := s.defaultNotebookId)
                     else GistOf(s, n)
  {
    NotebookIdsOk(s);
    hide Inv, Removed, NotesMoved;
    var ns := ListAt(s.notebookNotes, nb);
    ListedNotesAreIds(s, nb);
    if s.defaultNotebookId == NO_ID {
      NotesNotMoved(s, ns);
    } else {
      NotesMovedGists(s, ns, s.defaultNotebookId);
      forall n | n in s.live && n in ns ensures GistOf(s, n).notebookId == nb {
        LiveFacts(s, n);
      }
    }
  }

  lemma DefaultSetRefines(s: Store, nb: Id)
    ensures AccountOf(DefaultSet(s, nb)) == Done(AccountOf(s), SetDefault(nb))
  {
    SameNotes(s, DefaultSet(s, nb));
  }

  // Steps and runs

  lemma NoteOpRefines(s: Store, op: Op)
    requires Sound(s) && Addressed(s, op) && Allowed(s, op) && IsOnNote(op)
    ensures AccountOf(Apply(s, op)) == Done(AccountOf(s), op)
  {
    hide Inv, HomeInv, AccountOf, Done, NotebookSet, TagsSet, TagAdded, FavouriteSet, MovedToTrash, Restored,
      NoteRefreshed, NoteEdited;
    NotebookIdsOk(s);
    TagIdsOk(s);
    match op {
      case SetNotebook(n, nb) => NotebookSetRefines(s, n, nb);
      case SetTags(n, tags) => TagsSetRefines(s, n, tags);
      case AddTag(n, t) => TagAddedRefines(s, n, t);
      case SetFavourite(n, favourite) => FavouriteSetRefines(s, n, favourite);
      case Trash(n) => TrashRefines(s, n);
      case Restore(n) => RestoreRefines(s, n);
      case _ => TimesRefine(s, op);
    }
  }

  /** Each allowed operation on the index does to the account what it means. */
  lemma StepRefines(s: Store, op: Op)
    requires Sound(s) && Addressed(s, op) && Allowed(s, op)
    ensures AccountOf(Apply(s, op)) == Done(AccountOf(s), op)
  {
    hide Inv, HomeInv, AccountOf, Done, NoteCreated, NoteReceived, NotebookCreated, DefaultSet, TagCreated,
      NoteExpunged, NoteExpungedFromTrash, NotebookExpunged, TagExpunged;
    NotebookIdsOk(s);
    TagIdsOk(s);
    if IsOnNote(op) {
      NoteOpRefines(s, op);
    } else {
      match op {
        case CreateNote(now) => CreateRefines(s, now);
        case ReceiveNote(created, updated, guid) => ReceiveNoteRefines(s, created, updated, guid);
        case CreateNotebook(existing, first) => NotebookMadeRefines(s, existing, first);
        case SetDefault(nb) => DefaultSetRefines(s, nb);
        case CreateTag(existing, first) => TagMadeRefines(s, existing, first);
        case Expunge(n) => ExpungeRefines(s, n);
        case ExpungeFromTrash(n) => ExpungeFromTrashRefines(s, n);
        case ExpungeNotebook(nb) => ExpungeNotebookRefines(s, nb);
        case ExpungeTag(t) => ExpungeTagRefines(s, t);
      }
    }
  }

  lemma ReceiveNoteRefines(s: Store, created: int, updated: int, guid: string)
    requires Inv(s)
    ensures var op := ReceiveNote(created, updated, guid); AccountOf(Apply(s, op)) == Done(AccountOf(s), op)
  {
    hide Inv, NoteReceived, AccountOf;
    ReceiveRefines(s, Gist(NO_ID, [], false, false, created, updated, guid));
  }

  const NEW_ACCOUNT := Account(map[], {}, {}, NO_ID, 0, 0, 0)

  function AllDone(ops: seq<Op>): Account {
    if ops == [] then NEW_ACCOUNT else Done(AllDone(ops[..|ops| - 1]), ops[|ops| - 1])
  }

  /** After any run of allowed operations the index stands for the account that the operations mean. */
  lemma {:induction false} RunRefines(ops: seq<Op>)
    requires RunAllowed(EMPTY, ops)
    ensures AccountOf(Run(EMPTY, ops)) == AllDone(ops)
  {
    hide AccountOf, Apply, Done, Sound, Addressed, Allowed;
    if ops == [] {
      EmptyAccount();
    } else {
      var front := ops[..|ops| - 1];
      RunRefines(front);
      RunKeepsSound(front);
      StepRefines(Run(EMPTY, front), ops[|ops| - 1]);
    }
  }

  lemma EmptyAccount()
    ensures AccountOf(EMPTY) == NEW_ACCOUNT
  {
  }

  /** The notebook that is chosen as the default one takes the notes made from then on. */
  lemma DefaultTakesNewNotes(s: Store, nb: Id, now: int)
    requires Sound(s) && nb in s.notebookIds
    ensures var s1 := Apply(s, SetDefault(nb));
            var s2, n := Apply(s1, CreateNote(now)), s1.maxNote + 1;
            && s1.defaultNotebookId == nb && n !in s.live && s2.live == s.live + {n} && GistOf(s2, n).notebookId == nb
            && forall k :: n in ListAt(s2.notebookNotes, k) <==> k == nb
  {
    hide Inv, HomeInv, Apply, AccountOf;
    NotebookIdsOk(s);
    var s1 := Apply(s, SetDefault(nb));
    var s2, n := Apply(s1, CreateNote(now)), s1.maxNote + 1;
    StepSoundIff(s, SetDefault(nb));
    StepRefines(s, SetDefault(nb));
    StepSoundIff(s1, CreateNote(now));
    StepRefines(s1, CreateNote(now));
    AccountFields(s);
    AccountFields(s1);
    AccountFields(s2);
    assert AccountOf(s2).notes == AccountOf(s).notes[n := AccountOf(s2).notes[n]];
    assert AccountOf(s2).notes.Keys == s.live + {n};
    NoteOf(s2, n);
    LiveFacts(s2, n);
    assert AccountOf(s2).notes[n].notebook == nb;
  }

  lemma AccountFields(s: Store)
    ensures AccountOf(s).default == s.defaultNotebookId && AccountOf(s).lastNote == s.maxNote
    ensures AccountOf(s).notes.Keys == s.live && AccountOf(s).notebooks == Elements(s.notebookIds)
  {
  }
}
