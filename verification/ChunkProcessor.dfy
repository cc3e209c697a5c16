/** The part of the synchronizer that stores what a chunk brings: notebooks first, then tags, then notes. */
module ChunkProcessorClass {
  import opened StorageIndex
  import opened StorageInvariants
  import opened StorageManagerClass
  import opened PullModel

  /** What the storage manager relies on. */
  ghost predicate Usable(s: Store) {
    NO_ID !in s.notebookIds && NO_ID !in s.tagIds && forall k :: Distinct(ListAt(s.tagNotes, k))
  }

  lemma AddedUnderDistinct(m: map<Id, seq<Id>>, ks: set<Id>, id: Id)
    requires forall k :: Distinct(ListAt(m, k))
    ensures forall k :: Distinct(ListAt(AddedUnder(m, ks, id), k))
  {
    forall k: Id ensures Distinct(ListAt(AddedUnder(m, ks, id), k)) {
      assert Distinct(ListAt(m, k));
      DistinctCons(id, ListAt(m, k));
    }
  }

  lemma RemovedUnderDistinct(m: map<Id, seq<Id>>, ks: set<Id>, id: Id)
    requires forall k :: Distinct(ListAt(m, k))
    ensures forall k :: Distinct(ListAt(RemovedUnder(m, ks, id), k))
  {
    forall k: Id ensures Distinct(ListAt(RemovedUnder(m, ks, id), k)) {
      assert Distinct(ListAt(m, k));
      RemovedFrom(ListAt(m, k), id);
    }
  }

  lemma NotebookSetUsable(s: Store, n: Id, nb: Id)
    requires Usable(s)
    ensures Usable(NotebookSet(s, n, nb))
  {
    hide AddedUnder, RemovedUnder, Distinct;
  }

  lemma TagsSetUsable(s: Store, n: Id, tags: seq<Id>)
    requires Usable(s)
    ensures Usable(TagsSet(s, n, tags))
  {
    hide AddedUnder, RemovedUnder, Distinct, NewlyTagged;
    var current := Elements(GistOf(s, n).tagIds);
    AddedUnderDistinct(s.tagNotes, NewlyTagged(tags, current), n);
    RemovedUnderDistinct(AddedUnder(s.tagNotes, NewlyTagged(tags, current), n), current - Elements(tags) - {NO_ID}, n);
  }

  lemma TagAddedUsable(s: Store, n: Id, t: Id)
    requires Usable(s)
    ensures Usable(TagAdded(s, n, t))
  {
    hide AddedUnder, Distinct;
    AddedUnderDistinct(s.tagNotes, {t}, n);
  }

  lemma MovedToTrashUsable(s: Store, n: Id)
    requires Usable(s)
    ensures Usable(MovedToTrash(s, n))
  {
    hide RemovedUnder, Removed, Distinct;
    RemovedUnderDistinct(s.tagNotes, Elements(GistOf(s, n).tagIds) - {NO_ID}, n);
  }

  lemma RestoredUsable(s: Store, n: Id)
    requires Usable(s)
    ensures Usable(Restored(s, n))
  {
    hide AddedUnder, Existing, Removed, Inserted, Distinct;
    AddedUnderDistinct(s.tagNotes, Elements(Existing(GistOf(s, n).tagIds, s.tagIds)), n);
  }

  lemma TimesUsable(s: Store, n: Id, g: Gist)
    requires Usable(s)
    ensures Usable(WithGist(s, n, g)) && Usable(Reordered(WithGist(s, n, g), n)) && Usable(NoteReceived(s, g))
  {
    hide Inserted, Removed, Distinct;
  }

  lemma NewNotebookUsable(s: Store)
    requires Usable(s)
    ensures Usable(NotebookCreated(s, NO_ID, NO_ID))
  {
    hide Distinct;
  }

  lemma NewTagUsable(s: Store)
    requires Usable(s)
    ensures Usable(TagCreated(s, NO_ID, NO_ID))
  {
    var s' := TagCreated(s, NO_ID, NO_ID);
    forall k: Id ensures Distinct(ListAt(s'.tagNotes, k)) {
      assert Distinct(ListAt(s.tagNotes, k));
    }
  }

  class ChunkProcessor {
    const storage: StorageManager
    var notebooks: map<Guid, Id>
    var tags: map<Guid, Id>
    var notes: map<Guid, Id>
    var forNotebook: map<Guid, seq<Id>>
    var forTag: map<Guid, seq<Id>>
    var unpushed: set<Id>

    ghost function State(): Pull
      reads this, storage
    {
      Pull(storage.State(), notebooks, tags, notes, forNotebook, forTag, unpushed)
    }

    constructor (storage: StorageManager)
      ensures this.storage == storage
      ensures State() == Pull(storage.State(), map[], map[], map[], map[], map[], {})
    {
      this.storage := storage;
      notebooks, tags, notes := map[], map[], map[];
      forNotebook, forTag := map[], map[];
      unpushed := {};
    }

    ghost predicate Valid()
      reads this, storage
    {
      Usable(storage.State()) && NO_ID !in notebooks.Values && NO_ID !in notes.Values
    }

    method MoveWaiting(waiting: seq<Id>, nb: Id)
      requires Usable(storage.State())
      modifies storage
      ensures storage.State() == NotesMoved(old(storage.State()), waiting, nb) && Usable(storage.State())
    {
      hide NotebookSet, Usable;
      var i := 0;
      while i < |waiting|
        invariant i <= |waiting| && Usable(storage.State())
        invariant storage.State() == NotesMoved(old(storage.State()), waiting[..i], nb)
      {
        assert waiting[..i + 1][..i] == waiting[..i];
        NotebookSetUsable(storage.State(), waiting[i], nb);
        var _ := storage.SetNotebookForNote(waiting[i], nb);
        i := i + 1;
      }
      assert waiting[..i] == waiting;
    }

    method ProcessNotebook(guid: Guid, isDefault: bool)
      requires Valid()
      modifies this, storage
      ensures State() == NotebookDelivered(old(State()), guid, isDefault) && Valid()
    {
      hide NotebookCreated, NotesMoved, Distinct;
      var nb;
      if guid in notebooks {
        nb := notebooks[guid];
      } else {
        NewNotebookUsable(storage.State());
        nb := storage.CreateNotebook(NO_ID, NO_ID);
      }
      notebooks := notebooks[guid := nb];
      if isDefault {
        storage.SetDefaultNotebookId(nb);
      }
      MoveWaiting(ParkedAt(forNotebook, guid), nb);
      forNotebook := forNotebook - {guid};
    }

    method TagWaiting(waiting: seq<Id>, t: Id)
      requires Usable(storage.State())
      modifies storage
      ensures storage.State() == TagAddedToAll(old(storage.State()), waiting, t) && Usable(storage.State())
    {
      hide TagAdded, Usable;
      var i := 0;
      while i < |waiting|
        invariant i <= |waiting| && Usable(storage.State())
        invariant storage.State() == TagAddedToAll(old(storage.State()), waiting[..i], t)
      {
        assert waiting[..i + 1][..i] == waiting[..i];
        TagAddedUsable(storage.State(), waiting[i], t);
        storage.AddTagToNote(waiting[i], t);
        i := i + 1;
      }
      assert waiting[..i] == waiting;
    }

    method ProcessTag(guid: Guid)
      requires Valid()
      modifies this, storage
      ensures State() == TagDelivered(old(State()), guid) && Valid()
    {
      hide TagCreated, TagAddedToAll, Distinct;
      var t;
      if guid in tags {
        t := tags[guid];
      } else {
        NewTagUsable(storage.State());
        t := storage.CreateTag(NO_ID, NO_ID);
      }
      tags := tags[guid := t];
      TagWaiting(ParkedAt(forTag, guid), t);
      forTag := forTag - {guid};
    }

    method StoreNotebook(n: Id, guid: Guid)
      requires Valid()
      modifies this`forNotebook, storage
      ensures Valid()
      ensures guid == "" ==> State() == old(State())
      ensures guid != "" && guid in notebooks ==>
                State() == old(State()).(store := NotebookSet(old(storage.State()), n, notebooks[guid]))
      ensures guid != "" && guid !in notebooks ==>
          State() == old(State()).(forNotebook := Parked(old(forNotebook), guid, n))
    {
      hide NotebookSet, Distinct;
      if guid != "" {
        if guid !in notebooks {
          if n !in ParkedAt(forNotebook, guid) {
            forNotebook := forNotebook[guid := ParkedAt(forNotebook, guid) + [n]];
          }
        } else {
          NotebookSetUsable(storage.State(), n, notebooks[guid]);
          var _ := storage.SetNotebookForNote(n, notebooks[guid]);
        }
      }
    }

    method ParkTags(n: Id, guids: seq<Guid>) returns (ids: seq<Id>)
      modifies this`forTag
      ensures ids == KnownIds(guids, tags)
      ensures forTag == ParkedUnderUnknown(old(forTag), guids, tags, n)
    {
      ids := [];
      var i := 0;
      while i < |guids|
        invariant i <= |guids|
        invariant ids == KnownIds(guids[..i], tags)
        invariant forTag == ParkedUnderUnknown(old(forTag), guids[..i], tags, n)
      {
        var guid := guids[i];
        assert guids[..i + 1][..i] == guids[..i];
        if guid != "" {
          if guid !in tags {
            if n !in ParkedAt(forTag, guid) {
              forTag := forTag[guid := ParkedAt(forTag, guid) + [n]];
            }
          } else {
            ids := ids + [tags[guid]];
          }
        }
        i := i + 1;
      }
      assert guids[..i] == guids;
    }

    method StoreNoteNotebooksTagsTrashedness(n: Id, item: Item)
      requires item.NoteItem? && Valid()
      modifies this`forNotebook, this`forTag, storage
      ensures State() == LinksStored(old(State()), n, item) && Valid()
    {
      hide NotebookSet, TagsSet, Restored, MovedToTrash, Distinct, KnownIds, Parked, ParkedUnderUnknown;
      StoreNotebook(n, item.notebook);
      var ids := ParkTags(n, item.tags);
      TagsSetUsable(storage.State(), n, ids);
      var _ := storage.SetTagsOnNote(n, ids);
      MovedToTrashUsable(storage.State(), n);
      RestoredUsable(storage.State(), n);
      if !item.active {
        var _ := storage.MoveNoteToTrash(n);
      } else {
        var _ := storage.RestoreNoteFromTrash(n);
      }
    }

    method ProcessNote(item: Item)
      requires item.NoteItem? && Valid()
      modifies this, storage
      ensures State() == NoteDelivered(old(State()), item) && Valid()
    {
      hide NoteReceived, Reordered, LinksStored, Distinct;
      var known := if item.guid in notes then notes[item.guid] else NO_ID;
      var existing := storage.ReadGist(known);
      TimesUsable(storage.State(), known,
          existing.(createdTime := item.created, updatedTime := item.updated, guid := item.guid));
      TimesUsable(storage.State(), NO_ID, Gist(NO_ID, [], false, false, item.created, item.updated, item.guid));
      var n := storage.SetSyncedNoteGist(known, item.created, item.updated, item.guid);
      notes := notes[item.guid := n];
      if n !in unpushed {
        StoreNoteNotebooksTagsTrashedness(n, item);
      }
    }

    method ProcessNotebooks(items: seq<Item>)
      requires Valid() && forall item :: item in items ==> item.NotebookItem?
      modifies this, storage
      ensures State() == AllDelivered(old(State()), items) && Valid()
    {
      hide NotebookDelivered, Valid;
      var i := 0;
      while i < |items|
        invariant i <= |items| && Valid()
        invariant State() == AllDelivered(old(State()), items[..i])
      {
        assert items[..i + 1][..i] == items[..i] && items[i] in items;
        ProcessNotebook(items[i].guid, items[i].isDefault);
        i := i + 1;
      }
      assert items[..i] == items;
    }

    method ProcessTags(items: seq<Item>)
      requires Valid() && forall item :: item in items ==> item.TagItem?
      modifies this, storage
      ensures State() == AllDelivered(old(State()), items) && Valid()
    {
      hide TagDelivered, Valid;
      var i := 0;
      while i < |items|
        invariant i <= |items| && Valid()
        invariant State() == AllDelivered(old(State()), items[..i])
      {
        assert items[..i + 1][..i] == items[..i] && items[i] in items;
        ProcessTag(items[i].guid);
        i := i + 1;
      }
      assert items[..i] == items;
    }

    method ProcessNotes(items: seq<Item>)
      requires Valid() && forall item :: item in items ==> item.NoteItem?
      modifies this, storage
      ensures State() == AllDelivered(old(State()), items) && Valid()
    {
      hide NoteDelivered, Valid;
      var i := 0;
      while i < |items|
        invariant i <= |items| && Valid()
        invariant State() == AllDelivered(old(State()), items[..i])
      {
        assert items[..i + 1][..i] == items[..i] && items[i] in items;
        ProcessNote(items[i]);
        i := i + 1;
      }
      assert items[..i] == items;
    }

    /** A chunk: its notebooks, then its tags, then its notes. */
    method ProcessChunk(notebookItems: seq<Item>, tagItems: seq<Item>, noteItems: seq<Item>)
      requires forall item :: item in notebookItems ==> item.NotebookItem?
      requires forall item :: item in tagItems ==> item.TagItem?
      requires forall item :: item in noteItems ==> item.NoteItem?
      requires Valid()
      modifies this, storage
      ensures State() == AllDelivered(old(State()), notebookItems + tagItems + noteItems) && Valid()
    {
      hide AllDelivered, Valid;
      ProcessNotebooks(notebookItems);
      DeliveredInTurn(old(State()), notebookItems, tagItems);
      ProcessTags(tagItems);
      DeliveredInTurn(old(State()), notebookItems + tagItems, noteItems);
      ProcessNotes(noteItems);
    }
  }
}
