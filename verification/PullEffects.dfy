/** What a pull does beside placing notes: the default notebook, the times of notes, and what it leaves alone. */
module PullEffects {
  import opened StorageIndex
  import opened StorageInvariants
  import opened PullModel
  import opened PullTracking

  // The default notebook

  predicate NamesDefault(item: Item) {
    item.NotebookItem? && item.isDefault
  }

  /** Nothing but the gists and lists of notes, and new notes. */
  ghost predicate SameDefault(s: Store, s': Store) {
    s'.defaultNotebookId == s.defaultNotebookId && s'.maxNotebook == s.maxNotebook
  }

  lemma {:induction false} MovingKeepsDefault(s: Store, ns: seq<Id>, nb: Id)
    ensures SameDefault(s, NotesMoved(s, ns, nb))
  {
    hide AddedUnder, RemovedUnder;
    if ns != [] {
      MovingKeepsDefault(s, ns[..|ns| - 1], nb);
    }
  }

  lemma {:induction false} TaggingKeepsDefault(s: Store, ns: seq<Id>, t: Id)
    ensures SameDefault(s, TagAddedToAll(s, ns, t))
  {
    hide AddedUnder;
    if ns != [] {
      TaggingKeepsDefault(s, ns[..|ns| - 1], t);
    }
  }

  lemma LinkingKeepsDefault(s: Store, n: Id, nb: Id, tags: seq<Id>, active: bool)
    requires n != NO_ID
    ensures SameDefault(s, LinksSet(s, n, nb, tags, active))
  {
    hide NotebookSet, TagsSet, Restored, MovedToTrash, GistOf;
    var s1 := if nb == NO_ID then s else NotebookSet(s, n, nb);
    var s2 := TagsSet(s1, n, tags);
    NotebookSetGist(s, n, nb);
    TagsSetGist(s1, n, tags);
    MovedToTrashGist(s2, n);
    RestoredGist(s2, n);
  }

  /** Only a notebook that is marked as the default one becomes it, and the first notebook ever. */
  lemma DeliveryOfDefault(p: Pull, item: Item)
    requires Ok(p)
    ensures var p' := Delivered(p, item);
            && p'.store.maxNotebook >= p.store.maxNotebook
            && (NamesDefault(item) ==>
                  && item.guid in p'.notebooks && p'.store.defaultNotebookId == p'.notebooks[item.guid]
                  && p'.store.maxNotebook >= 1)
            && (!NamesDefault(item) && p.store.maxNotebook >= 1 ==>
                  p'.store.defaultNotebookId == p.store.defaultNotebookId)
  {
    match item {
      case NotebookItem(g, isDefault) => NotebookOfDefault(p, g, isDefault);
      case TagItem(g) =>
        hide TagAddedToAll;
        TaggingKeepsDefault(TagReady(p, g), ParkedAt(p.forTag, g), TagFor(p, g));
      case NoteItem(_, _, _, _, _, _) => NoteKeepsDefault(p, item);
    }
  }

  lemma NotebookOfDefault(p: Pull, g: Guid, isDefault: bool)
    requires GuidsOk(p)
    ensures var p', nb := NotebookDelivered(p, g, isDefault), NotebookFor(p, g);
            && p'.store.maxNotebook >= p.store.maxNotebook && p'.store.maxNotebook >= nb >= 1
            && p'.notebooks == p.notebooks[g := nb]
            && (isDefault ==> p'.store.defaultNotebookId == nb)
            && (!isDefault && p.store.maxNotebook >= 1 ==> p'.store.defaultNotebookId == p.store.defaultNotebookId)
  {
    hide NotesMoved, AddedUnder, RemovedUnder;
    MovingKeepsDefault(NotebookReady(p, g, isDefault), ParkedAt(p.forNotebook, g), NotebookFor(p, g));
    if g in p.notebooks {
      assert p.notebooks[g] in p.store.notebookIds;
    }
  }

  lemma AnnouncingKeepsDefault(p: Pull, item: Item)
    requires item.NoteItem?
    ensures SameDefault(p.store, Announced(p, item).store)
  {
    hide Inserted, Removed;
  }

  lemma NoteKeepsDefault(p: Pull, item: Item)
    requires GuidsOk(p) && ParkedOk(p) && item.NoteItem?
    ensures SameDefault(p.store, NoteDelivered(p, item).store)
  {
    hide LinksSet, Announced, NoteDelivered, GuidsOk, ParkedOk, GistOf, ParkedAt;
    var n, p1 := NoteFor(p, item.guid), Announced(p, item);
    Announcement(p, item);
    AnnouncingKeepsDefault(p, item);
    LiveNotes(p, item.guid);
    LinkingKeepsDefault(p1.store, n, NotebookAsNamed(p1, item), KnownIds(item.tags, p1.tags), item.active);
  }

  lemma {:induction false} OthersKeepDefault(p: Pull, items: seq<Item>)
    requires Ok(p) && p.store.maxNotebook >= 1 && forall item :: item in items ==> !NamesDefault(item)
    ensures var p' := AllDelivered(p, items);
            p'.store.defaultNotebookId == p.store.defaultNotebookId && p'.store.maxNotebook >= 1
  {
    hide Delivered, Ok, NamesDefault;
    if items != [] {
      var front, item := items[..|items| - 1], items[|items| - 1];
      assert item in items;
      OthersKeepDefault(p, front);
      DeliveriesOk(p, front);
      DeliveryOfDefault(AllDelivered(p, front), item);
    }
  }

  /** After a pull the default notebook is the last one that was sent as such, whatever else was sent. */
  lemma LastDefaultStands(p: Pull, before: seq<Item>, g: Guid, after: seq<Item>)
    requires Ok(p) && forall item :: item in after ==> !NamesDefault(item)
    ensures var p' := AllDelivered(p, before + [NotebookItem(g, true)] + after);
            g in p'.notebooks && p'.store.defaultNotebookId == p'.notebooks[g]
  {
    hide Delivered, Ok, AllDelivered;
    var item := NotebookItem(g, true);
    var p1, p2 := AllDelivered(p, before), AllDelivered(p, before + [item]);
    DeliveriesOk(p, before);
    DeliveredLast(p, before, item);
    DeliveryOfDefault(p1, item);
    DeliveriesOk(p, before + [item]);
    DeliveredInTurn(p, before + [item], after);
    OthersKeepDefault(p2, after);
    DeliveriesOk(p2, after);
  }

  lemma DeliveredLast(p: Pull, items: seq<Item>, item: Item)
    ensures AllDelivered(p, items + [item]) == Delivered(AllDelivered(p, items), item)
  {
    hide Delivered;
    assert (items + [item])[..|items|] == items;
  }

  // Notes with local changes

  ghost predicate Waits(p: Pull, n: Id) {
    (exists g :: n in ParkedAt(p.forNotebook, g)) || (exists g :: n in ParkedAt(p.forTag, g))
  }

  lemma DeliveryKeepsLocalChanges(p: Pull, item: Item, n: Id)
    requires Ok(p) && n in p.unpushed && n in p.store.live && !Waits(p, n)
    ensures var p' := Delivered(p, item);
            var g, g' := GistOf(p.store, n), GistOf(p'.store, n);
            && g' == g.(createdTime := g'.createdTime, updatedTime := g'.updatedTime, guid := g'.guid) && !Waits(p', n)
  {
    hide NotebookDelivered, TagDelivered, NoteDelivered, ParkedAt, GuidsOk, ParkedOk, GistOf;
    match item {
      case NotebookItem(g, isDefault) =>
        NotebookDelivery(p, g, isDefault);
        UnparkedAre(p.forNotebook, g);
      case TagItem(g) =>
        TagDelivery(p, g);
        UnparkedAre(p.forTag, g);
      case NoteItem(_, _, _, _, _, _) =>
        NoteDelivery(p, item);
        if item.guid in p.notes {
          KnownBefore(p, item);
        } else {
          NewNoteIsOther(p, item.guid, n);
        }
    }
  }

  lemma NewNoteIsOther(p: Pull, g: Guid, n: Id)
    requires GuidsOk(p) && n in p.store.live && g !in p.notes
    ensures NoteFor(p, g) != n
  {
  }

  lemma KnownBefore(p: Pull, item: Item)
    requires item.NoteItem? && item.guid in p.notes
    ensures GistBefore(p, item) == GistOf(p.store, NoteFor(p, item.guid))
  {
  }

  /** A note with local changes that are not pushed keeps its notebook, its tags and its place in or out of the trash,
      whatever a pull sends: only its times and its guid are updated. */
  lemma {:induction false} LocalChangesStay(p: Pull, items: seq<Item>, n: Id)
    requires Ok(p) && n in p.unpushed && n in p.store.live && !Waits(p, n)
    ensures var p' := AllDelivered(p, items);
            var g, g' := GistOf(p.store, n), GistOf(p'.store, n);
            && g' == g.(createdTime := g'.createdTime, updatedTime := g'.updatedTime, guid := g'.guid) && !Waits(p', n)
  {
    hide Delivered, Ok, Waits, GistOf;
    if items != [] {
      var front := items[..|items| - 1];
      LocalChangesStay(p, front, n);
      DeliveriesOk(p, front);
      GuidsStayed(p, AllDelivered(p, front), n);
      DeliveryKeepsLocalChanges(AllDelivered(p, front), items[|items| - 1], n);
    }
  }

  lemma GuidsStayed(p: Pull, p': Pull, n: Id)
    requires GuidsStay(p, p') && n in p.unpushed && n in p.store.live
    ensures n in p'.unpushed && n in p'.store.live
  {
  }
}
