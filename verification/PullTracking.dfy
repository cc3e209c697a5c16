/** What deliveries do to one note, whatever else comes. */
module PullTracking {
  import opened StorageIndex
  import opened StorageInvariants
  import opened NoteOrder
  import opened PullModel

  // Gists after the operations

  function WithTag(g: Gist, t: Id): Gist {
    if t in g.tagIds then g else g.(tagIds := g.tagIds + [t])
  }

  lemma TagAddedGist(s: Store, n: Id, t: Id)
    requires n != NO_ID && t != NO_ID
    ensures SameIds(s, TagAdded(s, n, t))
    ensures forall x :: GistOf(TagAdded(s, n, t), x) == if x == n then WithTag(GistOf(s, x), t) else GistOf(s, x)
  {
    hide AddedUnder;
  }

  lemma {:induction false} TagAddedToAllGists(s: Store, ns: seq<Id>, t: Id)
    requires t != NO_ID && NO_ID !in ns
    ensures SameIds(s, TagAddedToAll(s, ns, t))
    ensures forall x :: GistOf(TagAddedToAll(s, ns, t), x) == if x in ns then WithTag(GistOf(s, x), t) else GistOf(s, x)
  {
    hide TagAdded;
    if ns != [] {
      var front, n := ns[..|ns| - 1], ns[|ns| - 1];
      assert n in ns && forall x :: x in ns <==> x in front || x == n;
      TagAddedToAllGists(s, front, t);
      TagAddedGist(TagAddedToAll(s, front, t), n, t);
    }
  }

  lemma TagsSetGist(s: Store, n: Id, tags: seq<Id>)
    requires n != NO_ID
    ensures SameIds(s, TagsSet(s, n, tags))
    ensures forall x :: GistOf(TagsSet(s, n, tags), x) == if x == n then GistOf(s, x).(tagIds := tags) else GistOf(s, x)
  {
    hide AddedUnder, RemovedUnder, NewlyTagged, Elements;
  }

  lemma MovedToTrashGist(s: Store, n: Id)
    requires n != NO_ID
    ensures SameIds(s, MovedToTrash(s, n))
    ensures forall x :: GistOf(MovedToTrash(s, n), x) == if x == n then GistOf(s, x).(trashed := true) else GistOf(s, x)
  {
    hide RemovedUnder, Removed, Added, Elements;
  }

  lemma RestoredGist(s: Store, n: Id)
    requires n != NO_ID
    ensures SameIds(s, Restored(s, n))
    ensures forall x :: x != n ==> GistOf(Restored(s, n), x) == GistOf(s, x)
    ensures var g, g' := GistOf(s, n), GistOf(Restored(s, n), n);
            && g' == g.(notebookId := g'.notebookId, tagIds := g'.tagIds, trashed := false)
            && (g'.notebookId == g.notebookId || (g.trashed && g.notebookId !in s.notebookIds))
            && g'.tagIds == if g.trashed then Existing(g.tagIds, s.tagIds) else g.tagIds
  {
    hide AddedUnder, Removed, Added, Elements, Existing, Inserted;
  }

  lemma ReceivedGist(s: Store, g: Gist)
    ensures var s' := NoteReceived(s, g);
            && s'.live == s.live + {s.maxNote + 1} && s'.maxNote == s.maxNote + 1
            && s'.notebookIds == s.notebookIds && s'.tagIds == s.tagIds
            && s'.maxNotebook == s.maxNotebook && s'.maxTag == s.maxTag
            && forall x :: GistOf(s', x) == if x == s.maxNote + 1 then g else GistOf(s, x)
  {
  }

  lemma RefreshedGist(s: Store, n: Id, created: int, updated: int, guid: string)
    ensures var s' := NoteRefreshed(s, n, created, updated, guid);
            && SameIds(s, s')
            && forall x :: GistOf(s', x) == if x == n
                then GistOf(s, n).(createdTime := created, updatedTime := updated, guid := guid)
                                            else GistOf(s, x)
  {
    hide Inserted, Removed;
  }

  lemma LinksSetGist(s: Store, n: Id, nb: Id, tags: seq<Id>, active: bool)
    requires n != NO_ID && (nb == NO_ID || nb in s.notebookIds) && forall t :: t in tags ==> t in s.tagIds
    ensures SameIds(s, LinksSet(s, n, nb, tags, active))
    ensures forall x :: x != n ==> GistOf(LinksSet(s, n, nb, tags, active), x) == GistOf(s, x)
    ensures var g, g' := GistOf(s, n), GistOf(LinksSet(s, n, nb, tags, active), n);
            && (nb != NO_ID ==> g'.notebookId == nb)
            && (nb == NO_ID ==>
                  g'.notebookId == g.notebookId || (active && g.trashed && g.notebookId !in s.notebookIds))
            && g' == g.(notebookId := g'.notebookId, tagIds := tags, trashed := !active)
  {
    hide NotebookSet, TagsSet, Restored, MovedToTrash, Existing;
    NotebookSetGist(s, n, nb);
    var s1 := if nb == NO_ID then s else NotebookSet(s, n, nb);
    TagsSetGist(s1, n, tags);
    var s2 := TagsSet(s1, n, tags);
    MovedToTrashGist(s2, n);
    RestoredGist(s2, n);
    AllExisting(tags, s.tagIds);
  }

  // Guids

  /** Guids stand for objects that are there, each for its own. */
  ghost predicate MapOk(m: map<Guid, Id>, ids: seq<Id>, maxId: nat) {
    && (forall g :: g in m ==> m[g] in ids && m[g] != NO_ID)
    && (forall k :: k in ids ==> k <= maxId)
    && (forall g, h :: g in m && h in m && m[g] == m[h] ==> g == h)
  }

  ghost predicate NotesOk(notes: map<Guid, Id>, live: set<Id>, maxNote: nat, unpushed: set<Id>) {
    && (forall g :: g in notes ==> notes[g] in live)
    && (forall g, h :: g in notes && h in notes && notes[g] == notes[h] ==> g == h)
    && (forall n :: n in live ==> 0 < n <= maxNote)
    && (forall n :: n in unpushed ==> n <= maxNote)
  }

  ghost predicate GuidsOk(p: Pull) {
    && MapOk(p.notebooks, p.store.notebookIds, p.store.maxNotebook)
    && MapOk(p.tags, p.store.tagIds, p.store.maxTag)
    && NotesOk(p.notes, p.store.live, p.store.maxNote, p.unpushed)
  }

  /** A guid that is known, or comes with the next id. */
  lemma MapOkWith(m: map<Guid, Id>, ids: seq<Id>, maxId: nat, g: Guid)
    requires MapOk(m, ids, maxId)
    ensures g in m ==> MapOk(m[g := m[g]], ids, maxId) && m[g] != NO_ID
    ensures g !in m ==> MapOk(m[g := maxId + 1], [maxId + 1] + ids, maxId + 1)
  {
  }

  lemma NotesOkWith(notes: map<Guid, Id>, live: set<Id>, maxNote: nat, unpushed: set<Id>, g: Guid)
    requires NotesOk(notes, live, maxNote, unpushed)
    ensures g in notes ==> NotesOk(notes[g := notes[g]], live, maxNote, unpushed)
    ensures g !in notes ==> NotesOk(notes[g := maxNote + 1], live + {maxNote + 1}, maxNote + 1, unpushed)
    ensures forall h :: h in notes && h != g ==> notes[h] != (if g in notes then notes[g] else maxNote + 1)
  {
  }

  /** What is parked is parked under guids not known. */
  ghost predicate ParkedOk(p: Pull) {
    && (forall g: Guid, n: Id {:trigger n in ParkedAt(p.forNotebook, g)} ::
          n in ParkedAt(p.forNotebook, g) ==> g != "" && g !in p.notebooks && n in p.store.live)
    && (forall g: Guid, n: Id {:trigger n in ParkedAt(p.forTag, g)} ::
          n in ParkedAt(p.forTag, g) ==> g != "" && g !in p.tags && n in p.store.live)
  }

  lemma {:induction false} KnownIdsAre(gs: seq<Guid>, known: map<Guid, Id>)
    ensures forall h :: h in gs && h != "" && h in known ==> known[h] in KnownIds(gs, known)
    ensures forall t :: t in KnownIds(gs, known) ==> exists h :: h in gs && h != "" && h in known && known[h] == t
  {
    if gs != [] {
      var init, g := gs[..|gs| - 1], gs[|gs| - 1];
      KnownIdsAre(init, known);
      assert forall h :: h in gs <==> h in init || h == g;
    }
  }

  lemma KnownIdsExist(p: Pull, gs: seq<Guid>)
    requires GuidsOk(p)
    ensures forall t :: t in KnownIds(gs, p.tags) ==> t in p.store.tagIds
  {
    KnownIdsAre(gs, p.tags);
  }

  lemma ParkedIs(m: map<Guid, seq<Id>>, g: Guid, n: Id)
    ensures forall h: Guid, x: Id {:trigger x in ParkedAt(Parked(m, g, n), h)} ::
              x in ParkedAt(Parked(m, g, n), h) <==> x in ParkedAt(m, h) || (h == g && x == n)
  {
  }

  lemma UnparkedAre(m: map<Guid, seq<Id>>, g: Guid)
    ensures forall h: Guid, x: Id {:trigger x in ParkedAt(m - {g}, h)} ::
              x in ParkedAt(m - {g}, h) <==> x in ParkedAt(m, h) && h != g
  {
  }

  lemma ParkedIds(p: Pull)
    requires GuidsOk(p) && ParkedOk(p)
    ensures forall g :: NO_ID !in ParkedAt(p.forNotebook, g) && NO_ID !in ParkedAt(p.forTag, g)
  {
  }

  lemma {:induction false} ParkedUnderUnknownAre(m: map<Guid, seq<Id>>, gs: seq<Guid>, known: map<Guid, Id>, n: Id)
    ensures forall g: Guid, x: Id {:trigger x in ParkedAt(ParkedUnderUnknown(m, gs, known, n), g)} ::
              x in ParkedAt(ParkedUnderUnknown(m, gs, known, n), g)
              <==> x in ParkedAt(m, g) || (x == n && g in gs && g != "" && g !in known)
  {
    hide Parked;
    if gs != [] {
      var init, g := gs[..|gs| - 1], gs[|gs| - 1];
      ParkedUnderUnknownAre(m, init, known, n);
      ParkedIs(ParkedUnderUnknown(m, init, known, n), g, n);
      assert forall h :: h in gs <==> h in init || h == g;
    }
  }

  // Deliveries

  ghost predicate GuidsStay(p: Pull, p': Pull) {
    && p'.unpushed == p.unpushed && p.store.live <= p'.store.live
    && (forall g :: g in p.notebooks ==> g in p'.notebooks && p'.notebooks[g] == p.notebooks[g])
    && (forall g :: g in p.tags ==> g in p'.tags && p'.tags[g] == p.tags[g])
    && (forall g :: g in p.notes ==> g in p'.notes && p'.notes[g] == p.notes[g])
  }

  lemma NotebookReadyIs(p: Pull, g: Guid, isDefault: bool)
    requires GuidsOk(p)
    ensures var s := NotebookReady(p, g, isDefault);
            && s.gists == p.store.gists && s.live == p.store.live && s.maxNote == p.store.maxNote
            && s.tagIds == p.store.tagIds && s.maxTag == p.store.maxTag
            && (if g in p.notebooks then s.notebookIds == p.store.notebookIds && s.maxNotebook == p.store.maxNotebook
                else s.notebookIds == [NotebookFor(p, g)] + p.store.notebookIds && s.maxNotebook == NotebookFor(p, g))
            && NotebookFor(p, g) != NO_ID
  {
  }

  lemma NotebookStored(p: Pull, g: Guid, isDefault: bool)
    requires GuidsOk(p) && ParkedOk(p)
    ensures var s, s', nb := NotebookReady(p, g, isDefault), NotebookDelivered(p, g, isDefault).store,
        NotebookFor(p, g);
            && SameIds(s, s')
            && forall x :: GistOf(s', x) == if x in ParkedAt(p.forNotebook, g)
                then GistOf(p.store, x).(notebookId := nb)
                                            else GistOf(p.store, x)
  {
    hide NotebookReady, NotesMoved, NotebookFor, ParkedAt;
    NotebookReadyIs(p, g, isDefault);
    ParkedIds(p);
    hide GuidsOk, ParkedOk;
    NotesMovedGists(NotebookReady(p, g, isDefault), ParkedAt(p.forNotebook, g), NotebookFor(p, g));
  }

  lemma NotebookDelivery(p: Pull, g: Guid, isDefault: bool)
    requires GuidsOk(p) && ParkedOk(p)
    ensures var p', nb := NotebookDelivered(p, g, isDefault), NotebookFor(p, g);
            && p' == p.(store := p'.store, notebooks := p.notebooks[g := nb], forNotebook := p.forNotebook - {g})
            && p'.store.maxNote == p.store.maxNote && p'.store.live == p.store.live
            && (forall x :: GistOf(p'.store, x) == if x in ParkedAt(p.forNotebook, g)
                then GistOf(p.store, x).(notebookId := nb)
                                                   else GistOf(p.store, x))
            && GuidsOk(p') && ParkedOk(p') && GuidsStay(p, p')
  {
    hide NotebookReady, NotesMoved, ParkedAt, GistOf, MapOk, NotesOk;
    NotebookStored(p, g, isDefault);
    NotebookReadyIs(p, g, isDefault);
    MapOkWith(p.notebooks, p.store.notebookIds, p.store.maxNotebook, g);
    UnparkedAre(p.forNotebook, g);
  }

  lemma TagReadyIs(p: Pull, g: Guid)
    requires GuidsOk(p)
    ensures var s := TagReady(p, g);
            && s.gists == p.store.gists && s.live == p.store.live && s.maxNote == p.store.maxNote
            && s.notebookIds == p.store.notebookIds && s.maxNotebook == p.store.maxNotebook
            && (if g in p.tags then s.tagIds == p.store.tagIds && s.maxTag == p.store.maxTag
                else s.tagIds == [TagFor(p, g)] + p.store.tagIds && s.maxTag == TagFor(p, g))
            && TagFor(p, g) != NO_ID
  {
  }

  lemma TagStored(p: Pull, g: Guid)
    requires GuidsOk(p) && ParkedOk(p)
    ensures var s, s', t := TagReady(p, g), TagDelivered(p, g).store, TagFor(p, g);
            && SameIds(s, s')
            && forall x :: GistOf(s', x) == if x in ParkedAt(p.forTag, g) then WithTag(GistOf(p.store, x), t)
                                            else GistOf(p.store, x)
  {
    hide TagReady, TagAddedToAll, TagFor, WithTag, ParkedAt;
    TagReadyIs(p, g);
    ParkedIds(p);
    hide GuidsOk, ParkedOk;
    TagAddedToAllGists(TagReady(p, g), ParkedAt(p.forTag, g), TagFor(p, g));
  }

  lemma TagDelivery(p: Pull, g: Guid)
    requires GuidsOk(p) && ParkedOk(p)
    ensures var p', t := TagDelivered(p, g), TagFor(p, g);
            && p' == p.(store := p'.store, tags := p.tags[g := t], forTag := p.forTag - {g})
            && p'.store.maxNote == p.store.maxNote && p'.store.live == p.store.live
            && (forall x :: GistOf(p'.store, x) == if x in ParkedAt(p.forTag, g) then WithTag(GistOf(p.store, x), t)
                                                   else GistOf(p.store, x))
            && GuidsOk(p') && ParkedOk(p') && GuidsStay(p, p')
  {
    hide TagReady, TagAddedToAll, WithTag, ParkedAt, GistOf, MapOk, NotesOk;
    TagStored(p, g);
    TagReadyIs(p, g);
    MapOkWith(p.tags, p.store.tagIds, p.store.maxTag, g);
    UnparkedAre(p.forTag, g);
  }

  /** The id of a note: its own, or the next one. */
  function NoteFor(p: Pull, g: Guid): Id {
    if g in p.notes then p.notes[g] else p.store.maxNote + 1
  }

  /** The index and the guid of the note before its links are stored. */
  function Announced(p: Pull, item: Item): Pull
    requires item.NoteItem?
  {
    var n := NoteFor(p, item.guid);
    p.(store := if item.guid in p.notes then NoteRefreshed(p.store, n, item.created, item.updated, item.guid)
                else NoteReceived(p.store, Gist(NO_ID, [], false, false, item.created, item.updated, item.guid)),
       notes := p.notes[item.guid := n])
  }

  /** The gist a note has before its item comes, or gets when it is new. */
  function GistBefore(p: Pull, item: Item): Gist
    requires item.NoteItem?
  {
    if item.guid in p.notes then GistOf(p.store, p.notes[item.guid])
    else Gist(NO_ID, [], false, false, item.created, item.updated, item.guid)
  }

  lemma LiveNotes(p: Pull, g: Guid)
    requires GuidsOk(p)
    ensures g in p.notes ==> p.notes[g] in p.store.live
    ensures NoteFor(p, g) != NO_ID
  {
  }

  lemma Announcement(p: Pull, item: Item)
    requires GuidsOk(p) && ParkedOk(p) && item.NoteItem?
    ensures var p', n := Announced(p, item), NoteFor(p, item.guid);
            && NoteDelivered(p, item) == (if n in p.unpushed then p' else LinksStored(p', n, item))
            && p' == p.(store := p'.store, notes := p.notes[item.guid := n])
            && (forall x :: x != n ==> GistOf(p'.store, x) == GistOf(p.store, x))
            && (var g := GistBefore(p, item);
                GistOf(p'.store, n) == g.(createdTime := item.created, updatedTime := item.updated, guid := item.guid))
            && p'.store.notebookIds == p.store.notebookIds && p'.store.tagIds == p.store.tagIds
            && GuidsOk(p') && ParkedOk(p') && GuidsStay(p, p') && n in p'.store.live
            && (forall g :: g in p.notes && g != item.guid ==> p.notes[g] != n)
  {
    hide NoteReceived, NoteRefreshed, LinksStored, MapOk, NotesOk, ParkedAt, GistOf;
    var n := NoteFor(p, item.guid);
    NotesOkWith(p.notes, p.store.live, p.store.maxNote, p.unpushed, item.guid);
    LiveNotes(p, item.guid);
    RefreshedGist(p.store, n, item.created, item.updated, item.guid);
    ReceivedGist(p.store, Gist(NO_ID, [], false, false, item.created, item.updated, item.guid));
  }

  lemma LinksStorage(p: Pull, n: Id, item: Item)
    requires GuidsOk(p) && ParkedOk(p) && item.NoteItem? && n in p.store.live
    ensures var p', nb := LinksStored(p, n, item), NotebookAsNamed(p, item);
            && p' == p.(store := p'.store, forNotebook := p'.forNotebook, forTag := p'.forTag)
            && SameIds(p.store, p'.store)
            && (forall x :: x != n ==> GistOf(p'.store, x) == GistOf(p.store, x))
            && (var g, g' := GistOf(p.store, n), GistOf(p'.store, n);
                && (nb != NO_ID ==> g'.notebookId == nb)
                && (nb == NO_ID ==>
                     g'.notebookId == g.notebookId
                         || (item.active && g.trashed && g.notebookId !in p.store.notebookIds))
                && g' == g.(notebookId := g'.notebookId, tagIds := KnownIds(item.tags, p.tags),
                            trashed := !item.active))
            && (forall g: Guid, x: Id {:trigger x in ParkedAt(p'.forNotebook, g)} ::
                  x in ParkedAt(p'.forNotebook, g) <==>
                    x in ParkedAt(p.forNotebook, g) || (x == n && g == item.notebook && g != "" && g !in p.notebooks))
            && (forall g: Guid, x: Id {:trigger x in ParkedAt(p'.forTag, g)} ::
                  x in ParkedAt(p'.forTag, g) <==>
                    x in ParkedAt(p.forTag, g) || (x == n && g in item.tags && g != "" && g !in p.tags))
  {
    hide LinksSet, Parked, ParkedUnderUnknown, ParkedAt, KnownIds, ParkedOk;
    KnownIdsExist(p, item.tags);
    LinksSetGist(p.store, n, NotebookAsNamed(p, item), KnownIds(item.tags, p.tags), item.active);
    ParkedIs(p.forNotebook, item.notebook, n);
    ParkedUnderUnknownAre(p.forTag, item.tags, p.tags, n);
  }

  /** A note item changes its own note, unless that has local changes, and no other. */
  lemma NoteDelivery(p: Pull, item: Item)
    requires GuidsOk(p) && ParkedOk(p) && item.NoteItem?
    ensures var p', n := NoteDelivered(p, item), NoteFor(p, item.guid);
            && p'.notes == p.notes[item.guid := n] && p'.notebooks == p.notebooks && p'.tags == p.tags
            && GuidsOk(p') && ParkedOk(p') && GuidsStay(p, p') && n in p'.store.live
            && (forall g :: g in p.notes && g != item.guid ==> p.notes[g] != n)
            && (forall x :: x != n ==> GistOf(p'.store, x) == GistOf(p.store, x))
            && (forall g: Guid, x: Id {:trigger x in ParkedAt(p'.forNotebook, g)} ::
                  x in ParkedAt(p'.forNotebook, g) <==>
                    || x in ParkedAt(p.forNotebook, g)
                    || (x == n && n !in p.unpushed && g == item.notebook && g != "" && g !in p.notebooks))
            && (forall g: Guid, x: Id {:trigger x in ParkedAt(p'.forTag, g)} ::
                  x in ParkedAt(p'.forTag, g) <==>
                    || x in ParkedAt(p.forTag, g)
                    || (x == n && n !in p.unpushed && g in item.tags && g != "" && g !in p.tags))
            && (var g, g' := GistBefore(p, item), GistOf(p'.store, n);
                && g' == g.(createdTime := item.created, updatedTime := item.updated, guid := item.guid,
                            notebookId := g'.notebookId, tagIds := g'.tagIds, trashed := g'.trashed)
                && (n in p.unpushed ==>
                      g'.notebookId == g.notebookId && g'.tagIds == g.tagIds && g'.trashed == g.trashed))
            && (n !in p.unpushed ==>
                  var nb, g, g' := NotebookAsNamed(p, item), GistBefore(p, item), GistOf(p'.store, n);
                  && (nb != NO_ID ==> g'.notebookId == nb)
                  && (nb == NO_ID ==>
                     g'.notebookId == g.notebookId
                         || (item.active && g.trashed && g.notebookId !in p.store.notebookIds))
                  && g'.tagIds == KnownIds(item.tags, p.tags) && g'.trashed == !item.active)
  {
    hide Announced, LinksStored, KnownIds, ParkedAt, NoteDelivered, GuidsOk, ParkedOk;
    var n, p1 := NoteFor(p, item.guid), Announced(p, item);
    Announcement(p, item);
    if n !in p.unpushed {
      LinksStorage(p1, n, item);
      StoredGuidsOk(p1, LinksStored(p1, n, item), n, item);
    }
  }

  lemma StoredGuidsOk(p: Pull, p': Pull, n: Id, item: Item)
    requires GuidsOk(p) && ParkedOk(p) && item.NoteItem? && n in p.store.live
    requires p' == p.(store := p'.store, forNotebook := p'.forNotebook, forTag := p'.forTag)
    requires SameIds(p.store, p'.store)
    requires forall g: Guid, x: Id {:trigger x in ParkedAt(p'.forNotebook, g)} ::
               x in ParkedAt(p'.forNotebook, g) ==>
                 x in ParkedAt(p.forNotebook, g) || (x == n && g == item.notebook && g != "" && g !in p.notebooks)
    requires forall g: Guid, x: Id {:trigger x in ParkedAt(p'.forTag, g)} ::
               x in ParkedAt(p'.forTag, g) ==>
                 x in ParkedAt(p.forTag, g) || (x == n && g in item.tags && g != "" && g !in p.tags)
    ensures GuidsOk(p') && ParkedOk(p') && GuidsStay(p, p')
  {
    hide ParkedAt;
  }

  // One note, while other things come

  ghost predicate Ok(p: Pull) {
    GuidsOk(p) && ParkedOk(p)
  }

  ghost predicate WaitsForNotebook(p: Pull, n: Id, g: Guid) {
    n in ParkedAt(p.forNotebook, g)
  }

  ghost predicate WaitsForTag(p: Pull, n: Id, g: Guid) {
    n in ParkedAt(p.forTag, g)
  }

  lemma OthersPass(p: Pull, a: Guid, item: Item)
    requires Ok(p) && a in p.notes && (item.NoteItem? ==> item.guid != a)
    ensures var p', n := Delivered(p, item), p.notes[a];
            var g, g' := GistOf(p.store, n), GistOf(p'.store, n);
            && Ok(p') && GuidsStay(p, p') && g'.trashed == g.trashed
            && (forall h :: WaitsForNotebook(p', n, h) <==>
                  WaitsForNotebook(p, n, h) && !(item.NotebookItem? && item.guid == h))
            && (forall h :: WaitsForTag(p', n, h) <==> WaitsForTag(p, n, h) && !(item.TagItem? && item.guid == h))
            && (item.NotebookItem? ==> item.guid in p'.notebooks)
            && (item.TagItem? ==> item.guid in p'.tags)
            && g'.notebookId == (if item.NotebookItem? && WaitsForNotebook(p, n, item.guid) then p'.notebooks[item.guid]
                                 else g.notebookId)
            && (forall t :: t in g'.tagIds <==>
                  t in g.tagIds || (item.TagItem? && WaitsForTag(p, n, item.guid) && t == p'.tags[item.guid]))
  {
    hide NotebookDelivered, TagDelivered, NoteDelivered, ParkedAt, GuidsOk, ParkedOk, GistOf;
    match item {
      case NotebookItem(g, isDefault) =>
        NotebookDelivery(p, g, isDefault);
        UnparkedAre(p.forNotebook, g);
      case TagItem(g) =>
        TagDelivery(p, g);
        UnparkedAre(p.forTag, g);
      case NoteItem(_, _, _, _, _, _) => NoteDelivery(p, item);
    }
  }

  lemma {:induction false} DeliveriesOk(p: Pull, items: seq<Item>)
    requires Ok(p)
    ensures Ok(AllDelivered(p, items)) && GuidsStay(p, AllDelivered(p, items))
  {
    hide Delivered, Ok;
    if items != [] {
      DeliveriesOk(p, items[..|items| - 1]);
      DeliveryOk(AllDelivered(p, items[..|items| - 1]), items[|items| - 1]);
    }
  }

  lemma DeliveryOk(p: Pull, item: Item)
    requires Ok(p)
    ensures Ok(Delivered(p, item)) && GuidsStay(p, Delivered(p, item))
  {
    hide NotebookDelivered, TagDelivered, NoteDelivered, GuidsOk, ParkedOk;
    match item {
      case NotebookItem(g, isDefault) => NotebookDelivery(p, g, isDefault);
      case TagItem(g) => TagDelivery(p, g);
      case NoteItem(_, _, _, _, _, _) => NoteDelivery(p, item);
    }
  }

  /** The last of the items that comes for the first time, among the notebooks waited for. */
  datatype Arrival = Nothing | Last(guid: Guid)

  ghost function LastArrival(p: Pull, n: Id, items: seq<Item>): (r: Arrival)
    ensures r.Last? ==> WaitsForNotebook(p, n, r.guid) && r.guid in NotebookGuids(items)
  {
    if items == [] then Nothing
    else
      var front, item := items[..|items| - 1], items[|items| - 1];
      assert items == front + [item];
      if item.NotebookItem? && WaitsForNotebook(p, n, item.guid) && item.guid !in NotebookGuids(front)
          then Last(item.guid)
      else LastArrival(p, n, front)
  }

  lemma FrontNotes(items: seq<Item>, a: Guid)
    requires items != [] && a !in NoteGuids(items)
    ensures a !in NoteGuids(items[..|items| - 1])
    ensures var item := items[|items| - 1]; item.NoteItem? ==> item.guid != a
  {
    assert items == items[..|items| - 1] + [items[|items| - 1]];
    GuidsOfTwo(items[..|items| - 1], [items[|items| - 1]]);
    assert items[|items| - 1] in items;
  }

  lemma GuidsWithLast(items: seq<Item>)
    requires items != []
    ensures var front, item := items[..|items| - 1], items[|items| - 1];
            && (forall g ::
                  g in NotebookGuids(items) <==> g in NotebookGuids(front) || (item.NotebookItem? && item.guid == g))
            && (forall g :: g in TagGuids(items) <==> g in TagGuids(front) || (item.TagItem? && item.guid == g))
  {
    var front, item := items[..|items| - 1], items[|items| - 1];
    assert items == front + [item];
    assert forall i :: i in items <==> i in front || i == item;
  }

  /** A note waits until what it waits for comes; the last notebook to come has it. */
  lemma {:induction false} NotebookAfter(p: Pull, a: Guid, items: seq<Item>)
    requires Ok(p) && a in p.notes && a !in NoteGuids(items)
    ensures var q, n := AllDelivered(p, items), p.notes[a];
            && a in q.notes && q.notes[a] == n && GistOf(q.store, n).trashed == GistOf(p.store, n).trashed
            && (forall h :: WaitsForNotebook(q, n, h) <==> WaitsForNotebook(p, n, h) && h !in NotebookGuids(items))
            && match LastArrival(p, n, items)
               case Nothing => GistOf(q.store, n).notebookId == GistOf(p.store, n).notebookId
               case Last(g) => g in q.notebooks && GistOf(q.store, n).notebookId == q.notebooks[g]
  {
    hide Delivered, Ok, NotebookGuids, NoteGuids, GistOf, WaitsForNotebook;
    if items != [] {
      var front, item := items[..|items| - 1], items[|items| - 1];
      FrontNotes(items, a);
      GuidsWithLast(items);
      NotebookAfter(p, a, front);
      DeliveriesOk(p, front);
      OthersPass(AllDelivered(p, front), a, item);
    } else {
      NoGuids();
    }
  }

  /** The tags that come are added. */
  lemma {:induction false} TagsAfter(p: Pull, a: Guid, items: seq<Item>)
    requires Ok(p) && a in p.notes && a !in NoteGuids(items)
    ensures var q, n := AllDelivered(p, items), p.notes[a];
            && a in q.notes && q.notes[a] == n
            && (forall h :: WaitsForTag(q, n, h) <==> WaitsForTag(p, n, h) && h !in TagGuids(items))
            && (forall h :: h in TagGuids(items) ==> h in q.tags)
            && (forall h :: WaitsForTag(p, n, h) && h in TagGuids(items) ==> q.tags[h] in GistOf(q.store, n).tagIds)
            && (forall t :: t in GistOf(p.store, n).tagIds ==> t in GistOf(q.store, n).tagIds)
            && (forall t :: t in GistOf(q.store, n).tagIds ==>
                  t in GistOf(p.store, n).tagIds
                  || exists h :: WaitsForTag(p, n, h) && h in TagGuids(items) && q.tags[h] == t)
  {
    hide Delivered, Ok, TagGuids, NoteGuids, GistOf, WaitsForTag;
    if items != [] {
      var front, item := items[..|items| - 1], items[|items| - 1];
      FrontNotes(items, a);
      GuidsWithLast(items);
      TagsAfter(p, a, front);
      DeliveriesOk(p, front);
      OthersPass(AllDelivered(p, front), a, item);
      var q0, q, n := AllDelivered(p, front), AllDelivered(p, items), p.notes[a];
      forall t | t in GistOf(q.store, n).tagIds && t !in GistOf(p.store, n).tagIds
        ensures exists h :: WaitsForTag(p, n, h) && h in TagGuids(items) && q.tags[h] == t
      {
        if t in GistOf(q0.store, n).tagIds {
          var h :| WaitsForTag(p, n, h) && h in TagGuids(front) && q0.tags[h] == t;
          assert q.tags[h] == t;
        } else {
          assert WaitsForTag(q0, n, item.guid) && q.tags[item.guid] == t;
        }
      }
    } else {
      NoGuids();
    }
  }
}
