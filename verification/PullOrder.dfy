/** Where the notes end that a pull brings, in whatever order notebooks, tags and notes come. */
module PullOrder {
  import opened StorageIndex
  import opened StorageInvariants
  import opened StorageRuns
  import opened NoteOrder
  import opened PullModel
  import opened PullTracking

  // The last version of a note

  /** Notebook `g` comes before notebook `h` comes for the first time. */
  ghost predicate FirstBefore(items: seq<Item>, g: Guid, h: Guid) {
    exists k :: 0 <= k <= |items| && g in NotebookGuids(items[..k]) && h !in NotebookGuids(items[..k])
  }

  lemma {:induction false} NothingArrivesIff(p: Pull, n: Id, items: seq<Item>)
    ensures LastArrival(p, n, items) == Nothing
            <==> forall g :: WaitsForNotebook(p, n, g) ==> g !in NotebookGuids(items)
  {
    hide NotebookGuids, WaitsForNotebook;
    if items != [] {
      NothingArrivesIff(p, n, items[..|items| - 1]);
      GuidsWithLast(items);
    } else {
      NoGuids();
    }
  }

  lemma FrontGuids(items: seq<Item>, k: nat)
    requires k <= |items|
    ensures NotebookGuids(items[..k]) <= NotebookGuids(items)
  {
  }

  lemma FirstBeforeInFront(items: seq<Item>, g: Guid, h: Guid)
    requires items != [] && h in NotebookGuids(items[..|items| - 1])
    ensures FirstBefore(items, g, h) <==> FirstBefore(items[..|items| - 1], g, h)
  {
    hide NotebookGuids;
    var front := items[..|items| - 1];
    FrontGuids(items, |items| - 1);
    if FirstBefore(items, g, h) {
      var k :| 0 <= k <= |items| && g in NotebookGuids(items[..k]) && h !in NotebookGuids(items[..k]);
      assert items[..|items|] == items;
      assert front[..k] == items[..k];
    }
    if FirstBefore(front, g, h) {
      var k :| 0 <= k <= |front| && g in NotebookGuids(front[..k]) && h !in NotebookGuids(front[..k]);
      assert front[..k] == items[..k];
    }
  }

  lemma ComesLastAt(items: seq<Item>, x: Guid, h: Guid)
    requires items != [] && x != h && x !in NotebookGuids(items[..|items| - 1]) && h in NotebookGuids(items)
    ensures !FirstBefore(items, x, h)
  {
    hide NotebookGuids;
    forall k | 0 <= k < |items| ensures x !in NotebookGuids(items[..k]) {
      FrontGuids(items[..|items| - 1], k);
      assert items[..|items| - 1][..k] == items[..k];
    }
    assert items[..|items|] == items;
  }

  /** The last notebook to come is the one that all others waited for come before. */
  lemma {:induction false} LastArrivalIff(p: Pull, n: Id, items: seq<Item>, h: Guid)
    requires WaitsForNotebook(p, n, h) && h in NotebookGuids(items)
    ensures LastArrival(p, n, items) == Last(h)
            <==> forall g :: WaitsForNotebook(p, n, g) && g != h && g in NotebookGuids(items) ==>
                FirstBefore(items, g, h)
  {
    hide NotebookGuids, WaitsForNotebook, FirstBefore;
    if items == [] {
      NoGuids();
      assert false;
    } else {
      var front, item := items[..|items| - 1], items[|items| - 1];
      GuidsWithLast(items);
      if item.NotebookItem? && WaitsForNotebook(p, n, item.guid) && item.guid !in NotebookGuids(front) {
        if item.guid == h {
          AllBeforeLast(items, h);
        } else {
          ComesLastAt(items, item.guid, h);
        }
      } else {
        LastArrivalIff(p, n, front, h);
        forall g ensures FirstBefore(items, g, h) <==> FirstBefore(front, g, h) {
          FirstBeforeInFront(items, g, h);
        }
      }
    }
  }

  lemma AllBeforeLast(items: seq<Item>, h: Guid)
    requires items != [] && h !in NotebookGuids(items[..|items| - 1])
    ensures forall g :: g in NotebookGuids(items[..|items| - 1]) ==> FirstBefore(items, g, h)
  {
  }

  /** The note is in the notebook named, has the tags named and no others, and is trashed or not, as the item says. */
  ghost predicate AsNamed(q: Pull, item: Item)
    requires item.NoteItem?
  {
    && item.guid in q.notes
    && var g := GistOf(q.store, q.notes[item.guid]);
       && InNotebook(q, g, item) && HasTags(q, g, item) && g.trashed == !item.active
  }

  ghost predicate InNotebook(q: Pull, g: Gist, item: Item)
    requires item.NoteItem?
  {
    item.notebook != "" ==> item.notebook in q.notebooks && g.notebookId == q.notebooks[item.notebook]
  }

  ghost predicate HasTags(q: Pull, g: Gist, item: Item)
    requires item.NoteItem?
  {
    && (forall h :: h in item.tags && h != "" ==> h in q.tags && q.tags[h] in g.tagIds)
    && (forall t :: t in g.tagIds ==> exists h :: h in item.tags && h != "" && h in q.tags && q.tags[h] == t)
  }

  /** Whatever the item names is known already or comes. */
  predicate Named(p: Pull, item: Item, later: seq<Item>)
    requires item.NoteItem?
  {
    && (item.notebook == "" || item.notebook in p.notebooks || item.notebook in NotebookGuids(later))
    && (forall h :: h in item.tags && h != "" ==> h in p.tags || h in TagGuids(later))
  }

  /** No notebook that the note waits for from before comes, or only before that of the item. */
  ghost predicate NotebookStands(p: Pull, item: Item, later: seq<Item>)
    requires item.NoteItem?
  {
    item.notebook != "" ==>
      forall g :: WaitsForNotebook(p, NoteFor(p, item.guid), g) && g != item.notebook && g in NotebookGuids(later) ==>
        item.notebook !in p.notebooks && FirstBefore(later, g, item.notebook)
  }

  /** No tag that the note waits for from before comes, or only such as the item has too. */
  ghost predicate TagsStand(p: Pull, item: Item, later: seq<Item>)
    requires item.NoteItem?
  {
    forall h :: WaitsForTag(p, NoteFor(p, item.guid), h) && h in TagGuids(later) ==> h in item.tags
  }

  lemma NotebooksAreDistinct(p: Pull, g: Guid, h: Guid)
    requires Ok(p) && g in p.notebooks && h in p.notebooks && g != h
    ensures p.notebooks[g] != p.notebooks[h]
  {
  }

  lemma WaitsForUnknown(p: Pull, n: Id)
    requires Ok(p)
    ensures forall g :: WaitsForNotebook(p, n, g) ==> g != "" && g !in p.notebooks
    ensures forall h :: WaitsForTag(p, n, h) ==> h != "" && h !in p.tags
  {
  }

  /** What the delivery of a version leaves the note waiting for. */
  lemma VersionDelivered(p: Pull, item: Item)
    requires Ok(p) && item.NoteItem? && NoteFor(p, item.guid) !in p.unpushed
    ensures var p', n := NoteDelivered(p, item), NoteFor(p, item.guid);
            && Ok(p') && item.guid in p'.notes && p'.notes[item.guid] == n
            && p'.notebooks == p.notebooks && p'.tags == p.tags && p'.unpushed == p.unpushed
            && (forall g :: WaitsForNotebook(p', n, g) <==>
                  WaitsForNotebook(p, n, g) || (g == item.notebook && g != "" && g !in p.notebooks))
            && (forall h :: WaitsForTag(p', n, h) <==>
                  WaitsForTag(p, n, h) || (h in item.tags && h != "" && h !in p.tags))
            && var nb, g, g' := NotebookAsNamed(p, item), GistBefore(p, item), GistOf(p'.store, n);
               && (item.notebook != "" && item.notebook in p.notebooks ==> g'.notebookId == p.notebooks[item.notebook])
               && (nb == NO_ID ==>
                     g'.notebookId == g.notebookId
                         || (item.active && g.trashed && g.notebookId !in p.store.notebookIds))
               && g'.tagIds == KnownIds(item.tags, p.tags) && g'.trashed == !item.active
  {
    hide NoteDelivered, ParkedAt, KnownIds;
    NoteDelivery(p, item);
    hide ParkedOk;
  }

  lemma NotebookOfLastVersion(p: Pull, item: Item, later: seq<Item>)
    requires Ok(p) && item.NoteItem? && item.guid !in NoteGuids(later) && NoteFor(p, item.guid) !in p.unpushed
    requires Named(p, item, later)
    ensures var q := AllDelivered(NoteDelivered(p, item), later);
            && item.guid in q.notes && q.notes[item.guid] == NoteFor(p, item.guid)
            && GistOf(q.store, NoteFor(p, item.guid)).trashed == !item.active
            && (InNotebook(q, GistOf(q.store, NoteFor(p, item.guid)), item) <==> NotebookStands(p, item, later))
  {
    hide NoteDelivered, AllDelivered, Ok, WaitsForNotebook, WaitsForTag, NotebookGuids, NoteGuids, TagGuids,
        FirstBefore,
      KnownIds, GistOf, NotebookAsNamed, LastArrival;
    var n, p1 := NoteFor(p, item.guid), NoteDelivered(p, item);
    var q := AllDelivered(p1, later);
    VersionDelivered(p, item);
    WaitsForUnknown(p, n);
    NotebookAfter(p1, item.guid, later);
    DeliveriesOk(p1, later);
    NothingArrivesIff(p1, n, later);
    if item.notebook != "" && item.notebook !in p.notebooks {
      LastArrivalIff(p1, n, later, item.notebook);
    }
    var last := LastArrival(p1, n, later);
    if last.Last? && last.guid != item.notebook && item.notebook in q.notebooks {
      NotebooksAreDistinct(q, last.guid, item.notebook);
    }
  }

  lemma TagsOfLastVersion(p: Pull, item: Item, later: seq<Item>)
    requires Ok(p) && item.NoteItem? && item.guid !in NoteGuids(later) && NoteFor(p, item.guid) !in p.unpushed
    requires Named(p, item, later)
    ensures var q := AllDelivered(NoteDelivered(p, item), later);
            HasTags(q, GistOf(q.store, NoteFor(p, item.guid)), item) <==> TagsStand(p, item, later)
  {
    hide NoteDelivered, AllDelivered, Ok, WaitsForNotebook, WaitsForTag, NotebookGuids, NoteGuids, TagGuids, KnownIds,
      GistOf;
    var n, p1 := NoteFor(p, item.guid), NoteDelivered(p, item);
    var q := AllDelivered(p1, later);
    VersionDelivered(p, item);
    WaitsForUnknown(p, n);
    TagsAfter(p1, item.guid, later);
    DeliveriesOk(p1, later);
    KnownIdsAre(item.tags, p.tags);
    var g := GistOf(q.store, n);
    if TagsStand(p, item, later) {
      forall t | t in g.tagIds ensures exists h :: h in item.tags && h != "" && h in q.tags && q.tags[h] == t {
        TagIsNamed(p, item, later, q, t);
      }
    } else {
      var h :| WaitsForTag(p, n, h) && h in TagGuids(later) && h !in item.tags;
      assert WaitsForTag(p1, n, h) && q.tags[h] in g.tagIds;
      TagsAreDistinct(q);
    }
  }

  lemma TagsAreDistinct(p: Pull)
    requires Ok(p)
    ensures forall g, h :: g in p.tags && h in p.tags && p.tags[g] == p.tags[h] ==> g == h
  {
  }

  lemma TagIsNamed(p: Pull, item: Item, later: seq<Item>, q: Pull, t: Id)
    requires item.NoteItem? && TagsStand(p, item, later)
    requires forall h :: WaitsForTag(p, NoteFor(p, item.guid), h) ==> h != ""
    requires forall h :: h in TagGuids(later) ==> h in q.tags
    requires forall h :: h in p.tags ==> h in q.tags && q.tags[h] == p.tags[h]
    requires (exists h :: h in item.tags && h != "" && h in p.tags && p.tags[h] == t)
             || (exists h :: (WaitsForTag(p, NoteFor(p, item.guid), h) || (h in item.tags && h != "" && h !in p.tags))
                             && h in TagGuids(later) && q.tags[h] == t)
    ensures exists h :: h in item.tags && h != "" && h in q.tags && q.tags[h] == t
  {
    hide WaitsForTag, TagGuids;
    if h :| h in item.tags && h != "" && h in p.tags && p.tags[h] == t {
      assert q.tags[h] == t;
    } else {
      var h :| (WaitsForTag(p, NoteFor(p, item.guid), h) || (h in item.tags && h != "" && h !in p.tags))
               && h in TagGuids(later) && q.tags[h] == t;
      assert h in item.tags;
    }
  }

  /** When exactly the last version of a note that comes is the one it ends as, whatever was parked before and whatever
      else comes later. */
  lemma LastVersionStandsIff(p: Pull, item: Item, later: seq<Item>)
    requires Ok(p) && item.NoteItem? && item.guid !in NoteGuids(later) && NoteFor(p, item.guid) !in p.unpushed
    requires Named(p, item, later)
    ensures AsNamed(AllDelivered(NoteDelivered(p, item), later), item)
            <==> NotebookStands(p, item, later) && TagsStand(p, item, later)
  {
    hide NoteDelivered, AllDelivered, Ok, NotebookStands, TagsStand, Named, InNotebook, HasTags;
    NotebookOfLastVersion(p, item, later);
    TagsOfLastVersion(p, item, later);
  }

  /** A state in which nothing is parked. */
  ghost predicate Settled(p: Pull) {
    Ok(p) && (forall g, n :: !WaitsForNotebook(p, n, g)) && (forall g, n :: !WaitsForTag(p, n, g))
  }

  predicate Known(known: map<Guid, Id>, come: set<Guid>, g: Guid) {
    g in known || g in come
  }

  /** Before a note has come, it waits for nothing. */
  lemma NotWaitingYet(p: Pull, before: seq<Item>, a: Guid)
    requires Settled(p) && a !in NoteGuids(before)
    ensures var q := AllDelivered(p, before);
            && Ok(q) && GuidsStay(p, q) && (a in q.notes <==> a in p.notes)
            && (forall g :: !WaitsForNotebook(q, NoteFor(q, a), g)) && (forall h :: !WaitsForTag(q, NoteFor(q, a), h))
            && (NoteFor(q, a) in q.unpushed ==> a in p.notes && p.notes[a] in p.unpushed)
            && (a in p.notes ==>
                  var n := p.notes[a];
                  && q.notes[a] == n && GistOf(q.store, n).notebookId == GistOf(p.store, n).notebookId
                  && GistOf(q.store, n).trashed == GistOf(p.store, n).trashed)
            && (forall g :: g in q.notebooks <==> Known(p.notebooks, NotebookGuids(before), g))
            && (forall g :: g in q.tags <==> Known(p.tags, TagGuids(before), g))
  {
    hide AllDelivered, Ok, WaitsForNotebook, WaitsForTag, NotebookGuids, TagGuids, NoteGuids, GistOf;
    DeliveriesOk(p, before);
    GuidsOfDeliveries(p, before);
    if a in p.notes {
      NotebookAfter(p, a, before);
      TagsAfter(p, a, before);
    } else {
      NewNoteWaitsForNothing(AllDelivered(p, before), NoteFor(AllDelivered(p, before), a));
    }
  }

  lemma NewNoteWaitsForNothing(p: Pull, n: Id)
    requires Ok(p) && n == p.store.maxNote + 1
    ensures (forall g :: !WaitsForNotebook(p, n, g)) && (forall h :: !WaitsForTag(p, n, h)) && n !in p.unpushed
  {
  }

  /** Between two versions of a note, it waits for what the first one named, until that comes. */
  lemma WaitingAfterFirst(p: Pull, before: seq<Item>, first: Item, between: seq<Item>)
    requires Settled(p) && first.NoteItem? && first.guid !in NoteGuids(before) && first.guid !in NoteGuids(between)
    requires first.guid in p.notes ==> p.notes[first.guid] !in p.unpushed
    ensures var q := AllDelivered(NoteDelivered(AllDelivered(p, before), first), between);
            var n := NoteFor(q, first.guid);
            && Ok(q) && n !in q.unpushed
            && (forall g :: WaitsForNotebook(q, n, g) <==>
                  g == first.notebook && g != "" && !Known(p.notebooks, NotebookGuids(before + between), g))
            && (forall h :: WaitsForTag(q, n, h) <==>
                  h in first.tags && h != "" && !Known(p.tags, TagGuids(before + between), h))
            && (forall g :: g in q.notebooks <==> Known(p.notebooks, NotebookGuids(before + between), g))
            && (forall g :: g in q.tags <==> Known(p.tags, TagGuids(before + between), g))
  {
    hide AllDelivered, NoteDelivered, Ok, WaitsForNotebook, WaitsForTag, NotebookGuids, TagGuids, NoteGuids, GistOf,
        KnownIds,
      NotebookAsNamed;
    var q0 := AllDelivered(p, before);
    var q1 := NoteDelivered(q0, first);
    NotWaitingYet(p, before, first.guid);
    VersionDelivered(q0, first);
    NotebookAfter(q1, first.guid, between);
    TagsAfter(q1, first.guid, between);
    DeliveriesOk(q1, between);
    GuidsOfDeliveries(q1, between);
    GuidsOfTwo(before, between);
  }

  /** A note sent in two versions, with anything before, between and after them, ends as the second one says if and only
      if the notebook of the first is none, the same, known by then, or comes later but before that of the second, which
      is not known by then either; or never comes; and likewise every tag that only the first has is known by then. */
  lemma SecondVersionStandsIff(
    p: Pull, before: seq<Item>, first: Item, between: seq<Item>, second: Item, later: seq<Item>)
    requires Settled(p) && first.NoteItem? && second.NoteItem? && first.guid == second.guid
    requires first.guid !in NoteGuids(before) && first.guid !in NoteGuids(between) && first.guid !in NoteGuids(later)
    requires first.guid in p.notes ==> p.notes[first.guid] !in p.unpushed
    requires Complete(p, [second], before + between + later)
    ensures var notebooks, tags := NotebookGuids(before + between), TagGuids(before + between);
            AsNamed(AllDelivered(p, before + [first] + between + [second] + later), second)
            <==> && (|| first.notebook == "" || second.notebook == "" || first.notebook == second.notebook
                     || Known(p.notebooks, notebooks, first.notebook) || first.notebook !in NotebookGuids(later)
                     || (&& !Known(p.notebooks, notebooks, second.notebook)
                         && FirstBefore(later, first.notebook, second.notebook)))
                 && forall h :: h in first.tags && h != "" && h !in second.tags ==>
                      Known(p.tags, tags, h) || h !in TagGuids(later)
  {
    hide AllDelivered, NoteDelivered, WaitsForNotebook, WaitsForTag, NotebookGuids, TagGuids, NoteGuids, Ok, AsNamed,
      FirstBefore;
    TwoVersionsInTurn(p, before, first, between, second, later);
    WaitingAfterFirst(p, before, first, between);
    GuidsOfTwo(before + between, later);
    assert second in [second];
    var q := AllDelivered(NoteDelivered(AllDelivered(p, before), first), between);
    LastVersionStandsIff(q, second, later);
  }

  lemma TwoVersionsInTurn(
    p: Pull, before: seq<Item>, first: Item, between: seq<Item>, second: Item, later: seq<Item>)
    requires first.NoteItem? && second.NoteItem?
    ensures AllDelivered(p, before + [first] + between + [second] + later)
            == AllDelivered(
                 NoteDelivered(AllDelivered(NoteDelivered(AllDelivered(p, before), first), between), second), later)
  {
    hide AllDelivered, NoteDelivered;
    DeliveredInTurn(p, before + [first] + between + [second], later);
    DeliveredInTurn(p, before + [first] + between, [second]);
    DeliveredInTurn(p, before + [first], between);
    DeliveredInTurn(p, before, [first]);
    OneDelivered(AllDelivered(p, before), first);
    OneDelivered(AllDelivered(p, before + [first] + between), second);
  }

  lemma OneDelivered(p: Pull, item: Item)
    ensures AllDelivered(p, [item]) == Delivered(p, item)
  {
    assert [item][..0] == [];
    assert AllDelivered(p, []) == p;
  }

  /** Whatever the items name is known already or comes at some time. */
  predicate Complete(p: Pull, items: seq<Item>, come: seq<Item>) {
    forall item :: item in items && item.NoteItem? ==> Named(p, item, come)
  }

  /** It can happen: first for a notebook not known yet, then for another, which comes first. The note ends in that of
      the older version. */
  lemma SecondVersionMisplaced(p: Pull, guid: Guid, g1: Guid, g2: Guid, created: int, updated: int)
    requires Settled(p) && guid !in p.notes && g1 !in p.notebooks && g2 !in p.notebooks
    requires g1 != g2 && g1 != "" && g2 != ""
    ensures var first := NoteItem(guid, g1, [], true, created, updated);
            var second := NoteItem(guid, g2, [], true, created, updated);
            var q := AllDelivered(p, [] + [first] + [] + [second] + [NotebookItem(g2, false), NotebookItem(g1, false)]);
            && !AsNamed(q, second)
            && guid in q.notes && g1 in q.notebooks && GistOf(q.store, q.notes[guid]).notebookId == q.notebooks[g1]
  {
    hide AllDelivered, NoteDelivered, Ok, AsNamed, WaitsForNotebook, WaitsForTag, FirstBefore, GistOf,
      NotebookAsNamed, KnownIds;
    var first, second := NoteItem(guid, g1, [], true, created, updated), NoteItem(guid, g2, [], true, created, updated);
    var later := [NotebookItem(g2, false), NotebookItem(g1, false)];
    assert later[1] == NotebookItem(g1, false) && later[..1] == [NotebookItem(g2, false)];
    GuidsWithLast(later);
    GuidsWithLast([NotebookItem(g2, false)]);
    assert [NotebookItem(g2, false)][..0] == [] && [] + [] + later == later;
    ComesLastAt(later, g1, g2);
    SecondVersionStandsIff(p, [], first, [], second, later);
    TwoVersionsInTurn(p, [], first, [], second, later);
    WaitingAfterFirst(p, [], first, []);
    var q := AllDelivered(NoteDelivered(AllDelivered(p, []), first), []);
    VersionDelivered(q, second);
    NotebookAfter(NoteDelivered(q, second), guid, later);
  }

  // Soundness

  lemma {:induction false} NotesMovedSound(s: Store, ns: seq<Id>, nb: Id)
    requires Sound(s) && nb in s.notebookIds && nb != NO_ID && forall n :: n in ns ==> n in s.live && n != NO_ID
    ensures Sound(NotesMoved(s, ns, nb))
  {
    hide NotebookSet, Sound;
    if ns != [] {
      var front, n := ns[..|ns| - 1], ns[|ns| - 1];
      assert n in ns && forall x :: x in front ==> x in ns;
      NotesMovedSound(s, front, nb);
      NotesMovedGists(s, front, nb);
      StepSoundIff(NotesMoved(s, front, nb), SetNotebook(n, nb));
    }
  }

  lemma {:induction false} TagAddedToAllSound(s: Store, ns: seq<Id>, t: Id)
    requires Sound(s) && t in s.tagIds && t != NO_ID && forall n :: n in ns ==> n in s.live && n != NO_ID
    ensures Sound(TagAddedToAll(s, ns, t))
  {
    hide TagAdded, Sound;
    if ns != [] {
      var front, n := ns[..|ns| - 1], ns[|ns| - 1];
      assert n in ns && forall x :: x in front ==> x in ns;
      TagAddedToAllSound(s, front, t);
      TagAddedToAllGists(s, front, t);
      StepSoundIff(TagAddedToAll(s, front, t), AddTag(n, t));
    }
  }

  lemma NotebookDeliverySound(p: Pull, g: Guid, isDefault: bool)
    requires Sound(p.store) && Ok(p)
    ensures Sound(NotebookDelivered(p, g, isDefault).store)
  {
    hide Sound, NotesMoved, NotebookCreated, DefaultSet, ParkedAt;
    NotebookReadyIs(p, g, isDefault);
    ParkedAreLive(p);
    hide Ok;
    StepSoundIff(p.store, CreateNotebook(NO_ID, NO_ID));
    var s1 := if g in p.notebooks then p.store else NotebookCreated(p.store, NO_ID, NO_ID);
    StepSoundIff(s1, SetDefault(NotebookFor(p, g)));
    NotesMovedSound(NotebookReady(p, g, isDefault), ParkedAt(p.forNotebook, g), NotebookFor(p, g));
  }

  lemma ParkedAreLive(p: Pull)
    requires Ok(p)
    ensures forall g: Guid, n: Id {:trigger n in ParkedAt(p.forNotebook, g)} ::
              n in ParkedAt(p.forNotebook, g) ==> n in p.store.live && n != NO_ID
    ensures forall g: Guid, n: Id {:trigger n in ParkedAt(p.forTag, g)} ::
              n in ParkedAt(p.forTag, g) ==> n in p.store.live && n != NO_ID
    ensures forall g :: g in p.notebooks ==> p.notebooks[g] in p.store.notebookIds
    ensures forall g :: g in p.tags ==> p.tags[g] in p.store.tagIds
  {
    hide ParkedAt;
  }

  lemma TagDeliverySound(p: Pull, g: Guid)
    requires Sound(p.store) && Ok(p)
    ensures Sound(TagDelivered(p, g).store)
  {
    hide Sound, TagAddedToAll, TagCreated, ParkedAt;
    TagReadyIs(p, g);
    ParkedAreLive(p);
    hide Ok;
    StepSoundIff(p.store, CreateTag(NO_ID, NO_ID));
    TagAddedToAllSound(TagReady(p, g), ParkedAt(p.forTag, g), TagFor(p, g));
  }

  lemma {:induction false} KnownIdsDistinct(gs: seq<Guid>, known: map<Guid, Id>)
    requires forall i, j :: 0 <= i < j < |gs| ==> gs[i] != gs[j]
    requires forall g, h :: g in known && h in known && known[g] == known[h] ==> g == h
    ensures Distinct(KnownIds(gs, known))
  {
    if gs != [] {
      var init, g := gs[..|gs| - 1], gs[|gs| - 1];
      KnownIdsDistinct(init, known);
      KnownIdsAre(init, known);
      assert g !in init;
      if g in known {
        DistinctLast(KnownIds(init, known), known[g]);
      }
    }
  }

  lemma DistinctLast(list: seq<Id>, x: Id)
    requires Distinct(list) && x !in list
    ensures Distinct(list + [x])
  {
  }

  /** A note gets its links; one that comes out of the trash has to be in a notebook. */
  lemma LinksSetSound(s: Store, n: Id, nb: Id, tags: seq<Id>, active: bool)
    requires Sound(s) && n in s.live && n != NO_ID
    requires (active && GistOf(s, n).trashed ==> GistOf(s, n).notebookId != NO_ID)
    requires (nb == NO_ID || nb in s.notebookIds) && Distinct(tags) && forall t :: t in tags ==> t in s.tagIds
    ensures Sound(LinksSet(s, n, nb, tags, active))
  {
    hide Sound, NotebookSet, TagsSet, MovedToTrash, Restored, Distinct;
    NotebookSetGist(s, n, nb);
    StepSoundIff(s, SetNotebook(n, nb));
    var s1 := if nb == NO_ID then s else NotebookSet(s, n, nb);
    TagsSetGist(s1, n, tags);
    StepSoundIff(s1, SetTags(n, tags));
    var s2 := TagsSet(s1, n, tags);
    StepSoundIff(s2, Trash(n));
    StepSoundIff(s2, Restore(n));
  }

  /** No note has a tag twice. */
  predicate NoTagTwice(item: Item)
    requires item.NoteItem?
  {
    forall i, j :: 0 <= i < j < |item.tags| ==> item.tags[i] != item.tags[j]
  }

  lemma NoteDeliverySound(p: Pull, item: Item)
    requires Sound(p.store) && Ok(p) && item.NoteItem? && NoTagTwice(item)
    requires item.guid in p.notes ==>
               var g := GistOf(p.store, p.notes[item.guid]); item.active && g.trashed ==> g.notebookId != NO_ID
    ensures Sound(NoteDelivered(p, item).store)
  {
    hide Sound, NoteReceived, NoteRefreshed, LinksSet, KnownIds, Distinct, ParkedOk, NoteDelivered, Parked,
      ParkedUnderUnknown;
    var n, p1 := NoteFor(p, item.guid), Announced(p, item);
    Announcement(p, item);
    LiveNotes(p, item.guid);
    LiveNotes(p1, item.guid);
    StepSoundIff(p.store, ReceiveNote(item.created, item.updated, item.guid));
    if item.guid in p.notes {
      StepSoundIff(p.store, RefreshNote(n, item.created, item.updated, item.guid));
    }
    TagsAreDistinct(p);
    KnownIdsDistinct(item.tags, p.tags);
    KnownIdsExist(p1, item.tags);
    ParkedAreLive(p1);
    hide GuidsOk;
    LinksSetSound(p1.store, n, NotebookAsNamed(p1, item), KnownIds(item.tags, p1.tags), item.active);
  }

  /** No note comes twice, no note has a tag twice, and a note that comes out of the trash is in a notebook. */
  predicate OncePerNote(p: Pull, items: seq<Item>) {
    && (forall i, j :: 0 <= i < j < |items| && items[i].NoteItem? && items[j].NoteItem? ==>
        items[i].guid != items[j].guid)
    && (forall item :: item in items && item.NoteItem? ==> NoTagTwice(item) && ComesFromNotebook(p, item))
  }

  predicate ComesFromNotebook(p: Pull, item: Item)
    requires item.NoteItem?
  {
    item.active && item.guid in p.notes && GistOf(p.store, p.notes[item.guid]).trashed ==>
      GistOf(p.store, p.notes[item.guid]).notebookId != NO_ID
  }

  lemma OnceAt(p: Pull, items: seq<Item>, i: nat)
    requires OncePerNote(p, items) && i < |items| && items[i].NoteItem?
    ensures items[i].guid !in NoteGuids(items[..i]) && items[i].guid !in NoteGuids(items[i + 1..])
    ensures NoTagTwice(items[i]) && ComesFromNotebook(p, items[i])
  {
    assert items[i] in items;
    forall item | item in items[..i] && item.NoteItem? ensures item.guid != items[i].guid {
      var j :| 0 <= j < i && items[j] == item;
    }
    forall item | item in items[i + 1..] && item.NoteItem? ensures item.guid != items[i].guid {
      var j :| i < j < |items| && items[j] == item;
    }
  }

  lemma OnceInFront(p: Pull, items: seq<Item>)
    requires OncePerNote(p, items) && items != []
    ensures OncePerNote(p, items[..|items| - 1])
  {
    assert forall item :: item in items[..|items| - 1] ==> item in items;
  }

  /** Whatever comes, in whatever order, the index stays sound. */
  lemma {:induction false} DeliveriesSound(p: Pull, items: seq<Item>)
    requires Sound(p.store) && Settled(p) && OncePerNote(p, items)
    ensures Sound(AllDelivered(p, items).store)
  {
    hide Sound, Settled, OncePerNote, NotebookDelivered, TagDelivered, NoteDelivered, Ok, NoteGuids, NoTagTwice, GistOf;
    if items != [] {
      var front, item := items[..|items| - 1], items[|items| - 1];
      OnceInFront(p, items);
      DeliveriesSound(p, front);
      SettledOk(p);
      DeliveriesOk(p, front);
      var q := AllDelivered(p, front);
      match item {
        case NotebookItem(g, isDefault) => NotebookDeliverySound(q, g, isDefault);
        case TagItem(g) => TagDeliverySound(q, g);
        case NoteItem(_, _, _, _, _, _) =>
          OnceAt(p, items, |items| - 1);
          NotWaitingYet(p, front, item.guid);
          NoteDeliverySound(q, item);
      }
    }
  }

  lemma SettledOk(p: Pull)
    requires Settled(p)
    ensures Ok(p)
  {
  }

  /** The note is in the notebook named, or still in its own if none is, has the tags named and no others, and is
      trashed or not, as the item says; and the lists of notebooks, tags, notes and trash say so too. */
  ghost predicate AsSent(p: Pull, q: Pull, item: Item)
    requires item.NoteItem?
  {
    && AsNamed(q, item)
    && var n := q.notes[item.guid];
       var g := GistOf(q.store, n);
       && (item.notebook == "" ==> g.notebookId == GistBefore(p, item).notebookId)
       && (g.notebookId != NO_ID ==> forall k :: n in ListAt(q.store.notebookNotes, k) <==> k == g.notebookId)
       && (item.active ==> forall t :: n in ListAt(q.store.tagNotes, t) <==> t in g.tagIds)
       && (n in q.store.allNotes <==> item.active) && (n in q.store.trash <==> !item.active)
  }

  lemma ListsSayAsNamed(s: Store, n: Id)
    requires Inv(s) && n in s.live
    ensures var g := GistOf(s, n);
            && (g.notebookId != NO_ID ==> forall k :: n in ListAt(s.notebookNotes, k) <==> k == g.notebookId)
            && (!g.trashed ==> forall t :: n in ListAt(s.tagNotes, t) <==> t in g.tagIds)
            && (n in s.allNotes <==> !g.trashed) && (n in s.trash <==> g.trashed)
  {
    LiveFacts(s, n);
    hide Inv;
  }

  /** A note without a named notebook keeps its own. */
  lemma UnnamedNotebookStays(p: Pull, before: seq<Item>, item: Item, later: seq<Item>)
    requires Settled(p) && item.NoteItem? && item.notebook == ""
    requires item.guid !in NoteGuids(before) && item.guid !in NoteGuids(later) && ComesFromNotebook(p, item)
    requires item.guid in p.notes ==> p.notes[item.guid] !in p.unpushed
    requires Sound(AllDelivered(p, before).store)
    ensures var q := AllDelivered(NoteDelivered(AllDelivered(p, before), item), later);
            && item.guid in q.notes
            && GistOf(q.store, q.notes[item.guid]).notebookId == GistBefore(p, item).notebookId
  {
    hide AllDelivered, NoteDelivered, Ok, WaitsForNotebook, WaitsForTag, NoteGuids, GistOf, NotebookGuids, TagGuids,
      KnownIds, Inv;
    var q0 := AllDelivered(p, before);
    var q1 := NoteDelivered(q0, item);
    NotWaitingYet(p, before, item.guid);
    VersionDelivered(q0, item);
    NothingArrivesIff(q1, NoteFor(q0, item.guid), later);
    NotebookAfter(q1, item.guid, later);
    if item.guid in q0.notes {
      NoteIsLive(q0, item.guid);
    }
  }

  lemma NoteIsLive(p: Pull, g: Guid)
    requires Ok(p) && g in p.notes
    ensures p.notes[g] in p.store.live
  {
  }

  lemma OneIsAsSent(p: Pull, items: seq<Item>, i: nat)
    requires Sound(p.store) && Settled(p) && OncePerNote(p, items) && i < |items| && items[i].NoteItem?
    requires Named(p, items[i], items)
    requires items[i].guid in p.notes ==> p.notes[items[i].guid] !in p.unpushed
    ensures AsSent(p, AllDelivered(p, items), items[i])
  {
    hide Sound, Settled, OncePerNote, AllDelivered, NoteDelivered, Ok, NotebookGuids, TagGuids, NoteGuids,
        WaitsForNotebook,
      WaitsForTag, FirstBefore, GistOf, Named, InNotebook, HasTags, NoTagTwice, ComesFromNotebook;
    var before, item, later := items[..i], items[i], items[i + 1..];
    assert items == before + [item] + later && items[..i + 1] == before + [item];
    OnceAt(p, items, i);
    SettledOk(p);
    NotWaitingYet(p, before, item.guid);
    var q0 := AllDelivered(p, before);
    var q := AllDelivered(p, items);
    DeliveredInTurn(p, before + [item], later);
    DeliveredInTurn(p, before, [item]);
    OneDelivered(q0, item);
    NamedLater(p, before, item, later);
    LastVersionStandsIff(q0, item, later);
    OnceBefore(p, items, i);
    DeliveriesSound(p, before);
    DeliveriesSound(p, items);
    if item.notebook == "" {
      UnnamedNotebookStays(p, before, item, later);
    }
    DeliveriesOk(p, items);
    LiveOfSound(q, item.guid);
  }

  lemma LiveOfSound(q: Pull, g: Guid)
    requires Sound(q.store) && Ok(q) && g in q.notes
    ensures var n, s := q.notes[g], q.store;
            var gist := GistOf(s, n);
            && (gist.notebookId != NO_ID ==> forall k :: n in ListAt(s.notebookNotes, k) <==> k == gist.notebookId)
            && (!gist.trashed ==> forall t :: n in ListAt(s.tagNotes, t) <==> t in gist.tagIds)
            && (n in s.allNotes <==> !gist.trashed) && (n in s.trash <==> gist.trashed)
  {
    NoteIsLive(q, g);
    hide Ok, Inv, HomeInv;
    ListsSayAsNamed(q.store, q.notes[g]);
  }

  lemma OnceBefore(p: Pull, items: seq<Item>, i: nat)
    requires OncePerNote(p, items) && i <= |items|
    ensures OncePerNote(p, items[..i])
  {
    assert forall item :: item in items[..i] ==> item in items;
  }

  lemma NamedLater(p: Pull, before: seq<Item>, item: Item, later: seq<Item>)
    requires item.NoteItem? && Named(p, item, before + [item] + later)
    ensures Named(AllDelivered(p, before), item, later)
  {
    hide AllDelivered, NotebookGuids, TagGuids, NoteGuids;
    GuidsOfDeliveries(p, before);
    GuidsOfTwo(before + [item], later);
    GuidsOfTwo(before, [item]);
    NoteNamesNothing(item);
  }

  lemma NoteNamesNothing(item: Item)
    requires item.NoteItem?
    ensures NotebookGuids([item]) == {} && TagGuids([item]) == {}
  {
  }

  /** The note has no local changes that are not pushed yet. */
  predicate IsUnedited(p: Pull, item: Item)
    requires item.NoteItem?
  {
    item.guid in p.notes ==> p.notes[item.guid] !in p.unpushed
  }

  /** However the notebooks, tags and notes are ordered and split, each note without local changes ends as the server
      sent it, whether the device knew it before or not. */
  lemma ArrivalOrderDoesNotMatter(p: Pull, items: seq<Item>)
    requires Sound(p.store) && Settled(p) && OncePerNote(p, items) && Complete(p, items, items)
    ensures forall item :: item in items && item.NoteItem? && IsUnedited(p, item) ==>
              AsSent(p, AllDelivered(p, items), item)
  {
    hide Sound, Settled, OncePerNote, AllDelivered, AsSent, Named;
    forall item | item in items && item.NoteItem? && IsUnedited(p, item)
      ensures AsSent(p, AllDelivered(p, items), item)
    {
      var i :| 0 <= i < |items| && items[i] == item;
      OneIsAsSent(p, items, i);
    }
  }
}
