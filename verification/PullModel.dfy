/** What the synchronizer does with the notebooks, tags and notes it is sent, in whatever order they come. */
module PullModel {
  import opened StorageIndex

  type Guid = string

  datatype Item =
    | NotebookItem(guid: Guid, isDefault: bool)
    | TagItem(guid: Guid)
    | NoteItem(guid: Guid, notebook: Guid, tags: seq<Guid>, active: bool, created: int, updated: int)

  /** The index with its guid maps, the notes parked under notebooks and tags not heard of yet, and the notes with local
      changes that are not pushed yet. */
  datatype Pull = Pull(
    store: Store,
    notebooks: map<Guid, Id>,
    tags: map<Guid, Id>,
    notes: map<Guid, Id>,
    forNotebook: map<Guid, seq<Id>>,
    forTag: map<Guid, seq<Id>>,
    unpushed: set<Id>)

  function ParkedAt(m: map<Guid, seq<Id>>, g: Guid): seq<Id> {
    if g in m then m[g] else []
  }

  function Parked(m: map<Guid, seq<Id>>, g: Guid, n: Id): map<Guid, seq<Id>> {
    if n in ParkedAt(m, g) then m else m[g := ParkedAt(m, g) + [n]]
  }

  function ParkedUnderUnknown(m: map<Guid, seq<Id>>, gs: seq<Guid>, known: map<Guid, Id>, n: Id): map<Guid, seq<Id>> {
    if gs == [] then m
    else
      var g, m' := gs[|gs| - 1], ParkedUnderUnknown(m, gs[..|gs| - 1], known, n);
      if g == "" || g in known then m' else Parked(m', g, n)
  }

  function KnownIds(gs: seq<Guid>, known: map<Guid, Id>): seq<Id> {
    if gs == [] then []
    else
      var g, front := gs[|gs| - 1], KnownIds(gs[..|gs| - 1], known);
      if g == "" || g !in known then front else front + [known[g]]
  }

  function TagAddedToAll(s: Store, ns: seq<Id>, t: Id): Store {
    if ns == [] then s else TagAdded(TagAddedToAll(s, ns[..|ns| - 1], t), ns[|ns| - 1], t)
  }

  /** The id of a notebook; its name is new on the device when its guid is. */
  function NotebookFor(p: Pull, g: Guid): Id {
    if g in p.notebooks then p.notebooks[g] else p.store.maxNotebook + 1
  }

  function NotebookReady(p: Pull, g: Guid, isDefault: bool): Store {
    var s := if g in p.notebooks then p.store else NotebookCreated(p.store, NO_ID, NO_ID);
    if isDefault then DefaultSet(s, NotebookFor(p, g)) else s
  }

  function NotebookDelivered(p: Pull, g: Guid, isDefault: bool): Pull {
    var nb := NotebookFor(p, g);
    p.(store := NotesMoved(NotebookReady(p, g, isDefault), ParkedAt(p.forNotebook, g), nb),
       notebooks := p.notebooks[g := nb], forNotebook := p.forNotebook - {g})
  }

  /** The id of a tag; its name is new on the device when its guid is. */
  function TagFor(p: Pull, g: Guid): Id {
    if g in p.tags then p.tags[g] else p.store.maxTag + 1
  }

  function TagReady(p: Pull, g: Guid): Store {
    if g in p.tags then p.store else TagCreated(p.store, NO_ID, NO_ID)
  }

  function TagDelivered(p: Pull, g: Guid): Pull {
    var t := TagFor(p, g);
    p.(store := TagAddedToAll(TagReady(p, g), ParkedAt(p.forTag, g), t), tags := p.tags[g := t],
        forTag := p.forTag - {g})
  }

  function NotebookAsNamed(p: Pull, item: Item): Id
    requires item.NoteItem?
  {
    if item.notebook != "" && item.notebook in p.notebooks then p.notebooks[item.notebook] else NO_ID
  }

  /** The notebook, the tags and the trashedness of a note, as the server has them. */
  function LinksSet(s: Store, n: Id, nb: Id, tags: seq<Id>, active: bool): Store {
    var s' := TagsSet(if nb == NO_ID then s else NotebookSet(s, n, nb), n, tags);
    if active then Restored(s', n) else MovedToTrash(s', n)
  }

  function LinksStored(p: Pull, n: Id, item: Item): Pull
    requires item.NoteItem?
  {
    p.(store := LinksSet(p.store, n, NotebookAsNamed(p, item), KnownIds(item.tags, p.tags), item.active),
       forNotebook := if item.notebook == "" || item.notebook in p.notebooks then p.forNotebook
           else Parked(p.forNotebook, item.notebook, n),
       forTag := ParkedUnderUnknown(p.forTag, item.tags, p.tags, n))
  }

  function NoteDelivered(p: Pull, item: Item): Pull
    requires item.NoteItem?
  {
    var known := item.guid in p.notes;
    var n := if known then p.notes[item.guid] else p.store.maxNote + 1;
    var s1 := if known then NoteRefreshed(p.store, n, item.created, item.updated, item.guid)
              else NoteReceived(p.store, Gist(NO_ID, [], false, false, item.created, item.updated, item.guid));
    var p1 := p.(store := s1, notes := p.notes[item.guid := n]);
    if n in p.unpushed then p1 else LinksStored(p1, n, item)
  }

  function Delivered(p: Pull, item: Item): Pull {
    match item
    case NotebookItem(g, isDefault) => NotebookDelivered(p, g, isDefault)
    case TagItem(g) => TagDelivered(p, g)
    case NoteItem(_, _, _, _, _, _) => NoteDelivered(p, item)
  }

  function AllDelivered(p: Pull, items: seq<Item>): Pull {
    if items == [] then p else Delivered(AllDelivered(p, items[..|items| - 1]), items[|items| - 1])
  }

  lemma {:induction false} DeliveredInTurn(p: Pull, a: seq<Item>, b: seq<Item>)
    ensures AllDelivered(p, a + b) == AllDelivered(AllDelivered(p, a), b)
  {
    hide Delivered;
    if b == [] {
      assert a + b == a;
    } else {
      assert (a + b)[..|a + b| - 1] == a + b[..|b| - 1];
      DeliveredInTurn(p, a, b[..|b| - 1]);
    }
  }

  // The guids that come

  function NotebookGuids(items: seq<Item>): set<Guid> {
    set item | item in items && item.NotebookItem? :: item.guid
  }

  function TagGuids(items: seq<Item>): set<Guid> {
    set item | item in items && item.TagItem? :: item.guid
  }

  function NoteGuids(items: seq<Item>): set<Guid> {
    set item | item in items && item.NoteItem? :: item.guid
  }

  lemma GuidsOfDelivery(p: Pull, item: Item)
    ensures var p' := Delivered(p, item);
            && (forall g :: g in p'.notebooks <==> g in p.notebooks || g in NotebookGuids([item]))
            && (forall g :: g in p'.tags <==> g in p.tags || g in TagGuids([item]))
            && (forall g :: g in p'.notes <==> g in p.notes || g in NoteGuids([item]))
  {
    hide NotebookReady, TagReady, NotesMoved, TagAddedToAll, LinksSet, KnownIds, Parked, ParkedUnderUnknown,
        NoteRefreshed,
      NoteReceived;
    assert item in [item];
  }

  lemma GuidsOfTwo(a: seq<Item>, b: seq<Item>)
    ensures forall g :: g in NotebookGuids(a + b) <==> g in NotebookGuids(a) || g in NotebookGuids(b)
    ensures forall g :: g in TagGuids(a + b) <==> g in TagGuids(a) || g in TagGuids(b)
    ensures forall g :: g in NoteGuids(a + b) <==> g in NoteGuids(a) || g in NoteGuids(b)
  {
    assert forall item :: item in a + b <==> item in a || item in b;
  }

  /** The guids known after a pull are those known before and those that came. */
  lemma {:induction false} GuidsOfDeliveries(p: Pull, items: seq<Item>)
    ensures var q := AllDelivered(p, items);
            && (forall g :: g in q.notebooks <==> g in p.notebooks || g in NotebookGuids(items))
            && (forall g :: g in q.tags <==> g in p.tags || g in TagGuids(items))
            && (forall g :: g in q.notes <==> g in p.notes || g in NoteGuids(items))
  {
    hide Delivered, NotebookGuids, TagGuids, NoteGuids;
    if items == [] {
      NoGuids();
    } else {
      var front, item := items[..|items| - 1], items[|items| - 1];
      assert items == front + [item];
      GuidsOfDeliveries(p, front);
      GuidsOfDelivery(AllDelivered(p, front), item);
      GuidsOfTwo(front, [item]);
    }
  }

  lemma NoGuids()
    ensures NotebookGuids([]) == {} && TagGuids([]) == {} && NoteGuids([]) == {}
  {
  }
}
