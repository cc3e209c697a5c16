/** The redundant links between notes, notebooks, tags, trash and favourites, and the operations that edit them. */
module StorageIndex {

  /** Ids are numbered from 1 as they are handed out; 0 is the empty id. */
  type Id = nat
  const NO_ID: Id := 0

  /** The fields of gist.ini that the index depends on. A note without a gist.ini reads as an empty one. */
  datatype Gist = Gist(notebookId: Id, tagIds: seq<Id>, trashed: bool, favourite: bool, createdTime: int,
      updatedTime: int, guid: string)

  const EMPTY_GIST := Gist(NO_ID, [], false, false, 0, 0, "")

  /** All id lists and gists. `live` is bookkeeping of the model: the notes created and not expunged. */
  datatype Store = Store(
    gists: map<Id, Gist>,
    allNotes: seq<Id>,
    trash: seq<Id>,
    favourites: seq<Id>,
    notebookIds: seq<Id>,
    notebookNotes: map<Id, seq<Id>>,
    defaultNotebookId: Id,
    tagIds: seq<Id>,
    tagNotes: map<Id, seq<Id>>,
    maxNote: nat,
    maxNotebook: nat,
    maxTag: nat,
    live: set<Id>)

  // Lists of ids

  function Added(list: seq<Id>, id: Id): seq<Id> {
    if id == NO_ID || id in list then list else [id] + list
  }

  /** Without the first occurrence of `id`. */
  function Removed(list: seq<Id>, id: Id): seq<Id> {
    if list == [] then [] else if list[0] == id then list[1..] else [list[0]] + Removed(list[1..], id)
  }

  predicate Distinct(list: seq<Id>) {
    forall i, j :: 0 <= i < j < |list| ==> list[i] != list[j]
  }

  lemma DistinctCons(x: Id, rest: seq<Id>)
    ensures Distinct([x] + rest) <==> x !in rest && Distinct(rest)
  {
    var list := [x] + rest;
    if Distinct(list) {
      forall i | 0 <= i < |rest| ensures rest[i] != x {
        assert list[0] != list[i + 1];
      }
      forall i, j | 0 <= i < j < |rest| ensures rest[i] != rest[j] {
        assert list[i + 1] != list[j + 1];
      }
    }
  }

  lemma {:induction false} RemovedFrom(list: seq<Id>, id: Id)
    requires Distinct(list)
    ensures Distinct(Removed(list, id))
    ensures forall x :: x in Removed(list, id) <==> x in list && x != id
  {
    if list != [] {
      var x, rest := list[0], list[1..];
      assert list == [x] + rest;
      DistinctCons(x, rest);
      hide Distinct;
      if x != id {
        RemovedFrom(rest, id);
        DistinctCons(x, Removed(rest, id));
      }
    }
  }

  lemma RemovedAbsent(list: seq<Id>, id: Id)
    requires id !in list
    ensures Removed(list, id) == list
  {
    if list != [] {
      RemovedAbsent(list[1..], id);
    }
  }

  function ListAt(m: map<Id, seq<Id>>, k: Id): seq<Id> {
    if k in m then m[k] else []
  }

  /** The lists with `id` added under each key of `ks`. */
  function AddedUnder(m: map<Id, seq<Id>>, ks: set<Id>, id: Id): map<Id, seq<Id>> {
    map k | k in m.Keys + ks :: if k in ks then Added(ListAt(m, k), id) else m[k]
  }

  /** The lists with `id` removed under each key of `ks`. */
  function RemovedUnder(m: map<Id, seq<Id>>, ks: set<Id>, id: Id): map<Id, seq<Id>> {
    map k | k in m.Keys :: if k in ks then Removed(m[k], id) else m[k]
  }

  function Elements(list: seq<Id>): set<Id> {
    set x | x in list
  }

  /** The ids among `list` that are the ids of existing objects. */
  function Existing(list: seq<Id>, ids: seq<Id>): (r: seq<Id>)
    ensures forall x :: x in r <==> x in list && x in ids
    ensures Distinct(list) ==> Distinct(r)
  {
    if list == [] then [] else
      var front := Existing(list[..|list| - 1], ids);
      assert forall x :: x in list <==> x in list[..|list| - 1] || x == list[|list| - 1];
      if list[|list| - 1] in ids then front + [list[|list| - 1]] else front
  }

  // Order of the list of all notes

  function GistOf(s: Store, n: Id): Gist {
    if n in s.gists then s.gists[n] else EMPTY_GIST
  }

  function Timestamp(g: Gist): int {
    if g.updatedTime == 0 then g.createdTime else g.updatedTime
  }

  function TimeOf(s: Store, n: Id): int {
    Timestamp(GistOf(s, n))
  }

  /** Before the first strictly older note. */
  function InsertionPosition(s: Store, n: Id, list: seq<Id>): (p: nat)
    ensures p <= |list|
  {
    if list == [] then 0 else if TimeOf(s, n) > TimeOf(s, list[0]) then 0 else 1 + InsertionPosition(s, n, list[1..])
  }

  function Inserted(s: Store, n: Id, list: seq<Id>): seq<Id> {
    var p := InsertionPosition(s, n, list);
    list[..p] + [n] + list[p..]
  }

  function Reordered(s: Store, n: Id): Store {
    if n == NO_ID || n !in s.allNotes then s
    else s.(allNotes := Inserted(s, n, Removed(s.allNotes, n)))
  }

  // Operations

  function WithGist(s: Store, n: Id, g: Gist): Store {
    s.(gists := s.gists[n := g])
  }

  function NotebookSet(s: Store, n: Id, nb: Id): Store {
    var current := GistOf(s, n).notebookId;
    if nb == NO_ID || n == NO_ID || current == nb then s else
      var s' := WithGist(s, n, GistOf(s, n).(notebookId := nb));
      s'.(notebookNotes := AddedUnder(RemovedUnder(s.notebookNotes, {current} - {NO_ID}, n), {nb}, n))
  }

  /** A note made on the device: it goes to the default notebook. */
  function NoteCreated(s: Store, now: int): Store {
    NotebookSet(NoteReceived(s, Gist(NO_ID, [], false, false, now, now, "")), s.maxNote + 1, s.defaultNotebookId)
  }

  /** A note first heard of from the server. */
  function NoteReceived(s: Store, g: Gist): Store {
    var n := s.maxNote + 1;
    WithGist(s, n, g).(maxNote := n, allNotes := [n] + s.allNotes, live := s.live + {n})
  }

  /** The server's times and guid for a note that is known already. */
  function NoteRefreshed(s: Store, n: Id, created: int, updated: int, guid: string): Store {
    var s' := WithGist(s, n, GistOf(s, n).(createdTime := created, updatedTime := updated, guid := guid));
    if GistOf(s, n).updatedTime != updated then Reordered(s', n) else s'
  }

  function DefaultSet(s: Store, nb: Id): Store {
    if nb in s.notebookIds then s.(defaultNotebookId := nb) else s
  }

  /** The notebook, new or existing, with the note in its list. */
  function NotebookListed(s: Store, existing: Id, firstNote: Id): Store {
    var nb := s.maxNotebook + 1;
    if existing == NO_ID then
      s.(maxNotebook := nb, notebookIds := [nb] + s.notebookIds,
         notebookNotes := s.notebookNotes[nb := if firstNote == NO_ID then [] else [firstNote]])
    else if firstNote != NO_ID then s.(notebookNotes := AddedUnder(s.notebookNotes, {existing}, firstNote))
    else s
  }

  /** `existing` is the notebook that already has the name, if there is one. */
  function NotebookCreated(s: Store, existing: Id, firstNote: Id): Store {
    var nb := if existing == NO_ID then s.maxNotebook + 1 else existing;
    var s1 := NotebookListed(s, existing, firstNote);
    var current := GistOf(s, firstNote).notebookId;
    var s2 := if firstNote == NO_ID then s1 else
                WithGist(s1, firstNote, GistOf(s, firstNote).(notebookId := nb))
                .(notebookNotes := RemovedUnder(s1.notebookNotes, {current} - {NO_ID}, firstNote));
    if nb == 1 then DefaultSet(s2, nb) else s2
  }

  /** `existing` is the tag that already has the name, if there is one. */
  function TagCreated(s: Store, existing: Id, firstNote: Id): Store {
    var t := if existing == NO_ID then s.maxTag + 1 else existing;
    var s1 := if existing == NO_ID then
                s.(maxTag := t, tagIds := [t] + s.tagIds,
                   tagNotes := s.tagNotes[t := if firstNote == NO_ID then [] else [firstNote]])
              else if firstNote != NO_ID then s.(tagNotes := AddedUnder(s.tagNotes, {t}, firstNote))
              else s;
    if firstNote == NO_ID then s1
    else WithGist(s1, firstNote, GistOf(s, firstNote).(tagIds := Added(GistOf(s, firstNote).tagIds, t)))
  }

  /** The tags of `tags` that the loop puts the note under: those it does not have yet, and those given twice. */
  function NewlyTagged(tags: seq<Id>, current: set<Id>): set<Id> {
    if tags == [] then {}
    else NewlyTagged(tags[1..], current - {tags[0]}) + (if tags[0] in current || tags[0] == NO_ID then {}
        else {tags[0]})
  }

  function TagsSet(s: Store, n: Id, tags: seq<Id>): Store {
    if n == NO_ID then s else
      var current := Elements(GistOf(s, n).tagIds);
      var s' := WithGist(s, n, GistOf(s, n).(tagIds := tags));
      if Elements(tags) == current then s'
      else s'.(tagNotes := RemovedUnder(AddedUnder(s.tagNotes, NewlyTagged(tags, current), n),
          current - Elements(tags) - {NO_ID}, n))
  }

  function TagAdded(s: Store, n: Id, t: Id): Store {
    var g := GistOf(s, n);
    if n == NO_ID || t == NO_ID || t in g.tagIds then s
    else WithGist(s, n, g.(tagIds := g.tagIds + [t])).(tagNotes := AddedUnder(s.tagNotes, {t}, n))
  }

  function FavouriteSet(s: Store, n: Id, favourite: bool): Store {
    if n == NO_ID || GistOf(s, n).favourite == favourite then s
    else WithGist(s, n, GistOf(s, n).(favourite := favourite))
         .(favourites := if favourite then Added(s.favourites, n) else Removed(s.favourites, n))
  }

  /** The flag is set first, so the note stays in the list of its notebook. */
  function MovedToTrash(s: Store, n: Id): Store {
    var g := GistOf(s, n);
    if n == NO_ID || g.trashed then s
    else WithGist(s, n, g.(trashed := true))
         .(tagNotes := RemovedUnder(s.tagNotes, Elements(g.tagIds) - {NO_ID}, n),
           allNotes := Removed(s.allNotes, n), favourites := Removed(s.favourites, n), trash := Added(s.trash, n))
  }

  /** The tags that are gone are dropped; a notebook that is gone is replaced in the gist only. */
  function Restored(s: Store, n: Id): Store {
    var g := GistOf(s, n);
    if n == NO_ID || !g.trashed then s else
      var nb := if g.notebookId in s.notebookIds then g.notebookId else s.defaultNotebookId;
      var tags := Existing(g.tagIds, s.tagIds);
      var s1 := WithGist(s, n, g.(trashed := false, notebookId := nb, tagIds := tags))
                .(tagNotes := AddedUnder(s.tagNotes, Elements(tags), n), allNotes := Added(s.allNotes, n));
      Reordered(s1, n).(favourites := if g.favourite then Added(s.favourites, n)
          else s.favourites, trash := Removed(s.trash, n))
  }

  function NoteExpunged(s: Store, n: Id): Store {
    var g := GistOf(s, n);
    if n == NO_ID then s else
      s.(gists := s.gists - {n}, live := s.live - {n},
         notebookNotes := if g.notebookId in s.notebookIds && !g.trashed
             then RemovedUnder(s.notebookNotes, {g.notebookId}, n) else s.notebookNotes,
         tagNotes := RemovedUnder(s.tagNotes, Elements(g.tagIds) - {NO_ID}, n),
         allNotes := Removed(s.allNotes, n), favourites := Removed(s.favourites, n), trash := Removed(s.trash, n))
  }

  /** Only for notes the server does not have. */
  function NoteExpungedFromTrash(s: Store, n: Id): Store {
    if n == NO_ID || GistOf(s, n).guid != "" || n !in s.trash then s
    else s.(gists := s.gists - {n}, live := s.live - {n}, trash := Removed(s.trash, n))
  }

  function NotesMoved(s: Store, ns: seq<Id>, nb: Id): Store {
    if ns == [] then s else NotebookSet(NotesMoved(s, ns[..|ns| - 1], nb), ns[|ns| - 1], nb)
  }

  /** The ids whose notebook changes when those of `ns` are moved in turn, and for which that is announced. */
  function MovedIds(s: Store, ns: seq<Id>, nb: Id): seq<Id> {
    if ns == [] then []
    else
      var front, n := ns[..|ns| - 1], ns[|ns| - 1];
      var moves := nb != NO_ID && n != NO_ID && GistOf(NotesMoved(s, front, nb), n).notebookId != nb;
      if moves then MovedIds(s, front, nb) + [n] else MovedIds(s, front, nb)
  }

  /** The default notebook is not expunged while there is another notebook. */
  predicate KeepsNotebook(s: Store, nb: Id) {
    || nb == NO_ID
    || (nb == s.defaultNotebookId && (s.notebookIds == [] || exists k :: k in s.notebookIds && k != nb && k != NO_ID))
  }

  function ExpungeTarget(s: Store, nb: Id): Id {
    if nb == s.defaultNotebookId then NO_ID else s.defaultNotebookId
  }

  function NotebookExpunged(s: Store, nb: Id): Store {
    if KeepsNotebook(s, nb) then s
    else
      var s' := NotesMoved(s, ListAt(s.notebookNotes, nb), ExpungeTarget(s, nb));
      s'.(notebookIds := Removed(s'.notebookIds, nb), notebookNotes := s'.notebookNotes - {nb})
  }

  function MovedByExpunge(s: Store, nb: Id): seq<Id> {
    if KeepsNotebook(s, nb) then [] else MovedIds(s, ListAt(s.notebookNotes, nb), ExpungeTarget(s, nb))
  }

  function TagDropped(s: Store, ns: seq<Id>, t: Id): Store {
    if ns == [] then s else
      var s' := TagDropped(s, ns[..|ns| - 1], t);
      var n := ns[|ns| - 1];
      if t in GistOf(s', n).tagIds then WithGist(s', n, GistOf(s', n).(tagIds := Removed(GistOf(s', n).tagIds, t)))
          else s'
  }

  function TagExpunged(s: Store, t: Id): Store {
    if t == NO_ID then s else
      var s' := TagDropped(s, ListAt(s.tagNotes, t), t);
      s'.(tagIds := Removed(s'.tagIds, t), tagNotes := s'.tagNotes - {t})
  }

  /** A save, a fetch or a push writes the time of the note; only a save that changed the note reorders the list. */
  function NoteEdited(s: Store, n: Id, now: int, changed: bool): Store {
    if n == NO_ID then s else
      var s' := WithGist(s, n, GistOf(s, n).(updatedTime := now));
      if changed then Reordered(s', n) else s'
  }

  // Invariants

  predicate IsNoteId(s: Store, n: Id) {
    0 < n <= s.maxNote
  }

  /** The lists have no duplicates, and hold and are filed under ids that have been handed out. */
  ghost predicate ListsOk(m: map<Id, seq<Id>>, maxKey: nat, maxId: nat) {
    && (forall k :: Distinct(ListAt(m, k)))
    && (forall k: Id, n: Id {:trigger n in ListAt(m, k)} :: n in ListAt(m, k) ==> 0 < k <= maxKey && 0 < n <= maxId)
  }

  ghost predicate IdsOk(list: seq<Id>, maxId: nat) {
    Distinct(list) && forall x :: x in list ==> 0 < x <= maxId
  }

  /** The note is in the list of the notebook named in its gist, even while it is trashed, and in no other. */
  ghost predicate NotebookOk(s: Store, n: Id) {
    var nb := GistOf(s, n).notebookId;
    && nb <= s.maxNotebook
    && (nb != NO_ID ==> n in ListAt(s.notebookNotes, nb))
    && forall k :: n in ListAt(s.notebookNotes, k) ==> k == nb
  }

  ghost predicate NotebookInv(s: Store) {
    && ListsOk(s.notebookNotes, s.maxNotebook, s.maxNote)
    && IdsOk(s.notebookIds, s.maxNotebook) && s.defaultNotebookId <= s.maxNotebook
    && forall n :: n in s.live ==> NotebookOk(s, n)
  }

  /** The note is listed only under tags of its own that exist; unless it is trashed, all its tags exist and list it. */
  ghost predicate TagsOk(s: Store, n: Id) {
    var g := GistOf(s, n);
    && IdsOk(g.tagIds, s.maxTag)
    && (forall t :: n in ListAt(s.tagNotes, t) ==> t in g.tagIds && t in s.tagIds)
    && (!g.trashed ==> forall t :: t in g.tagIds ==> t in s.tagIds && n in ListAt(s.tagNotes, t))
  }

  ghost predicate TagInv(s: Store) {
    && ListsOk(s.tagNotes, s.maxTag, s.maxNote)
    && IdsOk(s.tagIds, s.maxTag)
    && forall n :: n in s.live ==> TagsOk(s, n)
  }

  /** The note is in exactly one of the lists of all notes and of trashed notes; unless it is trashed, it is among the
      favourites iff it is one. */
  ghost predicate ListedOk(s: Store, n: Id) {
    var g := GistOf(s, n);
    && (n in s.allNotes <==> !g.trashed)
    && (n in s.trash <==> g.trashed)
    && (n in s.favourites ==> g.favourite)
    && (!g.trashed && g.favourite ==> n in s.favourites)
  }

  ghost predicate ListInv(s: Store) {
    && IdsOk(s.allNotes, s.maxNote) && IdsOk(s.trash, s.maxNote) && IdsOk(s.favourites, s.maxNote)
    && (forall n :: n in s.allNotes || n in s.trash ==> n in s.live)
    && (forall n :: n in s.live ==> IsNoteId(s, n) && ListedOk(s, n))
  }

  ghost predicate Inv(s: Store) {
    NotebookInv(s) && TagInv(s) && ListInv(s)
  }
}
