/** What the operations of the index keep, and exactly when they keep it. */
module StorageInvariants {
  import opened StorageIndex

  // Lists

  lemma IdsAdded(list: seq<Id>, id: Id, maxId: nat)
    requires IdsOk(list, maxId) && id <= maxId
    ensures IdsOk(Added(list, id), maxId)
    ensures forall x :: x in Added(list, id) <==> x in list || (x == id && id != NO_ID)
  {
    if id != NO_ID && id !in list {
      DistinctCons(id, list);
      assert forall x :: x in [id] + list <==> x == id || x in list;
    }
  }

  lemma IdsRemoved(list: seq<Id>, id: Id, maxId: nat)
    requires IdsOk(list, maxId)
    ensures IdsOk(Removed(list, id), maxId)
    ensures forall x :: x in Removed(list, id) <==> x in list && x != id
  {
    RemovedFrom(list, id);
  }

  lemma ListsAdded(m: map<Id, seq<Id>>, ks: set<Id>, id: Id, maxKey: nat, maxId: nat)
    requires ListsOk(m, maxKey, maxId) && id <= maxId && forall k :: k in ks ==> 0 < k <= maxKey
    ensures ListsOk(AddedUnder(m, ks, id), maxKey, maxId)
    ensures forall k: Id, x: Id {:trigger x in ListAt(AddedUnder(m, ks, id), k)} ::
              x in ListAt(AddedUnder(m, ks, id), k) <==> x in ListAt(m, k) || (k in ks && x == id && id != NO_ID)
  {
    forall k: Id
      ensures Distinct(ListAt(AddedUnder(m, ks, id), k))
      ensures forall x ::
                x in ListAt(AddedUnder(m, ks, id), k) <==> x in ListAt(m, k) || (k in ks && x == id && id != NO_ID)
    {
      assert Distinct(ListAt(m, k));
      IdsAdded(ListAt(m, k), id, maxId);
    }
  }

  lemma ListsRemoved(m: map<Id, seq<Id>>, ks: set<Id>, id: Id, maxKey: nat, maxId: nat)
    requires ListsOk(m, maxKey, maxId)
    ensures ListsOk(RemovedUnder(m, ks, id), maxKey, maxId)
    ensures forall k: Id, x: Id {:trigger x in ListAt(RemovedUnder(m, ks, id), k)} ::
              x in ListAt(RemovedUnder(m, ks, id), k) <==> x in ListAt(m, k) && !(k in ks && x == id)
  {
    forall k: Id
      ensures Distinct(ListAt(RemovedUnder(m, ks, id), k))
      ensures forall x :: x in ListAt(RemovedUnder(m, ks, id), k) <==> x in ListAt(m, k) && !(k in ks && x == id)
    {
      assert Distinct(ListAt(m, k));
      RemovedFrom(ListAt(m, k), id);
    }
  }

  lemma InsertedAt(s: Store, n: Id, list: seq<Id>)
    requires Distinct(list) && n !in list
    ensures Distinct(Inserted(s, n, list))
    ensures forall x :: x in Inserted(s, n, list) <==> x in list || x == n
  {
    var p := InsertionPosition(s, n, list);
    var r := Inserted(s, n, list);
    assert forall x :: x in list <==> x in list[..p] || x in list[p..];
    forall i, j | 0 <= i < j < |r| ensures r[i] != r[j] {
      assert r[i] == if i < p then list[i] else if i == p then n else list[i - 1];
      assert r[j] == if j < p then list[j] else if j == p then n else list[j - 1];
    }
  }

  /** Reordering changes nothing but the order. */
  lemma ReorderedKeeps(s: Store, n: Id, maxId: nat)
    requires IdsOk(s.allNotes, maxId)
    ensures Reordered(s, n) == s.(allNotes := Reordered(s, n).allNotes)
    ensures IdsOk(Reordered(s, n).allNotes, maxId) && forall x :: x in Reordered(s, n).allNotes <==> x in s.allNotes
  {
    RemovedFrom(s.allNotes, n);
    if n != NO_ID && n in s.allNotes {
      InsertedAt(s, n, Removed(s.allNotes, n));
    }
  }

  // What each part of the invariant depends on

  ghost predicate SameNotebooks(s: Store, s': Store) {
    && s'.notebookNotes == s.notebookNotes && s'.notebookIds == s.notebookIds
        && s'.defaultNotebookId == s.defaultNotebookId
    && s'.maxNotebook == s.maxNotebook && s'.maxNote >= s.maxNote
    && forall n :: n in s'.live ==> n in s.live && GistOf(s', n).notebookId == GistOf(s, n).notebookId
  }

  lemma NotebookFrame(s: Store, s': Store)
    requires NotebookInv(s) && SameNotebooks(s, s')
    ensures NotebookInv(s')
  {
    hide Distinct;
    forall n | n in s'.live ensures NotebookOk(s', n) {
      assert NotebookOk(s, n);
    }
  }

  ghost predicate SameTags(s: Store, s': Store) {
    && s'.tagNotes == s.tagNotes && s'.tagIds == s.tagIds && s'.maxTag == s.maxTag && s'.maxNote >= s.maxNote
    && forall n :: n in s'.live ==>
         n in s.live && GistOf(s', n).tagIds == GistOf(s, n).tagIds && GistOf(s', n).trashed == GistOf(s, n).trashed
  }

  lemma TagFrame(s: Store, s': Store)
    requires TagInv(s) && SameTags(s, s')
    ensures TagInv(s')
  {
    hide Distinct;
    forall n | n in s'.live ensures TagsOk(s', n) {
      assert TagsOk(s, n);
    }
  }

  /** Only note `n` and its membership in the lists of tags change. */
  ghost predicate OnlyTagsOf(n: Id, s: Store, s': Store) {
    && ListsOk(s'.tagNotes, s'.maxTag, s'.maxNote)
    && s'.tagIds == s.tagIds && s'.maxTag == s.maxTag && s'.maxNote == s.maxNote && s'.live <= s.live
    && (forall k: Id, x: Id {:trigger x in ListAt(s'.tagNotes, k)} :: x != n ==>
        (x in ListAt(s'.tagNotes, k) <==> x in ListAt(s.tagNotes, k)))
    && (forall x :: x in s'.live && x != n ==>
        GistOf(s', x).tagIds == GistOf(s, x).tagIds && GistOf(s', x).trashed == GistOf(s, x).trashed)
  }

  lemma TagUpdate(n: Id, s: Store, s': Store)
    requires TagInv(s) && OnlyTagsOf(n, s, s') && (n in s'.live ==> TagsOk(s', n))
    ensures TagInv(s')
  {
    hide IdsOk, ListsOk;
    forall x | x in s'.live ensures TagsOk(s', x) {
      if x != n {
        assert TagsOk(s, x);
      }
    }
  }

  ghost predicate SameLists(s: Store, s': Store) {
    && s'.allNotes == s.allNotes && s'.trash == s.trash && s'.favourites == s.favourites && s'.live == s.live
        && s'.maxNote == s.maxNote
    && forall n :: n in s'.live ==>
         GistOf(s', n).trashed == GistOf(s, n).trashed && GistOf(s', n).favourite == GistOf(s, n).favourite
  }

  lemma ListFrame(s: Store, s': Store)
    requires ListInv(s) && SameLists(s, s')
    ensures ListInv(s')
  {
    hide Distinct;
    forall n | n in s'.live ensures IsNoteId(s', n) && ListedOk(s', n) {
      assert ListedOk(s, n);
    }
  }

  lemma LiveFacts(s: Store, n: Id)
    requires Inv(s) && n in s.live
    ensures IsNoteId(s, n) && NotebookOk(s, n) && TagsOk(s, n) && ListedOk(s, n)
  {
  }

  ghost predicate IsNoteOrNone(s: Store, n: Id) {
    n == NO_ID || IsNoteId(s, n)
  }

  // Notes and notebooks

  lemma NotebookSetNotebooks(s: Store, n: Id, nb: Id)
    requires NotebookInv(s) && IsNoteOrNone(s, n) && nb <= s.maxNotebook
    ensures NotebookInv(NotebookSet(s, n, nb))
  {
    hide Distinct, AddedUnder, RemovedUnder, ListsOk, IdsOk;
    var s' := NotebookSet(s, n, nb);
    var current := GistOf(s, n).notebookId;
    var without := RemovedUnder(s.notebookNotes, {current} - {NO_ID}, n);
    ListsRemoved(s.notebookNotes, {current} - {NO_ID}, n, s.maxNotebook, s.maxNote);
    if nb != NO_ID && n != NO_ID && current != nb {
      ListsAdded(without, {nb}, n, s.maxNotebook, s.maxNote);
      forall x | x in s'.live ensures NotebookOk(s', x) {
        assert NotebookOk(s, x);
      }
    }
  }

  lemma NotebookSetKeeps(s: Store, n: Id, nb: Id)
    requires Inv(s) && IsNoteOrNone(s, n) && nb <= s.maxNotebook
    ensures Inv(NotebookSet(s, n, nb))
    ensures NotebookSet(s, n, nb).live == s.live && NotebookSet(s, n, nb).maxNote == s.maxNote
    ensures NotebookSet(s, n, nb).maxNotebook == s.maxNotebook
  {
    hide AddedUnder, RemovedUnder, NotebookInv, TagInv, ListInv;
    NotebookSetNotebooks(s, n, nb);
    TagFrame(s, NotebookSet(s, n, nb));
    ListFrame(s, NotebookSet(s, n, nb));
  }

  lemma NoteReceivedKeeps(s: Store, g: Gist)
    requires Inv(s) && g.notebookId == NO_ID && g.tagIds == [] && !g.trashed && !g.favourite
    ensures Inv(NoteReceived(s, g))
  {
    var s', n := NoteReceived(s, g), s.maxNote + 1;
    DistinctCons(n, s.allNotes);
    assert Distinct([]);
    hide Distinct;
    forall x | x in s'.live ensures NotebookOk(s', x) && TagsOk(s', x) && ListedOk(s', x) {
      if x != n {
        assert NotebookOk(s, x) && TagsOk(s, x) && ListedOk(s, x);
      }
    }
  }

  lemma NoteCreatedKeeps(s: Store, now: int)
    requires Inv(s)
    ensures Inv(NoteCreated(s, now))
  {
    var g := Gist(NO_ID, [], false, false, now, now, "");
    var r := NoteReceived(s, g);
    assert IsNoteId(r, s.maxNote + 1) && s.defaultNotebookId <= r.maxNotebook;
    NoteReceivedKeeps(s, g);
    hide Inv, NotebookSet, NoteReceived;
    NotebookSetKeeps(r, s.maxNote + 1, s.defaultNotebookId);
  }

  /** An empty notebook under the next id. */
  function NotebookIntroduced(s: Store): Store {
    var nb := s.maxNotebook + 1;
    s.(maxNotebook := nb, notebookIds := [nb] + s.notebookIds, notebookNotes := s.notebookNotes[nb := []])
  }

  lemma NewList(m: map<Id, seq<Id>>, k: Id, maxKey: nat, maxId: nat)
    requires ListsOk(m, maxKey, maxId) && k > maxKey
    ensures ListsOk(m[k := []], k, maxId)
    ensures forall j: Id, n: Id {:trigger n in ListAt(m[k := []], j)} ::
              n in ListAt(m[k := []], j) <==> n in ListAt(m, j)
  {
    var m' := m[k := []];
    forall j: Id ensures Distinct(ListAt(m', j)) {
      assert Distinct(ListAt(m, j));
    }
    forall j: Id, n: Id ensures n in ListAt(m', j) <==> n in ListAt(m, j) {
      assert n in ListAt(m, j) ==> j <= maxKey;
    }
  }

  lemma NotebookIntroducedKeeps(s: Store)
    requires Inv(s)
    ensures Inv(NotebookIntroduced(s))
  {
    var s', nb := NotebookIntroduced(s), s.maxNotebook + 1;
    DistinctCons(nb, s.notebookIds);
    NewList(s.notebookNotes, nb, s.maxNotebook, s.maxNote);
    hide Distinct, ListsOk;
    TagFrame(s, s');
    ListFrame(s, s');
    var m' := s.notebookNotes[nb := []];
    assert s'.notebookNotes == m';
    forall x | x in s'.live ensures NotebookOk(s', x) {
      assert NotebookOk(s, x);
    }
  }

  function FirstNotebookIsDefault(s: Store, nb: Id): Store {
    if nb == 1 then DefaultSet(s, nb) else s
  }

  lemma MoveCommutes(m: map<Id, seq<Id>>, from: set<Id>, to: Id, id: Id)
    requires to !in from
    ensures RemovedUnder(AddedUnder(m, {to}, id), from, id) == AddedUnder(RemovedUnder(m, from, id), {to}, id)
  {
    var a, b := RemovedUnder(AddedUnder(m, {to}, id), from, id), AddedUnder(RemovedUnder(m, from, id), {to}, id);
    hide Added, Removed;
    assert a.Keys == b.Keys;
    forall k | k in a ensures a[k] == b[k] {
    }
  }

  lemma FirstOfNewList(m: map<Id, seq<Id>>, k: Id, id: Id)
    requires id != NO_ID
    ensures m[k := [id]] == AddedUnder(m[k := []], {k}, id)
  {
    assert [id] + [] == [id];
    assert m[k := [id]].Keys == AddedUnder(m[k := []], {k}, id).Keys;
  }

  /** Creating a notebook around a note of another notebook is the same as moving the note to it. */
  lemma NotebookCreatedIsMove(s: Store, existing: Id, firstNote: Id)
    requires existing <= s.maxNotebook && (firstNote != NO_ID ==> GistOf(s, firstNote).notebookId <= s.maxNotebook)
    requires firstNote != NO_ID && existing != NO_ID ==> GistOf(s, firstNote).notebookId != existing
    ensures var nb := if existing == NO_ID then s.maxNotebook + 1 else existing;
            NotebookCreated(s, existing, firstNote)
            == FirstNotebookIsDefault(NotebookSet(if existing == NO_ID then NotebookIntroduced(s)
                else s, firstNote, nb), nb)
  {
    var nb := if existing == NO_ID then s.maxNotebook + 1 else existing;
    var current := GistOf(s, firstNote).notebookId;
    hide AddedUnder, RemovedUnder;
    if firstNote != NO_ID {
      FirstOfNewList(s.notebookNotes, nb, firstNote);
      MoveCommutes(if existing == NO_ID then s.notebookNotes[nb := []]
          else s.notebookNotes, {current} - {NO_ID}, nb, firstNote);
    }
  }

  lemma NotebookCreatedKeeps(s: Store, existing: Id, firstNote: Id)
    requires Inv(s) && IsNoteOrNone(s, firstNote) && existing <= s.maxNotebook
    requires (firstNote != NO_ID ==> GistOf(s, firstNote).notebookId <= s.maxNotebook)
    requires firstNote != NO_ID && existing != NO_ID ==> GistOf(s, firstNote).notebookId != existing
    ensures Inv(NotebookCreated(s, existing, firstNote))
  {
    hide NotebookCreated, NotebookSet;
    var nb := if existing == NO_ID then s.maxNotebook + 1 else existing;
    var s1 := if existing == NO_ID then NotebookIntroduced(s) else s;
    NotebookCreatedIsMove(s, existing, firstNote);
    NotebookIntroducedKeeps(s);
    assert IsNoteOrNone(s1, firstNote) && nb <= s1.maxNotebook;
    NotebookSetKeeps(s1, firstNote, nb);
    var s2 := NotebookSet(s1, firstNote, nb);
    var s3 := FirstNotebookIsDefault(s2, nb);
    TagFrame(s2, s3);
    ListFrame(s2, s3);
    hide ListsOk, IdsOk;
    forall x | x in s3.live ensures NotebookOk(s3, x) {
      assert NotebookOk(s2, x);
    }
  }

  /** Creating a notebook around a note that is already in the notebook of that name takes it out of the list. */
  lemma NotebookCreatedBreaks(s: Store, existing: Id, firstNote: Id)
    requires Inv(s) && firstNote in s.live && existing != NO_ID && GistOf(s, firstNote).notebookId == existing
    ensures !Inv(NotebookCreated(s, existing, firstNote))
  {
    var s' := NotebookCreated(s, existing, firstNote);
    assert IsNoteId(s, firstNote) && NotebookOk(s, firstNote);
    ListsAdded(s.notebookNotes, {existing}, firstNote, s.maxNotebook, s.maxNote);
    ListsRemoved(AddedUnder(s.notebookNotes, {existing}, firstNote), {existing}, firstNote, s.maxNotebook, s.maxNote);
    hide AddedUnder, RemovedUnder;
    assert {existing} - {NO_ID} == {existing};
    assert !NotebookOk(s', firstNote);
  }

  /** Creating a notebook keeps the index except in that case. */
  lemma NotebookCreatedKeepsIff(s: Store, existing: Id, firstNote: Id)
    requires Inv(s) && (firstNote == NO_ID || firstNote in s.live) && existing <= s.maxNotebook
    ensures Inv(NotebookCreated(s, existing, firstNote))
            <==> firstNote == NO_ID || existing == NO_ID || GistOf(s, firstNote).notebookId != existing
  {
    if firstNote != NO_ID {
      assert NotebookOk(s, firstNote) && IsNoteId(s, firstNote);
    }
    hide Inv, NotebookCreated;
    if firstNote != NO_ID && existing != NO_ID && GistOf(s, firstNote).notebookId == existing {
      NotebookCreatedBreaks(s, existing, firstNote);
    } else {
      NotebookCreatedKeeps(s, existing, firstNote);
    }
  }

  // Tags

  function TagIntroduced(s: Store): Store {
    var t := s.maxTag + 1;
    s.(maxTag := t, tagIds := [t] + s.tagIds, tagNotes := s.tagNotes[t := []])
  }

  lemma TagIntroducedKeeps(s: Store)
    requires Inv(s)
    ensures Inv(TagIntroduced(s))
  {
    var s', t := TagIntroduced(s), s.maxTag + 1;
    DistinctCons(t, s.tagIds);
    NewList(s.tagNotes, t, s.maxTag, s.maxNote);
    hide Distinct, ListsOk;
    NotebookFrame(s, s');
    ListFrame(s, s');
    var m' := s.tagNotes[t := []];
    assert s'.tagNotes == m';
    forall x | x in s'.live ensures TagsOk(s', x) {
      assert TagsOk(s, x);
    }
  }

  function TagPut(s: Store, t: Id, n: Id, tags: seq<Id>): Store {
    WithGist(s, n, GistOf(s, n).(tagIds := tags)).(tagNotes := AddedUnder(s.tagNotes, {t}, n))
  }

  lemma TagPutTags(s: Store, t: Id, n: Id, tags: seq<Id>)
    requires TagInv(s) && n in s.live && IsNoteId(s, n) && t in s.tagIds && IdsOk(tags, s.maxTag)
    requires forall x :: x in tags <==> x in GistOf(s, n).tagIds || x == t
    ensures TagInv(TagPut(s, t, n, tags))
  {
    hide Distinct, AddedUnder, ListsOk;
    var s' := TagPut(s, t, n, tags);
    ListsAdded(s.tagNotes, {t}, n, s.maxTag, s.maxNote);
    assert TagsOk(s, n);
    assert TagsOk(s', n);
    TagUpdate(n, s, s');
  }

  lemma ExistingTagPut(s: Store, t: Id, n: Id, tags: seq<Id>)
    requires Inv(s) && n in s.live && t in s.tagIds && IdsOk(tags, s.maxTag)
    requires forall x :: x in tags <==> x in GistOf(s, n).tagIds || x == t
    ensures Inv(TagPut(s, t, n, tags))
  {
    hide TagInv, NotebookInv, ListInv, AddedUnder, IdsOk;
    LiveFacts(s, n);
    TagPutTags(s, t, n, tags);
    NotebookFrame(s, TagPut(s, t, n, tags));
    ListFrame(s, TagPut(s, t, n, tags));
  }

  lemma TagCreatedKeeps(s: Store, existing: Id, firstNote: Id)
    requires Inv(s) && (firstNote == NO_ID || firstNote in s.live) && (existing == NO_ID || existing in s.tagIds)
    ensures Inv(TagCreated(s, existing, firstNote))
  {
    var t := if existing == NO_ID then s.maxTag + 1 else existing;
    var s1 := if existing == NO_ID then TagIntroduced(s) else s;
    TagIntroducedKeeps(s);
    if firstNote != NO_ID {
      assert TagsOk(s1, firstNote);
      IdsAdded(GistOf(s, firstNote).tagIds, t, s1.maxTag);
      ExistingTagPut(s1, t, firstNote, Added(GistOf(s, firstNote).tagIds, t));
      FirstOfNewList(s.tagNotes, t, firstNote);
    }
    hide Inv, Added, AddedUnder;
  }

  lemma TagAddedKeepsIff(s: Store, n: Id, t: Id)
    requires Inv(s) && n in s.live
    ensures Inv(TagAdded(s, n, t)) <==> t == NO_ID || t in s.tagIds || t in GistOf(s, n).tagIds
  {
    var tags := GistOf(s, n).tagIds;
    assert TagsOk(s, n) && IsNoteId(s, n);
    if t != NO_ID && t !in tags {
      if t in s.tagIds {
        AppendedIds(tags, t, s.maxTag);
        ExistingTagPut(s, t, n, tags + [t]);
      } else {
        var s' := TagAdded(s, n, t);
        assert t in GistOf(s', n).tagIds && n in ListAt(s'.tagNotes, t);
        assert !TagsOk(s', n);
      }
    }
  }

  lemma AppendedIds(list: seq<Id>, id: Id, maxId: nat)
    requires IdsOk(list, maxId) && 0 < id <= maxId && id !in list
    ensures IdsOk(list + [id], maxId)
  {
  }

  lemma {:induction false} NewlyTaggedIs(tags: seq<Id>, current: set<Id>)
    ensures forall t :: t in NewlyTagged(tags, current) ==> t in tags && t != NO_ID
    ensures forall t :: t in tags && t !in current && t != NO_ID ==> t in NewlyTagged(tags, current)
    ensures Distinct(tags) ==> forall t :: t in NewlyTagged(tags, current) ==> t !in current
  {
    if tags != [] {
      NewlyTaggedIs(tags[1..], current - {tags[0]});
      assert tags == [tags[0]] + tags[1..];
      DistinctCons(tags[0], tags[1..]);
    }
  }

  /** Setting tags puts the note under the tags it gains and takes it off those it loses, and changes no other list. */
  lemma TagsSetMembers(s: Store, n: Id, tags: seq<Id>)
    requires ListsOk(s.tagNotes, s.maxTag, s.maxNote) && IsNoteId(s, n) && IdsOk(tags, s.maxTag)
    ensures ListsOk(TagsSet(s, n, tags).tagNotes, s.maxTag, s.maxNote)
    ensures forall k: Id, x: Id {:trigger x in ListAt(TagsSet(s, n, tags).tagNotes, k)} ::
              x in ListAt(TagsSet(s, n, tags).tagNotes, k)
              <==> if x == n && k in tags && k !in GistOf(s, n).tagIds then true
                   else if x == n && k in GistOf(s, n).tagIds && k !in tags && k != NO_ID then false
                   else x in ListAt(s.tagNotes, k)
  {
    hide Distinct, AddedUnder, RemovedUnder, ListsOk, NewlyTagged;
    var current, chosen := Elements(GistOf(s, n).tagIds), Elements(tags);
    assert forall t :: t in chosen <==> t in tags;
    assert forall t :: t in current <==> t in GistOf(s, n).tagIds;
    NewlyTaggedIs(tags, current);
    ListsAdded(s.tagNotes, NewlyTagged(tags, current), n, s.maxTag, s.maxNote);
    ListsRemoved(AddedUnder(s.tagNotes, NewlyTagged(tags, current), n), current - chosen - {NO_ID}, n, s.maxTag,
        s.maxNote);
  }

  lemma TagsSetTags(s: Store, n: Id, tags: seq<Id>)
    requires TagInv(s) && n in s.live && IsNoteId(s, n) && IdsOk(tags, s.maxTag)
    requires forall t :: t in tags ==> t in s.tagIds || (GistOf(s, n).trashed && t in GistOf(s, n).tagIds)
    ensures TagInv(TagsSet(s, n, tags))
  {
    hide Distinct, AddedUnder, RemovedUnder, ListsOk, NewlyTagged, Elements;
    var s' := TagsSet(s, n, tags);
    TagsSetMembers(s, n, tags);
    assert TagsOk(s, n);
    assert TagsOk(s', n);
    TagUpdate(n, s, s');
  }

  lemma TagsSetKeeps(s: Store, n: Id, tags: seq<Id>)
    requires Inv(s) && n in s.live && IdsOk(tags, s.maxTag)
    requires forall t :: t in tags ==> t in s.tagIds || (GistOf(s, n).trashed && t in GistOf(s, n).tagIds)
    ensures Inv(TagsSet(s, n, tags))
  {
    hide TagInv, NotebookInv, ListInv, AddedUnder, RemovedUnder, Distinct;
    LiveFacts(s, n);
    TagsSetTags(s, n, tags);
    NotebookFrame(s, TagsSet(s, n, tags));
    ListFrame(s, TagsSet(s, n, tags));
  }

  lemma TagsSetOnlyIf(s: Store, n: Id, tags: seq<Id>, t: Id)
    requires n in s.live && n != NO_ID && TagsOk(TagsSet(s, n, tags), n) && t in tags && t !in GistOf(s, n).tagIds
    ensures t in s.tagIds
  {
    hide NewlyTagged, RemovedUnder;
    var s' := TagsSet(s, n, tags);
    var current := Elements(GistOf(s, n).tagIds);
    assert GistOf(s', n).tagIds == tags;
    assert t in Elements(tags) && t !in current;
    NewlyTaggedIs(tags, current);
    var added := AddedUnder(s.tagNotes, NewlyTagged(tags, current), n);
    assert n in ListAt(added, t);
    assert ListAt(RemovedUnder(added, current - Elements(tags) - {NO_ID}, n), t) == ListAt(added, t) by {
      NotRemovedUnder(added, current - Elements(tags) - {NO_ID}, n, t);
    }
  }

  lemma NotRemovedUnder(m: map<Id, seq<Id>>, ks: set<Id>, id: Id, k: Id)
    requires k !in ks
    ensures ListAt(RemovedUnder(m, ks, id), k) == ListAt(m, k)
  {
  }

  /** Setting the tags of a note keeps the index exactly when the tags are given once each and exist; a trashed note
      may also keep tags that are gone. */
  lemma TagsSetKeepsIff(s: Store, n: Id, tags: seq<Id>)
    requires Inv(s) && n in s.live
    ensures Inv(TagsSet(s, n, tags))
            <==> IdsOk(tags, s.maxTag)
                 && forall t :: t in tags ==> t in s.tagIds || (GistOf(s, n).trashed && t in GistOf(s, n).tagIds)
  {
    hide NewlyTagged, RemovedUnder, AddedUnder, Distinct, ListsOk, NotebookInv, ListInv;
    var s' := TagsSet(s, n, tags);
    LiveFacts(s, n);
    if Inv(s') {
      LiveFacts(s', n);
      assert GistOf(s', n).tagIds == tags && s'.tagIds == s.tagIds && s'.maxTag == s.maxTag;
      forall t | t in tags ensures t in s.tagIds || (GistOf(s, n).trashed && t in GistOf(s, n).tagIds) {
        if t !in GistOf(s, n).tagIds {
          TagsSetOnlyIf(s, n, tags, t);
        }
      }
    } else if IdsOk(tags, s.maxTag) && forall t :: t in tags ==>
        t in s.tagIds || (GistOf(s, n).trashed && t in GistOf(s, n).tagIds) {
      TagsSetKeeps(s, n, tags);
    }
  }

  // Favourites and trash

  lemma FavouriteSetKeeps(s: Store, n: Id, favourite: bool)
    requires Inv(s) && n in s.live
    ensures Inv(FavouriteSet(s, n, favourite))
  {
    hide Distinct, Added, Removed, IdsOk, NotebookInv, TagInv;
    var s' := FavouriteSet(s, n, favourite);
    LiveFacts(s, n);
    IdsAdded(s.favourites, n, s.maxNote);
    IdsRemoved(s.favourites, n, s.maxNote);
    NotebookFrame(s, s');
    TagFrame(s, s');
    forall x | x in s'.live ensures IsNoteId(s', x) && ListedOk(s', x) {
      assert ListedOk(s, x);
    }
  }

  lemma MovedToTrashTags(s: Store, n: Id)
    requires TagInv(s) && n in s.live && IsNoteId(s, n)
    ensures TagInv(MovedToTrash(s, n))
  {
    hide Distinct, Added, Removed, RemovedUnder, ListsOk;
    var s' := MovedToTrash(s, n);
    ListsRemoved(s.tagNotes, Elements(GistOf(s, n).tagIds) - {NO_ID}, n, s.maxTag, s.maxNote);
    assert TagsOk(s, n);
    assert TagsOk(s', n);
    TagUpdate(n, s, s');
  }

  lemma OffItsTags(s: Store, n: Id)
    requires TagInv(s) && n in s.live && IsNoteId(s, n) && !GistOf(s, n).trashed
    ensures forall t :: n !in ListAt(MovedToTrash(s, n).tagNotes, t)
  {
    hide Distinct, Added, Removed, RemovedUnder;
    ListsRemoved(s.tagNotes, Elements(GistOf(s, n).tagIds) - {NO_ID}, n, s.maxTag, s.maxNote);
    assert TagsOk(s, n);
  }

  /** Trashing keeps the index, and takes the note off the lists of all its tags. */
  lemma MovedToTrashKeeps(s: Store, n: Id)
    requires Inv(s) && n in s.live
    ensures Inv(MovedToTrash(s, n))
    ensures !GistOf(s, n).trashed ==> forall t :: n !in ListAt(MovedToTrash(s, n).tagNotes, t)
  {
    hide Distinct, Added, Removed, RemovedUnder, IdsOk, NotebookInv, TagInv;
    var s' := MovedToTrash(s, n);
    LiveFacts(s, n);
    if !GistOf(s, n).trashed {
      OffItsTags(s, n);
    }
    MovedToTrashTags(s, n);
    NotebookFrame(s, s');
    IdsAdded(s.trash, n, s.maxNote);
    IdsRemoved(s.favourites, n, s.maxNote);
    IdsRemoved(s.allNotes, n, s.maxNote);
    forall x | x in s'.live ensures IsNoteId(s', x) && ListedOk(s', x) {
      assert ListedOk(s, x);
    }
  }

  lemma RestoredTags(s: Store, n: Id)
    requires TagInv(s) && n in s.live && IsNoteId(s, n) && IdsOk(s.allNotes, s.maxNote)
    ensures TagInv(Restored(s, n))
  {
    hide Distinct, Added, Removed, AddedUnder, ListsOk, Existing, Reordered;
    var s' := Restored(s, n);
    var tags := Existing(GistOf(s, n).tagIds, s.tagIds);
    assert TagsOk(s, n);
    ExistingIds(GistOf(s, n).tagIds, s.tagIds, s.maxTag);
    ListsAdded(s.tagNotes, Elements(tags), n, s.maxTag, s.maxNote);
    if GistOf(s, n).trashed {
      RestoredShape(s, n);
    }
    assert TagsOk(s', n);
    TagUpdate(n, s, s');
  }

  lemma ExistingIds(list: seq<Id>, ids: seq<Id>, maxId: nat)
    requires IdsOk(list, maxId)
    ensures IdsOk(Existing(list, ids), maxId)
  {
  }

  /** Restoring, with the reordering of the list of all notes kept apart. */
  lemma RestoredShape(s: Store, n: Id)
    requires IdsOk(s.allNotes, s.maxNote) && IsNoteId(s, n) && GistOf(s, n).trashed
    ensures var g := GistOf(s, n);
            var tags := Existing(g.tagIds, s.tagIds);
            var nb := if g.notebookId in s.notebookIds then g.notebookId else s.defaultNotebookId;
            var all := Restored(s, n).allNotes;
            && Restored(s, n) ==
                 WithGist(s, n, g.(trashed := false, notebookId := nb, tagIds := tags))
                 .(tagNotes := AddedUnder(s.tagNotes, Elements(tags), n), allNotes := all,
                   favourites := if g.favourite then Added(s.favourites, n)
                       else s.favourites, trash := Removed(s.trash, n))
            && IdsOk(all, s.maxNote) && forall x :: x in all <==> x in s.allNotes || x == n
  {
    hide AddedUnder, Existing, Reordered, Removed, Distinct;
    var g := GistOf(s, n);
    var nb := if g.notebookId in s.notebookIds then g.notebookId else s.defaultNotebookId;
    var tags := Existing(g.tagIds, s.tagIds);
    var s1 := WithGist(s, n, g.(trashed := false, notebookId := nb, tagIds := tags))
              .(tagNotes := AddedUnder(s.tagNotes, Elements(tags), n), allNotes := Added(s.allNotes, n));
    IdsAdded(s.allNotes, n, s.maxNote);
    ReorderedKeeps(s1, n, s.maxNote);
  }

  lemma RestoredLists(s: Store, n: Id)
    requires ListInv(s) && n in s.live
    ensures ListInv(Restored(s, n))
  {
    hide Distinct, Added, Removed, AddedUnder, Existing, Reordered, Restored;
    var s' := Restored(s, n);
    assert IsNoteId(s, n);
    if GistOf(s, n).trashed {
      RestoredShape(s, n);
      IdsAdded(s.favourites, n, s.maxNote);
      IdsRemoved(s.trash, n, s.maxNote);
      forall x | x in s'.live ensures IsNoteId(s', x) && ListedOk(s', x) {
        assert ListedOk(s, x);
      }
    } else {
      NotRestored(s, n);
    }
  }

  lemma NotRestored(s: Store, n: Id)
    requires !GistOf(s, n).trashed
    ensures Restored(s, n) == s
  {
  }

  predicate NotebookFound(s: Store, n: Id) {
    GistOf(s, n).notebookId in s.notebookIds || GistOf(s, n).notebookId == s.defaultNotebookId
  }

  lemma RestoredKeeps(s: Store, n: Id)
    requires Inv(s) && n in s.live && (GistOf(s, n).trashed ==> NotebookFound(s, n))
    ensures Inv(Restored(s, n))
  {
    hide TagInv, ListInv, NotebookInv, Restored, IdsOk, ListsOk, Existing;
    LiveFacts(s, n);
    AllNotesIds(s);
    RestoredTags(s, n);
    RestoredLists(s, n);
    if GistOf(s, n).trashed {
      RestoredShape(s, n);
      NotebookFrame(s, Restored(s, n));
    } else {
      NotRestored(s, n);
    }
  }

  lemma AllNotesIds(s: Store)
    requires Inv(s)
    ensures IdsOk(s.allNotes, s.maxNote)
  {
  }

  /** Restoring keeps the index exactly when the note is not in the trash, or its notebook still exists or is the
      default one: otherwise the default notebook is written in the gist but the note is not put in its list. */
  lemma RestoredKeepsIff(s: Store, n: Id)
    requires Inv(s) && n in s.live && (s.defaultNotebookId != NO_ID ==> s.defaultNotebookId in s.notebookIds)
    ensures Inv(Restored(s, n)) <==> !GistOf(s, n).trashed || NotebookFound(s, n)
  {
    hide Restored, IdsOk, ListsOk, Existing, TagsOk, ListedOk;
    if GistOf(s, n).trashed && !NotebookFound(s, n) {
      var s' := Restored(s, n);
      LiveFacts(s, n);
      AllNotesIds(s);
      RestoredShape(s, n);
      assert !NotebookOk(s', n);
      assert n in s'.live;
    } else {
      RestoredKeeps(s, n);
    }
  }

  // Expunging

  lemma NoteExpungedTags(s: Store, n: Id)
    requires TagInv(s)
    ensures TagInv(NoteExpunged(s, n))
  {
    hide Distinct, Removed, RemovedUnder, IdsOk, ListsOk;
    var s' := NoteExpunged(s, n);
    ListsRemoved(s.tagNotes, Elements(GistOf(s, n).tagIds) - {NO_ID}, n, s.maxTag, s.maxNote);
    if n != NO_ID {
      TagUpdate(n, s, s');
    }
  }

  lemma NoteExpungedNotebooks(s: Store, n: Id)
    requires NotebookInv(s)
    ensures NotebookInv(NoteExpunged(s, n))
  {
    hide Distinct, Removed, RemovedUnder, IdsOk, ListsOk;
    var s' := NoteExpunged(s, n);
    ListsRemoved(s.notebookNotes, {GistOf(s, n).notebookId}, n, s.maxNotebook, s.maxNote);
    forall x | x in s'.live ensures NotebookOk(s', x) {
      assert NotebookOk(s, x);
    }
  }

  lemma NoteExpungedLists(s: Store, n: Id)
    requires ListInv(s)
    ensures ListInv(NoteExpunged(s, n))
  {
    hide Distinct, Removed, RemovedUnder, IdsOk;
    var s' := NoteExpunged(s, n);
    IdsRemoved(s.allNotes, n, s.maxNote);
    IdsRemoved(s.trash, n, s.maxNote);
    IdsRemoved(s.favourites, n, s.maxNote);
    forall x | x in s'.live ensures IsNoteId(s', x) && ListedOk(s', x) {
      assert ListedOk(s, x);
    }
  }

  /** After expunging, the note is in no list; only its notebook keeps it, when it was expunged from the trash. */
  lemma NoteExpungedKeeps(s: Store, n: Id)
    requires Inv(s)
    ensures Inv(NoteExpunged(s, n))
    ensures n in s.live ==>
              var s' := NoteExpunged(s, n);
              && n !in s'.allNotes && n !in s'.trash && n !in s'.favourites
                  && (forall t :: n !in ListAt(s'.tagNotes, t))
              && (forall k :: n in ListAt(s'.notebookNotes, k) ==>
                    k == GistOf(s, n).notebookId && (GistOf(s, n).trashed || k !in s.notebookIds))
  {
    hide Removed, RemovedUnder, Distinct;
    NoteExpungedTags(s, n);
    NoteExpungedNotebooks(s, n);
    NoteExpungedLists(s, n);
    if n in s.live {
      LiveFacts(s, n);
      IdsRemoved(s.allNotes, n, s.maxNote);
      IdsRemoved(s.trash, n, s.maxNote);
      IdsRemoved(s.favourites, n, s.maxNote);
      ListsRemoved(s.tagNotes, Elements(GistOf(s, n).tagIds) - {NO_ID}, n, s.maxTag, s.maxNote);
      ListsRemoved(s.notebookNotes, {GistOf(s, n).notebookId}, n, s.maxNotebook, s.maxNote);
    }
  }

  lemma NoteExpungedFromTrashKeeps(s: Store, n: Id)
    requires Inv(s)
    ensures Inv(NoteExpungedFromTrash(s, n))
  {
    hide Distinct, Removed, IdsOk, NotebookInv, TagInv;
    var s' := NoteExpungedFromTrash(s, n);
    NotebookFrame(s, s');
    TagFrame(s, s');
    IdsRemoved(s.trash, n, s.maxNote);
    forall x | x in s'.live ensures IsNoteId(s', x) && ListedOk(s', x) {
      assert ListedOk(s, x);
    }
    forall x | x in s'.allNotes ensures x in s'.live {
      assert ListedOk(s, x);
    }
  }

  /** New times or a new guid for a note, with or without reordering. */
  lemma TimesKeep(s: Store, n: Id, g: Gist)
    requires Inv(s) && IsNoteId(s, n)
    requires g == GistOf(s, n).(createdTime := g.createdTime, updatedTime := g.updatedTime, guid := g.guid)
    ensures Inv(WithGist(s, n, g)) && Inv(Reordered(WithGist(s, n, g), n))
  {
    hide Distinct, Reordered, IdsOk, NotebookInv, TagInv;
    var s1 := WithGist(s, n, g);
    var s2 := Reordered(s1, n);
    ReorderedKeeps(s1, n, s.maxNote);
    NotebookFrame(s, s1);
    NotebookFrame(s1, s2);
    TagFrame(s, s1);
    TagFrame(s1, s2);
    ListFrame(s, s1);
    forall x | x in s2.live ensures IsNoteId(s2, x) && ListedOk(s2, x) {
      assert ListedOk(s1, x);
    }
  }

  ghost predicate SameIds(s: Store, s': Store) {
    && s'.live == s.live && s'.maxNote == s.maxNote && s'.notebookIds == s.notebookIds && s'.tagIds == s.tagIds
    && s'.maxNotebook == s.maxNotebook && s'.maxTag == s.maxTag && s'.defaultNotebookId == s.defaultNotebookId
  }

  lemma NotebookSetGist(s: Store, n: Id, nb: Id)
    ensures SameIds(s, NotebookSet(s, n, nb))
    ensures forall x :: GistOf(NotebookSet(s, n, nb), x)
                        == if x == n && n != NO_ID && nb != NO_ID then GistOf(s, x).(notebookId := nb) else GistOf(s, x)
  {
    hide AddedUnder, RemovedUnder;
  }

  lemma {:induction false} NotesMovedGists(s: Store, ns: seq<Id>, nb: Id)
    requires nb != NO_ID && NO_ID !in ns
    ensures SameIds(s, NotesMoved(s, ns, nb))
    ensures forall x :: GistOf(NotesMoved(s, ns, nb), x)
                        == if x in ns then GistOf(s, x).(notebookId := nb) else GistOf(s, x)
  {
    hide NotebookSet;
    if ns != [] {
      var front, n := ns[..|ns| - 1], ns[|ns| - 1];
      assert n in ns && forall x :: x in ns <==> x in front || x == n;
      NotesMovedGists(s, front, nb);
      NotebookSetGist(NotesMoved(s, front, nb), n, nb);
    }
  }

  lemma {:induction false} NotesMovedKeeps(s: Store, ns: seq<Id>, nb: Id)
    requires Inv(s) && nb <= s.maxNotebook && forall n :: n in ns ==> IsNoteId(s, n)
    ensures var s' := NotesMoved(s, ns, nb);
            && Inv(s') && s'.live == s.live && s'.maxNote == s.maxNote && s'.maxNotebook == s.maxNotebook
            && s'.notebookIds == s.notebookIds && s'.defaultNotebookId == s.defaultNotebookId
            && forall n :: n in s.live ==>
                 GistOf(s', n).notebookId == if n in ns && nb != NO_ID then nb else GistOf(s, n).notebookId
  {
    hide Inv, NotebookSet;
    if ns != [] {
      var front, n := ns[..|ns| - 1], ns[|ns| - 1];
      assert n in ns && IsNoteId(s, n);
      NotesMovedKeeps(s, front, nb);
      NotebookSetKeeps(NotesMoved(s, front, nb), n, nb);
      NotebookSetGist(NotesMoved(s, front, nb), n, nb);
    }
  }

  /** The notebook goes away without a notebook to take its notes. */
  predicate ExpungedWithoutTarget(s: Store, nb: Id) {
    && nb != NO_ID
    && (s.defaultNotebookId == NO_ID
        || (nb == s.defaultNotebookId && s.notebookIds != [] && forall k :: k in s.notebookIds ==>
            k == nb || k == NO_ID))
  }

  lemma NotebookDroppedKeeps(s: Store, nb: Id)
    requires Inv(s) && nb != NO_ID && forall n :: n in s.live ==> GistOf(s, n).notebookId != nb
    ensures Inv(s.(notebookIds := Removed(s.notebookIds, nb), notebookNotes := s.notebookNotes - {nb}))
  {
    hide Distinct, Removed, IdsOk, TagInv, ListInv;
    var s' := s.(notebookIds := Removed(s.notebookIds, nb), notebookNotes := s.notebookNotes - {nb});
    TagFrame(s, s');
    ListFrame(s, s');
    IdsRemoved(s.notebookIds, nb, s.maxNotebook);
    ListsWithout(s.notebookNotes, nb, s.maxNotebook, s.maxNote);
    forall x | x in s'.live ensures NotebookOk(s', x) {
      assert NotebookOk(s, x);
    }
  }

  lemma ListsWithout(m: map<Id, seq<Id>>, k: Id, maxKey: nat, maxId: nat)
    requires ListsOk(m, maxKey, maxId)
    ensures ListsOk(m - {k}, maxKey, maxId)
    ensures forall j: Id, n: Id {:trigger n in ListAt(m - {k}, j)} ::
              n in ListAt(m - {k}, j) <==> n in ListAt(m, j) && j != k
  {
    var m' := m - {k};
    forall j: Id ensures Distinct(ListAt(m', j)) {
      assert Distinct(ListAt(m, j));
    }
    forall j: Id, n: Id ensures n in ListAt(m', j) <==> n in ListAt(m, j) && j != k {
    }
  }

  lemma ListedNotesAreIds(s: Store, nb: Id)
    requires Inv(s)
    ensures forall n :: n in ListAt(s.notebookNotes, nb) ==> IsNoteId(s, n)
    ensures forall n :: n in s.live && GistOf(s, n).notebookId == nb && nb != NO_ID ==> n in ListAt(s.notebookNotes, nb)
    ensures s.defaultNotebookId <= s.maxNotebook
  {
    forall n | n in s.live && GistOf(s, n).notebookId == nb && nb != NO_ID ensures n in ListAt(s.notebookNotes, nb) {
      assert NotebookOk(s, n);
    }
  }

  /** Expunging a notebook moves its notes, trashed ones included, to the default notebook. */
  lemma NotebookExpungedKeeps(s: Store, nb: Id)
    requires Inv(s) && !ExpungedWithoutTarget(s, nb)
    ensures Inv(NotebookExpunged(s, nb))
    ensures var s' := NotebookExpunged(s, nb);
            nb != s.defaultNotebookId ==>
              forall n :: n in s.live ==>
                GistOf(s', n).notebookId == if GistOf(s, n).notebookId == nb && nb != NO_ID then s.defaultNotebookId
                    else GistOf(s, n).notebookId
  {
    hide Inv, NotesMoved, Removed;
    if nb != NO_ID && nb != s.defaultNotebookId {
      ListedNotesAreIds(s, nb);
      var ns := ListAt(s.notebookNotes, nb);
      NotesMovedKeeps(s, ns, s.defaultNotebookId);
      forall n | n in s.live && n in ns ensures GistOf(s, n).notebookId == nb {
        LiveFacts(s, n);
      }
      NotebookDroppedKeeps(NotesMoved(s, ns, s.defaultNotebookId), nb);
    }
  }

  lemma {:induction false} NotesNotMoved(s: Store, ns: seq<Id>)
    ensures NotesMoved(s, ns, NO_ID) == s
  {
    if ns != [] {
      NotesNotMoved(s, ns[..|ns| - 1]);
    }
  }

  /** Expunging a notebook keeps the index, unless it is the last one, or there is no default one, and it has notes. */
  lemma NotebookExpungedKeepsIff(s: Store, nb: Id)
    requires Inv(s)
    ensures Inv(NotebookExpunged(s, nb))
            <==> !(ExpungedWithoutTarget(s, nb) && exists n :: n in s.live && GistOf(s, n).notebookId == nb)
  {
    hide Inv, Removed;
    if ExpungedWithoutTarget(s, nb) {
      var s' := s.(notebookIds := Removed(s.notebookIds, nb), notebookNotes := s.notebookNotes - {nb});
      NotesNotMoved(s, ListAt(s.notebookNotes, nb));
      assert NotebookExpunged(s, nb) == s';
      if n :| n in s.live && GistOf(s, n).notebookId == nb {
        if Inv(s') {
          LiveFacts(s', n);
        }
      } else {
        NotebookDroppedKeeps(s, nb);
      }
    } else {
      NotebookExpungedKeeps(s, nb);
    }
  }

  lemma {:induction false} TagDroppedGists(s: Store, ns: seq<Id>, t: Id)
    requires Distinct(ns)
    ensures var s' := TagDropped(s, ns, t);
            && s' == s.(gists := s'.gists)
            && forall x :: GistOf(s', x) == if x in ns then GistOf(s, x).(tagIds := Removed(GistOf(s, x).tagIds, t))
                else GistOf(s, x)
  {
    hide Removed;
    if ns != [] {
      var front, n := ns[..|ns| - 1], ns[|ns| - 1];
      TagDroppedGists(s, front, t);
      if t !in GistOf(s, n).tagIds {
        RemovedAbsent(GistOf(s, n).tagIds, t);
      }
      assert n !in front;
      assert forall x :: x in ns <==> x in front || x == n;
    }
  }

  lemma TagExpungedKeeps(s: Store, t: Id)
    requires Inv(s)
    ensures Inv(TagExpunged(s, t))
    ensures t != NO_ID ==> forall n :: n in s.live && !GistOf(s, n).trashed ==>
        t !in GistOf(TagExpunged(s, t), n).tagIds
  {
    hide Removed, TagDropped, IdsOk, NotebookInv, ListInv;
    if t != NO_ID {
      var s' := TagExpunged(s, t);
      var ns := ListAt(s.tagNotes, t);
      assert Distinct(ns);
      TagDroppedGists(s, ns, t);
      NotebookFrame(s, s');
      ListFrame(s, s');
      IdsRemoved(s.tagIds, t, s.maxTag);
      ListsWithout(s.tagNotes, t, s.maxTag, s.maxNote);
      forall x | x in s'.live
        ensures TagsOk(s', x)
        ensures !GistOf(s, x).trashed ==> t !in GistOf(s', x).tagIds
      {
        assert TagsOk(s, x);
        IdsRemoved(GistOf(s, x).tagIds, t, s.maxTag);
      }
    }
  }
}
