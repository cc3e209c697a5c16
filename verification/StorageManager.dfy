/** The storage manager: it edits one list or gist after the other in place. Each method is proved to do what the
    operation of the same kind in `StorageIndex` says. */
module StorageManagerClass {
  import opened StorageIndex
  import opened StorageInvariants

  lemma AddedUnderOneMore(m: map<Id, seq<Id>>, ks: set<Id>, k: Id, id: Id)
    ensures AddedUnder(AddedUnder(m, ks, id), {k}, id) == AddedUnder(m, ks + {k}, id)
  {
    var a, b := AddedUnder(AddedUnder(m, ks, id), {k}, id), AddedUnder(m, ks + {k}, id);
    assert a.Keys == b.Keys;
  }

  lemma RemovedUnderOneMore(m: map<Id, seq<Id>>, ks: set<Id>, k: Id, id: Id)
    requires k !in ks || Distinct(ListAt(m, k))
    ensures RemovedUnder(RemovedUnder(m, ks, id), {k}, id) == RemovedUnder(m, ks + {k}, id)
  {
    var a, b := RemovedUnder(RemovedUnder(m, ks, id), {k}, id), RemovedUnder(m, ks + {k}, id);
    if k in ks && k in m {
      RemovedFrom(m[k], id);
      RemovedAbsent(Removed(m[k], id), id);
    }
    assert a.Keys == b.Keys;
  }

  lemma UnderNone(m: map<Id, seq<Id>>, id: Id)
    ensures AddedUnder(m, {}, id) == m && RemovedUnder(m, {}, id) == m
  {
    assert AddedUnder(m, {}, id).Keys == m.Keys;
  }

  lemma RestoredInSteps(s: Store, n: Id, listed: Store)
    requires n != NO_ID && GistOf(s, n).trashed && NO_ID !in s.notebookIds
    requires var g := GistOf(s, n);
             var nb := if g.notebookId in s.notebookIds then g.notebookId else s.defaultNotebookId;
             var tags := Existing(g.tagIds, s.tagIds);
             listed == s.(gists := s.gists[n := g.(trashed := false, notebookId := nb, tagIds := tags)],
                          tagNotes := AddedUnder(s.tagNotes, Elements(tags), n), allNotes := Added(s.allNotes, n))
    ensures Restored(s, n) == Reordered(listed, n).(
              favourites := if GistOf(s, n).favourite then Added(s.favourites, n)
                  else s.favourites, trash := Removed(s.trash, n))
  {
    hide Removed, Added, AddedUnder, Reordered, Existing, Elements;
  }

  lemma NothingToRestore(s: Store, n: Id)
    requires n == NO_ID || !GistOf(s, n).trashed
    ensures Restored(s, n) == s
  {
  }

  class StorageManager {
    var gists: map<Id, Gist>
    var allNotes: seq<Id>
    var trash: seq<Id>
    var favourites: seq<Id>
    var notebookIds: seq<Id>
    var notebookNotes: map<Id, seq<Id>>
    var defaultNotebookId: Id
    var tagIds: seq<Id>
    var tagNotes: map<Id, seq<Id>>
    var maxNote: nat
    var maxNotebook: nat
    var maxTag: nat
    ghost var live: set<Id>

    ghost function State(): Store
      reads this
    {
      Store(gists, allNotes, trash, favourites, notebookIds, notebookNotes, defaultNotebookId, tagIds, tagNotes,
            maxNote, maxNotebook, maxTag, live)
    }

    constructor ()
      ensures State() == Store(map[], [], [], [], [], map[], NO_ID, [], map[], 0, 0, 0, {})
    {
      gists, allNotes, trash, favourites := map[], [], [], [];
      notebookIds, notebookNotes, defaultNotebookId := [], map[], NO_ID;
      tagIds, tagNotes := [], map[];
      maxNote, maxNotebook, maxTag := 0, 0, 0;
      live := {};
    }

    function ReadGist(n: Id): Gist
      reads this
    {
      if n in gists then gists[n] else EMPTY_GIST
    }

    // Lists of ids

    method AddNoteIdToNotebookData(n: Id, nb: Id)
      modifies this`notebookNotes
      ensures n != NO_ID && nb != NO_ID ==> notebookNotes == AddedUnder(old(notebookNotes), {nb}, n)
      ensures n == NO_ID || nb == NO_ID ==> notebookNotes == old(notebookNotes)
    {
      if nb != NO_ID && n != NO_ID && n !in ListAt(notebookNotes, nb) {
        notebookNotes := notebookNotes[nb := [n] + ListAt(notebookNotes, nb)];
      }
      assert n != NO_ID && nb != NO_ID ==> notebookNotes.Keys == AddedUnder(old(notebookNotes), {nb}, n).Keys;
    }

    method RemoveNoteIdFromNotebookData(n: Id, nb: Id)
      modifies this`notebookNotes
      ensures notebookNotes == RemovedUnder(old(notebookNotes), {nb} - {NO_ID}, n) || n == NO_ID
      ensures n == NO_ID ==> notebookNotes == old(notebookNotes)
    {
      if nb != NO_ID && n != NO_ID && n in ListAt(notebookNotes, nb) {
        notebookNotes := notebookNotes[nb := Removed(notebookNotes[nb], n)];
      } else if nb in notebookNotes && n !in notebookNotes[nb] {
        RemovedAbsent(notebookNotes[nb], n);
      }
    }

    method AddNoteIdToTagData(n: Id, t: Id)
      modifies this`tagNotes
      ensures n != NO_ID && t != NO_ID ==> tagNotes == AddedUnder(old(tagNotes), {t}, n)
      ensures n == NO_ID || t == NO_ID ==> tagNotes == old(tagNotes)
    {
      if t != NO_ID && n != NO_ID && n !in ListAt(tagNotes, t) {
        tagNotes := tagNotes[t := [n] + ListAt(tagNotes, t)];
      }
      assert n != NO_ID && t != NO_ID ==> tagNotes.Keys == AddedUnder(old(tagNotes), {t}, n).Keys;
    }

    method RemoveNoteIdFromTagData(n: Id, t: Id)
      modifies this`tagNotes
      ensures tagNotes == RemovedUnder(old(tagNotes), {t} - {NO_ID}, n) || n == NO_ID
      ensures n == NO_ID ==> tagNotes == old(tagNotes)
    {
      if t != NO_ID && n != NO_ID && n in ListAt(tagNotes, t) {
        tagNotes := tagNotes[t := Removed(tagNotes[t], n)];
      } else if t in tagNotes && n !in tagNotes[t] {
        RemovedAbsent(tagNotes[t], n);
      }
    }

    // Order

    method NoteInsertionPositionInNotesList(n: Id, list: seq<Id>) returns (pos: nat)
      ensures pos == InsertionPosition(State(), n, list)
    {
      var gist := ReadGist(n);
      var timestamp := if gist.updatedTime == 0 then gist.createdTime else gist.updatedTime;
      var i := 0;
      while i < |list|
        invariant i <= |list|
        invariant InsertionPosition(State(), n, list) == i + InsertionPosition(State(), n, list[i..])
      {
        var other := ReadGist(list[i]);
        if timestamp > if other.updatedTime == 0 then other.createdTime else other.updatedTime {
          return i;
        }
        i := i + 1;
      }
      return |list|;
    }

    method UpdateNotesListOrder(n: Id)
      modifies this`allNotes
      ensures State() == Reordered(old(State()), n)
    {
      if n == NO_ID || n !in allNotes {
        return;
      }
      var rest := Removed(allNotes, n);
      var pos := NoteInsertionPositionInNotesList(n, rest);
      allNotes := rest[..pos] + [n] + rest[pos..];
    }

    /** What a save, a fetch or a push of a note does to the index. */
    method UpdateTimeOfNote(n: Id, now: int, changed: bool)
      modifies this`gists, this`allNotes
      ensures State() == NoteEdited(old(State()), n, now, changed)
    {
      if n == NO_ID {
        return;
      }
      gists := gists[n := ReadGist(n).(updatedTime := now)];
      if changed {
        UpdateNotesListOrder(n);
      }
    }

    // Notes and notebooks

    method SetNotebookForNote(n: Id, nb: Id) returns (changed: bool)
      modifies this
      ensures State() == NotebookSet(old(State()), n, nb)
      ensures changed <==> nb != NO_ID && n != NO_ID && GistOf(old(State()), n).notebookId != nb
    {
      var current := ReadGist(n).notebookId;
      if nb == NO_ID || n == NO_ID || current == nb {
        return false;
      }
      gists := gists[n := ReadGist(n).(notebookId := nb)];
      RemoveNoteIdFromNotebookData(n, current);
      AddNoteIdToNotebookData(n, nb);
      return true;
    }

    method CreateNote(now: int) returns (n: Id)
      modifies this
      ensures State() == NoteCreated(old(State()), now) && n == old(maxNote) + 1
    {
      maxNote := maxNote + 1;
      n := maxNote;
      gists := gists[n := Gist(NO_ID, [], false, false, now, now, "")];
      allNotes := [n] + allNotes;
      live := live + {n};
      var _ := SetNotebookForNote(n, defaultNotebookId);
    }

    /** `known` is the note that already has the guid, if there is one. */
    method SetSyncedNoteGist(known: Id, created: int, updated: int, guid: string) returns (n: Id)
      modifies this
      ensures known == NO_ID ==>
                n == old(maxNote) + 1
                    && State() == NoteReceived(old(State()), Gist(NO_ID, [], false, false, created, updated, guid))
      ensures known != NO_ID ==> n == known && State() == NoteRefreshed(old(State()), known, created, updated, guid)
    {
      n := known;
      if n == NO_ID {
        maxNote := maxNote + 1;
        n := maxNote;
        gists := gists[n := Gist(NO_ID, [], false, false, created, updated, guid)];
        allNotes := [n] + allNotes;
        live := live + {n};
      } else {
        var existing := ReadGist(n);
        gists := gists[n := existing.(createdTime := created, updatedTime := updated, guid := guid)];
        if existing.updatedTime != updated {
          UpdateNotesListOrder(n);
        }
      }
    }

    method SetDefaultNotebookId(nb: Id)
      modifies this`defaultNotebookId
      ensures State() == if nb == NO_ID then old(State()) else DefaultSet(old(State()), nb)
    {
      if nb != NO_ID && nb in notebookIds {
        if defaultNotebookId != nb {
          defaultNotebookId := nb;
        }
      }
    }

    /** `existing` is the notebook that already has the name, if there is one. */
    method CreateNotebook(existing: Id, firstNote: Id) returns (nb: Id)
      modifies this
      ensures State() == NotebookCreated(old(State()), existing, firstNote)
      ensures nb == if existing == NO_ID then old(maxNotebook) + 1 else existing
    {
      hide AddedUnder, RemovedUnder;
      nb := existing;
      if existing == NO_ID {
        maxNotebook := maxNotebook + 1;
        nb := maxNotebook;
        notebookNotes := notebookNotes[nb := if firstNote == NO_ID then [] else [firstNote]];
        notebookIds := [nb] + notebookIds;
      }
      if existing != NO_ID && firstNote != NO_ID {
        AddNoteIdToNotebookData(firstNote, nb);
      }
      if firstNote != NO_ID {
        var current := ReadGist(firstNote).notebookId;
        gists := gists[firstNote := ReadGist(firstNote).(notebookId := nb)];
        if current != NO_ID {
          RemoveNoteIdFromNotebookData(firstNote, current);
        } else {
          assert {current} - {NO_ID} == {};
          UnderNone(notebookNotes, firstNote);
        }
      }
      if nb == 1 {
        SetDefaultNotebookId(nb);
      }
    }

    // Tags

    /** `existing` is the tag that already has the name, if there is one. */
    method CreateTag(existing: Id, firstNote: Id) returns (t: Id)
      modifies this
      ensures State() == TagCreated(old(State()), existing, firstNote)
      ensures t == if existing == NO_ID then old(maxTag) + 1 else existing
    {
      t := existing;
      if existing == NO_ID {
        maxTag := maxTag + 1;
        t := maxTag;
        tagNotes := tagNotes[t := if firstNote == NO_ID then [] else [firstNote]];
        tagIds := [t] + tagIds;
      }
      if existing != NO_ID && firstNote != NO_ID {
        AddNoteIdToTagData(firstNote, t);
      }
      if firstNote != NO_ID {
        var gist := ReadGist(firstNote);
        gists := gists[firstNote := gist.(tagIds := Added(gist.tagIds, t))];
      }
    }

    method AddToNewTags(n: Id, tags: seq<Id>, current: set<Id>) returns (lost: set<Id>)
      requires n != NO_ID
      modifies this`tagNotes
      ensures tagNotes == AddedUnder(old(tagNotes), NewlyTagged(tags, current), n)
      ensures lost == current - Elements(tags)
    {
      hide AddedUnder;
      lost := current;
      ghost var added: set<Id> := {};
      UnderNone(tagNotes, n);
      var i := 0;
      while i < |tags|
        invariant i <= |tags|
        invariant lost == current - Elements(tags[..i])
        invariant added + NewlyTagged(tags[i..], lost) == NewlyTagged(tags, current)
        invariant tagNotes == AddedUnder(old(tagNotes), added, n)
      {
        var t := tags[i];
        assert Elements(tags[..i + 1]) == Elements(tags[..i]) + {t};
        assert tags[i..][1..] == tags[i + 1..];
        if t in lost {
          lost := lost - {t};
        } else {
          AddNoteIdToTagData(n, t);
          assert lost - {t} == lost;
          if t != NO_ID {
            AddedUnderOneMore(old(tagNotes), added, t, n);
            added := added + {t};
          }
        }
        i := i + 1;
      }
      assert tags[..i] == tags;
    }

    method SetTagsOnNote(n: Id, tags: seq<Id>) returns (changed: bool)
      modifies this
      ensures State() == TagsSet(old(State()), n, tags)
      ensures changed <==> n != NO_ID && Elements(tags) != Elements(GistOf(old(State()), n).tagIds)
    {
      hide AddedUnder, RemovedUnder, NewlyTagged;
      if n == NO_ID {
        return false;
      }
      var currentTags: set<Id> := set t | t in ReadGist(n).tagIds;
      gists := gists[n := ReadGist(n).(tagIds := tags)];
      if (set t | t in tags) == currentTags {
        return false;
      }
      var lost := AddToNewTags(n, tags, currentTags);
      RemoveFromTags(n, lost);
      return true;
    }

    method RemoveFromTags(n: Id, ts: set<Id>)
      requires n != NO_ID
      modifies this`tagNotes
      ensures State() == old(State()).(tagNotes := RemovedUnder(old(tagNotes), ts - {NO_ID}, n))
    {
      var rest := ts;
      UnderNone(tagNotes, n);
      while rest != {}
        invariant rest <= ts
        invariant tagNotes == RemovedUnder(old(tagNotes), ts - rest - {NO_ID}, n)
      {
        var t: Id :| t in rest;
        RemoveNoteIdFromTagData(n, t);
        ghost var done := ts - rest - {NO_ID};
        if t != NO_ID {
          assert {t} - {NO_ID} == {t};
          RemovedUnderOneMore(old(tagNotes), done, t, n);
          assert ts - (rest - {t}) - {NO_ID} == done + {t};
        } else {
          UnderNone(tagNotes, n);
          assert {t} - {NO_ID} == {};
          assert ts - (rest - {t}) - {NO_ID} == done;
        }
        rest := rest - {t};
      }
    }

    method AddTagToNote(n: Id, t: Id)
      modifies this
      ensures State() == TagAdded(old(State()), n, t)
    {
      if n == NO_ID || t == NO_ID {
        return;
      }
      var gist := ReadGist(n);
      if t !in gist.tagIds {
        AddNoteIdToTagData(n, t);
        gists := gists[n := gist.(tagIds := gist.tagIds + [t])];
      }
    }

    // Favourites and trash

    method SetFavouriteNote(n: Id, favourite: bool) returns (changed: bool)
      modifies this
      ensures State() == FavouriteSet(old(State()), n, favourite)
      ensures changed <==> n != NO_ID && GistOf(old(State()), n).favourite != favourite
    {
      if n == NO_ID || ReadGist(n).favourite == favourite {
        return false;
      }
      if favourite {
        favourites := Added(favourites, n);
      } else {
        favourites := Removed(favourites, n);
      }
      gists := gists[n := ReadGist(n).(favourite := favourite)];
      return true;
    }

    method RemoveFromTagList(n: Id, ts: seq<Id>)
      requires n != NO_ID && forall k :: Distinct(ListAt(tagNotes, k))
      modifies this`tagNotes
      ensures tagNotes == RemovedUnder(old(tagNotes), Elements(ts) - {NO_ID}, n)
    {
      hide RemovedUnder, Distinct;
      UnderNone(tagNotes, n);
      assert Elements(ts[..0]) - {NO_ID} == {};
      var i := 0;
      while i < |ts|
        invariant i <= |ts|
        invariant tagNotes == RemovedUnder(old(tagNotes), Elements(ts[..i]) - {NO_ID}, n)
      {
        var t := ts[i];
        ghost var done := Elements(ts[..i]) - {NO_ID};
        UnderNone(tagNotes, n);
        RemoveNoteIdFromTagData(n, t);
        assert Elements(ts[..i + 1]) == Elements(ts[..i]) + {t};
        if t != NO_ID {
          assert {t} - {NO_ID} == {t};
          RemovedUnderOneMore(old(tagNotes), done, t, n);
          assert Elements(ts[..i + 1]) - {NO_ID} == done + {t};
        } else {
          assert {t} - {NO_ID} == {};
          assert Elements(ts[..i + 1]) - {NO_ID} == done;
        }
        i := i + 1;
      }
      assert ts[..i] == ts;
    }

    /** The flags say which lists to remove the note from, besides those of its tags. */
    method RemoveNoteReferences(n: Id, fromTrash: bool)
      requires forall k :: Distinct(ListAt(tagNotes, k))
      modifies this`notebookNotes, this`tagNotes, this`allNotes, this`favourites, this`trash
      ensures n == NO_ID ==> State() == old(State())
      ensures n != NO_ID ==>
                var g := GistOf(old(State()), n);
                State() == old(State()).(
                  notebookNotes := if g.notebookId in notebookIds && g.notebookId != NO_ID && !g.trashed
                                   then RemovedUnder(old(notebookNotes), {g.notebookId}, n) else old(notebookNotes),
                  tagNotes := RemovedUnder(old(tagNotes), Elements(g.tagIds) - {NO_ID}, n),
                  allNotes := Removed(old(allNotes), n), favourites := Removed(old(favourites), n),
                  trash := if fromTrash then Removed(old(trash), n) else old(trash))
    {
      hide Removed, RemovedUnder, Distinct, Elements;
      if n == NO_ID {
        return;
      }
      var gist := ReadGist(n);
      if gist.notebookId in notebookIds && gist.notebookId != NO_ID && !gist.trashed {
        RemoveNoteIdFromNotebookData(n, gist.notebookId);
        assert {gist.notebookId} - {NO_ID} == {gist.notebookId};
      }
      RemoveFromTagList(n, gist.tagIds);
      allNotes := Removed(allNotes, n);
      favourites := Removed(favourites, n);
      if fromTrash {
        trash := Removed(trash, n);
      }
    }

    method MoveNoteToTrash(n: Id) returns (moved: bool)
      requires forall k :: Distinct(ListAt(tagNotes, k))
      modifies this
      ensures State() == MovedToTrash(old(State()), n)
      ensures moved <==> n != NO_ID && !GistOf(old(State()), n).trashed
    {
      if n == NO_ID || ReadGist(n).trashed {
        return false;
      }
      gists := gists[n := ReadGist(n).(trashed := true)];
      RemoveNoteReferences(n, false);
      trash := Added(trash, n);
      return true;
    }

    method AddToExistingTags(n: Id, ts: seq<Id>) returns (existing: seq<Id>)
      requires n != NO_ID && NO_ID !in tagIds
      modifies this`tagNotes
      ensures existing == Existing(ts, tagIds)
      ensures tagNotes == AddedUnder(old(tagNotes), Elements(existing), n)
    {
      hide AddedUnder;
      existing := [];
      UnderNone(tagNotes, n);
      assert Elements(existing) == {};
      var i := 0;
      while i < |ts|
        invariant i <= |ts|
        invariant existing == Existing(ts[..i], tagIds)
        invariant tagNotes == AddedUnder(old(tagNotes), Elements(existing), n)
      {
        var t := ts[i];
        assert ts[..i + 1][..i] == ts[..i];
        if t in tagIds {
          AddNoteIdToTagData(n, t);
          AddedUnderOneMore(old(tagNotes), Elements(existing), t, n);
          assert Elements(existing + [t]) == Elements(existing) + {t};
          existing := existing + [t];
        }
        i := i + 1;
      }
      assert ts[..i] == ts;
    }

    /** The gist of the note leaves the trash; its notebook is replaced if it is gone, and so are tags that are gone. */
    method RestoreLinks(n: Id)
      requires n != NO_ID && NO_ID !in notebookIds && NO_ID !in tagIds
      modifies this`gists, this`tagNotes
      ensures var g := GistOf(old(State()), n);
              var nb := if g.notebookId in notebookIds then g.notebookId else defaultNotebookId;
              var tags := Existing(g.tagIds, tagIds);
              && gists == old(gists)[n := g.(trashed := false, notebookId := nb, tagIds := tags)]
              && tagNotes == AddedUnder(old(tagNotes), Elements(tags), n)
    {
      hide AddedUnder, Existing, Elements;
      var gist := ReadGist(n);
      gists := gists[n := gist.(trashed := false)];
      if gist.notebookId == NO_ID || gist.notebookId !in notebookIds {
        gists := gists[n := ReadGist(n).(notebookId := defaultNotebookId)];
      }
      var updated := AddToExistingTags(n, gist.tagIds);
      if gist.tagIds != updated {
        gists := gists[n := ReadGist(n).(tagIds := updated)];
      }
    }

    method RestoreNoteFromTrash(n: Id) returns (restored: bool)
      requires NO_ID !in notebookIds && NO_ID !in tagIds
      modifies this
      ensures State() == Restored(old(State()), n)
      ensures restored <==> n != NO_ID && GistOf(old(State()), n).trashed
    {
      hide Removed, Added, AddedUnder, Reordered, Existing, Elements, Restored;
      var gist := ReadGist(n);
      if n == NO_ID || !gist.trashed {
        NothingToRestore(State(), n);
        return false;
      }
      RestoreLinks(n);
      allNotes := Added(allNotes, n);
      ghost var listed := State();
      UpdateNotesListOrder(n);
      if gist.favourite {
        favourites := Added(favourites, n);
      }
      trash := Removed(trash, n);
      RestoredInSteps(old(State()), n, listed);
      return true;
    }

    // Expunging

    method ExpungeNoteFromTrash(n: Id) returns (expunged: bool)
      modifies this
      ensures State() == NoteExpungedFromTrash(old(State()), n)
      ensures expunged <==> n != NO_ID && GistOf(old(State()), n).guid == "" && n in old(trash)
    {
      if n == NO_ID || ReadGist(n).guid != "" || n !in trash {
        return false;
      }
      trash := Removed(trash, n);
      gists := gists - {n};
      live := live - {n};
      return true;
    }

    method ExpungeNote(n: Id)
      requires forall k :: Distinct(ListAt(tagNotes, k))
      requires NO_ID !in notebookIds
      modifies this
      ensures State() == NoteExpunged(old(State()), n)
    {
      if n == NO_ID {
        return;
      }
      RemoveNoteReferences(n, true);
      gists := gists - {n};
      live := live - {n};
    }

    /** The ids returned are those whose move is announced. */
    method ExpungeNotebook(nb: Id) returns (moved: seq<Id>)
      requires NO_ID !in notebookIds
      modifies this
      ensures State() == NotebookExpunged(old(State()), nb)
      ensures moved == MovedByExpunge(old(State()), nb)
    {
      hide NotebookSet, Removed;
      moved := [];
      if nb == NO_ID {
        return;
      }
      var target := defaultNotebookId;
      if nb == target {
        if notebookIds == [] {
          return;
        }
        var another := PickAnotherNotebook(nb);
        if another != NO_ID {
          return;
        }
        target := NO_ID;
      }
      var notes := ListAt(notebookNotes, nb);
      var i := 0;
      while i < |notes|
        invariant i <= |notes|
        invariant State() == NotesMoved(old(State()), notes[..i], target)
        invariant moved == MovedIds(old(State()), notes[..i], target)
      {
        assert notes[..i + 1][..i] == notes[..i];
        var changed := SetNotebookForNote(notes[i], target);
        if changed {
          moved := moved + [notes[i]];
        }
        i := i + 1;
      }
      assert notes[..i] == notes;
      notebookIds := Removed(notebookIds, nb);
      notebookNotes := notebookNotes - {nb};
    }

    method PickAnotherNotebook(nb: Id) returns (another: Id)
      requires NO_ID !in notebookIds
      ensures another != NO_ID ==> another in notebookIds && another != nb
      ensures another == NO_ID ==> forall k :: k in notebookIds ==> k == nb
    {
      another := NO_ID;
      var j := 0;
      while j < |notebookIds|
        invariant j <= |notebookIds|
        invariant another == NO_ID || (another in notebookIds && another != nb)
        invariant another == NO_ID ==> forall k :: k in notebookIds[..j] ==> k == nb
      {
        assert notebookIds[j] in notebookIds && notebookIds[..j + 1] == notebookIds[..j] + [notebookIds[j]];
        if notebookIds[j] != nb {
          another := notebookIds[j];
        }
        j := j + 1;
      }
      assert notebookIds[..j] == notebookIds;
    }

    method ExpungeTag(t: Id)
      modifies this
      ensures State() == TagExpunged(old(State()), t)
    {
      if t == NO_ID {
        return;
      }
      var notes := ListAt(tagNotes, t);
      var i := 0;
      while i < |notes|
        invariant i <= |notes|
        invariant State() == TagDropped(old(State()), notes[..i], t)
      {
        assert notes[..i + 1][..i] == notes[..i];
        var gist := ReadGist(notes[i]);
        if t in gist.tagIds {
          gists := gists[notes[i] := gist.(tagIds := Removed(gist.tagIds, t))];
        }
        i := i + 1;
      }
      assert notes[..i] == notes;
      tagIds := Removed(tagIds, t);
      tagNotes := tagNotes - {t};
    }
  }
}
