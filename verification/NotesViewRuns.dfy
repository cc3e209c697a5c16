/** A view that is loaded once and then follows the changes of the index, however many. */
module NotesViewRuns {
  import opened StorageIndex
  import opened StorageInvariants
  import opened StorageRuns
  import opened NoteOrder
  import opened NotesViews
  import opened NotesViewSteps

  /** A note of this age fits in its place: the note before it is not older, and the note after it is not newer. */
  predicate FitsBetween(s: Store, n: Id, time: int, list: seq<Id>) {
    forall i :: 0 <= i < |list| && list[i] == n ==>
      && (i > 0 ==> TimeOf(s, list[i - 1]) >= time)
      && (i + 1 < |list| ==> time >= TimeOf(s, list[i + 1]))
  }

  predicate FitsInFront(s: Store, time: int, list: seq<Id>) {
    list == [] || time >= TimeOf(s, list[0])
  }

  /** Exactly when the list of all notes stays newest first: new notes are not older than the first, and a note that
      gets a new time without being reordered still fits in its place. */
  predicate KeepsOrder(s: Store, op: Op) {
    match op
    case CreateNote(now) => FitsInFront(s, now, s.allNotes)
    case ReceiveNote(created, updated, guid) =>
      FitsInFront(s, Timestamp(Gist(NO_ID, [], false, false, created, updated, guid)), s.allNotes)
    case RefreshNote(n, created, updated, _) =>
      GistOf(s, n).updatedTime == updated ==>
        FitsBetween(s, n, Timestamp(GistOf(s, n).(createdTime := created)), s.allNotes)
    case EditNote(n, now, changed) =>
      !changed ==> FitsBetween(s, n, Timestamp(GistOf(s, n).(updatedTime := now)), s.allNotes)
    case SyncNote(n, updated) => FitsBetween(s, n, Timestamp(GistOf(s, n).(updatedTime := updated)), s.allNotes)
    case _ => true
  }

  lemma ReorderedKeepsOrder(s: Store, n: Id, g: Gist)
    requires Inv(s) && NewestFirst(s, s.allNotes) && n != NO_ID
    ensures var s' := Reordered(WithGist(s, n, g), n); NewestFirst(s', s'.allNotes)
  {
    AllNotesFacts(s);
    hide Inserted, Removed, NewestFirst, Inv, Distinct;
    var s1 := WithGist(s, n, g);
    if n in s.allNotes {
      var s', rest := Reordered(s1, n), Removed(s.allNotes, n);
      RemovedFrom(s.allNotes, n);
      RemovedNewestFirst(s, n, s.allNotes);
      NewestFirstIn(s, s1, rest);
      InsertedNewestFirst(s1, n, rest);
      NewestFirstIn(s1, s', s'.allNotes);
    } else {
      NewestFirstIn(s, Reordered(s1, n), s.allNotes);
    }
  }

  lemma FitsKeepsOrder(s: Store, s': Store, list: seq<Id>, i: nat)
    requires NewestFirst(s, list) && i < |list|
    requires forall j :: 0 <= j < |list| && j != i ==> TimeOf(s', list[j]) == TimeOf(s, list[j])
    requires i > 0 ==> TimeOf(s, list[i - 1]) >= TimeOf(s', list[i])
    requires i + 1 < |list| ==> TimeOf(s', list[i]) >= TimeOf(s, list[i + 1])
    ensures NewestFirst(s', list)
  {
    hide TimeOf;
    forall j, k | 0 <= j < k < |list| ensures TimeOf(s', list[j]) >= TimeOf(s', list[k]) {
      if j == i {
        assert k == i + 1 || TimeOf(s, list[i + 1]) >= TimeOf(s, list[k]);
      } else if k == i {
        assert j == i - 1 || TimeOf(s, list[j]) >= TimeOf(s, list[i - 1]);
      } else {
        assert TimeOf(s, list[j]) >= TimeOf(s, list[k]);
      }
    }
  }

  lemma FitsBetweenAt(s: Store, n: Id, time: int, list: seq<Id>, i: nat)
    requires i < |list| && list[i] == n && Distinct(list)
    ensures FitsBetween(s, n, time, list)
            <==> (i > 0 ==> TimeOf(s, list[i - 1]) >= time) && (i + 1 < |list| ==> time >= TimeOf(s, list[i + 1]))
  {
    hide TimeOf;
  }

  lemma OrderedNeighbours(s: Store, list: seq<Id>, i: nat)
    requires NewestFirst(s, list) && i < |list|
    ensures i > 0 ==> TimeOf(s, list[i - 1]) >= TimeOf(s, list[i])
    ensures i + 1 < |list| ==> TimeOf(s, list[i]) >= TimeOf(s, list[i + 1])
  {
    hide TimeOf;
  }

  lemma PlacedFitsIff(s: Store, s': Store, list: seq<Id>, i: nat)
    requires NewestFirst(s, list) && Distinct(list) && i < |list|
    requires forall x :: x != list[i] ==> TimeOf(s', x) == TimeOf(s, x)
    ensures NewestFirst(s', list) <==> FitsBetween(s, list[i], TimeOf(s', list[i]), list)
  {
    hide TimeOf;
    FitsBetweenAt(s, list[i], TimeOf(s', list[i]), list, i);
    assert forall j :: 0 <= j < |list| && j != i ==> list[j] != list[i];
    hide Distinct, FitsBetween, NewestFirst;
    if FitsBetween(s, list[i], TimeOf(s', list[i]), list) {
      FitsKeepsOrder(s, s', list, i);
    } else if NewestFirst(s', list) {
      OrderedNeighbours(s', list, i);
    }
  }

  lemma StayingKeepsOrderIff(s: Store, n: Id, g: Gist)
    requires Inv(s) && NewestFirst(s, s.allNotes)
    ensures NewestFirst(WithGist(s, n, g), s.allNotes) <==> FitsBetween(s, n, Timestamp(g), s.allNotes)
  {
    AllNotesFacts(s);
    hide Inv, Distinct, NewestFirst;
    var s', list := WithGist(s, n, g), s.allNotes;
    if n in list {
      var i :| 0 <= i < |list| && list[i] == n;
      PlacedFitsIff(s, s', list, i);
    } else {
      NewestFirstIn(s, s', list);
    }
  }

  lemma InFrontKeepsOrderIff(s: Store, n: Id, list: seq<Id>)
    requires NewestFirst(s, list)
    ensures NewestFirst(s, [n] + list) <==> FitsInFront(s, TimeOf(s, n), list)
  {
    hide TimeOf;
    var all := [n] + list;
    assert forall j :: 0 < j < |all| ==> all[j] == list[j - 1];
    if FitsInFront(s, TimeOf(s, n), list) {
      forall i, j | 0 <= i < j < |all| ensures TimeOf(s, all[i]) >= TimeOf(s, all[j]) {
        assert j == 1 || TimeOf(s, list[0]) >= TimeOf(s, list[j - 1]);
      }
    } else {
      assert TimeOf(s, all[0]) < TimeOf(s, all[1]);
    }
  }

  lemma ReceivedKeepsOrderIff(s: Store, g: Gist)
    requires Inv(s) && NewestFirst(s, s.allNotes)
    ensures NewestFirst(NoteReceived(s, g), NoteReceived(s, g).allNotes) <==> FitsInFront(s, Timestamp(g), s.allNotes)
  {
    var s', n := NoteReceived(s, g), s.maxNote + 1;
    AllNotesFacts(s);
    hide Inv, Distinct, NewestFirst;
    NewestFirstIn(s, s', s.allNotes);
    InFrontKeepsOrderIff(s', n, s.allNotes);
    FirstTime(s, s', s.allNotes);
  }

  lemma RestoredKeepsOrder(s: Store, n: Id)
    requires Inv(s) && NewestFirst(s, s.allNotes) && n in s.live && GistOf(s, n).trashed
    ensures NewestFirst(Restored(s, n), Restored(s, n).allNotes)
  {
    hide Inserted, Restored, Inv, NewestFirst, Distinct;
    var s' := Restored(s, n);
    NotNone(s);
    AllNotesFacts(s);
    RestoredOrder(s, n);
    RestoredGists(s, n);
    NewestFirstIn(s, s', s.allNotes);
    InsertedNewestFirst(s', n, s.allNotes);
  }

  lemma TakenOutKeepsOrder(s: Store, s': Store, n: Id)
    requires Inv(s) && NewestFirst(s, s.allNotes)
    requires s'.allNotes == Removed(s.allNotes, n) && forall x :: x in s.allNotes && x != n ==>
        GistOf(s', x) == GistOf(s, x)
    ensures NewestFirst(s', s'.allNotes)
  {
    AllNotesFacts(s);
    hide Inv, NewestFirst, Distinct, Removed;
    RemovedFrom(s.allNotes, n);
    RemovedNewestFirst(s, n, s.allNotes);
    NewestFirstIn(s, s', s'.allNotes);
  }

  /** Taking a note out of the list, or nothing. */
  lemma OtherOpsKeepOrder(s: Store, op: Op)
    requires Inv(s) && NewestFirst(s, s.allNotes) && Addressed(s, op)
    requires op.SetDefault? || op.Trash? || op.Expunge? || op.ExpungeFromTrash? || op.ExpungeTag?
    ensures NewestFirst(Apply(s, op), Apply(s, op).allNotes)
  {
    hide Inv, NewestFirst, Removed, RemovedUnder, TagExpunged, Distinct;
    var s' := Apply(s, op);
    match op {
      case SetDefault(nb) =>
        NewestFirstIn(s, s', s.allNotes);
      case Trash(n) =>
        if n != NO_ID && !GistOf(s, n).trashed {
          TakenOutKeepsOrder(s, s', n);
        }
      case Expunge(n) =>
        if n != NO_ID {
          TakenOutKeepsOrder(s, s', n);
        }
      case ExpungeFromTrash(n) =>
        if n in s.trash {
          TrashedNotInAll(s, n);
        }
        NewestFirstIn(s, s', s.allNotes);
      case ExpungeTag(t) =>
        TagExpungedTimes(s, t);
        NewestFirstIn(s, s', s.allNotes);
    }
  }

  lemma {:induction false} TagDroppedTimes(s: Store, ns: seq<Id>, t: Id)
    ensures var s' := TagDropped(s, ns, t);
            s' == s.(gists := s'.gists) && forall n :: TimeOf(s', n) == TimeOf(s, n)
  {
    hide Removed;
    if ns != [] {
      TagDroppedTimes(s, ns[..|ns| - 1], t);
    }
  }

  lemma TagExpungedTimes(s: Store, t: Id)
    ensures var s' := TagExpunged(s, t);
            s'.allNotes == s.allNotes && forall n :: TimeOf(s', n) == TimeOf(s, n)
  {
    hide TagDropped, Removed;
    TagDroppedTimes(s, ListAt(s.tagNotes, t), t);
  }

  lemma CreatedKeepsOrderIff(s: Store, now: int)
    requires Inv(s) && NewestFirst(s, s.allNotes)
    ensures NewestFirst(NoteCreated(s, now), NoteCreated(s, now).allNotes) <==> FitsInFront(s, now, s.allNotes)
  {
    hide Inv, NewestFirst, AddedUnder, RemovedUnder;
    var g := Gist(NO_ID, [], false, false, now, now, "");
    ReceivedKeepsOrderIff(s, g);
    SameOrder(NoteReceived(s, g), NoteCreated(s, now), NoteReceived(s, g).allNotes);
  }

  lemma SameOrder(s: Store, s': Store, list: seq<Id>)
    requires SameTimes(s, s', list)
    ensures NewestFirst(s', list) <==> NewestFirst(s, list)
  {
  }

  lemma ExpungedNotebookKeepsOrder(s: Store, nb: Id)
    requires NewestFirst(s, s.allNotes)
    ensures NewestFirst(NotebookExpunged(s, nb), NotebookExpunged(s, nb).allNotes)
  {
    hide NewestFirst, NotesMoved, Removed;
    NotesMovedElsewhere(s, ListAt(s.notebookNotes, nb), ExpungeTarget(s, nb));
    NewestFirstIn(s, NotebookExpunged(s, nb), s.allNotes);
  }

  lemma NewTimeKeepsOrderIff(s: Store, n: Id, g: Gist, reorder: bool)
    requires Inv(s) && NewestFirst(s, s.allNotes) && n in s.live
    ensures var s1 := WithGist(s, n, g);
            var s' := if reorder then Reordered(s1, n) else s1;
            NewestFirst(s', s'.allNotes) <==> (!reorder ==> FitsBetween(s, n, Timestamp(g), s.allNotes))
  {
    NotNone(s);
    hide Inv, NewestFirst, Reordered, FitsBetween, Timestamp;
    if reorder {
      ReorderedKeepsOrder(s, n, g);
    } else {
      StayingKeepsOrderIff(s, n, g);
    }
  }

  lemma TimesKeepOrderIff(s: Store, op: Op)
    requires Inv(s) && NewestFirst(s, s.allNotes) && Addressed(s, op)
    requires op.RefreshNote? || op.EditNote? || op.SyncNote?
    ensures NewestFirst(Apply(s, op), Apply(s, op).allNotes) <==> KeepsOrder(s, op)
  {
    NotNone(s);
    hide Inv, NewestFirst, Reordered, FitsBetween;
    match op {
      case RefreshNote(n, created, updated, guid) =>
        var g := GistOf(s, n).(createdTime := created, updatedTime := updated, guid := guid);
        NewTimeKeepsOrderIff(s, n, g, GistOf(s, n).updatedTime != updated);
      case EditNote(n, now, changed) => NewTimeKeepsOrderIff(s, n, GistOf(s, n).(updatedTime := now), changed);
      case SyncNote(n, updated) => NewTimeKeepsOrderIff(s, n, GistOf(s, n).(updatedTime := updated), false);
    }
  }

  /** Exactly when an operation keeps the list of all notes newest first. */
  lemma StepKeepsOrderIff(s: Store, op: Op)
    requires Inv(s) && NewestFirst(s, s.allNotes) && Addressed(s, op)
    ensures NewestFirst(Apply(s, op), Apply(s, op).allNotes) <==> KeepsOrder(s, op)
  {
    hide Inv, NewestFirst, NoteCreated, NotebookExpunged, NoteReceived, Restored, Reordered, NoteExpunged,
      NoteExpungedFromTrash, TagExpunged, MovedToTrash, FitsBetween, FitsInFront;
    NotNone(s);
    if SetsLinks(op) {
      LinksKeepOrder(s, op);
    } else {
      match op {
        case ReceiveNote(created, updated, guid) =>
          ReceivedKeepsOrderIff(s, Gist(NO_ID, [], false, false, created, updated, guid));
        case RefreshNote(_, _, _, _) => TimesKeepOrderIff(s, op);
        case EditNote(_, _, _) => TimesKeepOrderIff(s, op);
        case SyncNote(_, _) => TimesKeepOrderIff(s, op);
        case CreateNote(now) => CreatedKeepsOrderIff(s, now);
        case ExpungeNotebook(nb) => ExpungedNotebookKeepsOrder(s, nb);
        case Restore(n) =>
          if GistOf(s, n).trashed {
            RestoredKeepsOrder(s, n);
          } else {
            NotRestored(s, n);
          }
        case _ => OtherOpsKeepOrder(s, op);
      }
    }
  }

  lemma LinksKeepOrder(s: Store, op: Op)
    requires NewestFirst(s, s.allNotes) && SetsLinks(op)
    ensures NewestFirst(Apply(s, op), Apply(s, op).allNotes) && KeepsOrder(s, op)
  {
    hide Apply, NewestFirst;
    SetsLinksOfSubject(s, op);
    NewestFirstIn(s, Apply(s, op), s.allNotes);
  }

  // Runs

  function ViewRun(s: Store, v: View, ops: seq<Op>): seq<Id> {
    if ops == [] then Load(s, v)
    else
      var front, op := ops[..|ops| - 1], ops[|ops| - 1];
      ViewAfter(Run(s, front), v, ViewRun(s, v, front), op)
  }

  /** Each operation of the run is about objects that exist where it is made. */
  predicate RunAddressed(s: Store, ops: seq<Op>) {
    ops == [] || (RunAddressed(s, ops[..|ops| - 1]) && Addressed(Run(s, ops[..|ops| - 1]), ops[|ops| - 1]))
  }

  /** Each operation of the run is allowed, keeps the order and is followed well where it is made. */
  predicate RunFollowsWell(s: Store, v: View, ops: seq<Op>) {
    ops == [] ||
    (var front, op := ops[..|ops| - 1], ops[|ops| - 1];
     var r := Run(s, front);
     RunFollowsWell(s, v, front) && Allowed(r, op) && KeepsOrder(r, op) && FollowsWell(r, v, op))
  }

  /** After the run the index is sound, the list of all notes is newest first, and the view shows what a reload
      shows. */
  ghost predicate AllIsWell(s: Store, v: View, ops: seq<Op>) {
    var r := Run(s, ops);
    Sound(r) && NewestFirst(r, r.allNotes) && ViewRun(s, v, ops) == Load(r, v)
  }

  lemma StepIsWellIff(s: Store, v: View, ops: seq<Op>)
    requires ops != [] && AllIsWell(s, v, ops[..|ops| - 1]) && RunAddressed(s, ops)
    ensures var r, op := Run(s, ops[..|ops| - 1]), ops[|ops| - 1];
            AllIsWell(s, v, ops) <==> Allowed(r, op) && KeepsOrder(r, op) && FollowsWell(r, v, op)
  {
    hide Inv, HomeInv, NewestFirst, Apply, ViewAfter, Load, Addressed, Allowed, KeepsOrder, FollowsWell;
    var r, op := Run(s, ops[..|ops| - 1]), ops[|ops| - 1];
    StepSoundIff(r, op);
    StepKeepsOrderIff(r, op);
    if Allowed(r, op) {
      ViewFollowsIff(r, v, op);
    }
  }

  ghost predicate WellThroughout(s: Store, v: View, ops: seq<Op>) {
    forall k :: 0 <= k <= |ops| ==> AllIsWell(s, v, ops[..k])
  }

  lemma WellThroughoutFront(s: Store, v: View, ops: seq<Op>)
    requires ops != []
    ensures WellThroughout(s, v, ops) <==> WellThroughout(s, v, ops[..|ops| - 1]) && AllIsWell(s, v, ops)
  {
    hide AllIsWell;
    var front := ops[..|ops| - 1];
    assert ops[..|ops|] == ops;
    assert forall k :: 0 <= k <= |front| ==> front[..k] == ops[..k];
  }

  lemma WellAtLast(s: Store, v: View, ops: seq<Op>)
    requires WellThroughout(s, v, ops)
    ensures AllIsWell(s, v, ops)
  {
    hide AllIsWell;
    assert ops[..|ops|] == ops;
  }

  /** A view that was loaded once and then only follows the changes: all is well at every point of the run if and
      only if each operation is allowed, keeps the order and is followed well where it is made. */
  lemma {:induction false} ViewEqualsReloadIff(s: Store, v: View, ops: seq<Op>)
    requires Sound(s) && NewestFirst(s, s.allNotes) && RunAddressed(s, ops)
    ensures WellThroughout(s, v, ops) <==> RunFollowsWell(s, v, ops)
  {
    hide AllIsWell, WellThroughout, Addressed, Allowed, KeepsOrder, FollowsWell, Sound, NewestFirst, Run;
    if ops == [] {
      WellAtFirst(s, v);
    } else {
      var front := ops[..|ops| - 1];
      ViewEqualsReloadIff(s, v, front);
      WellThroughoutFront(s, v, ops);
      if WellThroughout(s, v, front) {
        WellAtLast(s, v, front);
        StepIsWellIff(s, v, ops);
      }
    }
  }

  lemma WellAtFirst(s: Store, v: View)
    requires Sound(s) && NewestFirst(s, s.allNotes)
    ensures WellThroughout(s, v, [])
  {
    hide Sound, NewestFirst;
    var none: seq<Op> := [];
    assert none[..0] == [];
  }

  /** The view then also is free of duplicates and, except the trash, newest first. */
  lemma ViewEqualsReload(s: Store, v: View, ops: seq<Op>)
    requires Sound(s) && NewestFirst(s, s.allNotes) && RunAddressed(s, ops) && RunFollowsWell(s, v, ops)
    ensures Sound(Run(s, ops)) && NewestFirst(Run(s, ops), Run(s, ops).allNotes)
    ensures ViewRun(s, v, ops) == Load(Run(s, ops), v)
    ensures Distinct(ViewRun(s, v, ops))
    ensures !v.TrashNotes? ==> NewestFirst(Run(s, ops), ViewRun(s, v, ops))
  {
    hide Inv, HomeInv, Load, RunFollowsWell, RunAddressed, Run, ViewRun, NewestFirst, Distinct, WellThroughout;
    ViewEqualsReloadIff(s, v, ops);
    WellAtLast(s, v, ops);
    LoadIsDistinct(Run(s, ops), v);
    if !v.TrashNotes? {
      LoadInOrder(Run(s, ops), v);
    }
  }

  lemma LoadInOrder(s: Store, v: View)
    requires NewestFirst(s, s.allNotes) && !v.TrashNotes?
    ensures NewestFirst(s, Load(s, v))
  {
    hide Chosen, Existing;
    ExistingNewestFirst(s, s.allNotes, Chosen(s, v));
  }
}
