/** What a list view of notes shows when it is loaded, and what its slots make of it after each change of the index. */
module NotesViews {
  import opened StorageIndex
  import opened NoteOrder

  datatype View =
    | NoNotes
    | AllNotes
    | NotesInNotebook(notebook: Id)
    | NotesWithTag(tag: Id)
    | FavouriteNotes
    | TrashNotes

  /** The views that show a part of the list of all notes. */
  predicate Filters(v: View) {
    v.NotesInNotebook? || v.NotesWithTag? || v.FavouriteNotes?
  }

  function Chosen(s: Store, v: View): seq<Id> {
    match v
    case NotesInNotebook(nb) => if nb == NO_ID || nb !in s.notebookIds then [] else ListAt(s.notebookNotes, nb)
    case NotesWithTag(t) => if t == NO_ID then [] else ListAt(s.tagNotes, t)
    case FavouriteNotes => s.favourites
    case _ => []
  }

  function Load(s: Store, v: View): seq<Id> {
    match v
    case NoNotes => []
    case AllNotes => s.allNotes
    case TrashNotes => s.trash
    case _ => Existing(s.allNotes, Chosen(s, v))
  }

  // Slots

  /** The note leaves the list when it no longer belongs there, and joins it by time when it now does. */
  function Placed(s: Store, list: seq<Id>, n: Id, member: bool): seq<Id> {
    if n in list && !member then Removed(list, n)
    else if n !in list && member then Inserted(s, n, list)
    else list
  }

  function NoteCreatedSlot(s: Store, v: View, list: seq<Id>, n: Id): seq<Id> {
    if n == NO_ID || !v.AllNotes? || n in list then list else Inserted(s, n, list)
  }

  function NoteExpungedSlot(list: seq<Id>, n: Id): seq<Id> {
    if n == NO_ID then list else Removed(list, n)
  }

  function DisplayDataSlot(s: Store, list: seq<Id>, n: Id, timestampChanged: bool): seq<Id> {
    if n == NO_ID || n !in list || !timestampChanged then list else Inserted(s, n, Removed(list, n))
  }

  function NotebookSlot(s: Store, v: View, list: seq<Id>, n: Id, nb: Id): seq<Id> {
    if n == NO_ID || nb == NO_ID || !v.NotesInNotebook? then list else Placed(s, list, n, nb == v.notebook)
  }

  function TagsSlot(s: Store, v: View, list: seq<Id>, n: Id, tags: seq<Id>): seq<Id> {
    if n == NO_ID || !v.NotesWithTag? then list else Placed(s, list, n, v.tag in tags)
  }

  function FavouriteSlot(s: Store, v: View, list: seq<Id>, n: Id, favourite: bool): seq<Id> {
    if n == NO_ID || !v.FavouriteNotes? then list else Placed(s, list, n, favourite)
  }

  /** Whether the gist of the note puts it in the view. */
  predicate Belongs(s: Store, v: View, n: Id) {
    match v
    case NotesInNotebook(nb) => GistOf(s, n).notebookId == nb
    case NotesWithTag(t) => t in GistOf(s, n).tagIds
    case FavouriteNotes => GistOf(s, n).favourite
    case _ => false
  }

  function TrashednessSlot(s: Store, v: View, list: seq<Id>, n: Id, trashed: bool): seq<Id> {
    if n == NO_ID then list
    else if v.TrashNotes? then Placed(s, list, n, trashed)
    else if n in list && trashed then Removed(list, n)
    else if n !in list && !trashed && Belongs(s, v, n) then Inserted(s, n, list)
    else list
  }

  // Agreement of the slots with a reload

  /** The note can join the view by time: it is not trashed, and comes last of its age among the notes shown. */
  predicate Joins(s: Store, n: Id, list: seq<Id>) {
    n in s.allNotes && LastOfItsAge(s, n, s.allNotes, list)
  }

  /** Nothing changes but the links of `n`, and no note its time. */
  ghost predicate OnlyLinksOf(n: Id, s: Store, s': Store, v: View) {
    && s'.allNotes == s.allNotes
    && (forall x :: TimeOf(s', x) == TimeOf(s, x))
    && forall x :: x != n && x in s.allNotes ==> (x in Chosen(s', v) <==> x in Chosen(s, v))
  }

  lemma UnchangedView(s: Store, s': Store, v: View)
    requires Filters(v) && s'.allNotes == s.allNotes
    requires forall x :: x in s.allNotes ==> (x in Chosen(s', v) <==> x in Chosen(s, v))
    ensures Load(s', v) == Load(s, v)
  {
    ExistingAgrees(s.allNotes, Chosen(s, v), Chosen(s', v));
  }

  lemma LeavesView(s: Store, s': Store, v: View, n: Id)
    requires Filters(v) && Distinct(s.allNotes) && OnlyLinksOf(n, s, s', v) && n in Load(s, v) && n !in Chosen(s', v)
    ensures Removed(Load(s, v), n) == Load(s', v)
  {
    var all := s.allNotes;
    RemovedFromPart(all, n, Chosen(s, v));
    RemovedFromPart(all, n, Chosen(s', v));
    RemovedAbsent(Load(s', v), n);
    RemovedFrom(all, n);
    ExistingAgrees(Removed(all, n), Chosen(s, v), Chosen(s', v));
  }

  /** A slot that moves a note by its new membership shows what a reload would, except when a note joins that is trashed
      or that some note shown after it in the list of all notes is as old as. */
  lemma PlacedMatchesIff(s: Store, s': Store, v: View, n: Id, member: bool)
    requires Filters(v) && Distinct(s.allNotes) && NewestFirst(s, s.allNotes) && OnlyLinksOf(n, s, s', v)
    requires n in s.allNotes ==> (n in Chosen(s', v) <==> member)
    ensures Placed(s', Load(s, v), n, member) == Load(s', v)
            <==> (member && n !in Load(s, v) ==> Joins(s, n, Load(s, v)))
  {
    hide Distinct, Existing, Removed, Inserted, LastOfItsAge, Chosen;
    var list := Load(s, v);
    if n in list && !member {
      LeavesView(s, s', v, n);
    } else if n !in list && member {
      if n in s.allNotes {
        PositionInSameTimes(s, s', n, list);
        InsertedMatchesIff(s, n, s.allNotes, Chosen(s, v), Chosen(s', v));
      } else {
        InsertedHas(s', n, list);
      }
    } else {
      UnchangedView(s, s', v);
    }
  }

  lemma InsertedHas(s: Store, n: Id, list: seq<Id>)
    ensures n in Inserted(s, n, list)
  {
    var p := InsertionPosition(s, n, list);
    assert Inserted(s, n, list)[p] == n;
  }

  /** A note that comes to the list of all notes by time comes to the view in the same way. */
  lemma InsertedNoteMatches(s: Store, s': Store, v: View, n: Id)
    requires Filters(v) && NewestFirst(s, s.allNotes) && n !in s.allNotes
    requires s'.allNotes == Inserted(s', n, s.allNotes) && SameTimes(s, s', s.allNotes)
    requires forall x :: x in s.allNotes ==> (x in Chosen(s', v) <==> x in Chosen(s, v))
    ensures Load(s', v) == if n in Chosen(s', v) then Inserted(s', n, Load(s, v)) else Load(s, v)
  {
    hide Existing, Inserted, Chosen;
    NewestFirstIn(s, s', s.allNotes);
    InsertedInPart(s', n, s.allNotes, Chosen(s', v));
    ExistingAgrees(s.allNotes, Chosen(s, v), Chosen(s', v));
  }

  /** A note that leaves the list of all notes leaves the view. */
  lemma RemovedNoteMatches(s: Store, s': Store, v: View, n: Id)
    requires Filters(v) && Distinct(s.allNotes) && s'.allNotes == Removed(s.allNotes, n)
    requires forall x :: x in s.allNotes && x != n ==> (x in Chosen(s', v) <==> x in Chosen(s, v))
    ensures Load(s', v) == Removed(Load(s, v), n)
  {
    hide Existing, Removed, Distinct, Chosen;
    RemovedFrom(s.allNotes, n);
    RemovedFromPart(s.allNotes, n, Chosen(s, v));
    ExistingAgrees(Removed(s.allNotes, n), Chosen(s, v), Chosen(s', v));
  }

  /** A note that moves in the list of all notes as its time changes moves in the view in the same way. */
  lemma MovedNoteMatches(s: Store, s': Store, v: View, n: Id)
    requires Filters(v) && Distinct(s.allNotes) && NewestFirst(s, s.allNotes) && n in s.allNotes && n != NO_ID
    requires s'.allNotes == Inserted(s', n, Removed(s.allNotes, n))
    requires forall x :: x != n ==> TimeOf(s', x) == TimeOf(s, x)
    requires Chosen(s', v) == Chosen(s, v)
    ensures Load(s', v) == DisplayDataSlot(s', Load(s, v), n, true)
  {
    hide Existing, Removed, Inserted, Chosen;
    var without := s.(allNotes := Removed(s.allNotes, n));
    RemovedFrom(s.allNotes, n);
    RemovedNewestFirst(s, n, s.allNotes);
    SameChosen(s, without, v);
    RemovedNoteMatches(s, without, v, n);
    InsertedNoteMatches(without, s', v, n);
    if n !in Load(s, v) {
      RemovedAbsent(Load(s, v), n);
    }
  }

  lemma SameChosen(s: Store, s': Store, v: View)
    requires s'.notebookIds == s.notebookIds && s'.notebookNotes == s.notebookNotes && s'.tagNotes == s.tagNotes
    requires s'.favourites == s.favourites
    ensures Chosen(s', v) == Chosen(s, v)
  {
  }
}
