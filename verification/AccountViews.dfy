/** The views show exactly the notes that the plain account has for them. */
module AccountViews {
  import opened StorageIndex
  import opened StorageInvariants
  import opened StorageRuns
  import opened NotesViews
  import opened NotesViewSteps
  import opened PlainAccount

  /** The notes that belong in a view. */
  predicate IsIn(note: PlainNote, v: View) {
    match v
    case NoNotes => false
    case AllNotes => !note.trashed
    case TrashNotes => note.trashed
    case NotesInNotebook(nb) => nb != NO_ID && note.notebook == nb && !note.trashed
    case NotesWithTag(t) => t in note.tags && !note.trashed
    case FavouriteNotes => note.favourite && !note.trashed
  }

  function NotesIn(a: Account, v: View): set<Id> {
    set n | n in a.notes && IsIn(a.notes[n], v)
  }

  lemma LoadHasIff(s: Store, v: View, n: Id)
    requires Sound(s)
    ensures n in Load(s, v) <==> n in s.live && IsIn(Plain(s, n), v)
  {
    ListedAreLive(s, n);
    NotebookIdsOk(s);
    TagIdsOk(s);
    if n in s.live {
      LiveFacts(s, n);
      hide Inv, Distinct;
    }
  }

  lemma ListedAreLive(s: Store, n: Id)
    requires Inv(s)
    ensures n in s.allNotes || n in s.trash ==> n in s.live
  {
  }

  /** Loaded after any run of allowed operations, a view shows exactly those notes, each once. */
  lemma RunShows(ops: seq<Op>, v: View)
    requires RunAllowed(EMPTY, ops)
    ensures var list := Load(Run(EMPTY, ops), v);
            Elements(list) == NotesIn(AllDone(ops), v) && Distinct(list)
  {
    hide Load, Run, RunAllowed, Inv, HomeInv, AccountOf, AllDone, IsIn, Distinct;
    var s := Run(EMPTY, ops);
    RunKeepsSound(ops);
    RunRefines(ops);
    LoadIsDistinct(s, v);
    forall n ensures n in Load(s, v) <==> n in NotesIn(AllDone(ops), v) {
      LoadHasIff(s, v, n);
      NoteOf(s, n);
    }
  }
}
