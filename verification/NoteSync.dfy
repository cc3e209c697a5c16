/** The content of one note: local edits, the server's version, and the two-level content store between them. */
module NoteSync {
  import opened EvernoteMarkup

  /** A content hash as stored: empty, or the MD5 sum of a content, which is taken to identify it. */
  datatype Hash = NoHash | Md5(content: string)

  datatype Option<T> = None | Some(value: T)

  /** content.ini of the note. */
  datatype ContentIni = ContentIni(valid: bool, content: string, hash: Hash)

  const NO_CONTENT := ContentIni(false, "", NoHash)

  /** An entry of the disk cache, which may be evicted at any time. */
  datatype Cached = Cached(content: string, hash: Hash)

  /** What is stored for the note. `incorporated` is bookkeeping of the model: the server versions from which the
      content in content.ini was derived or with which it was merged. */
  datatype Note = Note(
    hasGuid: bool,
    createdHere: bool,
    favourite: bool,
    notebookId: string,
    offlineNotebookIds: seq<string>,   // of the account
    updatedTime: int,
    baseHash: Hash,        // the version last fetched or pushed, as seen by the edits in content.ini
    syncHash: Hash,        // the version the server is known to have
    ini: ContentIni,
    cache: Option<Cached>,
    conflictDeferred: bool,
    incorporated: set<string>)

  predicate NeedsOffline(n: Note) {
    n.createdHere || n.favourite || n.notebookId in n.offlineNotebookIds
  }

  function CreatedNote(content: string, time: int): Note {
    Note(false, true, false, "", [], time, NoHash, NoHash, ContentIni(true, content, Md5(content)), None, false, {})
  }

  /** A note first heard of from the server. */
  function SyncedNote(serverContent: string, time: int): Note {
    Note(true, false, false, "", [], time, NoHash, Md5(serverContent), NO_CONTENT, None, false, {})
  }

  /** The content to show or to push, as found in content.ini or else in the cache when it is the server's version. */
  function Available(n: Note): Option<ContentIni> {
    if n.ini.valid then Some(n.ini)
    else if n.cache.Some? && n.cache.value.hash != NoHash && n.cache.value.hash == n.syncHash then
      Some(ContentIni(true, n.cache.value.content, n.cache.value.hash))
    else None
  }

  /** Saving `content`, edited in a session that began with base `base` and whose text incorporates `inc`. */
  function Saved(n: Note, content: string, base: Hash, inc: set<string>, time: int): Note {
    var contentChanged := !n.ini.valid || n.ini.hash != Md5(content);
    n.(updatedTime := time,
       baseHash := base,
       ini := if contentChanged then ContentIni(true, content, Md5(content)) else n.ini,
       conflictDeferred := n.conflictDeferred || (n.baseHash != NoHash && n.baseHash != base),
       incorporated := if contentChanged then inc else n.incorporated + inc)
  }

  /** Appending changes the base and may defer a conflict only when the content changes. */
  function Appended(n: Note, content: string, base: Hash, inc: set<string>, time: int): Note {
    if n.ini.valid && n.ini.hash == Md5(content) then n else Saved(n, content, base, inc, time)
  }

  function GistSynced(n: Note, serverContent: string, time: int): Note {
    n.(hasGuid := true, syncHash := Md5(serverContent), updatedTime := time)
  }

  /** The note has an edit that neither the base nor the fetched version has. */
  predicate IsEdited(n: Note, content: string) {
    n.ini.valid && n.ini.hash != n.baseHash && n.ini.hash != Md5(content)
  }

  /** The content a fetch stores in place of a conflicting local edit, if it detects a conflict. */
  function ConflictResolution(lib: Library, n: Note, content: string, attachments: seq<Attachment>): Option<string> {
    if n.baseHash != NoHash && n.baseHash != Md5(content) && IsEdited(n, content) then
      var (resolved, ok) := ResolveConflict(lib, content, n.ini.content, n.updatedTime, attachments);
      if ok && resolved != content then Some(resolved) else None
    else None
  }

  /** Storing a fetched version, or the resolution of its conflict with a local edit. */
  function FetchStored(n: Note, content: string, resolution: Option<string>, time: int): Note {
    var n' := n.(baseHash := Md5(content), syncHash := Md5(content), updatedTime := time);
    if resolution.Some? then
      n'.(ini := ContentIni(true, resolution.value, Md5(resolution.value)), incorporated := n.incorporated + {content})
    else if NeedsOffline(n) then
      n'.(ini := ContentIni(true, content, Md5(content)), incorporated := {content})
    else
      n'.(ini := NO_CONTENT, cache := Some(Cached(content, Md5(content))), incorporated := {})
  }

  function Fetched(lib: Library, n: Note, content: string, attachments: seq<Attachment>, time: int): Note {
    if n.baseHash == Md5(content) && n.ini.valid then n
    else FetchStored(n, content, ConflictResolution(lib, n, content, attachments), time)
  }

  /** A run begins by fetching the note if a conflict was deferred. The record of it is cleared even if the fetch fails
      and brings no `content`. */
  function DeferredResolved(
    lib: Library, n: Note, content: Option<string>, attachments: seq<Attachment>, time: int): Note
  {
    if !n.conflictDeferred then n
    else if n.hasGuid && content.Some? then
      Fetched(lib, n, content.value, attachments, time).(conflictDeferred := false)
    else n.(conflictDeferred := false)
  }

  /** The content a push would send, if it would send one. */
  function ContentToPush(n: Note): Option<string> {
    var a := Available(n);
    if a.None? || a.value.hash == NoHash || n.syncHash != n.baseHash then None
    else if !n.hasGuid || n.baseHash == NoHash || a.value.hash != n.baseHash then Some(a.value.content)
    else None
  }

  /** The note after the server took `content`, whose hash is `hash`. */
  function PushRecorded(n: Note, content: string, hash: Hash, time: int): Note {
    var n' := n.(baseHash := hash, syncHash := hash, updatedTime := time);
    if n.ini.valid && n.ini.hash == hash then
      if NeedsOffline(n) then n'.(incorporated := n.incorporated + {content})
      else n'.(ini := NO_CONTENT, cache := if n.hasGuid then Some(Cached(content, hash))
          else n.cache, incorporated := {})
    else n'
  }

  /** A push that the server accepts, possibly naming the new note. */
  function Pushed(n: Note, guidReturned: bool, time: int): Note {
    var c := ContentToPush(n);
    if c.None? then n else
      PushRecorded(n.(hasGuid := n.hasGuid || guidReturned), c.value, Available(n).value.hash, time)
  }

  function MadeAvailable(n: Note): Note {
    if n.ini.valid || !n.hasGuid || n.cache.None? then n else
      n.(ini := ContentIni(true, n.cache.value.content, n.cache.value.hash), incorporated := {n.cache.value.content})
  }

  function MadeUnavailable(n: Note): Note {
    if n.baseHash == NoHash || !n.ini.valid || n.ini.hash == NoHash || n.baseHash != n.ini.hash || !n.hasGuid
        then n else
      n.(ini := NO_CONTENT,
         cache := if n.cache.Some? && n.cache.value.hash == n.ini.hash then n.cache
             else Some(Cached(n.ini.content, n.ini.hash)),
         incorporated := {})
  }

  // The world of one note

  /** An open editor: the content it was opened with, the base at that time, and what that content incorporates. */
  datatype Session = Session(content: string, base: Hash, incorporated: set<string>)

  datatype World = World(note: Note, sessions: seq<Session>, server: string)

  datatype Step =
    | Open
    | Save(session: nat, content: string, time: int)
    | Append(session: nat, content: string, time: int)
    | SyncGist(time: int)
    | Fetch(attachments: seq<Attachment>, time: int)
    | Push(accepted: bool, guidReturned: bool, time: int)
    | MakeAvailable
    | MakeUnavailable
    | ResolveDeferred(fetched: bool, attachments: seq<Attachment>, time: int)
    | WantOffline(favourite: bool, notebookId: string, offlineNotebookIds: seq<string>)
    | Evict
    | EditOnServer(content: string)

  function Opened(n: Note): Option<Session> {
    var a := Available(n);
    if a.None? then None
    else Some(Session(a.value.content, n.baseHash, if n.ini.valid then n.incorporated else {a.value.content}))
  }

  function After(lib: Library, w: World, step: Step): World {
    var n := w.note;
    match step
    case Open => if Opened(n).Some? then w.(sessions := w.sessions + [Opened(n).value]) else w
    case Save(k, content, time) =>
      if k < |w.sessions| then w.(note := Saved(n, content, w.sessions[k].base, w.sessions[k].incorporated, time))
          else w
    case Append(k, content, time) =>
      if k < |w.sessions| then w.(note := Appended(n, content, w.sessions[k].base, w.sessions[k].incorporated, time))
          else w
    case SyncGist(time) => if n.hasGuid then w.(note := GistSynced(n, w.server, time)) else w
    case Fetch(attachments, time) => if n.hasGuid then w.(note := Fetched(lib, n, w.server, attachments, time)) else w
    case Push(accepted, guidReturned, time) =>
      if accepted && ContentToPush(n).Some?
          then w.(note := Pushed(n, guidReturned, time), server := ContentToPush(n).value) else w
    case MakeAvailable => w.(note := MadeAvailable(n))
    case MakeUnavailable => w.(note := MadeUnavailable(n))
    case ResolveDeferred(fetched, attachments, time) =>
      w.(note := DeferredResolved(lib, n, if fetched then Some(w.server) else None, attachments, time))
    case WantOffline(favourite, notebookId, offlineNotebookIds) =>
      w.(note := n.(favourite := favourite, notebookId := notebookId, offlineNotebookIds := offlineNotebookIds))
    case Evict => w.(note := n.(cache := None))
    case EditOnServer(content) => w.(server := content)
  }

  function Run(lib: Library, w: World, steps: seq<Step>): World {
    if steps == [] then w else After(lib, Run(lib, w, steps[..|steps| - 1]), steps[|steps| - 1])
  }

  ghost predicate IsStart(w: World) {
    && w.sessions == []
    && exists time ::
         w.note == CreatedNote(w.note.ini.content, time) || w.note == SyncedNote(w.server, time)
  }

  // Invariants

  predicate Incorporates(inc: set<string>, base: Hash) {
    base.Md5? ==> base.content in inc
  }

  /** The cache never stands in for anything but the base version. */
  predicate CacheHoldsBase(n: Note) {
    && (n.cache.Some? ==> n.hasGuid && n.cache.value.hash == Md5(n.cache.value.content))
    && (!n.ini.valid && n.cache.Some? ==> n.cache.value.hash == n.baseHash)
  }

  predicate Consistent(n: Note) {
    && (if n.ini.valid then n.ini.hash == Md5(n.ini.content) else n.ini == NO_CONTENT)
    && (!n.ini.valid ==> n.hasGuid)
    && (!n.hasGuid ==> n.createdHere)
    && CacheHoldsBase(n)
    && (n.ini.valid ==> Incorporates(n.incorporated, n.baseHash))
  }

  ghost predicate Inv(w: World) {
    && Consistent(w.note)
    && forall k :: 0 <= k < |w.sessions| ==> Incorporates(w.sessions[k].incorporated, w.sessions[k].base)
  }

  lemma FetchedConsistent(lib: Library, n: Note, content: string, attachments: seq<Attachment>, time: int)
    requires Consistent(n) && n.hasGuid
    ensures Consistent(Fetched(lib, n, content, attachments, time))
  {
    hide ResolveConflict;
  }

  lemma PushedConsistent(n: Note, guidReturned: bool, time: int)
    requires Consistent(n)
    ensures Consistent(Pushed(n, guidReturned, time))
  {
  }

  lemma SavedConsistent(n: Note, content: string, base: Hash, inc: set<string>, time: int)
    requires Consistent(n) && Incorporates(inc, base)
    ensures Consistent(Saved(n, content, base, inc, time))
  {
  }

  lemma StepKeepsInv(lib: Library, w: World, step: Step)
    requires Inv(w)
    ensures Inv(After(lib, w, step))
  {
    hide Fetched, Pushed, Saved;
    match step {
      case Save(k, content, time) =>
        if k < |w.sessions| {
          SavedConsistent(w.note, content, w.sessions[k].base, w.sessions[k].incorporated, time);
        }
      case Append(k, content, time) =>
        if k < |w.sessions| {
          SavedConsistent(w.note, content, w.sessions[k].base, w.sessions[k].incorporated, time);
        }
      case Fetch(attachments, time) =>
        if w.note.hasGuid {
          FetchedConsistent(lib, w.note, w.server, attachments, time);
        }
      case ResolveDeferred(_, attachments, time) =>
        if w.note.hasGuid {
          FetchedConsistent(lib, w.note, w.server, attachments, time);
        }
      case Push(_, guidReturned, time) => PushedConsistent(w.note, guidReturned, time);
      case _ =>
    }
  }

  lemma {:induction false} RunKeepsInv(lib: Library, w: World, steps: seq<Step>)
    requires IsStart(w)
    ensures Inv(Run(lib, w, steps))
  {
    if steps != [] {
      RunKeepsInv(lib, w, steps[..|steps| - 1]);
      StepKeepsInv(lib, Run(lib, w, steps[..|steps| - 1]), steps[|steps| - 1]);
    }
  }

  /** In every run: a push only ever sends content.ini, and what it sends was derived from or merged with the server
      version that was last synced, so that version is not overwritten unseen. */
  lemma PushOverwritesOnlySeenVersions(lib: Library, w: World, steps: seq<Step>)
    requires IsStart(w)
    ensures var n := Run(lib, w, steps).note;
            ContentToPush(n).Some? ==>
              n.ini.valid && ContentToPush(n).value == n.ini.content && Incorporates(n.incorporated, n.syncHash)
  {
    RunKeepsInv(lib, w, steps);
  }

  /** In every run: content found in the cache while content.ini has none is the base version itself, so making it
      available restores that version, and content edited since is never moved to the cache. */
  lemma CacheIsBaseVersion(lib: Library, w: World, steps: seq<Step>)
    requires IsStart(w)
    ensures var n := Run(lib, w, steps).note;
            && (MadeAvailable(n) != n ==> MadeAvailable(n).ini.hash == n.baseHash == Md5(MadeAvailable(n).ini.content))
            && (n.ini.valid && n.ini.hash != n.baseHash ==> MadeUnavailable(n) == n)
            && (MadeUnavailable(n) != n ==> MadeAvailable(MadeUnavailable(n)).ini == n.ini)
            && (n.ini.valid || n.hasGuid)
  {
    RunKeepsInv(lib, w, steps);
  }

  /** What a synchronization does when nothing is pushed, and what can happen around it: fetches, gists, moves between
      the stores, changes of the offline wish, evictions, and opening the note. */
  predicate IsQuiet(step: Step) {
    match step
    case Save(_, _, _) => false
    case Append(_, _, _) => false
    case Push(_, _, _) => false
    case EditOnServer(_) => false
    case _ => true
  }

  lemma QuietStepKeepsEdit(lib: Library, w: World, step: Step)
    requires w.note.ini.valid && w.note.ini.hash != w.note.baseHash && w.note.baseHash == Md5(w.server) && IsQuiet(step)
    ensures var w' := After(lib, w, step);
            w'.note.ini == w.note.ini && w'.note.baseHash == w.note.baseHash && w'.server == w.server
  {
    hide ConflictResolution, FetchStored;
  }

  /** As long as the server has the version that an edit is based on, nothing but the user changes the edit, however
      often the note is fetched or moved. */
  lemma {:induction false} QuietServerKeepsEdit(lib: Library, w: World, steps: seq<Step>)
    requires w.note.ini.valid && w.note.ini.hash != w.note.baseHash && w.note.baseHash == Md5(w.server)
    requires forall i :: 0 <= i < |steps| ==> IsQuiet(steps[i])
    ensures var w' := Run(lib, w, steps);
            w'.note.ini == w.note.ini && w'.note.baseHash == w.note.baseHash && w'.server == w.server
  {
    hide After, IsQuiet;
    if steps != [] {
      QuietServerKeepsEdit(lib, w, steps[..|steps| - 1]);
      QuietStepKeepsEdit(lib, Run(lib, w, steps[..|steps| - 1]), steps[|steps| - 1]);
    }
  }

  /** A plain-text edit of a note that has been fetched or pushed before survives the fetch of a newer plain-text
      version: the stored content then has the text of both, in content.ini or, when the edit is part of the newer
      version, as that version. */
  lemma FetchKeepsPlainTextEdit(lib: Library, n: Note, content: string, attachments: seq<Attachment>, time: int)
    requires lib.Valid() && LeavePlainText(attachments)
    requires Consistent(n) && IsEdited(n, content) && n.baseHash != NoHash && n.baseHash != Md5(content)
    requires lib.IsPlain(content) && lib.IsPlain(n.ini.content)
    ensures var n' := Fetched(lib, n, content, attachments, time);
            var stored := Available(n');
            && stored.Some? && n'.baseHash == n'.syncHash == Md5(content)
            && Contains(WithoutNbsp(lib.Text(stored.value.content)), WithoutNbsp(lib.Text(content)))
            && Contains(WithoutNbsp(lib.Text(stored.value.content)), WithoutNbsp(lib.Text(n.ini.content)))
  {
    hide ResolveConflict, Contains, LeavePlainText;
    MergeKeepsBothTexts(lib, content, n.ini.content, n.updatedTime, attachments);
  }

  lemma ContainsItself(s: string)
    ensures Contains(s, s)
  {
    assert s[0..] == s;
  }

  /** A plain-text edit survives the fetch of a plain-text version if and only if the note has been fetched or pushed
      before the edit was begun, or the fetched version has the text of the edit anyway. */
  lemma FetchKeepsEditTextIff(lib: Library, n: Note, content: string, attachments: seq<Attachment>, time: int)
    requires lib.Valid() && LeavePlainText(attachments) && Consistent(n) && IsEdited(n, content)
    requires lib.IsPlain(content) && lib.IsPlain(n.ini.content)
    ensures var stored := Available(Fetched(lib, n, content, attachments, time));
            var edit := WithoutNbsp(lib.Text(n.ini.content));
            && stored.Some?
            && (Contains(WithoutNbsp(lib.Text(stored.value.content)), edit)
                <==> n.baseHash != NoHash || Contains(WithoutNbsp(lib.Text(content)), edit))
  {
    hide ResolveConflict, Contains, LeavePlainText;
    ContainsItself(WithoutNbsp(lib.Text(n.ini.content)));
    if n.baseHash != NoHash && n.baseHash != Md5(content) {
      FetchKeepsPlainTextEdit(lib, n, content, attachments, time);
    }
  }

  /** When one of the two versions is rich text, the edit's markup survives under the same condition. */
  lemma FetchKeepsRichEditIff(lib: Library, n: Note, content: string, attachments: seq<Attachment>, time: int)
    requires Consistent(n) && IsEdited(n, content) && n.baseHash != Md5(content)
    requires lib.parse(content).Readable? && lib.parse(n.ini.content).Readable?
    requires !(lib.IsPlain(content) && lib.IsPlain(n.ini.content))
    ensures var stored := Available(Fetched(lib, n, content, attachments, time));
            var edit := lib.core(n.ini.content, attachments);
            && stored.Some?
            && (Contains(stored.value.content, edit) <==> n.baseHash != NoHash || Contains(content, edit))
  {
    hide ResolveConflict, Contains;
    RichMergeKeepsBoth(lib, content, n.ini.content, n.updatedTime, attachments);
  }

  /** When one of the two versions cannot be read, nothing is merged: the edit stands if and only if the fetched version
      is the one it is based on, and otherwise gives way to that version, however it reads. */
  lemma UnreadableEditStandsIff(lib: Library, n: Note, content: string, attachments: seq<Attachment>, time: int)
    requires Consistent(n) && IsEdited(n, content)
    requires lib.parse(content).Unreadable? || lib.parse(n.ini.content).Unreadable?
    ensures var stored := Available(Fetched(lib, n, content, attachments, time));
            && stored.Some? && (stored.value.content == n.ini.content || stored.value.content == content)
            && (stored.value.content == n.ini.content <==> n.baseHash == Md5(content))
  {
  }

  // A plain-text edit, while the server gets newer plain-text versions

  function PlainTextOf(lib: Library, document: string): string {
    WithoutNbsp(lib.Text(document))
  }

  /** Everything but what the user does to the note, and a push that the server accepts. Other clients write plain text,
      and no text follows an attachment. */
  predicate IsPlainSync(lib: Library, step: Step) {
    match step
    case Save(_, _, _) => false
    case Append(_, _, _) => false
    case Push(accepted, _, _) => !accepted
    case Fetch(attachments, _) => LeavePlainText(attachments)
    case ResolveDeferred(_, attachments, _) => LeavePlainText(attachments)
    case EditOnServer(content) => lib.IsPlain(content)
    case _ => true
  }

  /** content.ini holds an edit of a fetched or pushed version, and the text is part of it. */
  ghost predicate HoldsEdit(lib: Library, n: Note, text: string) {
    && n.ini.valid && n.ini.hash == Md5(n.ini.content) && n.ini.hash != n.baseHash && n.baseHash != NoHash
    && lib.IsPlain(n.ini.content) && Contains(PlainTextOf(lib, n.ini.content), text)
  }

  lemma FetchHoldsEdit(
    lib: Library, n: Note, text: string, content: string, attachments: seq<Attachment>, time: int)
    requires lib.Valid() && LeavePlainText(attachments) && lib.IsPlain(content) && HoldsEdit(lib, n, text)
    ensures HoldsEdit(lib, Fetched(lib, n, content, attachments, time), text)
            || Contains(PlainTextOf(lib, content), text)
  {
    hide ResolveConflict, Contains, LeavePlainText, WithoutNbsp, Library.Valid, Library.Text, Library.IsPlain;
    if n.baseHash != Md5(content) && IsEdited(n, content) {
      var (resolved, ok) := ResolveConflict(lib, content, n.ini.content, n.updatedTime, attachments);
      MergeKeepsBothTexts(lib, content, n.ini.content, n.updatedTime, attachments);
      MergeIsPlain(lib, content, n.ini.content, n.updatedTime, attachments);
      ContainsTransitively(PlainTextOf(lib, resolved), PlainTextOf(lib, n.ini.content), text);
    }
  }

  lemma StepHoldsEdit(lib: Library, w: World, text: string, step: Step)
    requires lib.Valid() && IsPlainSync(lib, step) && lib.IsPlain(w.server) && HoldsEdit(lib, w.note, text)
    ensures HoldsEdit(lib, After(lib, w, step).note, text) || Contains(PlainTextOf(lib, w.server), text)
  {
    hide Fetched, Contains, LeavePlainText, PlainTextOf, Library.Valid, Library.IsPlain;
    match step {
      case Fetch(attachments, time) => FetchHoldsEdit(lib, w.note, text, w.server, attachments, time);
      case ResolveDeferred(_, attachments, time) => FetchHoldsEdit(lib, w.note, text, w.server, attachments, time);
      case _ =>
    }
  }

  lemma StepKeepsServerPlain(lib: Library, w: World, step: Step)
    requires IsPlainSync(lib, step) && lib.IsPlain(w.server)
    ensures lib.IsPlain(After(lib, w, step).server)
  {
    hide Fetched, Library.IsPlain;
  }

  /** Some version that the server had during the run has the text. */
  ghost predicate ServerHadText(lib: Library, w: World, steps: seq<Step>, text: string) {
    exists k :: 0 <= k <= |steps| && Contains(PlainTextOf(lib, Run(lib, w, steps[..k]).server), text)
  }

  lemma HadTextBefore(lib: Library, w: World, steps: seq<Step>, text: string)
    requires steps != []
    ensures ServerHadText(lib, w, steps[..|steps| - 1], text) ==> ServerHadText(lib, w, steps, text)
    ensures Contains(PlainTextOf(lib, Run(lib, w, steps[..|steps| - 1]).server), text) ==>
              ServerHadText(lib, w, steps, text)
  {
    hide Run, Contains, PlainTextOf;
    var front := steps[..|steps| - 1];
    if ServerHadText(lib, w, front, text) {
      var k :| 0 <= k <= |front| && Contains(PlainTextOf(lib, Run(lib, w, front[..k]).server), text);
      assert front[..k] == steps[..k];
    }
  }

  /** However often the note is fetched and moved, its conflicts resolved, and new versions written by other clients,
      the text of an edit stays in content.ini as an edit to be pushed, until the server had a version with that
      text. */
  lemma {:induction false} EditSurvivesRun(lib: Library, w: World, steps: seq<Step>, text: string)
    requires lib.Valid() && lib.IsPlain(w.server) && HoldsEdit(lib, w.note, text)
    requires forall i :: 0 <= i < |steps| ==> IsPlainSync(lib, steps[i])
    ensures lib.IsPlain(Run(lib, w, steps).server)
    ensures HoldsEdit(lib, Run(lib, w, steps).note, text) || ServerHadText(lib, w, steps, text)
  {
    hide After, HoldsEdit, ServerHadText, Contains, PlainTextOf, IsPlainSync, Library.Valid, Library.IsPlain;
    if steps != [] {
      var front, step := steps[..|steps| - 1], steps[|steps| - 1];
      assert IsPlainSync(lib, step);
      EditSurvivesRun(lib, w, front, text);
      StepKeepsServerPlain(lib, Run(lib, w, front), step);
      HadTextBefore(lib, w, steps, text);
      if HoldsEdit(lib, Run(lib, w, front).note, text) {
        StepHoldsEdit(lib, Run(lib, w, front), text, step);
      }
    }
  }

  // Edits that are lost

  /** An edit that cannot be read is replaced by the next version. An empty document is one, see `EmptyIsUnreadable`. */
  lemma UnreadableEditReplaced(lib: Library, c0: string, c1: string, c2: string)
    requires lib.parse(c1).Unreadable? && c0 != c1 && c1 != c2 && c0 != c2
    ensures var w0 := World(SyncedNote(c0, 1), [], c0);
            var steps := [Fetch([], 1), Open, Save(0, c1, 2), EditOnServer(c2)];
            var edited, fetched := Run(lib, w0, steps), Run(lib, w0, steps + [Fetch([], 3)]);
            && IsStart(w0)
            && edited.note.ini == ContentIni(true, c1, Md5(c1)) && edited.note.baseHash == Md5(c0)
            && Available(fetched.note) == Some(ContentIni(true, c2, Md5(c2)))
  {
    hide After, Run;
    var w0 := World(SyncedNote(c0, 1), [], c0);
    var s1, s2, s3 := [Fetch([], 1)], [Fetch([], 1), Open], [Fetch([], 1), Open, Save(0, c1, 2)];
    var s4 := [Fetch([], 1), Open, Save(0, c1, 2), EditOnServer(c2)];
    assert [] + [Fetch([], 1)] == s1 && s1 + [Open] == s2 && s2 + [Save(0, c1, 2)] == s3
        && s3 + [EditOnServer(c2)] == s4;
    NoSteps(lib, w0);
    OneStepMore(lib, w0, [], Fetch([], 1));
    OneStepMore(lib, w0, s1, Open);
    OneStepMore(lib, w0, s2, Save(0, c1, 2));
    OneStepMore(lib, w0, s3, EditOnServer(c2));
    OneStepMore(lib, w0, s4, Fetch([], 3));
    UnreadableEditAndFetch(lib, c0, c1, c2);
  }

  lemma NoSteps(lib: Library, w: World)
    ensures Run(lib, w, []) == w
  {
  }

  lemma OneStepMore(lib: Library, w: World, steps: seq<Step>, step: Step)
    ensures Run(lib, w, steps + [step]) == After(lib, Run(lib, w, steps), step)
  {
    assert (steps + [step])[..|steps|] == steps;
  }

  lemma UnreadableEditAndFetch(lib: Library, c0: string, c1: string, c2: string)
    requires lib.parse(c1).Unreadable? && c0 != c1 && c1 != c2 && c0 != c2
    ensures var w1 := After(lib, World(SyncedNote(c0, 1), [], c0), Fetch([], 1));
            var w4 := After(lib, After(lib, After(lib, w1, Open), Save(0, c1, 2)), EditOnServer(c2));
            var w5 := After(lib, w4, Fetch([], 3));
            && w4.note.ini == ContentIni(true, c1, Md5(c1)) && w4.note.baseHash == Md5(c0)
            && Available(w5.note) == Some(ContentIni(true, c2, Md5(c2)))
  {
    var w1 := After(lib, World(SyncedNote(c0, 1), [], c0), Fetch([], 1));
    assert After(lib, w1, Open).sessions[0] == Session(c0, Md5(c0), {c0});
  }

  lemma EmptyIsUnreadable()
    ensures WrittenDocuments().parse("").Unreadable?
  {
  }

  /** The guard is needed: a note edited in a session opened before its first push is saved with an empty base, and the
      next fetch stores the server's version over the edit. */
  lemma FirstPushLosesOpenEdit(lib: Library, c0: string, c1: string)
    requires c0 != c1
    ensures var w0 := World(CreatedNote(c0, 1), [], "");
            var edited := Run(lib, w0, [Open, Push(true, true, 2), Save(0, c1, 3)]);
            var fetched := Run(lib, w0, [Open, Push(true, true, 2), Save(0, c1, 3), Fetch([], 4)]);
            && IsStart(w0)
            && edited.note.ini.content == c1 && edited.note.baseHash == NoHash && edited.note.conflictDeferred
            && fetched.note.ini.content == c0 && fetched.server == c0
  {
    var w0 := World(CreatedNote(c0, 1), [], "");
    var s1, s2, s3 := [Open], [Open, Push(true, true, 2)], [Open, Push(true, true, 2), Save(0, c1, 3)];
    var s4 := [Open, Push(true, true, 2), Save(0, c1, 3), Fetch([], 4)];
    assert s1[..0] == [] && s2[..1] == s1 && s3[..2] == s2 && s4[..3] == s3;
    var w1 := After(lib, w0, Open);
    var w2 := After(lib, w1, Push(true, true, 2));
    var w3 := After(lib, w2, Save(0, c1, 3));
    assert Run(lib, w0, []) == w0 && Run(lib, w0, s1) == w1 && Run(lib, w0, s2) == w2;
    assert Run(lib, w0, s3) == w3 && Run(lib, w0, s4) == After(lib, w3, Fetch([], 4));
  }

  /** A save over a base that changed meanwhile defers a conflict, and the run that resolves it keeps the text of the
      edit beside that of the server's version, if and only if the edit was begun on a version that had been fetched or
      pushed, or the server has its text anyway. */
  lemma DeferredConflictKeepsEditIff(
    lib: Library, n: Note, edit: string, base: Hash, inc: set<string>, server: string, attachments: seq<Attachment>,
    saved: int, resolved: int)
    requires lib.Valid() && LeavePlainText(attachments) && Consistent(n) && n.hasGuid
    requires n.baseHash != NoHash && base != n.baseHash && Incorporates(inc, base) && Md5(edit) != base
    requires lib.IsPlain(edit) && lib.IsPlain(server)
    ensures var n1 := Saved(n, edit, base, inc, saved);
            var n2 := DeferredResolved(lib, n1, Some(server), attachments, resolved);
            var stored := Available(n2);
            var text := WithoutNbsp(lib.Text(edit));
            && n1.conflictDeferred && !n2.conflictDeferred && stored.Some?
            && (Contains(WithoutNbsp(lib.Text(stored.value.content)), text)
                <==> base != NoHash || Contains(WithoutNbsp(lib.Text(server)), text))
            && (base != Md5(server) ==>
                  Contains(WithoutNbsp(lib.Text(stored.value.content)), WithoutNbsp(lib.Text(server))))
  {
    hide Contains, LeavePlainText, Saved, Fetched, Consistent, IsEdited, Available, WithoutNbsp, Document,
      Library.Valid, Library.Text;
    var n1 := Saved(n, edit, base, inc, saved);
    SavedEdit(n, edit, base, inc, saved, server);
    ContainsItself(WithoutNbsp(lib.Text(edit)));
    ContainsItself(WithoutNbsp(lib.Text(server)));
    FetchOfSavedEdit(lib, n1, server, attachments, resolved);
    if edit != server {
      FetchKeepsEditTextIff(lib, n1, server, attachments, resolved);
      if base != NoHash && base != Md5(server) {
        FetchKeepsPlainTextEdit(lib, n1, server, attachments, resolved);
      }
    }
  }

  lemma SavedEdit(n: Note, edit: string, base: Hash, inc: set<string>, time: int, server: string)
    requires Consistent(n) && n.hasGuid && n.baseHash != NoHash && base != n.baseHash && Incorporates(inc, base)
    requires Md5(edit) != base
    ensures var n1 := Saved(n, edit, base, inc, time);
            && Consistent(n1) && n1.hasGuid && n1.conflictDeferred && n1.baseHash == base && n1.ini.valid
                && n1.ini.content == edit
            && (IsEdited(n1, server) <==> edit != server)
  {
  }

  /** A fetch with no base, or of what is stored already, stores what it fetches. */
  lemma FetchOfSavedEdit(lib: Library, n: Note, server: string, attachments: seq<Attachment>, time: int)
    requires Consistent(n) && n.ini.valid
    ensures var stored := Available(Fetched(lib, n, server, attachments, time));
            && (n.ini.content == server ==> stored.Some? && stored.value.content == server)
            && (n.baseHash == NoHash ==> stored.Some? && stored.value.content == server)
            && Available(Fetched(lib, n, server, attachments, time).(conflictDeferred := false)) == stored
  {
    hide ResolveConflict;
  }

  /** Until the conflict is resolved nothing is pushed over the newer version: a push then needs the server to have gone
      back to the very version the edit was begun on. */
  lemma ConflictingSaveBlocksPush(n: Note, edit: string, base: Hash, inc: set<string>, server: string, time: int)
    requires Consistent(n) && n.hasGuid && n.baseHash != NoHash && base != n.baseHash && base.Md5?
    ensures var n1 := GistSynced(Saved(n, edit, base, inc, time), server, time);
            n1.conflictDeferred && (ContentToPush(n1) == Some(edit) <==> base == Md5(server) && edit != server)
  {
  }
}
