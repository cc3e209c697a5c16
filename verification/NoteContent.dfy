/** What a note shows, keeps and sends: after each operation, and over whole runs. */
module NoteContent {
  import opened EvernoteMarkup
  import opened NoteSync

  /** content.ini as it is when it holds exactly this content. */
  function Holding(content: string): ContentIni {
    ContentIni(true, content, Md5(content))
  }

  predicate Shows(n: Note, content: string) {
    Available(n) == Some(Holding(content))
  }

  lemma {:induction false} RunConcat(lib: Library, w: World, a: seq<Step>, b: seq<Step>)
    ensures Run(lib, w, a + b) == Run(lib, Run(lib, w, a), b)
    decreases |b|
  {
    hide After;
    if b == [] {
      assert a + b == a;
    } else {
      var front := b[..|b| - 1];
      assert (a + b)[..|a + b| - 1] == a + front;
      RunConcat(lib, w, a, front);
    }
  }

  // Saving

  /** A save or an append stores exactly what is saved, whatever was stored and on whatever base it was begun. It
      defers a conflict if and only if the note has got another base since. An append that changes nothing leaves the
      note as it is, time and base included. */
  lemma SaveIsShown(n: Note, content: string, base: Hash, inc: set<string>, time: int)
    requires Consistent(n)
    ensures var saved, appended := Saved(n, content, base, inc, time), Appended(n, content, base, inc, time);
            && saved.ini == appended.ini == Holding(content) && Shows(saved, content) && Shows(appended, content)
            && saved.baseHash == base && saved.updatedTime == time
            && (saved.conflictDeferred <==> n.conflictDeferred || (n.baseHash.Md5? && n.baseHash != base))
            && appended == if n.ini == Holding(content) then n else saved
  {
  }

  /** What reading the note, other clients, a refused push and a full cache do. */
  predicate IsReading(step: Step) {
    match step
    case Open => true
    case SyncGist(_) => true
    case Push(accepted, _, _) => !accepted
    case MakeAvailable => true
    case WantOffline(_, _, _) => true
    case Evict => true
    case EditOnServer(_) => true
    case _ => false
  }

  lemma {:induction false} ReadingKeepsIni(lib: Library, w: World, steps: seq<Step>)
    requires w.note.ini.valid && forall i :: 0 <= i < |steps| ==> IsReading(steps[i])
    ensures var w' := Run(lib, w, steps);
            && w'.note.ini == w.note.ini && w'.note.baseHash == w.note.baseHash
            && w'.note.conflictDeferred == w.note.conflictDeferred && w.sessions <= w'.sessions
  {
    hide After, IsReading;
    if steps != [] {
      ReadingKeepsIni(lib, w, steps[..|steps| - 1]);
      ReadingStep(lib, Run(lib, w, steps[..|steps| - 1]), steps[|steps| - 1]);
    }
  }

  lemma ReadingStep(lib: Library, w: World, step: Step)
    requires IsReading(step)
    ensures var w' := After(lib, w, step);
            && (w.note.ini.valid ==> w'.note.ini == w.note.ini) && w'.note.baseHash == w.note.baseHash
            && w'.note.conflictDeferred == w.note.conflictDeferred && w.sessions <= w'.sessions
            && (IsUpToDate(w) && !step.EditOnServer? ==> IsUpToDate(w') && w'.server == w.server)
  {
    hide ContentToPush;
  }

  /** In every run: what was saved or appended last is what the note shows, until it is fetched, pushed or moved. */
  lemma SavedStaysShown(
    lib: Library, w: World, before: seq<Step>, save: Step, after: seq<Step>)
    requires IsStart(w) && (save.Save? || save.Append?) && save.session < |Run(lib, w, before).sessions|
    requires forall i :: 0 <= i < |after| ==> IsReading(after[i])
    ensures Shows(Run(lib, w, before + [save] + after).note, save.content)
  {
    hide IsReading, Run, Saved, Appended, Inv;
    var w1 := Run(lib, w, before);
    RunKeepsInv(lib, w, before);
    InvIsConsistent(w1);
    var session := w1.sessions[save.session];
    SaveIsShown(w1.note, save.content, session.base, session.incorporated, save.time);
    OneStepMore(lib, w, before, save);
    RunConcat(lib, w, before + [save], after);
    ReadingKeepsIni(lib, Run(lib, w, before + [save]), after);
  }

  lemma InvIsConsistent(w: World)
    requires Inv(w)
    ensures Consistent(w.note)
  {
  }

  // Fetching

  /** A fetch that meets no edit stores exactly the fetched version: in content.ini if it is wanted there or is there
      already, else in the cache. Only when it is there already is the synced hash left as it was. */
  lemma FetchStoresServerVersion(lib: Library, n: Note, content: string, attachments: seq<Attachment>, time: int)
    requires Consistent(n) && !IsEdited(n, content)
    ensures var n' := Fetched(lib, n, content, attachments, time);
            var isThere := n.ini.valid && n.baseHash == Md5(content);
            && Shows(n', content) && n'.baseHash == Md5(content)
            && (n'.ini.valid <==> isThere || NeedsOffline(n))
            && (!n'.ini.valid ==> n'.cache == Some(Cached(content, Md5(content))))
            && (n'.syncHash == Md5(content) <==> !isThere || n.syncHash == Md5(content))
  {
    hide ResolveConflict;
  }

  /** Some version that the server had during the run is this one. */
  ghost predicate ServerHad(lib: Library, w: World, steps: seq<Step>, content: string) {
    exists k :: 0 <= k <= |steps| && Run(lib, w, steps[..k]).server == content
  }

  lemma ServerHasNow(lib: Library, w: World, steps: seq<Step>)
    ensures ServerHad(lib, w, steps, Run(lib, w, steps).server)
  {
    hide Run;
    assert steps[..|steps|] == steps;
  }

  lemma ServerHadBefore(lib: Library, w: World, steps: seq<Step>, content: string)
    requires steps != [] && ServerHad(lib, w, steps[..|steps| - 1], content)
    ensures ServerHad(lib, w, steps, content)
  {
    hide Run;
    var front := steps[..|steps| - 1];
    var k :| 0 <= k <= |front| && Run(lib, w, front[..k]).server == content;
    assert front[..k] == steps[..k];
  }

  /** The note is as it was fetched: both stores hold the base version at most. */
  predicate IsUnedited(n: Note) {
    && n.hasGuid && Consistent(n)
    && (n.ini.valid ==> n.ini.hash == n.baseHash)
    && (n.baseHash == NoHash ==> n.cache.None?)
  }

  lemma UneditedIsNotSent(n: Note)
    requires IsUnedited(n)
    ensures ContentToPush(n) == None
  {
  }

  lemma FetchedIsUnedited(lib: Library, n: Note, content: string, attachments: seq<Attachment>, time: int)
    requires IsUnedited(n)
    ensures var n' := Fetched(lib, n, content, attachments, time); IsUnedited(n') && n'.baseHash == Md5(content)
  {
    hide ResolveConflict;
  }

  lemma UneditedStep(lib: Library, w: World, step: Step)
    requires IsUnedited(w.note) && !step.Save? && !step.Append?
    ensures var w' := After(lib, w, step);
            IsUnedited(w'.note) && (w'.note.baseHash == w.note.baseHash || w'.note.baseHash == Md5(w.server))
  {
    hide Fetched, ContentToPush;
    UneditedIsNotSent(w.note);
    match step {
      case Fetch(attachments, time) => FetchedIsUnedited(lib, w.note, w.server, attachments, time);
      case ResolveDeferred(_, attachments, time) => FetchedIsUnedited(lib, w.note, w.server, attachments, time);
      case _ =>
    }
  }

  lemma {:induction false} UneditedRun(lib: Library, w: World, steps: seq<Step>)
    requires w.note == SyncedNote(w.server, w.note.updatedTime)
    requires forall i :: 0 <= i < |steps| ==> !steps[i].Save? && !steps[i].Append?
    ensures var n := Run(lib, w, steps).note;
            IsUnedited(n) && (n.baseHash == NoHash || ServerHad(lib, w, steps, n.baseHash.content))
  {
    hide After, ServerHad, IsUnedited;
    if steps == [] {
      SyncedIsUnedited(w.server, w.note.updatedTime);
    } else {
      var front, step := steps[..|steps| - 1], steps[|steps| - 1];
      var w1 := Run(lib, w, front);
      UneditedRun(lib, w, front);
      UneditedStep(lib, w1, step);
      ServerHasNow(lib, w, front);
      ServerHadBefore(lib, w, steps, w1.server);
      if w1.note.baseHash != NoHash {
        ServerHadBefore(lib, w, steps, w1.note.baseHash.content);
      }
    }
  }

  lemma SyncedIsUnedited(server: string, time: int)
    ensures IsUnedited(SyncedNote(server, time)) && SyncedNote(server, time).baseHash == NoHash
  {
  }

  lemma UneditedShowsBase(n: Note)
    requires IsUnedited(n) && Available(n).Some?
    ensures n.baseHash.Md5? && Shows(n, n.baseHash.content)
  {
  }

  /** In every run in which the user does not write: nothing is sent, what is shown is a version that the server had on
      the way, and a fetch shows exactly the version that the server has. */
  lemma UneditedShowsServerVersion(
    lib: Library, w: World, steps: seq<Step>, attachments: seq<Attachment>, time: int)
    requires w.note == SyncedNote(w.server, w.note.updatedTime)
    requires forall i :: 0 <= i < |steps| ==> !steps[i].Save? && !steps[i].Append?
    ensures var n := Run(lib, w, steps).note;
            && ContentToPush(n) == None
            && (Available(n).Some? ==>
                  Shows(n, Available(n).value.content) && ServerHad(lib, w, steps, Available(n).value.content))
    ensures Shows(Run(lib, w, steps + [Fetch(attachments, time)]).note, Run(lib, w, steps).server)
  {
    hide Run, ServerHad, Fetched, Available, ContentToPush;
    var w1 := Run(lib, w, steps);
    UneditedRun(lib, w, steps);
    UneditedIsNotSent(w1.note);
    if Available(w1.note).Some? {
      UneditedShowsBase(w1.note);
    }
    OneStepMore(lib, w, steps, Fetch(attachments, time));
    FetchStoresServerVersion(lib, w1.note, w1.server, attachments, time);
  }

  /** content.ini comes first. Without it the cached content is shown exactly while it is the version that the server is
      known to have: one that a gist has made out of date is not. */
  lemma ShownIff(n: Note)
    requires Consistent(n)
    ensures n.ini.valid ==> Shows(n, n.ini.content)
    ensures !n.ini.valid ==> (Available(n).Some? <==> n.cache.Some? && n.syncHash == n.baseHash)
    ensures !n.ini.valid && Available(n).Some? ==>
              n.syncHash.Md5? && Shows(n, n.syncHash.content) && n.cache.value.content == n.syncHash.content
  {
  }

  /** Whether or not the fetch succeeds, a deferred conflict is dealt with once; a failed one changes nothing else. */
  lemma ResolvedOnce(lib: Library, n: Note, content: Option<string>, attachments: seq<Attachment>, time: int)
    ensures var n' := DeferredResolved(lib, n, content, attachments, time);
            && !n'.conflictDeferred && DeferredResolved(lib, n', content, attachments, time) == n'
            && (content.None? || !n.hasGuid ==> n' == n.(conflictDeferred := false))
  {
    hide Fetched;
  }

  // Moving between the stores

  /** While the base is the synced version, moving the content between the stores does not change what is shown. It is
      moved in whenever there is some to move, and out if and only if it is not edited and the server has the note. */
  lemma MovesKeepShown(n: Note)
    requires Consistent(n)
    ensures MadeAvailable(n).ini.valid <==> n.ini.valid || n.cache.Some?
    ensures MadeUnavailable(n).ini.valid <==> n.ini.valid && (!n.hasGuid || n.ini.hash != n.baseHash)
    ensures n.syncHash == n.baseHash ==> Available(MadeAvailable(n)) == Available(MadeUnavailable(n)) == Available(n)
  {
  }

  // Sending

  /** What is sent is exactly an edit on the synced version, or a note that the server does not have. */
  lemma SentIsEdit(n: Note)
    requires Consistent(n)
    ensures ContentToPush(n) == if n.ini.valid && n.syncHash == n.baseHash && (!n.hasGuid || n.ini.hash != n.baseHash)
                then Some(n.ini.content) else None
  {
  }

  /** After the server has taken a note it shows what was sent, which is its base and synced version, and is not sent
      again, unless the server named no guid for it. */
  lemma PushSettles(n: Note, guidReturned: bool, time: int)
    requires Consistent(n) && ContentToPush(n).Some?
    ensures var n' := Pushed(n, guidReturned, time);
            && Shows(n', ContentToPush(n).value)
            && n'.baseHash == n'.syncHash == Md5(ContentToPush(n).value)
            && (ContentToPush(n') == None <==> n.hasGuid || guidReturned)
            && (n'.ini.valid <==> NeedsOffline(n))
  {
  }

  /** An ordinary edit: the note is up to date when it is opened, and nobody else writes before the push. */
  function EditAndPush(
    before: seq<Step>, session: nat, content: string, saved: int, after: seq<Step>, pushed: int): seq<Step>
  {
    [Open] + before + [Save(session, content, saved)] + after + [Push(true, false, pushed)]
  }

  predicate IsUpToDate(w: World) {
    w.note.hasGuid && w.note.baseHash == w.note.syncHash == Md5(w.server)
  }

  lemma {:induction false} ReadingKeepsUpToDate(lib: Library, w: World, steps: seq<Step>)
    requires IsUpToDate(w) && forall i :: 0 <= i < |steps| ==> IsReading(steps[i]) && !steps[i].EditOnServer?
    ensures var w' := Run(lib, w, steps);
            && IsUpToDate(w') && w'.server == w.server && w.sessions <= w'.sessions
            && w'.note.conflictDeferred == w.note.conflictDeferred
  {
    hide After, IsReading, IsUpToDate;
    if steps != [] {
      ReadingKeepsUpToDate(lib, w, steps[..|steps| - 1]);
      ReadingStep(lib, Run(lib, w, steps[..|steps| - 1]), steps[|steps| - 1]);
    }
  }

  lemma {:induction false} InvKept(lib: Library, w: World, steps: seq<Step>)
    requires Inv(w)
    ensures Inv(Run(lib, w, steps))
  {
    hide After, Inv;
    if steps != [] {
      InvKept(lib, w, steps[..|steps| - 1]);
      StepKeepsInv(lib, Run(lib, w, steps[..|steps| - 1]), steps[|steps| - 1]);
    }
  }

  lemma OpenedUpToDate(lib: Library, w: World)
    requires IsUpToDate(w) && Available(w.note).Some?
    ensures var w' := After(lib, w, Open);
            && w' == w.(sessions := w'.sessions) && |w'.sessions| == |w.sessions| + 1
            && w'.sessions[|w.sessions|].base == w.note.baseHash
            && w'.sessions[|w.sessions|].content == Available(w.note).value.content
  {
  }

  lemma SavedUpToDate(lib: Library, w: World, session: nat, content: string, time: int)
    requires Consistent(w.note) && IsUpToDate(w) && session < |w.sessions|
    requires w.sessions[session].base == w.note.baseHash
    ensures var w' := After(lib, w, Save(session, content, time));
            && IsUpToDate(w') && w'.note.ini == Holding(content) && w'.note.conflictDeferred == w.note.conflictDeferred
            && w' == w.(note := w'.note)
  {
  }

  lemma PushedUpToDate(lib: Library, w: World, content: string, time: int)
    requires Consistent(w.note) && IsUpToDate(w) && w.note.ini == Holding(content) && content != w.server
    ensures var w' := After(lib, w, Push(true, false, time));
            && IsUpToDate(w') && w'.server == content && Shows(w'.note, content) && ContentToPush(w'.note) == None
            && w'.note.conflictDeferred == w.note.conflictDeferred && w'.sessions == w.sessions
  {
  }

  /** It reaches the server, however often the note is read meanwhile, and defers no conflict. */
  lemma OrdinaryEditReachesServer(
    lib: Library, w: World, before: seq<Step>, content: string, saved: int, after: seq<Step>, pushed: int)
    requires Inv(w) && IsUpToDate(w) && Available(w.note).Some? && content != w.server
    requires forall i :: 0 <= i < |before| ==> IsReading(before[i]) && !before[i].EditOnServer?
    requires forall i :: 0 <= i < |after| ==> IsReading(after[i]) && !after[i].EditOnServer?
    ensures var k := |w.sessions|;
            var w' := Run(lib, w, EditAndPush(before, k, content, saved, after, pushed));
            && w'.server == content && Shows(w'.note, content) && IsUpToDate(w')
            && w'.note.conflictDeferred == w.note.conflictDeferred && ContentToPush(w'.note) == None
            && |w'.sessions| > k && w'.sessions[k].content == Available(w.note).value.content
  {
    hide After, Run, Inv, IsReading, IsUpToDate, ContentToPush, Available, Consistent;
    var k := |w.sessions|;
    var save, push := Save(k, content, saved), Push(true, false, pushed);
    var s1, s2 := [Open], [Open] + before;
    var s3, s4 := s2 + [save], s2 + [save] + after;
    var w1, w2, w3, w4 := Run(lib, w, s1), Run(lib, w, s2), Run(lib, w, s3), Run(lib, w, s4);
    NoSteps(lib, w);
    OneStepMore(lib, w, [], Open);
    assert [] + [Open] == s1;
    OpenedUpToDate(lib, w);
    UpToDateFrame(w, w1);
    RunConcat(lib, w, s1, before);
    ReadingKeepsUpToDate(lib, w1, before);
    ReadingKeepsBase(lib, w1, before);
    InvKept(lib, w, s2);
    InvIsConsistent(w2);
    OneStepMore(lib, w, s2, save);
    SavedUpToDate(lib, w2, k, content, saved);
    RunConcat(lib, w, s3, after);
    ReadingKeepsUpToDate(lib, w3, after);
    ReadingKeepsIni(lib, w3, after);
    InvKept(lib, w, s4);
    InvIsConsistent(w4);
    OneStepMore(lib, w, s4, push);
    PushedUpToDate(lib, w4, content, pushed);
  }

  lemma UpToDateFrame(w: World, w': World)
    requires IsUpToDate(w) && w' == w.(sessions := w'.sessions)
    ensures IsUpToDate(w')
  {
  }

  /** The base of an up-to-date note is the server's version, before and after reading. */
  lemma ReadingKeepsBase(lib: Library, w: World, steps: seq<Step>)
    requires IsUpToDate(w) && forall i :: 0 <= i < |steps| ==> IsReading(steps[i]) && !steps[i].EditOnServer?
    ensures Run(lib, w, steps).note.baseHash == w.note.baseHash
  {
    hide Run, IsReading;
    ReadingKeepsUpToDate(lib, w, steps);
  }
}
