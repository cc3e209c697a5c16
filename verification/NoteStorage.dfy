/** The stored note as the program keeps it: gist.ini, content.ini, the disk cache entry and the deferred-conflict
    list are read and written field by field. */
module NoteStorage {
  import opened EvernoteMarkup
  import opened NoteSync

  class StoredNote {
    // gist.ini
    var hasGuid: bool
    var createdHere: bool
    var favourite: bool
    var notebookId: string
    var offlineNotebookIds: seq<string>   // of the account
    var updatedTime: int
    var baseContentHash: Hash
    var syncContentHash: Hash
    // content.ini
    var contentValid: bool
    var content: string
    var contentHash: Hash
    // disk cache and sync ids list
    var cached: Option<Cached>
    var conflictDeferred: bool
    ghost var incorporated: set<string>

    ghost function State(): Note
      reads this
    {
      Note(hasGuid, createdHere, favourite, notebookId, offlineNotebookIds, updatedTime, baseContentHash,
          syncContentHash,
           ContentIni(contentValid, content, contentHash), cached, conflictDeferred, incorporated)
    }

    constructor Create(content: string, now: int)
      ensures State() == CreatedNote(content, now)
    {
      hasGuid, createdHere, updatedTime := false, true, now;
      favourite, notebookId, offlineNotebookIds := false, "", [];
      baseContentHash, syncContentHash := NoHash, NoHash;
      contentValid, this.content, contentHash := true, content, Md5(content);
      cached, conflictDeferred, incorporated := None, false, {};
    }

    method SetContent(newContent: string, newHash: Hash)
      modifies `contentValid, `content, `contentHash
      ensures State() == old(State()).(ini := ContentIni(true, newContent, newHash))
    {
      content := newContent;
      contentHash := newHash;
      contentValid := true;
    }

    method ClearContent()
      modifies `contentValid, `content, `contentHash
      ensures State() == old(State()).(ini := NO_CONTENT)
    {
      contentValid := false;
      content := "";
      contentHash := NoHash;
    }

    method NoteNeedsToBeAvailableOffline() returns (needed: bool)
      ensures needed == NeedsOffline(State())
    {
      if createdHere {
        return true;
      }
      if favourite {
        return true;
      }
      if notebookId in offlineNotebookIds {
        return true;
      }
      needed := false;
    }

    /** The content part of the note's data: content.ini, or the cache when it holds the server's version. */
    method NoteData() returns (available: Option<ContentIni>)
      ensures available == Available(State())
    {
      if contentValid {
        return Some(ContentIni(true, content, contentHash));
      }
      if cached.Some? && cached.value.hash != NoHash && cached.value.hash == syncContentHash {
        return Some(ContentIni(true, cached.value.content, cached.value.hash));
      }
      available := None;
    }

    method UpdateNoteTitleAndContent(newContent: string, baseHash: Hash, now: int, ghost inc: set<string>)
      modifies this
      ensures State() == Saved(old(State()), newContent, baseHash, inc, now)
    {
      var currentBaseContentHash := baseContentHash;
      updatedTime := now;
      baseContentHash := baseHash;
      var newHash := Md5(newContent);
      var contentChanged := !contentValid || contentHash != newHash;
      if contentChanged {
        SetContent(newContent, newHash);
        incorporated := inc;
      } else {
        incorporated := incorporated + inc;
      }
      if currentBaseContentHash != NoHash && currentBaseContentHash != baseHash {
        conflictDeferred := true;
      }
    }

    method AppendTextToNote(newContent: string, baseHash: Hash, now: int, ghost inc: set<string>)
      modifies this
      ensures State() == Appended(old(State()), newContent, baseHash, inc, now)
    {
      var newHash := Md5(newContent);
      var contentChanged := !contentValid || contentHash != newHash;
      if contentChanged {
        SetContent(newContent, newHash);
        incorporated := inc;
      }
      var currentBaseContentHash := NoHash;
      if contentChanged {
        currentBaseContentHash := baseContentHash;
        baseContentHash := baseHash;
        updatedTime := now;
      }
      if currentBaseContentHash != NoHash && currentBaseContentHash != baseHash {
        conflictDeferred := true;
      }
    }

    method SetSyncedNoteGist(serverContentHash: Hash, serverTime: int)
      requires serverContentHash.Md5?
      modifies this
      ensures State() == GistSynced(old(State()), serverContentHash.content, serverTime)
    {
      hasGuid := true;
      syncContentHash := serverContentHash;
      updatedTime := serverTime;
    }

    method SetFetchedNoteContent(lib: Library, serverContent: string, attachments: seq<Attachment>, serverTime: int)
      modifies this
      ensures State() == Fetched(lib, old(State()), serverContent, attachments, serverTime)
    {
      hide ResolveConflict, FetchStored;
      var fetchedHash := Md5(serverContent);
      var resolvedContent, isConflict := "", false;
      var currentBaseContentHash, lastUpdatedTime := baseContentHash, updatedTime;
      if currentBaseContentHash != NoHash {
        if currentBaseContentHash == fetchedHash {
          if contentValid {
            return;
          }
        } else if contentValid && contentHash != currentBaseContentHash && contentHash != fetchedHash {
          var (resolved, ok) := ResolveConflict(lib, serverContent, content, lastUpdatedTime, attachments);
          resolvedContent := resolved;
          if ok && serverContent != resolvedContent {
            isConflict := true;
          }
        }
      }
      StoreFetched(serverContent, fetchedHash, if isConflict then Some(resolvedContent) else None, serverTime);
    }

    /** The start of a run: a note with a deferred conflict is fetched, which may fail, and the record is cleared. */
    method ResolveDeferredConflict(
      lib: Library, fetched: Option<string>, attachments: seq<Attachment>, serverTime: int)
      modifies this
      ensures State() == DeferredResolved(lib, old(State()), fetched, attachments, serverTime)
    {
      hide Fetched;
      if conflictDeferred {
        if hasGuid && fetched.Some? {
          SetFetchedNoteContent(lib, fetched.value, attachments, serverTime);
        }
        conflictDeferred := false;
      }
    }

    method StoreFetched(serverContent: string, fetchedHash: Hash, resolution: Option<string>, serverTime: int)
      requires fetchedHash == Md5(serverContent)
      modifies this
      ensures State() == FetchStored(old(State()), serverContent, resolution, serverTime)
    {
      if resolution.Some? {
        SetContent(resolution.value, Md5(resolution.value));
        incorporated := incorporated + {serverContent};
      } else {
        var offline := NoteNeedsToBeAvailableOffline();
        if offline {
          SetContent(serverContent, fetchedHash);
          incorporated := {serverContent};
        } else {
          ClearContent();
          cached := Some(Cached(serverContent, fetchedHash));
          incorporated := {};
        }
      }
      baseContentHash := fetchedHash;
      syncContentHash := fetchedHash;
      updatedTime := serverTime;
    }

    method SetPushedNote(pushedContent: string, pushedHash: Hash, serverTime: int)
      modifies this
      ensures State() == PushRecorded(old(State()), pushedContent, pushedHash, serverTime)
    {
      baseContentHash := pushedHash;
      syncContentHash := pushedHash;
      updatedTime := serverTime;
      if contentValid && contentHash == pushedHash {
        var offline := NoteNeedsToBeAvailableOffline();
        if !offline {
          ClearContent();
          if hasGuid {
            cached := Some(Cached(pushedContent, pushedHash));
          }
          incorporated := {};
        } else {
          incorporated := incorporated + {pushedContent};
        }
      }
    }

    /** The push of the note: what is sent, if anything, and what is recorded when the server accepts it. */
    method PushNote(accepted: bool, guidReturned: bool, serverTime: int) returns (sent: Option<string>)
      modifies this
      ensures sent == ContentToPush(old(State()))
      ensures State() == if accepted then Pushed(old(State()), guidReturned, serverTime) else old(State())
    {
      var available := NoteData();
      if available.None? || available.value.hash == NoHash {
        return None;
      }
      if syncContentHash != baseContentHash {
        return None;
      }
      var isPushingContent := !hasGuid || baseContentHash == NoHash || available.value.hash != baseContentHash;
      if !isPushingContent {
        return None;
      }
      sent := Some(available.value.content);
      if accepted {
        if !hasGuid && guidReturned {
          hasGuid := true;
        }
        SetPushedNote(available.value.content, available.value.hash, serverTime);
      }
    }

    method TryMakeNoteContentAvailableOfflineWithCachedData() returns (ok: bool)
      modifies this
      ensures State() == MadeAvailable(old(State())) && ok == contentValid
    {
      if contentValid {
        return true;
      }
      if !hasGuid {
        return false;
      }
      if cached.Some? {
        SetContent(cached.value.content, cached.value.hash);
        incorporated := {cached.value.content};
        return true;
      }
      ok := false;
    }

    method MakeNoteContentUnavailableOfflineIfUnedited()
      modifies this
      ensures State() == MadeUnavailable(old(State()))
    {
      if baseContentHash == NoHash {
        return;
      }
      if !contentValid || contentHash == NoHash {
        return;
      }
      if baseContentHash != contentHash {
        return;
      }
      if !hasGuid {
        return;
      }
      var alreadyInCache := cached.Some? && cached.value.hash == contentHash;
      if !alreadyInCache {
        cached := Some(Cached(content, contentHash));
      }
      ClearContent();
      incorporated := {};
    }
  }
}
