# Notekeeper: models and proofs

A Dafny project that models the parts of the Notekeeper note program whose correctness is hardest to see from one
function: the protocol by which the content of a note is synchronized, the encrypted settings file, the redundant index
of notes, notebooks and tags with the list views that follow it, and local search. `dafny verify dfyconfig.toml` checks
everything.

Where the program changes things in place, so does the model: the cipher, the stored note, the synchronizer, the storage
manager, the chunk processor and the list model are classes whose methods loop and assign. Each method is proved against
a function of the old state, and the theorems are about those functions.

| component | files | main results |
|---|---|---|
| Note content sync | `NoteSync`, `NoteContent`, `NoteStorage`, `Markup`, `MarkupMedia` | what was saved last is shown, an ordinary edit reaches the server, and a note nobody edits shows the server's versions and is never sent; a push never overwrites a synced server version unseen; the disk cache only ever stands in for the base version; the text of an edit survives whole runs; exactly when an edit survives a fetch, be it plain text, rich or unreadable |
| USN cursor and pull | `UsnCursor`, `PullModel`, `PullTracking`, `PullEffects`, `PullOrder`, `ChunkProcessor` | no change of another client is skipped, under any interleaving and abort, and a new run catches up; the order of arrival does not matter, and exactly when the last version of a note stands |
| Encrypted settings | `Bytes`, `Feistel`, `Blowfish`, `BlowfishNumbers`, `Padding`, `QBlowfish`, `Crypto` | the in-place cipher is a Feistel network, a recurrence in numbers, and is inverted; the key schedule is the only solution of its slot equations; settings are read back, and exactly the files with the right marker and digest are accepted |
| Index | `IdLists`, `StorageIndex`, `StorageInvariants`, `StorageRuns`, `PlainAccount`, `TrashRoundTrip`, `StorageManager`, `ReachableFailures` | every run of allowed operations keeps all links in agreement, and an operation is allowed exactly when it does; the index refines an account without lists |
| List views | `NoteOrder`, `NotesViews`, `NotesViewSteps`, `NotesViewRuns`, `AccountViews`, `NotesListModel`, `NotesSignals` | a loaded view shows exactly the notes that belong in it; exactly when an incremental view equals a reload, for one operation and throughout a run; exactly when the list of all notes stays newest first |
| Search | `Search`, `SearchTerms` | parsing undoes printing; the early-exit loop means an order-aware specification; exactly which notes a query reports, from its text on |

Some promises do not hold of the code as it is. For each there is the exact condition under which it does, and a run in
which it fails:

* An edit begun before the first push of a note and saved after it is stored with an empty base hash; the next fetch
  replaces it (`FetchKeepsEditTextIff`, `FirstPushLosesOpenEdit`). So does a fetch when one of the versions cannot be
  read (`UnreadableEditStandsIff`, `UnreadableEditReplaced`).
* Restoring a note that is in no notebook names the default notebook in the gist without listing the note there
  (`RestoredKeepsIff`, `RestoreOutsideNotebook`).
* Creating a notebook by the name of the note's own notebook takes the note out of its list
  (`NotebookCreatedKeepsIff`, `CreateEmptiesNotebook`).
* A fetched or pushed note is reordered in the views but not in the list of all notes (`StepKeepsOrderIff`,
  `SyncedNoteFollowsIff`, `SyncedNoteOutOfOrder`).
* The view of all notes does not show a restored note; a view puts a note that joins it after the notes of the same time,
  wherever the list of all notes has it; setting the notebook, a tag or the favourite flag of a trashed note puts it in a
  view, and so does expunging its notebook (`ViewFollowsIff`, `RestoredNoteNotShown`, `SameTimeJoinsLater`,
  `TrashedNoteJoinsView`, `ExpungedNotebookShowsTrashed`).
* A note that is sent twice in one pull can end in the notebook of the older version, or keep a tag of it, when that
  comes after the newer version (`SecondVersionStandsIff`, `SecondVersionMisplaced`).
* The saved cursor goes back when a chunk that leaves its highest number unset is processed (`CursorGoesBackIff`,
  `EmptyChunkMovesCursorBack`).

By design, escaping turns no-break spaces into spaces (`EscapeRoundTrip`), and decryption accepts paddings that
encryption never writes (`DecryptThenEncrypt`); the conditions say for which inputs.

What libraries do enters as parameters: function values for SHA-1, UTF-8, character classes, the XML reader, rich-text
markup and dates; MD5 is an injective constructor; clocks and server answers are arguments. Of the reader it is assumed
that it gives back the text of a document this program writes, for characters it can carry and attachments without text
behind them (`WrittenDocumentsAreRead` gives a reader that meets this, as `FourByteCharsAreValid` gives an encoding that
meets what the settings need, and `AsciiFoldsLetters` a case folding that meets what the qualifiers of search terms need);
the attachments that a merge gets have none (`attachmentsData`, src/storage/storagemanager.cpp:2158-2193).
Ids are numbers counted from 1, with 0 for the empty id; `IdLists` connects lists of ids with the comma-joined strings of
the files. The name maps of notebooks and tags enter as the id they give for a name. `incorporated` in `NoteSync`, `live`
in `StorageIndex` and `processed` in `UsnCursor` are bookkeeping that no operation reads.

## Model

| member | source | states |
|---|---|---|
| `NoteSync.StepKeepsInv` | src/storage/storagemanager.cpp:203-635 | every step (open, save, append, gist, fetch, push, resolving a deferred conflict, offline and cache moves, eviction, server edit) keeps: content.ini incorporates the version named by the base hash, and the cache holds only the base version |
| `NoteSync.RunKeepsInv` | src/storage/storagemanager.cpp:203-635 | so does every run from a note created here or first heard of from the server |
| `NoteSync.PushOverwritesOnlySeenVersions` | src/cloud/evernote/evernotesync/evernoteaccess.cpp:871-889 | in every run, what a push sends is content.ini and incorporates the last synced server version, because of the guard on the two hashes |
| `NoteSync.CacheIsBaseVersion` | src/storage/storagemanager.cpp:2606-2668 | in every run, promoting cached content restores the base version, edited content is never demoted, and demoting then promoting changes nothing |
| `NoteSync.QuietServerKeepsEdit` | src/storage/storagemanager.cpp:511-668 | as long as the server has the version an edit is based on, the edit and its base survive any number of fetches, gists, deferred resolutions, moves between the stores, evictions and opens, in any order |
| `NoteSync.EditSurvivesRun` | src/storage/storagemanager.cpp:487-668 | over any run of newer plain-text versions from other clients, fetches, deferred resolutions, refused pushes, gists, moves between the stores, evictions and opens, in any order: the text of a plain-text edit with a base stays in content.ini as an edit to be pushed, or some version the server had on the way contains it |
| `NoteSync.FetchKeepsPlainTextEdit` | src/storage/storagemanager.cpp:511-584 | after a fetch of a newer version over an edit of a note with a base, the stored text contains both texts contiguously, whatever reader meets the contract for documents without text behind their attachments |
| `NoteSync.FetchKeepsEditTextIff` | src/storage/storagemanager.cpp:511-584 | for any plain-text edit and fetched version, the text of the edit is in what is stored afterwards if and only if the note has a base or the fetched version has that text anyway |
| `NoteSync.FetchKeepsRichEditIff` | src/storage/storagemanager.cpp:537-564 | when one of the versions is rich text, the same for the markup of the edit |
| `NoteSync.UnreadableEditStandsIff` | src/storage/storagemanager.cpp:537-564 | when one of the versions cannot be read, the edit stands if and only if the fetched version is its base; otherwise that version replaces it whole |
| `NoteSync.UnreadableEditReplaced` | src/storage/storagemanager.cpp:537-564 | a run in which an edit that cannot be read is replaced by the next version fetched |
| `NoteSync.FirstPushLosesOpenEdit` | src/storage/storagemanager.cpp:203-269 | a run in which an edit opened before the first push is lost by the next fetch |
| `NoteSync.ConflictingSaveBlocksPush` | src/storage/storagemanager.cpp:250-259 | after a save over a base that has changed, the edit is pushed if and only if the server goes back to the very version it was begun on and differs from it |
| `NoteSync.DeferredConflictKeepsEditIff` | src/cloud/evernote/evernotesync/evernoteaccess.cpp:529-537 | such a save defers a conflict; the run that resolves it clears the record, and what is stored then contains the text of the edit if and only if the edit had a base or the server has its text anyway, beside the text of the server |
| `NoteContent.SaveIsShown` | src/storage/storagemanager.cpp:216-264 | a save or an append stores exactly what is saved, on whatever base; it defers a conflict if and only if the base has changed; an append that changes nothing leaves the note as it is |
| `NoteContent.SavedStaysShown` | src/storage/storagemanager.cpp:203-269 | after any run whose last save or append of an open session wrote a content, followed by opens, gists, refused pushes, evictions and edits elsewhere in any order, the note shows exactly that content |
| `NoteContent.FetchStoresServerVersion` | src/storage/storagemanager.cpp:544-584 | a fetch that meets no edit stores exactly the fetched version, in content.ini if and only if it is wanted there or is there already, else in the cache, and makes it the base; the synced hash is left as it was exactly when it is there already |
| `NoteContent.UneditedShowsServerVersion` | src/storage/storagemanager.cpp:487-668 | in any run without saves and appends a note of the server is never sent, shows only versions the server had on the way and, after a fetch, exactly the one it has |
| `NoteContent.ShownIff` | src/storage/storagemanager.cpp:388-410 | without content.ini, cached content is shown if and only if it is the version the server is known to have |
| `NoteContent.ResolvedOnce` | src/cloud/evernote/evernotesync/evernoteaccess.cpp:529-537 | a deferred conflict is dealt with once, even if the fetch fails, which then changes nothing else |
| `NoteContent.MovesKeepShown` | src/storage/storagemanager.cpp:2606-2668 | content is moved in if there is some and out if and only if it is unedited and known to the server; while the base is the synced version neither changes what is shown |
| `NoteContent.SentIsEdit` | src/cloud/evernote/evernotesync/evernoteaccess.cpp:871-889 | what is pushed is exactly an edit on the synced version or a note the server does not have |
| `NoteContent.PushSettles` | src/storage/storagemanager.cpp:586-635 | after the server took a note it shows what was sent, which is base and synced version, and is not sent again if it has a guid |
| `NoteContent.OrdinaryEditReachesServer` | src/cloud/evernote/evernotesync/evernoteaccess.cpp:871-983 | an edit of an up-to-date note that nobody else changes reaches the server, however often the note is read in between, and defers no conflict |
| `NoteStorage.StoredNote.Create` | src/storage/storagemanager.cpp:138-171 | a note made on the device starts with valid content and no base |
| `NoteStorage.StoredNote.NoteNeedsToBeAvailableOffline` | src/storage/storagemanager.cpp:2530-2549 | a note made here, a favourite, or one in an offline notebook |
| `NoteStorage.StoredNote.NoteData` | src/storage/storagemanager.cpp:388-410 | content.ini if valid, else the cache if it holds the version the server is known to have |
| `NoteStorage.StoredNote.UpdateNoteTitleAndContent` | src/storage/storagemanager.cpp:203-269 | the field-by-field save is the transition `Saved` of the protocol |
| `NoteStorage.StoredNote.AppendTextToNote` | src/storage/storagemanager.cpp:2270-2332 | the append is `Appended`: base and conflict change only with the content |
| `NoteStorage.StoredNote.SetSyncedNoteGist` | src/storage/storagemanager.cpp:435-485 | the gist update is `GistSynced` |
| `NoteStorage.StoredNote.SetFetchedNoteContent` | src/storage/storagemanager.cpp:487-564 | the early return, the conflict test and the choice of store are `Fetched` |
| `NoteStorage.StoredNote.StoreFetched` | src/storage/storagemanager.cpp:544-584 | storing the fetched or merged version in content.ini or the cache is `FetchStored` |
| `NoteStorage.StoredNote.ResolveDeferredConflict` | src/cloud/evernote/evernotesync/evernoteaccess.cpp:529-537 | the fetch of a note with a deferred conflict is `DeferredResolved`: the record is cleared even if the fetch fails |
| `NoteStorage.StoredNote.SetPushedNote` | src/storage/storagemanager.cpp:586-635 | recording a push is `PushRecorded` |
| `NoteStorage.StoredNote.PushNote` | src/cloud/evernote/evernotesync/evernoteaccess.cpp:871-983 | sends exactly `ContentToPush` and ends in `Pushed` when accepted |
| `NoteStorage.StoredNote.TryMakeNoteContentAvailableOfflineWithCachedData` | src/storage/storagemanager.cpp:2606-2629 | promotion from the cache is `MadeAvailable` |
| `NoteStorage.StoredNote.MakeNoteContentUnavailableOfflineIfUnedited` | src/storage/storagemanager.cpp:2631-2668 | demotion to the cache is `MadeUnavailable` |
| `EvernoteMarkup.EscapedUtf8Html` | src/cloud/evernote/evernotesync/evernotemarkup.cpp:64-108 | the fragment-copying loop, which looks at what it has written, equals a definition by character and position in the text |
| `EvernoteMarkup.EscapeRoundTrip` | src/cloud/evernote/evernotesync/evernotemarkup.cpp:64-108 | decoding gives the text back if and only if it has no no-break space; otherwise those become spaces |
| `EvernoteMarkup.EscapedShape` | src/cloud/evernote/evernotesync/evernotemarkup.cpp:95-98 | no plain space at an end or next to another one, and no `<` except in a line break |
| `EvernoteMarkup.EscapedHasNoMarkup` | src/cloud/evernote/evernotesync/evernotemarkup.cpp:64-93 | no quotation mark, no line feed, and no `>` except in a line break |
| `EvernoteMarkup.SpacesAlternate` | src/cloud/evernote/evernotesync/evernotemarkup.cpp:95-98 | in a run of spaces inside a text every other one is plain, beginning with the first |
| `EvernoteMarkup.ConstructEnml` | src/cloud/evernote/evernotesync/evernotemarkup.cpp:110-127 | builds the document of the text and its attachments |
| `EvernoteMarkup.DocumentRoundTrip` | src/cloud/evernote/evernotesync/evernotemarkup.cpp:110-127 | the decoder of written documents finds the text, whatever attachments follow it |
| `EvernoteMarkup.EnmlFromPlainText` | src/cloud/evernote/evernotesync/evernotemarkup.cpp:129-139 | the title is the text before the first line break, and the document is that of the rest with the attachments; without a line break the document is empty |
| `EvernoteMarkup.MergeKeepsBothTexts` | src/cloud/evernote/evernotesync/evernotemarkup.cpp:648-695 | for any reader that gives back documents without text behind their attachments: the merge of two plain-text versions succeeds and contains both texts, in each of its three branches |
| `EvernoteMarkup.RichMergeKeepsBoth` | src/cloud/evernote/evernotesync/evernotemarkup.cpp:690-693 | the merge of other readable versions contains the markup of both |
| `MarkupMedia.AttachmentsRoundTrip` | src/cloud/evernote/evernotesync/evernotemarkup.cpp:110-127 | reading a written document finds its attachments in order, each with its hash, its type and the text behind it |
| `MarkupMedia.MergeIs` | src/cloud/evernote/evernotesync/evernotemarkup.cpp:672-689 | the merge of two plain-text versions is the one that is longer and has the text of the other after its beginning; else a document of the newer text, the heading and the older text, with the given attachments |
| `MarkupMedia.RichMergeIsInOrder` | src/cloud/evernote/evernotesync/evernotemarkup.cpp:690-692 | other merges have the newer markup before the older one, and the heading between them on one line |
| `UsnCursor.StepKeepsInv` | src/cloud/evernote/evernotesync/evernoteaccess.cpp:586-721 | every begin, chunk, push, stop and change of other clients keeps the cursor safe |
| `UsnCursor.RunKeepsInv` | src/cloud/evernote/evernotesync/evernoteaccess.cpp:586-721 | so does every sequence of them |
| `UsnCursor.NoChangeIsSkipped` | src/cloud/evernote/evernotesync/evernoteaccess.cpp:701-702 | from a new account on, every change numbered at or below the saved cursor was in a fully processed chunk or is this client's own |
| `UsnCursor.CursorGoesBackIff` | src/cloud/evernote/evernotesync/evernoteaccess.cpp:593-702 | the saved cursor decreases exactly when a chunk with an unset highest number is processed |
| `UsnCursor.EmptyChunkMovesCursorBack` | src/cloud/evernote/evernotesync/evernoteaccess.cpp:586-593 | a run from a new account in which that happens |
| `UsnCursor.PushAdvancesIff` | src/cloud/evernote/evernotesync/evernoteaccess.cpp:978-982 | a push moves the cursor by one, over a change of its own, if and only if it is answered, nothing came between what was seen and its changes, and the one reported is the first of them |
| `UsnCursor.NewRunCatchesUp` | src/cloud/evernote/evernotesync/evernoteaccess.cpp:563-721 | from any reachable state, a run with as many non-empty chunks as there are new changes, of whatever size, processes each of them and ends with the saved cursor at the last |
| `UsnCursor.Synchronizer.BeginRun` | src/cloud/evernote/evernotesync/evernoteaccess.cpp:563-586 | a run begins at the saved cursor |
| `UsnCursor.Synchronizer.PullChunk` | src/cloud/evernote/evernotesync/evernoteaccess.cpp:586-721 | one turn of the pull loop is one chunk step; the cursor is saved only after full processing |
| `UsnCursor.Synchronizer.PushChange` | src/cloud/evernote/evernotesync/evernoteaccess.cpp:758-761 | the result number moves the cursor only when it is the next one |
| `UsnCursor.Synchronizer.Synchronize` | src/cloud/evernote/evernotesync/evernoteaccess.cpp:586-983 | the pull loop and the push loop, with returns at any failure, are a run of steps |
| `UsnCursor.Synchronizer.PullFromQuiescentServer` | src/cloud/evernote/evernotesync/evernoteaccess.cpp:586-721 | turn by turn of the pull loop, against a quiescent server whose chunks are never empty, the loop ends with every change processed |
| `PullTracking.NotebookDelivery` | src/cloud/evernote/evernotesync/evernoteaccess.cpp:598-613 | a notebook takes the notes parked for it and changes no other note; guids keep standing for objects that exist, each for its own |
| `PullTracking.TagDelivery` | src/cloud/evernote/evernotesync/evernoteaccess.cpp:615-630 | the same for a tag, which is added to the tags of the notes parked for it |
| `PullTracking.NoteDelivery` | src/cloud/evernote/evernotesync/evernoteaccess.cpp:367-406 | a note, new or known, gets the notebook and exactly the tags that are known, is parked for the others on top of what it waited for, and no other note changes |
| `PullTracking.NotebookAfter` | src/cloud/evernote/evernotesync/evernoteaccess.cpp:598-613 | while other things come, a note is in the last notebook to come of those it waits for, or stays where it is |
| `PullTracking.TagsAfter` | src/cloud/evernote/evernotesync/evernoteaccess.cpp:615-630 | and gets exactly the tags that come of those it waits for |
| `PullEffects.LastDefaultStands` | src/cloud/evernote/evernotesync/evernoteaccess.cpp:605-607 | after a pull the default notebook is the last one that was sent as such, whatever else was sent |
| `PullEffects.LocalChangesStay` | src/cloud/evernote/evernotesync/evernoteaccess.cpp:632-647 | a note with local changes that waits for nothing keeps its notebook, its tags and its place in or out of the trash over any pull |
| `PullOrder.LastVersionStandsIff` | src/cloud/evernote/evernotesync/evernoteaccess.cpp:367-398 | whatever a note waits for from before and whatever comes later, it ends in the notebook and with the tags of its last version if and only if no notebook waited for comes later than that of the version, nor a tag that the version does not have |
| `PullOrder.SecondVersionStandsIff` | src/cloud/evernote/evernotesync/evernoteaccess.cpp:367-398 | the same in terms of two versions with any deliveries before, between and after: the notebook of the first is none, the same, known by then, never comes, or comes before that of the second, which is not known by then either; and each tag of the first only is known by then or never comes |
| `PullOrder.DeliveriesSound` | src/cloud/evernote/evernotesync/evernoteaccess.cpp:598-645 | after any sequence of deliveries with each note at most once, of new and of known notes, the index is sound |
| `PullOrder.ArrivalOrderDoesNotMatter` | src/cloud/evernote/evernotesync/evernoteaccess.cpp:367-406 | whatever the order, each note without local changes, known before or not, ends in exactly the notebook and with exactly the tags named, or in its own notebook if none is named, trashed or not, in gists and lists alike |
| `PullOrder.SecondVersionMisplaced` | src/cloud/evernote/evernotesync/evernoteaccess.cpp:370-379 | a run in which a note sent in two versions ends in the notebook of the older one |
| `ChunkProcessorClass.ChunkProcessor.ProcessNotebook` | src/cloud/evernote/evernotesync/evernoteaccess.cpp:598-613 | the replay loop over parked notes is the notebook delivery |
| `ChunkProcessorClass.ChunkProcessor.ProcessTag` | src/cloud/evernote/evernotesync/evernoteaccess.cpp:615-630 | the replay loop over parked notes is the tag delivery |
| `ChunkProcessorClass.ChunkProcessor.StoreNotebook` | src/cloud/evernote/evernotesync/evernoteaccess.cpp:369-379 | sets the notebook, parks the note, or does nothing, by what is known of the guid |
| `ChunkProcessorClass.ChunkProcessor.ParkTags` | src/cloud/evernote/evernotesync/evernoteaccess.cpp:381-397 | the loop collects the ids of known tags in order and parks the note for the others |
| `ChunkProcessorClass.ChunkProcessor.StoreNoteNotebooksTagsTrashedness` | src/cloud/evernote/evernotesync/evernoteaccess.cpp:367-406 | notebook, tags and trashedness are set as in the note delivery |
| `ChunkProcessorClass.ChunkProcessor.ProcessNote` | src/cloud/evernote/evernotesync/evernoteaccess.cpp:632-647 | a note is stored, and linked unless it has local changes that are not pushed |
| `ChunkProcessorClass.ChunkProcessor.ProcessChunk` | src/cloud/evernote/evernotesync/evernoteaccess.cpp:598-647 | the three loops over a chunk are its deliveries in sequence |
| `Feistel.DecipherInvertsEncipher` | src/3rdparty/qblowfish/src/qblowfish.cpp:174-277 | deciphering undoes enciphering for any round function and keys |
| `Feistel.EncipherInvertsDecipher` | src/3rdparty/qblowfish/src/qblowfish.cpp:174-277 | and conversely |
| `Feistel.DecipherIsEncipherReversed` | src/3rdparty/qblowfish/src/qblowfish.cpp:227-277 | deciphering is enciphering with the keys reversed |
| `Feistel.EncipherIsRecurrence` | src/3rdparty/qblowfish/src/qblowfish.cpp:174-226 | the network is a recurrence of two terms, one for each round key, whatever the round function is |
| `BlowfishNumbers.XorIsBitwise` | src/3rdparty/qblowfish/src/qblowfish.cpp:183-187 | a bit of the result is set exactly when the bits differ |
| `BlowfishNumbers.SumValue` | src/3rdparty/qblowfish/src/qblowfish.cpp:200 | addition of words is addition of their values modulo 2^32 |
| `BlowfishNumbers.RoundFunctionInNumbers` | src/3rdparty/qblowfish/src/qblowfish.cpp:189-201 | the bytes of the word select four table entries; the first two are added modulo 2^32, the third is combined by exclusive-or, the fourth added |
| `BlowfishNumbers.BlockInNumbers` | src/3rdparty/qblowfish/src/qblowfish.cpp:174-226 | the encryption of a block is the one end of the recurrence that this round function, the round keys and the block determine |
| `BlowfishSpec.BlockCipherInverse` | src/3rdparty/qblowfish/src/qblowfish.cpp:174-277 | for all tables and blocks each direction undoes the other |
| `BlowfishSpec.DecryptIsEncryptReversed` | src/3rdparty/qblowfish/src/qblowfish.cpp:227-277 | block decryption is block encryption under the P-array read backwards |
| `BlowfishSpec.ScheduleWritesInOrder` | src/3rdparty/qblowfish/src/qblowfish.cpp:138-168 | after k steps the first k slots are final and the others untouched |
| `BlowfishSpec.KeyIsAddedCyclically` | src/3rdparty/qblowfish/src/qblowfish.cpp:132-136 | what is added to the P-array is the key, over and over again, and nothing is added to the S-boxes |
| `BlowfishSpec.KeyScheduleCharacterised` | src/3rdparty/qblowfish/src/qblowfish.cpp:132-168 | the expanded tables are the one and only solution of: each slot is the encryption of the previous one under the tables as rewritten so far |
| `BlowfishSpec.BlocksInverse` | src/3rdparty/qblowfish/src/qblowfish.cpp:70-106 | whole-block strings are recovered in both directions |
| `BlowfishSpec.CipherRoundTrip` | src/3rdparty/qblowfish/src/qblowfish.cpp:49-108 | decryption gives the clear text back if and only if it is empty or the key is not and padding is on or the length is whole blocks; the padded length is 8 * (n / 8 + 1) |
| `BlowfishSpec.CipherTextBlock` | src/3rdparty/qblowfish/src/qblowfish.cpp:63-80 | each block of a cipher text is the encryption of the block of the padded text at its place |
| `BlowfishSpec.DecryptThenEncrypt` | src/3rdparty/qblowfish/src/qblowfish.cpp:96-104 | a foreign cipher text is given back exactly when its padding is one that encryption writes |
| `Padding.UnpadPadded` | src/3rdparty/qblowfish/src/qblowfish.cpp:56-61 | removing the padding undoes adding it |
| `Padding.UnpaddedIsPadded` | src/3rdparty/qblowfish/src/qblowfish.cpp:96-103 | and adding it again undoes removing it exactly for paddings of 1 to 8 that leave something |
| `QBlowfishClass.QBlowfish.FBytes` | src/3rdparty/qblowfish/src/qblowfish.cpp:174-226 | the bytes looked up in the four S-boxes are F of the word |
| `QBlowfishClass.QBlowfish.CoreEncrypt` | src/3rdparty/qblowfish/src/qblowfish.cpp:174-226 | the in-place byte loop replaces 8 bytes by their Feistel encryption and no other byte |
| `QBlowfishClass.QBlowfish.CoreDecrypt` | src/3rdparty/qblowfish/src/qblowfish.cpp:227-277 | likewise for decryption |
| `QBlowfishClass.QBlowfish.AddKey` | src/3rdparty/qblowfish/src/qblowfish.cpp:132-136 | the key is added cyclically to the P-array |
| `QBlowfishClass.QBlowfish.RewriteSlot` | src/3rdparty/qblowfish/src/qblowfish.cpp:162-166 | one pass encrypts the seed in place and copies it into the table: one step of the schedule |
| `QBlowfishClass.QBlowfish.RewriteTable` | src/3rdparty/qblowfish/src/qblowfish.cpp:161-167 | rewriting one table in place advances the schedule by its slots |
| `QBlowfishClass.QBlowfish.RewriteTables` | src/3rdparty/qblowfish/src/qblowfish.cpp:138-168 | the nested loops compute the whole schedule |
| `QBlowfishClass.QBlowfish.Init` | src/3rdparty/qblowfish/src/qblowfish.cpp:115-172 | expands the key once; a second call, or an empty key, changes nothing |
| `QBlowfishClass.QBlowfish.Encrypt` | src/3rdparty/qblowfish/src/qblowfish.cpp:49-80 | the object encrypts as the specification does, from its key and initial digits alone |
| `QBlowfishClass.QBlowfish.Decrypt` | src/3rdparty/qblowfish/src/qblowfish.cpp:82-108 | likewise for decryption |
| `DataStream.ReadBackU32` | src/storage/crypto/crypto.cpp:57-58 | a written number is read back, with the rest of the stream |
| `DataStream.ReadBackByteArray` | src/storage/crypto/crypto.cpp:71-74 | so is a length-prefixed byte array, null or not |
| `DataStream.ReadU32Iff` | src/storage/crypto/crypto.cpp:97-98 | four bytes are read as the one number that is written so, the most significant byte first |
| `Crypto.ReadBackEntries` | src/storage/crypto/crypto.cpp:65-128 | the reading loop inserts exactly the written entries that have a key |
| `Crypto.SettingsRoundTrip` | src/storage/crypto/crypto.cpp:52-132 | a written file is accepted and yields its entries, if and only if the key is not empty |
| `Crypto.SettingsMapRoundTrip` | src/storage/crypto/crypto.cpp:52-132 | a settings map is read back without its empty key |
| `Crypto.ReadAcceptsIff` | src/storage/crypto/crypto.cpp:92-132 | of all files exactly those are accepted that begin with the four bytes of the marker and whose clear text begins with the digest of its rest; any other leaves the map unchanged |
| `Crypto.DigestDecides` | src/storage/crypto/crypto.cpp:97-111 | a file that encrypts any clear text with the key is accepted if and only if its marker is the right one and the first 20 bytes of the text are the digest of the rest |
| `Crypto.CryptoState.WriteEncryptedSettings` | src/storage/crypto/crypto.cpp:52-90 | writes the specified file, creating the cipher object once |
| `Crypto.CryptoState.ReadEncryptedSettings` | src/storage/crypto/crypto.cpp:92-132 | reads it, with all its rejections |
| `IdLists.SplitOfJoin` | src/storage/storagemanager.cpp:3260-3299 | splitting undoes joining for ids without commas |
| `IdLists.WithIdReads` | src/storage/storagemanager.cpp:3260-3280 | adding an id to the string adds it in front of the list unless it is there |
| `IdLists.WithoutIdReadsIff` | src/storage/storagemanager.cpp:3282-3299 | removing an id from the string removes it from the list, except when only an empty id would remain |
| `IdLists.NewIdReads` | src/storage/storagemanager.cpp:3093-3101 | prepending the id of a new object to the string prepends it to the list |
| `IdLists.LastIdReads` | src/storage/storagemanager.cpp:1277-1281 | appending a tag id to the string appends it to the list |
| `IdLists.EditsKeepStored` | src/storage/storagemanager.cpp:3260-3299 | the edits keep strings of whole ids, for which removal is always exact |
| `StorageInvariants.NotebookCreatedIsMove` | src/storage/storagemanager.cpp:792-857 | creating a notebook around a note of another one is creating it empty and moving the note |
| `StorageInvariants.NotebookCreatedKeepsIff` | src/storage/storagemanager.cpp:820-845 | it keeps the index unless the note is in the existing notebook of that name |
| `StorageInvariants.NotebookSetKeeps` | src/storage/storagemanager.cpp:874-894 | moving a note keeps it in the list of exactly the notebook in its gist |
| `StorageInvariants.TagCreatedKeeps` | src/storage/storagemanager.cpp:1145-1196 | creating a tag, with or without a note, keeps the index |
| `StorageInvariants.TagsSetMembers` | src/storage/storagemanager.cpp:1226-1260 | the two loops put the note under the tags gained, take it off those lost, and change no other membership |
| `StorageInvariants.TagsSetKeepsIff` | src/storage/storagemanager.cpp:1226-1260 | setting tags keeps the index if and only if they are given once each and exist, or are tags the trashed note has already |
| `StorageInvariants.TagAddedKeepsIff` | src/storage/storagemanager.cpp:1262-1289 | adding a tag keeps the index if and only if it exists, is empty or is there already |
| `StorageInvariants.FavouriteSetKeeps` | src/storage/storagemanager.cpp:1414-1441 | the favourites list and the flags stay in agreement |
| `StorageInvariants.MovedToTrashKeeps` | src/storage/storagemanager.cpp:1451-1476 | trashing keeps the index, and the note is then listed under no tag |
| `StorageInvariants.RestoredKeepsIff` | src/storage/storagemanager.cpp:1478-1540 | restoring keeps the index if and only if the note is not trashed or its notebook exists or is the default |
| `StorageInvariants.NoteExpungedKeeps` | src/storage/storagemanager.cpp:1571-1590 | an expunged note is in no list of tags, trash, favourites or all notes; only a note expunged from the trash stays in the list of its notebook |
| `StorageInvariants.NoteExpungedFromTrashKeeps` | src/storage/storagemanager.cpp:1548-1569 | the same invariant for notes the server does not have |
| `StorageInvariants.NotebookExpungedKeeps` | src/storage/storagemanager.cpp:1592-1656 | exactly the notes of the notebook, trashed ones included, move to the default notebook |
| `StorageInvariants.NotebookExpungedKeepsIff` | src/storage/storagemanager.cpp:1592-1656 | the index is kept unless a notebook with notes goes away without a notebook to take them |
| `StorageInvariants.TagExpungedKeeps` | src/storage/storagemanager.cpp:1658-1694 | no note outside the trash keeps an expunged tag |
| `StorageInvariants.TimesKeep` | src/storage/storagemanager.cpp:673-696 | new times and reordering keep the index |
| `StorageRuns.StepSoundIff` | src/storage/storagemanager.cpp:792-1694 | an operation on existing objects keeps the index sound if and only if it is allowed, a test on ids a caller can make |
| `StorageRuns.RunKeepsSound` | src/storage/storagemanager.cpp:792-1694 | every run of allowed operations from the empty store keeps the notebook, tag, trash and favourite links in agreement and every note's notebook in existence |
| `StorageRuns.RunLinksAgree` | src/storage/storagemanager.cpp:3226-3236 | after any such run, for each note not expunged: its notebook exists and is the only one that lists it, so removal from that list finds it; it is in exactly one of all notes and trash; until trashed, exactly its existing tags list it, and the favourites do iff its flag is set |
| `PlainAccount.StepRefines` | src/storage/storagemanager.cpp:792-1694 | each allowed operation on the lists and gists does to an account without lists what it means: one note, notebook or tag changes as asked, and nothing else |
| `PlainAccount.RunRefines` | src/storage/storagemanager.cpp:138-1694 | so does every run of allowed operations from the empty store |
| `PlainAccount.DefaultTakesNewNotes` | src/storage/storagemanager.cpp:1064-1073 | the notebook chosen as the default becomes it, also when there is one already, and the next note made is listed in it and in no other |
| `ReachableFailures.RestoreOutsideNotebook` | src/storage/storagemanager.cpp:1499-1509 | an allowed run after which restoring a note names the default notebook in its gist only |
| `ReachableFailures.CreateEmptiesNotebook` | src/storage/storagemanager.cpp:826-845 | an allowed run after which creating a notebook by an existing name breaks the index |
| `TrashRoundTrip.TrashRestoreRoundTrip` | src/storage/storagemanager.cpp:1451-1540 | restoring undoes trashing: same gists, notebook and trash lists and members everywhere; the same order of all notes if and only if the note was the last of its age |
| `StorageManagerClass.StorageManager.NoteInsertionPositionInNotesList` | src/storage/storagemanager.cpp:637-671 | the loop finds the position before the first strictly older note |
| `StorageManagerClass.StorageManager.UpdateNotesListOrder` | src/storage/storagemanager.cpp:673-696 | takes the note out and inserts it by time |
| `StorageManagerClass.StorageManager.UpdateTimeOfNote` | src/storage/storagemanager.cpp:216-264 | a new time without, or with, a new place in the list of all notes |
| `StorageManagerClass.StorageManager.SetNotebookForNote` | src/storage/storagemanager.cpp:874-894 | the gist names the notebook, the note leaves the list of the old one and heads that of the new one; reports whether anything changed |
| `StorageManagerClass.StorageManager.CreateNote` | src/storage/storagemanager.cpp:138-171 | the next id, in front of all notes, in the default notebook |
| `StorageManagerClass.StorageManager.SetSyncedNoteGist` | src/storage/storagemanager.cpp:435-485 | creates the note, or gives it new times and reorders it when the time changes |
| `StorageManagerClass.StorageManager.SetDefaultNotebookId` | src/storage/storagemanager.cpp:1064-1073 | only an existing notebook becomes the default |
| `StorageManagerClass.StorageManager.CreateNotebook` | src/storage/storagemanager.cpp:792-857 | a new notebook heads the list of notebooks, an existing one is used; the note heads its list, is named in the gist and leaves its old list; the first notebook ever becomes the default |
| `StorageManagerClass.StorageManager.CreateTag` | src/storage/storagemanager.cpp:1145-1196 | likewise a new or existing tag; the note is listed under it and has it in front of its tags |
| `StorageManagerClass.StorageManager.AddToNewTags` | src/storage/storagemanager.cpp:1246-1253 | the loop with its shrinking set lists the note under the tags gained or given twice, and leaves the tags lost |
| `StorageManagerClass.StorageManager.SetTagsOnNote` | src/storage/storagemanager.cpp:1226-1260 | the gist has the given tags in the given order, the note is listed under those gained and no longer under those lost; reports whether the set of tags changed |
| `StorageManagerClass.StorageManager.AddTagToNote` | src/storage/storagemanager.cpp:1262-1289 | the tag comes last in the gist and the note heads its list, unless the note has it |
| `StorageManagerClass.StorageManager.SetFavouriteNote` | src/storage/storagemanager.cpp:1414-1441 | flag and favourites list change together, or nothing; reports which |
| `StorageManagerClass.StorageManager.RemoveNoteReferences` | src/storage/storagemanager.cpp:3331-3379 | removes the note from its lists; from that of its notebook only if it exists and the note is not trashed by then |
| `StorageManagerClass.StorageManager.MoveNoteToTrash` | src/storage/storagemanager.cpp:1451-1476 | flag set, off the lists of its tags, of all notes and of favourites, in front of the trash, still in its notebook |
| `StorageManagerClass.StorageManager.RestoreNoteFromTrash` | src/storage/storagemanager.cpp:1478-1540 | flag cleared, missing tags dropped, a missing notebook replaced in the gist, back on the lists of its tags, by time in all notes, in the favourites if it is one, out of the trash |
| `StorageManagerClass.StorageManager.ExpungeNoteFromTrash` | src/storage/storagemanager.cpp:1548-1569 | only notes in the trash without a guid |
| `StorageManagerClass.StorageManager.ExpungeNote` | src/storage/storagemanager.cpp:1571-1590 | gist and all references removed, except in the notebook of a trashed note |
| `StorageManagerClass.StorageManager.ExpungeNotebook` | src/storage/storagemanager.cpp:1592-1656 | returns early for the default notebook when there is another; otherwise moves its notes one by one and returns those whose move is announced |
| `StorageManagerClass.StorageManager.ExpungeTag` | src/storage/storagemanager.cpp:1658-1694 | takes the tag off the notes listed under it |
| `NoteOrder.InsertedInPart` | src/storage/noteslistmodel.cpp:98-112 | while the list is newest first, insertion by time commutes with filtering |
| `NoteOrder.InsertedMatchesIff` | src/storage/noteslistmodel.cpp:283-292 | inserting a listed note in a part of the list puts it where the list has it if and only if it is the last of its age among the notes shown |
| `NoteOrder.InsertedAllMatchesIff` | src/storage/noteslistmodel.cpp:283-292 | the same for notes inserted one after the other: each has to come last of its age among those shown before it |
| `NoteOrder.ReinsertedIff` | src/storage/storagemanager.cpp:673-696 | reordering an ordered list changes nothing if and only if the note is the last of its age |
| `NoteOrder.ReinsertedInPlaceIff` | src/storage/noteslistmodel.cpp:330-344 | the same for any list, by the neighbours of the note |
| `NotesViewSteps.LinksFollowIff` | src/storage/noteslistmodel.cpp:351-411 | after notebook, tag and favourite changes a view equals a reload if and only if no trashed note joins it, nor one that a later note shown is as old as |
| `NotesViewSteps.RestoreFollowsIff` | src/storage/noteslistmodel.cpp:433-447 | a restored note joins the notebook, tag and favourite views exactly as in a reload |
| `NotesViewSteps.AllFollowsIff` | src/storage/noteslistmodel.cpp:304-344 | the view of all notes equals a reload unless a note is restored, or a new one is not newer than the first |
| `NotesViewSteps.TrashViewFollowsIff` | src/storage/noteslistmodel.cpp:419-427 | the trash view equals a reload if and only if notes are trashed from the oldest to the newest and keep their places |
| `NotesViewSteps.SyncedNoteFollowsIff` | src/storage/storagemanager.cpp:566-584 | after a fetch or push every view equals a reload if and only if the new time leaves the note in place |
| `NotesViewSteps.ViewFollowsIff` | src/storage/noteslistmodel.cpp:304-450 | all of these in one: every operation of the index, each kind of view |
| `NotesViewSteps.CreateFollowsIff` | src/storage/storagemanager.cpp:163-165 | after the two signals of a note made on the device, a view equals a reload if and only if the note is newer than those shown where it appears |
| `NotesViewSteps.ExpungeNotebookFollowsIff` | src/storage/storagemanager.cpp:1624-1628 | after the series of moves out of an expunged notebook, a view equals a reload if and only if it is not that of the default notebook, or no trashed or expunged note moves and each that does comes last of its age among those shown before it |
| `NotesViewRuns.StepKeepsOrderIff` | src/storage/storagemanager.cpp:637-696 | an operation keeps the list of all notes newest first if and only if a new note is not older than the first, and a note that gets a new time where it stands is neither newer than the note before it nor older than the one after it |
| `NotesViewRuns.ViewEqualsReloadIff` | src/storage/noteslistmodel.cpp:304-450 | for any run and any view loaded once before it: at every point of the run the index is sound, the list of all notes newest first and the view what a reload shows, if and only if each operation is allowed, keeps the order and is followed well where it is made |
| `NotesViewRuns.ViewEqualsReload` | src/storage/noteslistmodel.cpp:62-131 | such a view also is free of duplicates and, except the trash, newest first |
| `AccountViews.RunShows` | src/storage/noteslistmodel.cpp:62-131 | after any run of allowed operations a loaded view shows exactly the notes that by the meaning of the operations belong in it, each once |
| `ReachableFailures.TrashedNoteJoinsView` | src/storage/noteslistmodel.cpp:372-392 | an allowed run after which a trashed note joins the view of a tag |
| `ReachableFailures.RestoredNoteNotShown` | src/storage/noteslistmodel.cpp:428-447 | an allowed run after which a restored note is missing from the view of all notes |
| `ReachableFailures.SameTimeJoinsLater` | src/storage/noteslistmodel.cpp:394-411 | an allowed run after which a view shows two notes of the same time in another order than a reload |
| `ReachableFailures.SyncedNoteOutOfOrder` | src/storage/storagemanager.cpp:566-584 | an allowed run after which a fetched note with a newer time leaves the list of all notes out of order, and the view of all notes in another order than a reload |
| `ReachableFailures.ExpungedNotebookShowsTrashed` | src/storage/storagemanager.cpp:1624-1628 | an allowed run after which a trashed note joins the view of the default notebook when its own notebook is expunged |
| `NotesListModelClass.NotesListModel.SetNotesListQuery` | src/storage/noteslistmodel.cpp:44-53 | a new query loads the view, the same one leaves it |
| `NotesListModelClass.NotesListModel.Choose` | src/storage/noteslistmodel.cpp:103-112 | removing during iteration keeps exactly the chosen ids in order |
| `NotesListModelClass.NotesListModel.LoadNotes` | src/storage/noteslistmodel.cpp:62-131 | loads what the view shows, with its early returns |
| `NotesListModelClass.NotesListModel.InsertNote` | src/storage/noteslistmodel.cpp:283-292 | inserts by time |
| `NotesListModelClass.NotesListModel.NoteCreated` | src/storage/noteslistmodel.cpp:304-316 | only the view of all notes takes a new note |
| `NotesListModelClass.NotesListModel.NoteExpunged` | src/storage/noteslistmodel.cpp:318-328 | an expunged note leaves the view |
| `NotesListModelClass.NotesListModel.NoteDisplayDataChanged` | src/storage/noteslistmodel.cpp:330-349 | a note with a new time is moved |
| `NotesListModelClass.NotesListModel.NotebookForNoteChanged` | src/storage/noteslistmodel.cpp:351-370 | the note leaves or joins the view of a notebook |
| `NotesListModelClass.NotesListModel.TagsForNoteChanged` | src/storage/noteslistmodel.cpp:372-392 | the note leaves or joins the view of a tag |
| `NotesListModelClass.NotesListModel.NoteFavouritenessChanged` | src/storage/noteslistmodel.cpp:394-411 | the note leaves or joins the favourites |
| `NotesListModelClass.NotesListModel.NoteTrashednessChanged` | src/storage/noteslistmodel.cpp:413-450 | every view but that of all notes takes a restored note that belongs there |
| `NotesSignals.Perform` | src/storage/noteslistmodel.cpp:31-42 | the storage manager and a connected list model: after any allowed operation and the slots it triggers the index is sound and the view equals a reload if and only if it follows the operation well |
| `Search.ParseQuery` | src/searchlocalnotesthread.cpp:36-74 | the tokenizer loop equals a scanner by single characters |
| `Search.QueryRoundTrip` | src/searchlocalnotesthread.cpp:36-74 | parsing the printed form of any list of expressible terms gives the list back |
| `Search.SplitWords` | src/searchlocalnotesthread.cpp:81-101 | splits the text into its words |
| `Search.WordsAreWords` | src/searchlocalnotesthread.cpp:81-101 | each is a non-empty run without separators |
| `Search.WordsSplitAtSeparators` | src/searchlocalnotesthread.cpp:89-95 | every separator splits, and what follows is split as a text of its own |
| `Search.WordIsOneWord` | src/searchlocalnotesthread.cpp:93-99 | nothing else splits |
| `Search.IsSequenceMatch` | src/searchlocalnotesthread.cpp:113-135 | the term's words occur contiguously from the given word on, the last one perhaps as a prefix |
| `Search.IsTextMatching` | src/searchlocalnotesthread.cpp:137-159 | they occur so somewhere in the note |
| `Search.IsTermTextMatched` | src/searchlocalnotesthread.cpp:231-259 | what each qualifier asks for |
| `Search.IsNoteMatched` | src/searchlocalnotesthread.cpp:226-280 | the early-exit loop: all terms without `any:`; some other term when a plain `any:` is first; the first k when it comes after k terms |
| `Search.Run` | src/searchlocalnotesthread.cpp:172-295 | reports, in order and until it is cancelled, the searched notes that match; at the end the number of notes whose absent content may match, or of all notes when it was cancelled or no single notebook is named |
| `Search.SearchReports` | src/searchlocalnotesthread.cpp:178-215 | no notebook term: all listed notes that match; one: those in it; several, or an unknown name: none |
| `SearchTerms.TextMatchesIff` | src/searchlocalnotesthread.cpp:103-159 | a text matches exactly when its words, but for case, are found together, the last one as a beginning when the text ends in a star |
| `SearchTerms.TermFindsIff` | src/searchlocalnotesthread.cpp:231-259 | tag terms read the names of the tags one by one, intitle terms the title, terms without a qualifier the title and the content that is there; notebook terms are passed over and no other term finds anything |
| `SearchTerms.OneTermQueryReports` | src/searchlocalnotesthread.cpp:172-295 | the printed query of one term reports exactly the listed notes that have what it looks for or, negated, those that do not |
| `SearchTerms.QueryReports` | src/searchlocalnotesthread.cpp:172-295 | the same for any number of terms: all before the first `any:` have to agree, or some term when it comes first |
| `SearchTerms.UnsearchedCountIs` | src/searchlocalnotesthread.cpp:278-295 | the number reported at the end is that of the notes without content on the device that the rest does not match, each counted once |

## Left out

- Files, QSettings, the cache of ini files and their locks: each file is a field that is updated at once. Crashes between two files are not modelled.
- Thrift and HTTP: the server is a numbered history of changes that answers chunks of it in order; login, full-sync refusal and error texts are not modelled.
- A push of a note's content is atomic with respect to edits of that note.
- What the Qt stream does after a short read is assumed: an empty value, and the end of the stream.
- XML reading and writing, rich text, checkboxes and attachments other than the en-media elements of a written document: library behaviour. The markup that a rich-text merge takes from a version is a parameter.
- attachments.ini, thumbnails, titles, recent searches, OAuth, logging and the user interface.
- isNoteContentUpToDate: it reads a key in another spelling than the writers use, so a fetch is allowed at any time instead.
- Names of notebooks and tags: expunging removes the name key in its own case while it was stored in upper case, so making a notebook again under an expunged name is not modelled. Renaming is not modelled.
- Ids are unbounded; the six hexadecimal digits of the program's ids and the width of its counters are not modelled.
- Lists of notes to push and the flags for unpushed changes, except as the set of notes whose links a pull leaves alone.
- Expunged guids of a chunk: `StorageInvariants` has the operations, but `PullModel` only has deliveries.
- StorageManagerClass.StorageManager.MoveNoteToTrash: the lists of tags are required to have no duplicates, which every sound index satisfies; the same for `ExpungeNote`, and the absence of an empty id for the other operations that require it.
- PullOrder.ArrivalOrderDoesNotMatter: for names that are new with their guids; a note with local changes keeps its links, and a known note that comes out of the trash has to be in a notebook, or restoring it breaks the index (`RestoreOutsideNotebook`).
- QBlowfishClass.QBlowfish.Decrypt: the initial tables are arbitrary; the constants of the cipher are not part of the model.
