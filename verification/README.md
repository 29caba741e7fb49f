# Docs++ verification model

A Dafny model of the Docs++ distributed file system: the storage server's sentence editor, commit, undo and
checkpoints; the name server's file index, LRU cache and access control; the metadata files; and the framing of
replies between the two. `dafny verify dfyconfig.toml` checks all of it.

## Layout

| file | subject |
|---|---|
| Text.dfy | C string scans (`strspn`, `strcspn`, `strtok` with its one hidden cursor) |
| Sentences.dfy, Locality.dfy | `get_nth_sentence`, and what replacing a sentence does to every other |
| Words.dfy, Commit.dfy | tokenising, applying buffered writes, rejoining, splicing; laws of commits |
| Commutation.dfy | when commits to different sentences can be exchanged |
| FileStore.dfy | files, paths, renames; undo and checkpoints over whole runs |
| Sessions.dfy | write sessions of many connections, with the commit broken into its disk steps |
| HashTable.dfy | djb2 and the chained table, on the heap |
| Recency.dfy, LruCache.dfy | what an LRU cache holds; the doubly linked list and its lookup table, on the heap |
| Metadata.dfy | the name server's requests as functions on its state, and the invariant of every run |
| NameServer.dfy | the same requests on the heap: file list, index, cache |
| Answers.dfy, FileFacts.dfy | what every answer tells a client; files, owners, notes, users and servers over whole runs |
| AccessControl.dfy, CacheRuns.dfy | permissions and requests for them, the stale delete, and the cache's contents over whole runs |
| Persistence.dfy, RoundTrip.dfy | `save_metadata`, `load_metadata`, and what a save and a load give back |
| Framing.dfy | the receive loop of the name server |
| TwoTier.dfy | create and delete across both servers |

Strings are sequences of the characters before the terminator, so no character is NUL. A C list that is only scanned,
pushed and unlinked (file list, servers, users, access entries, requests, buffered writes) is a sequence field that the
methods reassign; the hash chains and the cache list are linked nodes. The disk is a map from path to content. The
storage server's answer to a delete, the pieces in which a stream arrives and the choice of the next thread to run are
parameters or events.

## Where the code departs from its documentation or its evident intent

- The project's README describes per-sentence locks. `SS_LOCK_SENTENCE` takes none
  (`src/storage_server/storage_server.c:434`): only whole commits are serialised, by one mutex. The theorems of
  Sessions.dfy are about that.
- Backup and temporary files live beside the files of clients and are not reserved. With files `a` and `a.bak`, a commit
  to `a` replaces `a.bak`, and undo of `a` takes a created `a.bak` for its backup; a commit to `a` truncates and removes
  `a.tmp`. `FileStore.CommitSpares`, `FileStore.UndoExactly`, `FileStore.CheckpointExactly` and
  `Sessions.SerialisableExactly` say exactly for which names and tags undo, revert and serialisability hold.
- Buffered writes are applied newest first. So appends sent in ascending order lose all but the first
  (`Words.AscendingAppends`), and of two writes to one word the one sent first wins (`Words.FirstWriteWins`).
  `Words.AllAppend` says exactly when none is lost.
- `handle_delete` leaves the cache entry of the file it deletes. Its own lookup has just put that entry at the front, so
  every successful delete leaves a stale one. `NameServer.Server.HandleDeleteAsWritten`,
  `AccessControl.DeleteAsWrittenBreaks` and `AccessControl.DeletedNameLingers` are about the delete as written;
  `Metadata.Do` and everything proved over runs of it use the repaired delete, which also drops the entry.
- `load_metadata` runs two nested `strtok` scans on one cursor, so only the first saved access entry of each file comes
  back. Both versions are modelled, by the parameter `twoCursors`; `RoundTrip.AsWrittenKeepsPermissions` says exactly
  when the version as written loses nothing.
- `main` loads the metadata before any storage server has registered, and files of unknown servers are skipped. So as the
  program runs nothing comes back (`RoundTrip.StartUpLoadsNothing`). The round trip is stated for any list of registered
  servers; a file comes back if and only if its server is in it (`RoundTrip.ComesBack`).
- Creation paths leave `pending_requests`, `annotation` or `is_directory` unset. They are modelled as empty, and as not a
  directory; in particular a folder comes back from a load as an ordinary file.

## Model

| member | source | states |
|---|---|---|
| Sentences.GetNthSentence | src/storage_server/storage_server.c:54-70 | the pointer loop finds the place that the recursive definition by "first sentence, gap, rest" gives; any number below 1 means the first sentence |
| Sentences.SentenceExists | src/storage_server/storage_server.c:54-70 | sentence n exists exactly when the text holds at least n delimiters |
| Locality.SentenceShape | src/storage_server/storage_server.c:54-70 | a sentence ends with its only delimiter, or holds none and runs to the end of the text |
| Locality.GapShape | src/storage_server/storage_server.c:54-70 | between consecutive sentences there are only blanks, and the later one starts with none |
| Locality.EarlierSentences | src/storage_server/storage_server.c:117-178 | replacing a sentence leaves the place and the text of every earlier one |
| Locality.LaterSentences | src/storage_server/storage_server.c:117-178 | a later sentence keeps its text, is shifted by the length change and renumbered by the new text's delimiter count, exactly when it is not the very next one, or the new text closes its sentence, or is blank with a sentence in front, or is empty with no gap behind |
| Locality.SameNumber | src/storage_server/storage_server.c:54-70 | for any new text another sentence keeps its number and (shifted) place exactly when it comes before, or the new text has one delimiter and does not run on into it |
| Commit.CommitLocality | src/storage_server/storage_server.c:117-178 | after a commit another sentence has its number and text, at its offset or shifted by the length change, exactly when it comes before, or the rebuilt text has one delimiter with, for the very next sentence, only blanks behind |
| Words.SplitWords | src/storage_server/storage_server.c:125-135 | the strtok loop fills the array with the first 512 words |
| Commit.TokensPieces | src/storage_server/storage_server.c:125-135 | the words of a sentence are its longest pieces without space, tab, newline and return, in order, and only those lie between them |
| Words.ApplyWrites | src/storage_server/storage_server.c:137-154 | the in-place replacements and appends on the word array are the newest-first fold of the writes |
| Words.JoinWords | src/storage_server/storage_server.c:156-163 | the strcat loop joins the words, a space before each but the first and lone delimiters |
| Words.JoinSpacing | src/storage_server/storage_server.c:156-163 | between two words goes one space, and none in front of a lone ".", "?" or "!" |
| Words.JoinAppended | src/storage_server/storage_server.c:156-163 | so a lone delimiter appended to the words comes directly behind the last of them |
| Words.ApplyGrows | src/storage_server/storage_server.c:137-154 | a session never makes the word count smaller, nor larger than 512 |
| Words.FirstWriteWins | src/storage_server/storage_server.c:445-453 | every surviving word is the one the client sent first for its index, or the original if it sent none |
| Words.AscendingAppends | src/storage_server/storage_server.c:137-154 | of consecutive appends sent in ascending order only the first sent takes effect |
| Words.DescendingAppends | src/storage_server/storage_server.c:137-154 | sent in descending order all of them take effect, in index order |
| Words.AllAppend | src/storage_server/storage_server.c:137-154 | every write of a session adds a word if and only if, newest first, they name the next free indices in order and stay within 512 |
| Words.RejoinNormal | src/storage_server/storage_server.c:125-163 | tokenising the rejoined words glues lone delimiters to their predecessor and rejoins to the same text |
| Commit.EditText | src/storage_server/storage_server.c:102-178 | find, tokenise, apply, rejoin and splice compute the specified text; not found exactly when the sentence does not exist |
| Commit.AppendedWord | src/storage_server/storage_server.c:102-178 | a write at the word count puts the word behind the sentence's last, with a space in front unless it is a lone delimiter |
| Commit.HelloAppended | src/storage_server/storage_server.c:156-163 | "!" appended to "Hello" gives "Hello!" |
| Commutation.EditsCommute | src/storage_server/storage_server.c:102-178 | a commit to sentence i can be exchanged with every commit to a later sentence, existing or not, if and only if its rebuilt text has one delimiter with only blanks behind it, or none where the sentence had none; if it cannot, a session that writes a single letter shows it |
| Commit.EmptyCommitIdempotent | src/storage_server/storage_server.c:125-163 | a commit without writes, repeated, changes nothing more, and never lengthens the file |
| Commit.FullBuffer | src/storage_server/storage_server.c:156-163 | 512 one-character non-delimiter words fill the 1024-byte buffer to its last byte |
| Commit.ReadBack | src/storage_server/storage_server.c:117-178 | finding and tokenising the edited sentence again yields exactly the edited words, if and only if they end in a delimiter or only blanks follow |
| FileStore.Store.CommitChanges | src/storage_server/storage_server.c:72-201 | a whole commit: temporary file, backup of an existing file, install; nothing for an unsafe name or a missing sentence |
| FileStore.CommitEffect | src/storage_server/storage_server.c:165-193 | after a commit the live file has the committed text, the backup an existing file's old content, the temporary file is gone, and no other path is touched |
| FileStore.Store.CopyFile | src/storage_server/storage_server.c:297-319 | the block loop copies the whole source, fails without touching anything when it is missing, and empties a file copied onto itself |
| FileStore.Store.CreateFile | src/storage_server/storage_server.c:349-386 | exclusive creation of an empty file, refused for an unsafe or existing name |
| FileStore.Store.DeleteFile | src/storage_server/storage_server.c:423-433 | removal of the live file alone |
| FileStore.Store.UndoFile | src/storage_server/storage_server.c:472-488 | the backup, if any, becomes the live file and is gone |
| FileStore.Store.CheckpointFile | src/storage_server/storage_server.c:490-508 | the live content is copied under the name and tag |
| FileStore.Store.RevertFile | src/storage_server/storage_server.c:510-528 | the checkpoint is copied over the live file |
| FileStore.SafePaths | src/storage_server/storage_server.c:47-52 | a name with ".." anywhere has no path; any other lies at ss_files/, its backup and temporary file beside it, its checkpoints in ss_files/.checkpoints/ |
| FileStore.CreateIsExclusive | src/storage_server/storage_server.c:367-372 | a creation succeeds exactly when a safe path was free, adds one empty file there, and changes no existing file |
| FileStore.CommandAnswers | src/storage_server/storage_server.c:423-528 | when each other command succeeds, and the file it is about afterwards |
| FileStore.UnsafeRefused | src/storage_server/storage_server.c:47-52 | a command on a refused name changes nothing, and only a commit is acknowledged all the same |
| FileStore.ContentOverRuns | src/storage_server/storage_server.c:349-528 | over every run without colliding paths the content of a file is the fold of its own commands: it stays until a deletion, commit, undo or revert of it |
| FileStore.PathsCollide | src/storage_server/storage_server.c:47-52 | live, backup and temporary paths of different names collide exactly when one name is the other with .bak or .tmp behind it |
| FileStore.CommitSpares | src/storage_server/storage_server.c:165-193 | no commit to f changes the file of another name if and only if that name is neither f.bak nor f.tmp |
| FileStore.CheckpointInjective | src/storage_server/storage_server.c:498-499 | with dot-free tags the checkpoint path determines the file name and the tag |
| FileStore.OrdinaryNames | src/storage_server/storage_server.c:498-499 | names outside .checkpoints/ and dot-free tags meet the condition of CheckpointExactly |
| FileStore.UndoOverRuns | src/storage_server/storage_server.c:472-488 | over every run in which no name and no checkpoint has the backup of f as its file, undo succeeds exactly when some commit on existing f was not undone since, and restores the content just before the latest such commit |
| FileStore.UndoExactly | src/storage_server/storage_server.c:472-488 | over all runs on given names and tags undo always does so if and only if f.bak is not among the names and no checkpoint path is the backup of f |
| FileStore.CheckpointOverRuns | src/storage_server/storage_server.c:490-528 | over every run in which no other step may change the checkpoint's file, reverting restores exactly the content at the last checkpoint under that name and tag |
| FileStore.CheckpointExactly | src/storage_server/storage_server.c:490-528 | over all runs on given names and tags reverting always does so if and only if the checkpoint is no name's live, backup or temporary path and no other name's checkpoint |
| Sessions.Connection.Lock | src/storage_server/storage_server.c:434-444 | remembers file and sentence, keeps the buffered writes, locks nothing |
| Sessions.Connection.Buffer | src/storage_server/storage_server.c:445-457 | pushes the write in front of the earlier ones |
| Sessions.Connection.CommitWrite | src/storage_server/storage_server.c:458-471 | commits exactly the buffered writes and then forgets them and the lock |
| Sessions.RequestWrites | src/storage_server/storage_server.c:445-453 | by the positions of the events alone: a connection's pending writes are all its writes since its last commit, refusal or end, the last one sent first |
| Sessions.RequestLock | src/storage_server/storage_server.c:434-443 | likewise its file and sentence are those of its last lock since then, or none |
| Sessions.FirstSentStays | src/storage_server/storage_server.c:137-154 | of a session's writes to one existing word the edited sentence has the one sent first |
| Sessions.StepKeeps | src/storage_server/storage_server.c:72-201 | every step of any connection keeps the invariant that ties buffers, mutex, and the three paths of the file under commit to the events so far |
| Sessions.Serialisable | src/storage_server/storage_server.c:332-334 | over every interleaving on names none of which is another with .bak or .tmp behind it, whenever the mutex is free each file is its commits applied one after another in mutex order, each with exactly its own connection's writes since its previous commit |
| Sessions.SerialisableExactly | src/storage_server/storage_server.c:165-193 | that condition on the names in use is necessary as well as sufficient |
| Sessions.CrashSafe | src/storage_server/storage_server.c:165-193 | wherever a run stops, the live name never holds a partly written text, and the content before the commit under way is whole under the live name or as the backup |
| Sessions.UndoMidCommit | src/storage_server/storage_server.c:181-193 | after the backup rename undo restores exactly the content the commit started from |
| Sessions.Uninterrupted | src/storage_server/storage_server.c:72-201 | the steps of one commit without interruption are the whole commit |
| HashTable.HashFunction | src/name_server/hash_table.h:23-30 | the 64-bit wrapping loop, with signed characters, picks the bucket of the unbounded base-33 polynomial modulo 1024 |
| HashTable.BucketStep | src/name_server/hash_table.h:23-30 | the buckets of all keys: 5381 modulo 1024 for the empty key, then 33 times the last plus the signed character, modulo 1024 |
| HashTable.Table.Insert | src/name_server/hash_table.h:40-51 | the key's newest value is the new one, all other stacks of values are unchanged |
| HashTable.Table.Search | src/name_server/hash_table.h:54-66 | the newest value of the key, or none |
| HashTable.Table.Delete | src/name_server/hash_table.h:69-90 | undoes the latest insert of the key and touches no other, colliding keys included |
| HashTable.ValuesUnlink | src/name_server/hash_table.h:69-90 | unlinking the first item of a key from a chain pops that key's values and no other's |
| LruCache.Cache.DetachNode | src/name_server/CRWD.c:56-68 | rewires both neighbours, or head and tail: the list without that node, well formed in both directions |
| LruCache.Cache.AttachNode | src/name_server/CRWD.c:71-81 | the list with the node in front, well formed in both directions |
| LruCache.Cache.Get | src/name_server/CRWD.c:84-101 | a hit returns the cached value and moves it to the front; a miss changes nothing |
| LruCache.Cache.Put | src/name_server/CRWD.c:103-135 | the name goes to the front, evicting the least recently used of 16; list, lookup table and size stay in agreement |
| Recency.CacheIsMostRecent | src/name_server/CRWD.c:84-135 | over every run the cache is exactly the last `cap` distinct names looked up |
| Recency.MruOrder | src/name_server/CRWD.c:84-135 | in the order of their last lookups |
| Recency.SmallerIsPrefix | src/name_server/CRWD.c:34-34 | a smaller cache holds a prefix of what a larger one holds |
| CacheRuns.CacheOverRuns | src/name_server/CRWD.c:151-174 | over every run of requests that deletes nothing the name server's cache is the last 16 distinct names found |
| CacheRuns.CacheWithDeletions | src/name_server/CRWD.c:151-174 | over every run, (repaired) deletions included, it is a front part of the names found and not deleted since, and begins with the last 16 distinct names found since the last deletion |
| NameServer.Server.FindFile | src/name_server/CRWD.c:151-174 | a cached name is answered from the cache, any other from the index, which then feeds the cache |
| NameServer.Server.Open | src/name_server/CRWD.c:151-174 | cache transparency: while cache and index agree, find_file returns what the index alone would, and they still agree |
| NameServer.Server.IndexFinds | src/name_server/CRWD.c:151-174 | the index answers as a scan of the file list would |
| NameServer.FileMetadata.CheckPermission | src/name_server/CRWD.c:177-191 | true exactly for the owner, or an entry of the user with W or the asked permission |
| NameServer.Server.HandleRedirect | src/name_server/CRWD.c:620-681 | the client is sent to the file's server exactly when the file exists and the user has the right |
| NameServer.Server.HandleAddAccess | src/name_server/CRWD.c:325-400 | on the heap exactly the specified change of one file, list, index and cache still agree; answered done exactly for the owner, a registered target and R or W, and otherwise with the first check that fails |
| NameServer.Server.HandleRemAccess | src/name_server/CRWD.c:404-462 | on the heap exactly the specified removal of one user's entry, and only by the owner, with the right answer; list, index and cache still agree |
| NameServer.Server.HandleReqAccess | src/name_server/CRWD.c:1141-1183 | on the heap exactly the specified request, none from a user who may read or already waits, with the right answer; list, index and cache still agree |
| NameServer.Server.HandleApproveReq | src/name_server/CRWD.c:1251-1293 | on the heap exactly the specified approval, and only by the owner, with the right answer; list, index and cache still agree |
| NameServer.Server.HandleRejectReq | src/name_server/CRWD.c:1295-1319 | on the heap exactly the end of that user's request, and only by the owner, with the right answer; list, index and cache still agree |
| NameServer.Server.HandleAnnotate | src/name_server/CRWD.c:1481-1510 | on the heap exactly the specified note, cut to 255 characters, and only by a user with W, with the right answer; list, index and cache still agree |
| NameServer.Server.HandleCreate | src/name_server/CRWD.c:548-593 | up to the unlock, on the heap exactly the specified creation: refused for a name that exists or without servers; list, index and cache still agree |
| NameServer.Server.HandleCreateFolder | src/name_server/CRWD.c:466-508 | on the heap exactly the specified creation of a directory entry; list, index and cache still agree |
| NameServer.Server.RegisterStorageServer | src/name_server/name_server.c:291-341 | for any comma-separated list, repeated names included, exactly the unknown names are added; list, index and cache still agree |
| NameServer.Server.RegisterUser | src/name_server/name_server.c:265-287 | a known user gets the new address, an unknown one is added; files, index and cache are untouched |
| NameServer.Server.HandleDeleteAsWritten | src/name_server/CRWD.c:684-759 | list and index lose the file, and the cache agrees with them afterwards exactly when nothing was deleted |
| NameServer.Server.HandleDelete | src/name_server/CRWD.c:684-759 | the repaired delete, which also drops the cache entry, is the specified step and keeps all three in agreement |
| NameServer.Server.Restore | src/name_server/CRWD.c:1450-1452 | loading any list gives that file list, with the index holding each name's files in list order; list, index and cache agree if and only if no name is listed twice |
| NameServer.Server.Handle | src/name_server/name_server.c:52-244 | every request on the heap is the specified step with the specified answer, list, index and cache still agree, and nothing outside the server is touched |
| NameServer.Serve | src/name_server/name_server.c:52-244 | any sequence of requests from a new server: heap, state and every answer are those of the specified run (deletes as repaired) |
| Metadata.StepKeeps | src/name_server/CRWD.c:466-593 | every request keeps: file names distinct, no access or pending list naming a user twice, at most 16 cached names, all of existing files |
| Metadata.RunKeeps | src/name_server/CRWD.c:466-593 | so it holds after every run |
| Metadata.SetAccessFacts | src/name_server/CRWD.c:366-393 | setting one user's access sets it and no other's, and repeats no user |
| AccessControl.PermStep | src/name_server/CRWD.c:1251-1293 | only the owner's own ADDACCESS, REMACCESS and APPROVE naming that file and user, and the file's creation and deletion, change a user's entry |
| AccessControl.AccessOverRuns | src/name_server/CRWD.c:177-191 | over every run a non-owner's rights are the fold of those steps |
| AccessControl.RemovalAndApproval | src/name_server/CRWD.c:404-462 | removal takes every right from a non-owner; approval takes none, keeps W, gives at least R, and ends the request |
| AccessControl.WaitStep | src/name_server/CRWD.c:1141-1183 | asking without the right to read starts a wait; only the owner's answer to that user, or the file's deletion, ends one |
| AccessControl.RequestsOverRuns | src/name_server/CRWD.c:1236-1319 | so over every run the waiting users are those whose asking was neither answered nor lost with the file since |
| Answers.RefusedChangesNothing | src/name_server/CRWD.c:325-400 | a request answered by anything but done changes no file, server or user |
| Answers.DoneIsTrue | src/name_server/name_server.c:265-341 | a step answered by done has exactly the written-out effect: on the one file and entry it names and no other, on the new file's owner, mark, server, lists and note, on the user's address, and for a registering server one file of "ss_owner" for each unknown name |
| FileFacts.AnswerKinds | src/name_server/CRWD.c:325-593 | each answer is given exactly when its reason holds and no earlier check failed |
| FileFacts.FactsStep | src/name_server/CRWD.c:466-593 | creation makes the actor the owner and registration "ss_owner", only the owner's acknowledged deletion removes a file, only who may write sets its note; nothing else changes existence, owner, mark, server or note |
| FileFacts.FactsOverRuns | src/name_server/CRWD.c:466-593 | so over every run a name is found exactly when it was created or registered after its last deletion, with that owner, mark and server and its last note |
| FileFacts.DirectoryStep | src/name_server/name_server.c:265-341 | a user is known exactly if registered; a server not yet known goes to the head of the list |
| AccessControl.DeleteAsWrittenBreaks | src/name_server/CRWD.c:713-742 | the delete as written keeps the invariant if and only if it deletes nothing; a deleted name is still found |
| AccessControl.DeletedNameLingers | src/name_server/CRWD.c:713-742 | the deleted name stays found exactly until 16 other names have been looked up |
| Persistence.SaveMetadata | src/name_server/CRWD.c:1320-1369 | the three printing loops produce the specified texts |
| Persistence.ReadEntries | src/name_server/CRWD.c:1436-1448 | the nested strtok loop, on one cursor or two, builds the list that the cursor's positions determine |
| Persistence.LoadMetadata | src/name_server/CRWD.c:1373-1478 | the fgets and strtok loops compute the specified users, files and notes |
| RoundTrip.SavedLine | src/name_server/CRWD.c:1335-1352 | a saved line is name, owner, address, port and a "user,permission" for each entry of another user, between semicolons |
| RoundTrip.DecimalText | src/name_server/CRWD.c:1342-1342 | the port is saved in decimal |
| RoundTrip.SavedNote | src/name_server/CRWD.c:1356-1367 | a saved note is the file's name, a semicolon and the note |
| RoundTrip.SavedUsers | src/name_server/CRWD.c:1324-1332 | the file of users has one name a line |
| RoundTrip.LongLine | src/name_server/CRWD.c:1376-1399 | a line of 2047 characters or more is read in pieces |
| RoundTrip.SaveThenLoad | src/name_server/CRWD.c:1320-1478 | for delimiter-free fields, load after save restores names, owners, servers and notes of exactly the files whose server is registered, in reversed order; access entries reversed with two cursors, only the first as written |
| RoundTrip.ReloadIs | src/name_server/CRWD.c:1420-1448 | what comes back of one file as written: all but mark, requests and the entries after the first |
| RoundTrip.ComesBack | src/name_server/CRWD.c:1405-1418 | a saved file comes back if and only if its storage server is registered by then |
| RoundTrip.StartUpLoadsNothing | src/name_server/name_server.c:430-430 | in main's order, before any server has registered, nothing comes back whatever the files hold, and saving what was loaded leaves nothing |
| RoundTrip.TwoRounds | src/name_server/CRWD.c:1320-1478 | two repaired rounds restore the order of the files with registered servers exactly, and every list of their non-owner entries |
| RoundTrip.LoadedKeeps | src/name_server/CRWD.c:1373-1478 | what a load gives back meets the invariant of every run |
| RoundTrip.UsersReloaded | src/name_server/CRWD.c:1378-1393 | users come back in reverse order at the address 0.0.0.0 |
| RoundTrip.RepairedKeepsPermissions | src/name_server/CRWD.c:1436-1448 | with two cursors a round trip changes nobody's rights |
| RoundTrip.AsWrittenKeepsPermissions | src/name_server/CRWD.c:1436-1448 | as written it changes nobody's rights if and only if at most one user besides the owner has an entry |
| Framing.ReceiveReply | src/name_server/CRWD.c:226-250 | however the stream is cut into pieces, the receive loop returns the same reply |
| Framing.PayloadReturned | src/name_server/CRWD.c:226-250 | the reply is exactly the payload before the first end token if payload and token fit 4095 bytes, and an error otherwise |
| Framing.ReplyNeedsToken | src/name_server/CRWD.c:226-250 | there is a reply exactly when an end token ends within the first 4095 bytes of the stream |
| TwoTier.EventKeeps | src/name_server/CRWD.c:553-613 | under any interleaving of creates and repaired deletes every physical file has metadata, and a create awaiting its storage server call has metadata and no file yet |
| TwoTier.RunKeepsStep | src/name_server/CRWD.c:689-757 | so it holds after every run |
| TwoTier.DeleteIsBothOrNeither | src/name_server/CRWD.c:709-757 | an answered delete removes metadata and file, or with no physical file neither |

## Left out

- Sockets, accept loops, threads, logging, and the client programs.
- Response texts and their byte lengths: a reply is a whole message, and of the name server's answers only their kind is
  modelled. A storage server that fails and one that cannot be reached count as one kind, and the second half of the
  answer to a create, after the unlock, is not part of the model.
- EXEC, VIEW, INFO, VIEWFOLDER, listing of users, requests and annotations: single scans that format text.
- Word and character counts and access times of files (`handle_update_meta`).
- Memory exhaustion, failing disk operations, and over-long names or paths: the 256-byte path buffers never cut a path.
- A rebuilt sentence of 1024 bytes or more, which overruns the sentence buffer.
- COMMIT_WRITE before SS_LOCK_SENTENCE, whose path is the root directory; commands with missing fields.
- Directories on the storage server, and paths that differ as text but name one file: repeated slashes, and `.` and `..`
  components, which a tag may hold since only names are checked. Paths are compared as texts.
- Undo, delete, create and revert between the steps of a running commit: they take no mutex and are steps outside it.
- NameServer.Server.HandleCreateFolder: before any storage server has registered the save dereferences a null pointer and
  the process dies; the answer is then `Crash` and the state is left as it was.
- A file that cannot be opened for saving or loading; each of the three is taken to be there.
- The access and request lists, the file list and the buffered writes as linked nodes: they are sequences, so their pointer updates are not modelled.
- Persistence.LoadMetadata: yields the loaded records as values; NameServer.Server.Restore puts such a list on the heap.
