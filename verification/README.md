# FediShare verification model

A Dafny model of the parts of FediShare where steps interact, with proofs about every run of them:

- **The share index.** `ShareTree` and `Paths` give the simple meaning of a shared folder: its visible regular files,
  and what a relative path resolves to below the root. `FileStore` is the `files` table with its two unique keys.
  `Indexer` is `Scan`, `IndexPath` and `RemovePath`; `IndexerLaws`, `ScanLaws`, `Displacement`, `ShareDisk`,
  `IndexHistory` and `Announcements` prove what they do to the table and to the log of changes. A Scan's disk, table,
  random ids, clock and the order in which the database answers are all arbitrary.
- **The reverse tunnel.** `Frames` is the framing codec, `Responses` the producer of one proxied response,
  `ResponseHeaders` what of it arrives, `Sessions` the gateway's bounded table of pending requests with its races,
  `SessionRuns` whom it admits and what it reports, `Gateway` the choice of the session that answers for a username,
  `Demux` all of them together in any interleaving, and `Stream` the same down to the bytes on the wire.
- **Federation.** `Queue`, `QueueLaws` and `QueueOutcomes` are the retry queue and the fate of each delivery,
  `Publishing` the fan-out of one change, `QueuedChanges` what a run of changes leaves queued, `Inbox` the signed
  inbox. `InboxLaws`, `InboxAdmission`, `InboxFollowers` and `InboxTables` are about runs in which the steps of
  different POSTs (signature check, block lookup, remembering, handling) interleave with each other and with the
  owner's own changes; `Letters` and `Spelling` say when two IRIs count as one.
- **Kernels.** `SignatureHeader`, `SigningText`, `SignatureCheck`, `SignatureBody` and `Signer` (HTTP signatures, from
  signing to acceptance), `Search` (the LIKE pattern), `Paging` (collections and their links), `DownloadLimiter`.

Where the program changes state step by step the model is a class or a method with loops, each proved to compute a
specification function or to be a step of a relation; the laws are lemmas about these. Random ids, clock readings, disk
contents, delivery outcomes, keys and digests are parameters. Times are whole seconds, as the tables store them.

Properties that turned out to hold only in part are stated with the condition under which they hold:

- A signature value is dispatched at most once only where POSTs that carry it do not overlap. Two overlapping ones are
  both dispatched exactly when neither is remembered before the other's replay lookup (`InboxLaws.BothDispatchedExactly`,
  `InboxLaws.OverlappingTwice`). Between reading the clock for its Date and its replay lookup the retention leaves a POST
  just under twelve hours, to the second (`InboxLaws.OneSecondTooSlow`); fetching the key in between gives up after twelve
  seconds (internal/federation/fetch.go:39).
- What is remembered is the text of a signature, while verification decodes it: `docs/federation.md` says the same
  signature cannot be replayed, and of two POSTs with one raw signature, one after the other, both are dispatched exactly
  when their base64 spellings hash differently (`InboxLaws.RawSignatureTwiceExactly`, `InboxLaws.SpelledAgainTwice`,
  `SignatureCheck.SpellingDoesNotMatter`).
- When the gateway reports success for a request, its client has the whole response exactly when every message but the
  End was handled; a session that closes after the status cuts the body short and still counts as success
  (`Demux.SuccessIsWholeExactly`, `Demux.CutResponseIsSuccess`).
- `docs/federation.md` says an index change reaches every accepted follower; the code reads one default page of 20, so it
  does exactly when the later followers bring no inbox of their own (`Publishing.WhoIsServed`,
  `Publishing.LastOfTwentyOneIsMissed`).
- Two updates of one file in one second share an activity id: the second document replaces the saved one and is never
  queued (`Publishing.ChangeIsQueuedExactly`). Replaying what was queued for an inbox then agrees with replaying every
  emitted change exactly when the last change about a file and the last queued one are both Deletes or neither is
  (`QueuedChanges.QueuedReplayAgreesExactly`, `QueuedChanges.LastDeleteIsNotQueued`).
- The one-hour cap on the retry delay is never reached within the 12 attempts a delivery gets, and the shift would
  overflow from the 35th (`Queue.BackoffRange`).
- A delivery is retried after any status that is not 2xx and not one of the six permanent ones, a wider set than the
  temporary failures `docs/federation.md` lists (`QueueLaws.AttemptLaw`).
- An id displaced by an adopted id disappears without a Delete; over any history, replaying every emitted change gives the
  available ids plus exactly those (`ScanLaws.ReplayGivesAvailable`, `IndexHistory.ReplayExactly`). A row is displaced
  exactly when its path is re-indexed while moveCandidate prefers another row (`Displacement.DisplacedExactly`,
  `Displacement.OutrankedFromStart`, `Displacement.TwoRowsDisplace`).
- A file whose path `ResolveUnderRoot` rewrites (blanks at an end, backslashes) is seen by the walk. Whether it comes
  online, whose content its row carries, and whether the next Scan finds it unchanged depend on what the rewritten path
  resolves to (`ScanLaws.EmptyTableExact`, `ScanLaws.SettlesExactly`): nothing, and it stays offline
  (`ShareDisk.LeadingBlankIsNotIndexed`), or another file, whose digest and size it then carries
  (`ShareDisk.LeadingBlankTakesOtherContent`).
- Relativising and resolving come back to the same place exactly when the relative path has no blanks at its ends
  (`Paths.RelThenResolve`, `ShareDisk.DotBlankDrifts`).
- An Undo removes the follower exactly when its actor is spelled as the stored id, and an Undo that names its Follow by
  IRI removes nothing (`InboxFollowers.UndoRemovesExactly`, `InboxFollowers.UndoByIriIsIgnored`). A blocked actor is
  likewise refused exactly when its document spells it as the block does (`InboxFollowers.BlockedSigner`).
- A page past the end is empty exactly when its offset, as an int64, is not before the end; an offset that wraps around
  may repeat the first page, show later items or none (`Paging.PastTheEndExactly`, `Paging.RepeatsTheFirstExactly`,
  `Paging.FarPages`).
- `decodeBody` undoes `encodeBody` exactly for ids of 16 bytes (`Responses.DecodeBodyInverts`).
- `Upsert` returns a record that is not the stored one exactly when another id holds its path
  (`FileStore.UpsertedStores`).

## Model

| member | source | states |
|---|---|---|
| ShareTree.WalkSound | internal/indexer/indexer.go:112-169 | everything the walk reports is a visible regular file below the folder walked |
| ShareTree.WalkComplete | internal/indexer/indexer.go:112-169 | the walk misses no visible regular file |
| ShareTree.WalkExact | internal/indexer/indexer.go:112-169 | the walk reports each visible regular file exactly once and nothing else |
| Paths.RelOfJoined | internal/files/path.go:46-69 | relativising an absolute path below the root gives its components joined, unless one is hidden |
| Paths.DescendFrom | internal/files/path.go:101-117 | the loop that Lstats every prefix finds the first missing or symlinked component, or the whole chain |
| Paths.DescendExact | internal/files/path.go:101-117 | descending succeeds exactly on chains with no symlinked prefix, and then reaches what Lstat reaches |
| Paths.ResolveUnderRoot | internal/files/path.go:74-117 | the method refines the resolution function: same error, or the root followed by the components |
| Paths.ResolveIsSafe | internal/files/path.go:74-128 | a success is the root plus a nonempty list of components, none empty or dot-prefixed, no prefix of which is a symlink |
| Paths.ResolvePlain | internal/files/path.go:74-117 | on canonical paths that need no rewriting, resolution succeeds exactly on symlink-free chains and reaches that very chain |
| Paths.RelThenResolve | internal/files/path.go:46-117 | relativising what a path resolved to and resolving again comes back exactly when the relative path has no blanks at its ends |
| Paths.ComponentsExactly | internal/files/path.go:79-100 | a path is refused as an escape exactly when it holds a NUL, climbs anywhere with "..", or names nothing; as hidden exactly when another component than "." starts with a dot; otherwise its components are looked up as they stand |
| Letters.TrimSpaceExactly | internal/files/path.go:79-80 | trimming leaves exactly the trimmed middle of a string, and every string has one |
| FileStore.UpsertedStores | internal/files/store.go:114-161 | the record Upsert returns is the row stored under its id exactly when no other id holds its path |
| FileStore.PutByDelete | internal/files/store.go:61-91 | deleting the other row at the path and updating by id replaces both keys at once |
| FileStore.PutAfterDelete | internal/indexer/indexer.go:239-244 | deleting the displaced row before saving the adopted id gives the same table as saving alone |
| FileStore.PutFresh | internal/files/store.go:114-161 | inserting at a free path is the same two-key replacement |
| FileStore.PutValid | internal/files/store.go:54-92 | saving keeps ids and paths unique |
| FileStore.UpsertedValid | internal/files/store.go:114-161 | upserting keeps ids and paths unique |
| FileStore.UpsertedExactly | internal/files/store.go:114-161 | row by row: one row added at a free path, or the row at a taken path overwritten under its own id, and no other row changed |
| FileStore.SavedFromExactly | internal/files/store.go:68-74 | writing fills in the id, a public visibility where none is given and the time where it is Go's zero time, and nothing else |
| FileStore.Store.GetByPath | internal/files/store.go:33-35 | the row at a path, if there is one |
| FileStore.Store.ListByHash | internal/files/store.go:37-46 | exactly the rows with this content, in whatever order |
| FileStore.Store.KnownPaths | internal/files/store.go:255-278 | every row keyed by its path, and nothing else |
| FileStore.Store.DeleteByID | internal/files/store.go:48-52 | removes that row only |
| FileStore.Store.Upsert | internal/files/store.go:114-161 | the conflict on the path keeps the old id, defaults, the time and fresh ids are filled in, and exactly when it fails |
| FileStore.Store.Save | internal/files/store.go:54-92 | a stored id is written in place, taking its path from any other row, and the result is the stored row; any other record is upserted |
| FileStore.Store.MarkMissing | internal/files/store.go:163-167 | exactly the row at the path becomes unavailable and is stamped with the clock |
| Indexer.Indexer.Emit | internal/indexer/indexer.go:59-64 | logs the change unless it has no id |
| Indexer.Indexer.MoveCandidate | internal/indexer/indexer.go:280-318 | a missing row with the content, else a stale one, else the row already at the path, for every order of matches |
| Indexer.Indexer.IndexFile | internal/indexer/indexer.go:225-278 | one legal re-indexing step, stamped with the clock, or nothing at all: when the path does not resolve to a regular file, or the file needs a new id and the random source gives none |
| Indexer.Indexer.WalkFiles | internal/indexer/indexer.go:112-169 | one re-indexing step for each visible file whose known row no longer describes it and whose indexing does not fail, none for the others |
| Indexer.Indexer.SweepGone | internal/indexer/indexer.go:173-188 | each known path the walk did not see is marked missing once, with its Delete, unless its row moved away |
| Indexer.Indexer.Scan | internal/indexer/indexer.go:66-191 | a Scan is a run of the two relations over the table it found, on the disk with the paths for which no id was to be had among the failing ones; every row it changes is stamped with a clock reading of this Scan |
| Indexer.Indexer.IndexPath | internal/indexer/indexer.go:193-205 | one re-indexing step, or nothing at all |
| Indexer.Indexer.RemovePath | internal/indexer/indexer.go:207-223 | marks the row at the path missing and announces it if it was available |
| IndexerLaws.ReindexWrites | internal/indexer/indexer.go:225-278 | row by row, what re-indexing one path changes: the new row carries the disk's hash and size, a row continued from elsewhere had lost its file, only the row displaced at the path goes |
| IndexerLaws.BaseIsLast | internal/indexer/indexer.go:252-252 | the filename is the last component of the path |
| IndexerLaws.WalkKeeps | internal/indexer/indexer.go:112-169 | after any number of walked files: ids and paths unique, untouched rows elsewhere, visited files described, only displaced ids gone, events equal to the change in availability |
| IndexerLaws.SweepKeeps | internal/indexer/indexer.go:173-188 | after any number of vanished paths: exactly their rows are unavailable, and the events still add up |
| IndexerLaws.RunKeeps | internal/indexer/indexer.go:66-191 | both invariants over a whole Scan |
| ScanLaws.ScanMirrorsDisk | internal/indexer/indexer.go:66-191 | after a Scan from any table, ids and paths are unique, available rows are at visible regular files, and every one of these that resolves has an available row, which describes what its path resolves to or was skipped as unchanged |
| ScanLaws.EmptyTableExact | internal/indexer/indexer.go:66-191 | from an empty table, every visible file comes online if and only if all of them resolve, every row carries its own file's content if and only if each resolves to itself, and the next Scan finds every row unchanged if and only if what each resolves to has its size and time |
| ScanLaws.ReplayGivesAvailable | internal/indexer/indexer.go:151-188 | replaying a Scan's events onto the ids available before gives those available after plus exactly the displaced ones |
| Announcements.StepTells | internal/indexer/indexer.go:59-278 | a Scan, single update or removal says about each id at most one thing: a Create with its row if it is new to the table, a Delete if it was available and is not any more, an Update with its row if it is available and its availability, path, hash or size differs from before; nothing otherwise |
| Announcements.FollowersShowTheTable | internal/indexer/indexer.go:269-276 | over any history, whoever shows the available rows at the start and applies every emitted change shows every row of the table with its path, content and size, and none that is unavailable |
| Announcements.CreatedOnce | internal/indexer/indexer.go:269-276 | over any history an id that enters the table is announced by one Create, before anything else about it, and one stored at the start never |
| Displacement.DisplacedByReindex | internal/indexer/indexer.go:280-318 | re-indexing a path removes the row at it exactly when moveCandidate prefers another: one with the new content that is missing, or available where nothing resolves |
| Displacement.ContinuesExactly | internal/indexer/indexer.go:280-318 | a re-indexed path gets the id of a row elsewhere with its content that is missing, else of one that is stale, else of the row at the path, else one never stored before |
| Displacement.DisplacedExactly | internal/indexer/indexer.go:238-277 | the available rows a Scan displaces are exactly those whose path is re-indexed while moveCandidate prefers another row |
| Displacement.OutrankedFromStart | internal/indexer/indexer.go:280-318 | for the first file with its content, moveCandidate prefers another row exactly when the table before the Scan has one that gives way |
| Displacement.TwoRowsDisplace | internal/indexer/indexer.go:239-244 | a table of two rows whose available one goes without a Delete and stays in what the events replay to |
| ScanLaws.NeverTaken | internal/indexer/indexer.go:280-318 | an available row whose path still resolves is never moved elsewhere, and ids keep their visibility |
| ScanLaws.ScanIsIdempotent | internal/indexer/indexer.go:152-188 | a second Scan skips exactly the indexable files the first one settled; if those are all, it emits nothing and changes nothing but the look-stamp of unavailable rows |
| ScanLaws.SettlesExactly | internal/files/mime.go:39-52 | from any table, the next Scan finds an indexable file's row unchanged exactly when this one skipped the file or what its path resolves to has its size and time |
| ScanLaws.ScanSettles | internal/files/mime.go:39-52 | the table is settled for the next Scan if and only if every indexable file is |
| ScanLaws.MoveKeepsId | internal/indexer/indexer.go:238-277 | a moved file keeps its id: the first re-indexed path with its content gets it, with one Update and no Delete |
| ScanLaws.CopiesGetOwnIds | internal/indexer/indexer.go:238-277 | later copies keep the row they had or get an id never stored before |
| IndexHistory.StepAnnounces | internal/indexer/indexer.go:66-278 | every scan, single update and removal announces exactly what it makes available, up to displaced ids |
| IndexHistory.ReplayAlwaysAgrees | internal/indexer/indexer.go:66-278 | over any history on a changing disk, whoever replays every emitted change agrees with the table on every id it still has |
| IndexHistory.ReplayExactly | internal/indexer/indexer.go:66-278 | over any history, replaying every emitted change gives exactly the available ids and the ids displaced while available, which never come back |
| ShareDisk.ViewIsValid | internal/indexer/indexer.go:112-169 | the walk of a real folder names each visible regular file once |
| ShareDisk.PlainIsFaithful | internal/files/path.go:74-117 | a path without blanks at its ends or backslashes resolves to the very file the walk saw |
| ShareDisk.ScanMirrorsFolder | internal/indexer/indexer.go:66-191 | after a Scan of any folder from any table only visible files are online, and every visible file is whose path resolves, in particular every one with a plain path |
| ShareDisk.PlainFolderSettles | internal/indexer/indexer.go:66-191 | where all visible files have plain paths the next Scan is quiet |
| ShareDisk.LeadingBlankIsNotIndexed | internal/files/path.go:79-80 | a file whose name starts with a blank is walked and never comes online |
| ShareDisk.LeadingBlankTakesOtherContent | internal/files/path.go:79-80 | next to the file its trimmed name names, such a file comes online with that file's content, and with another size is never found unchanged |
| ShareDisk.DotBlankDrifts | internal/files/path.go:79-95 | the relative path "./ name" resolves to " name", whose relative form resolves to "name" |
| Frames.BigEndian | internal/tunnel/frame.go:67-85 | the four length bytes read back as the length |
| Frames.BigEndianInverts | internal/tunnel/frame.go:48-65 | every four bytes are the big-endian form of the number they read as |
| Frames.DecodeEncode | internal/tunnel/frame.go:48-85 | a written frame is read back with everything after it |
| Frames.DecodeExact | internal/tunnel/frame.go:48-65 | whatever is read is exactly what some writer wrote, within MaxFrame |
| Frames.TooLargeExactly | internal/tunnel/frame.go:48-65 | a frame is refused as too large exactly when its length is over eight MiB |
| Frames.ReadAllWritten | internal/tunnel/frame.go:48-85 | reading the bytes of any list of frames gives that list and a clean end |
| Frames.ReadAllTruncated | internal/tunnel/frame.go:48-65 | a stream cut anywhere yields exactly the frames complete by then, then an end-of-stream error |
| Frames.CutInside | internal/tunnel/frame.go:48-65 | which of the two end-of-stream errors a cut gives: EOF before the header and between header and payload, else unexpected EOF |
| Frames.HeaderBytes | internal/tunnel/frame.go:67-85 | the header array holds the length and the type |
| Frames.Conn.ReadFrame | internal/tunnel/frame.go:48-65 | refines the decoder and consumes exactly what it says |
| Frames.Conn.WriteFrame | internal/tunnel/frame.go:67-85 | refuses oversized payloads and closed connections, otherwise appends exactly that frame |
| Responses.EncodeBody | internal/tunnel/client.go:261-266 | the array is the id, cut or zero-filled to 16 bytes, and the data |
| Responses.DecodeBodyInverts | internal/gateway/server.go:579-584 | decoding undoes encoding exactly for ids of 16 bytes |
| Responses.ChunksCover | internal/tunnel/client.go:240-257 | chunks are nonempty, at most 64 KiB, fit a frame with their id, and concatenate to the argument |
| Responses.ChunksAreFull | internal/tunnel/client.go:240-257 | all chunks but the last are full |
| Responses.StreamWriter.WriteHeader | internal/tunnel/client.go:228-238 | sends the head once, with the first status |
| Responses.StreamWriter.WriteChunks | internal/tunnel/client.go:247-256 | sends the chunks in order until the connection breaks, and counts what went out |
| Responses.StreamWriter.Write | internal/tunnel/client.go:240-257 | sends the head if still due, then the chunks |
| Responses.StripTwice | internal/tunnel/hop.go:16-28 | stripping hop-by-hop headers on the node and again on the gateway is stripping once |
| Responses.WriteError | internal/tunnel/client.go:200-210 | the error answer is the three messages a handler would send by setting the type, status 400 and the text |
| Responses.HandleHTTP | internal/tunnel/client.go:161-198 | for any handler, any unusable request and any break of the connection, sends a first part of the messages the calls, or the error answer, mean |
| Responses.RenderEmitted | internal/tunnel/client.go:161-198 | what a client shows for all messages is exactly the response the handler's calls describe |
| Responses.PrefixIsStage | internal/gateway/server.go:530-577 | a first part of the messages shows an earlier stage of that response |
| Responses.EmittedShape | internal/tunnel/client.go:161-198 | all messages carry the request's id and only the last is an End |
| Responses.EmittedMiddle | internal/tunnel/client.go:240-257 | between head and End there are only body messages, none empty |
| Responses.PrefixIsWhole | internal/tunnel/client.go:161-198 | once the status is out, a first part of the messages shows the whole response exactly when at most the End is missing |
| ResponseHeaders.HeaderArrivesExactly | internal/tunnel/hop.go:16-28 | a header arrives with exactly the values it was last set to before the head went out, unless it is one of the eight hop-by-hop headers or some value of the Connection header names it; no other header arrives |
| Responses.UnusableIsAnswered | internal/tunnel/client.go:200-210 | a request that cannot be made is answered with 400, plain text and the words "invalid request" |
| Sessions.RunKeeps | internal/gateway/server.go:406-483 | in every run at most 32 requests are pending, a closed session has none, and each result channel holds at most the first result offered, so no sender blocks |
| Sessions.RunIsLater | internal/gateway/server.go:406-577 | closed never reverts, results and output only grow, and a request that is no longer pending never changes |
| Sessions.NextKeeps | internal/gateway/server.go:406-577 | each single step keeps both |
| Sessions.CloseDecides | internal/gateway/server.go:406-422 | a close empties the table for good and decides every undecided pending request as offline |
| Sessions.EndDecides | internal/gateway/server.go:566-577 | an End for an undecided pending request decides it as done, whatever follows |
| SessionRuns.AdmittedExactly | internal/gateway/server.go:441-448 | over every run a request that asks is admitted exactly when no close came before, fewer than 32 are pending and its id was never admitted |
| SessionRuns.PendingExactly | internal/gateway/server.go:406-453 | over every run a request is pending exactly when it was admitted and neither released nor cut off by a close since |
| SessionRuns.ReportedExactly | internal/gateway/server.go:474-483 | over every run success is reported exactly when an End came first or the client has a status, offline exactly when a close came first and the client has nothing |
| Sessions.Session.Enter | internal/gateway/server.go:441-448 | admits exactly when the session is open and has fewer than 32 pending |
| Sessions.Session.Leave | internal/gateway/server.go:449-453 | removes the request from the pending table |
| Sessions.Session.Await | internal/gateway/server.go:474-483 | takes the single result and reports it; offline counts as success once a status is out |
| Sessions.Session.Close | internal/gateway/server.go:406-422 | closes once, offering offline to every pending request |
| Sessions.Session.OnHead | internal/gateway/server.go:530-547 | shows the head to a pending request's client, ignores others |
| Sessions.Session.OnBody | internal/gateway/server.go:549-564 | shows the body to a pending request's client, ignores others |
| Sessions.Session.OnEnd | internal/gateway/server.go:566-577 | offers success to a pending request |
| Gateway.OwnerIsLastAttached | internal/gateway/server.go:164-180 | a username maps to its last attached session unless that one detached since |
| Gateway.TabledNext | internal/gateway/server.go:164-180 | the table stays the map of owners after every attach and detach, late ones included |
| Gateway.Server.Attach | internal/gateway/server.go:164-171 | the new session takes the username and the one it replaces is closed |
| Gateway.Server.Detach | internal/gateway/server.go:173-180 | gives up the username only if it is still this session's, and closes the session |
| Demux.PlayKeeps | internal/gateway/server.go:485-577 | in every interleaving each request's messages under way are the unread part of its own script and its client shows the read part |
| Demux.EachClientGetsItsOwnResponse | internal/gateway/server.go:485-584 | what is written for a request is an earlier stage of its own handler's response, and all of it once its End was taken as its result |
| Demux.SuccessIsWholeExactly | internal/gateway/server.go:474-483 | when proxy reports success the client has the whole response if and only if every message but the End was handled while the request was pending |
| Demux.CutResponseIsSuccess | internal/gateway/server.go:474-483 | a run in which the session closes after the head: reported as success with none of the body |
| Demux.PendingMissesNothing | internal/gateway/server.go:485-584 | while a request is pending its client has everything read so far, and the whole response once its End was read |
| ResponseHeaders.ClientHasHeadersExactly | internal/gateway/server.go:530-547 | in every interleaving, once a client has a status it is the one its own handler decided on, and its headers are those the handler last set, less the hop-by-hop ones |
| Stream.ReadBack | internal/gateway/server.go:485-527 | the bytes of any messages, read as frames and decoded, are those messages |
| Stream.ReadCut | internal/gateway/server.go:485-527 | bytes cut anywhere give a first part of the messages |
| Stream.BytesShowResponse | internal/tunnel/client.go:161-266 | from a handler's calls through messages, frames and bytes to its client: the response they describe, or an earlier stage of it where the stream is cut |
| Stream.BytesShowEachResponse | internal/gateway/server.go:485-584 | the bytes all handlers wrote in any interleaving hold of each request exactly the written part of its own response |
| Queue.BackoffRange | internal/federation/queue.go:171-180 | exactly 2^(k-1) seconds and under the cap for every reachable attempt; capped up to the 34th, overflowing at the 35th |
| Queue.Store.Enqueue | internal/federation/store.go:228-236 | one row per inbox and activity; a second one changes nothing |
| Queue.Store.ClaimDue | internal/federation/store.go:238-266 | the earliest due pending rows, all or as many as the limit |
| Queue.Store.MarkDelivered | internal/federation/store.go:268-274 | that row becomes delivered, nothing else changes |
| Queue.Store.MarkAttempt | internal/federation/store.go:276-282 | that row takes the new attempt data, nothing else changes |
| Queue.Worker.Fail | internal/federation/queue.go:153-169 | one failed attempt as the row function says |
| Queue.Worker.Deliver | internal/federation/queue.go:108-151 | one attempt of one row as the row function says, for every outcome |
| Queue.Worker.Tick | internal/federation/queue.go:87-106 | claims a batch and attempts each row once, skipping each file activity that finds delivery paused when it is reached |
| QueueLaws.AttemptLaw | internal/federation/queue.go:108-180 | one attempt: delivered by any 2xx, pending after a temporary failure (every outcome and code written out) while fewer than twelve attempts were made, failed otherwise; postponed by exactly the doubled delay |
| QueueOutcomes.RetriedOrNot | internal/federation/queue.go:148-167 | 408, 429, 5xx and an unreachable server leave a row pending while attempts are left; 400, 401, 403, 404, 410, 422 and failures before sending fail it at once |
| QueueOutcomes.FateOfRow | internal/federation/queue.go:108-169 | over every run a row is delivered exactly when an attempt got a 2xx, failed exactly when one met something no retry mends or twelve failed for now, pending exactly while fewer than twelve attempts were made and all failed for now |
| QueueOutcomes.FailsAtTheTwelfth | internal/federation/queue.go:153-161 | over every run a row that only meets overloaded, broken or unreachable servers fails exactly at its twelfth attempt |
| QueueOutcomes.AttemptsAreSpaced | internal/federation/queue.go:171-180 | over every run a row is attempted again no earlier than 2^(j-1) seconds after its j-th attempt |
| QueueLaws.TickLaw | internal/federation/queue.go:87-169 | a tick keeps rows valid, leaves delivered and failed rows alone, and each attempt costs credit |
| QueueOutcomes.TickExactly | internal/federation/queue.go:87-106 | a tick claims at most eight due rows, leaves a due row out only for eight due no later, and attempts all it claims but the file activities that find delivery paused |
| QueueLaws.PutLaw | internal/federation/store.go:228-236 | enqueuing adds at most one row with full credit and touches none |
| QueueLaws.AttemptsAreBounded | internal/federation/queue.go:87-169 | over every run from an empty queue, n rows cause at most 12 n attempts |
| QueueLaws.FinishedStaysFinished | internal/federation/store.go:268-282 | over every run a delivered or failed row never changes |
| QueueLaws.TickAdvances | internal/federation/store.go:238-266 | a tick that leaves a due row out attempts eight rows ahead of it, and none of them stays ahead |
| QueueLaws.NoStarvation | internal/federation/queue.go:87-106 | as long as no job is skipped for a pause, a due row is passed over at most once per eight rows ahead of it, whatever is enqueued meanwhile |
| Publishing.SameIdExactly | internal/federation/publish.go:35-48 | two changes share an activity id exactly when of one kind, about one file and, unless Creates, in one second |
| Publishing.IdBelowActor | internal/federation/publish.go:35-48 | every activity id lies below the actor at the file's place, and a Create's is that place |
| Publishing.Publisher.OnIndexChange | internal/federation/publish.go:22-90 | nothing while paused; else the activity is saved under its id and each distinct effective inbox read is queued once, due at once |
| Publishing.ChangeIsQueuedExactly | internal/federation/publish.go:35-89 | the second of two changes gets rows of its own if and only if it does not share the first one's id |
| QueuedChanges.QueueHoldsFresh | internal/federation/publish.go:66-89 | a run of publications that reach an inbox queues each new activity id once and in order, whatever is delivered in between |
| QueuedChanges.QueuedReplayAgreesExactly | internal/federation/publish.go:35-89 | replaying what was queued agrees about a file with replaying every change exactly when the last change and the last queued change about it are both Deletes or neither is |
| QueuedChanges.AllFresh | internal/federation/publish.go:35-48 | where no two publications share an activity id everything is queued |
| QueuedChanges.LastDeleteIsNotQueued | internal/federation/publish.go:47-48 | a Delete, an Update and a Delete of one file in one second: the last is not queued, and the queue still announces the file |
| Publishing.OneRowPerInbox | internal/federation/publish.go:66-89 | afterwards there is exactly one row for this activity at each target inbox and no other row changed |
| Publishing.RepublishingAddsNothing | internal/federation/store.go:228-236 | publishing the same id again adds no row and revives none |
| Publishing.WhoIsServed | internal/federation/store.go:65-103 | every accepted follower is served exactly when those past the first 20 bring no inbox of their own |
| Publishing.QueuedExactly | internal/federation/publish.go:66-89 | a fresh activity is queued for an inbox exactly when one of the first twenty accepted followers has it as its shared inbox, or as its own and no shared one |
| Publishing.LastOfTwentyOneIsMissed | internal/federation/store.go:65-103 | of twenty-one followers with distinct inboxes the last gets nothing |
| Inbox.InboxHandler.RememberSignature | internal/federation/store.go:296-307 | inserted if absent, entries older than a day pruned |
| Inbox.InboxHandler.HandleFollow | internal/federation/inbox.go:107-152 | refines the follow function on the whole state |
| Inbox.InboxHandler.HandleUndo | internal/federation/inbox.go:154-173 | refines the undo function on the whole state |
| Inbox.InboxHandler.HandleAnswer | internal/federation/inbox.go:175-189 | records the answer to a follow this node sent, ignores others |
| Inbox.InboxHandler.HandleDelete | internal/federation/inbox.go:191-202 | removes the follower that deleted itself |
| Inbox.InboxHandler.CheckRequest | internal/federation/inbox.go:32-76 | the checks before the block lookup, in their order, with the replay table as it is after the signature was verified |
| Inbox.InboxHandler.Process | internal/federation/inbox.go:28-105 | checks, block lookup, remembering and handling, each against the tables it meets, with anything done by others in between |
| InboxAdmission.CheckedExactly | internal/federation/inbox.go:32-76 | when the checks pass and what each refusal means: size, signature and Date window, replay, document, and actor against signer letter by letter |
| InboxAdmission.DispatchedExactly | internal/federation/inbox.go:28-88 | in every interleaving a POST is dispatched exactly when its size, signature and Date are in order, its signature is not in the replay table it met, its actor is spelt like its signer, and neither actor nor host is among the blocks it met |
| Spelling.SameIRIExactly | internal/federation/jsonutil.go:86-89 | two IRIs count as one exactly when, without white space at the ends and at most one trailing slash each, they agree letter by letter up to ASCII case |
| InboxAdmission.OtherActorIsRefused | internal/federation/inbox.go:74-76 | a POST whose actor is spelt otherwise than its signer is refused as unauthorized and none of its steps changes any table |
| InboxLaws.ReplayAfter | internal/federation/store.go:296-307 | of all steps only remembering a POST that passed touches the replay table |
| InboxLaws.EntryHeld | internal/federation/store.go:296-307 | the hash of a dispatched signature stays in the table until an entry for it is older than the retention |
| InboxAdmission.PrunedExactly | internal/federation/store.go:296-307 | remembering a POST leaves no entry older than a day, loses none that is younger, and adds only its own |
| InboxLaws.HeldOrTooOld | internal/federation/store.go:290-307 | a dispatched signature that comes again with its Date still in the window finds its hash in the table |
| InboxLaws.ReplayExact | internal/federation/inbox.go:57-63 | in every interleaving an otherwise fine POST is refused as a replay exactly when one with its signature was remembered before its replay lookup |
| InboxLaws.AtMostOnce | internal/federation/inbox.go:57-88 | two dispatched POSTs with one signature overlap; where they do not, a signature is dispatched at most once across pruning |
| InboxLaws.BothDispatchedExactly | internal/federation/inbox.go:57-88 | two otherwise fine POSTs with one new signature are both dispatched if and only if neither is remembered before the other's replay lookup |
| InboxLaws.RawSignatureTwiceExactly | internal/federation/inbox.go:57-88 | of two new, otherwise fine POSTs with one raw signature, one after the other, both are dispatched if and only if their spellings hash differently; two canonical spellings never do |
| InboxLaws.SpelledAgainTwice | internal/federation/inbox.go:57-88 | a run of one request and then the same with its signature spelled otherwise: both dispatched, with no overlap |
| InboxLaws.OverlappingTwice | internal/federation/inbox.go:57-105 | a run of two overlapping POSTs of one Follow that are both dispatched and queue two Accepts |
| InboxLaws.OneSecondTooSlow | internal/httpsig/verify.go:14-19 | a run without overlap in which a POST that takes one second over the slack is dispatched again |
| InboxFollowers.OnlyTheSigner | internal/federation/inbox.go:74-104 | a step of a POST changes follower entries only at IRIs spelt, letter by letter up to case and a trailing slash, like the id claimed by the document at its keyId, and never the blocks |
| InboxFollowers.BlockedSigner | internal/federation/inbox.go:77-84 | a POST whose signer is blocked, but not its host, is refused exactly when its document spells the actor as the block does |
| InboxFollowers.BlockMissesOtherSpelling | internal/federation/inbox.go:74-84 | a trailing slash passes the signer check and the block of the actor's own id |
| InboxFollowers.FollowersOfRun | internal/federation/inbox.go:107-202 | after any run an IRI follows exactly when the last Follow, Undo, Delete or change by the owner about that spelling says so |
| InboxTables.StoredOfRun | internal/federation/inbox.go:122-133 | after any run a follower is stored as the very actor document its last Follow was signed with, or as the owner last left it |
| InboxTables.AnswersOfRun | internal/federation/inbox.go:175-189 | after any run a follow this node sent stands accepted exactly when the last Accept, Reject or change by the owner about it says so |
| InboxTables.AcceptsOfRun | internal/federation/inbox.go:134-151 | in every run each handled Follow of this node queues one Accept to its signer's inbox, in order, and nothing else does |
| InboxTables.AnswerExactly | internal/federation/inbox.go:107-202 | which handled activities are bad, which fail because the actor cannot be fetched, and that neither changes a table |
| InboxFollowers.FollowingIsTheOwners | internal/federation/inbox.go:175-189 | no run of POSTs makes this node follow anyone or forget whom it follows |
| InboxFollowers.UndoRemovesExactly | internal/federation/inbox.go:154-173 | an embedded Undo removes the follower exactly when its actor is spelled as stored |
| InboxFollowers.UndoMissesOtherSpelling | internal/federation/inbox.go:169-172 | a spelling with a trailing slash passes as the same actor and removes nothing |
| InboxFollowers.UndoByIriIsIgnored | internal/federation/inbox.go:154-162 | an Undo naming its Follow by IRI says nothing about anyone following |
| SignatureHeader.SplitComma | internal/httpsig/parse.go:108-132 | the loop refines the splitter |
| SignatureHeader.SplitJoined | internal/httpsig/parse.go:108-132 | splitting undoes joining with commas for parts whose commas are quoted |
| SignatureHeader.Parse | internal/httpsig/parse.go:62-100 | the loop over the parts refines the parser function |
| SignatureHeader.FieldsOfJoin | internal/httpsig/parse.go:82-103 | splitting into words undoes joining header names with blanks |
| SignatureHeader.ParseInvertsHeader | internal/httpsig/parse.go:62-106 | for quote-free strings parsing a printed header gives it back exactly when id and signature are nonempty, the algorithm is rsa-sha256 and the headers are a nonempty list of header names |
| SignatureHeader.ParsedExactly | internal/httpsig/parse.go:62-100 | which headers parse, with which defaults, and which error the others give |
| SignatureCheck.ParseRequest | internal/httpsig/parse.go:22-48 | the loop over the header values refines the chooser |
| SignatureCheck.PrintedIsFound | internal/httpsig/parse.go:22-60 | a printed header is found behind any number of RFC 9421 or malformed values |
| SignatureCheck.LoneHeader | internal/httpsig/parse.go:50-60 | a lone header is turned down as RFC 9421 exactly when it names no key id and holds "=:" or "sig1=" |
| SignatureCheck.DateIsSigned | internal/httpsig/verify.go:72-100 | nothing is accepted whose Date is not signed, present and within the window |
| SignatureBody.AcceptedExactly | internal/httpsig/verify.go:29-100 | a request is accepted if and only if a usable header is found that signs the Date and, for POST and PUT, the Digest; the Date is in the window; a signed Digest is that of the body; and the signature holds of every signed name and value |
| SignatureBody.AcceptedBindsBody | internal/httpsig/verify.go:43-49 | an accepted POST or PUT signs its Digest, which is the digest of its body up to letter case and blanks |
| SignatureBody.SignatureBindsBody | internal/httpsig/verify.go:29-70 | two accepted POSTs or PUTs with one signature under one key have bodies of one digest, so equal bodies where a digest determines its body |
| SignatureBody.ReplacedBodyIsRefused | internal/httpsig/verify.go:43-49 | an accepted POST or PUT with any other body is refused |
| SignatureBody.SignatureBindsTarget | internal/httpsig/sign.go:98-135 | two accepted requests with one signature under one key ask for the same path and query of the same host by the same method |
| Signer.Outgoing.SignRequest | internal/httpsig/sign.go:28-59 | sets Date, host and Digest where the source does, then one Signature header over the four default names, and exactly when it fails |
| Signer.Outgoing.SignGET | internal/httpsig/sign.go:62-91 | the same over the three names of a GET, with no Digest |
| Signer.PreparedExactly | internal/httpsig/sign.go:32-41 | a Date or host that is there stays, an absent one is filled in, the Digest is always set to that of the body, and no other header changes |
| Signer.SignedIsAccepted | internal/httpsig/verify.go:29-70 | what was signed, over either list, is accepted with the very parameters it was signed with while its Date is in the window |
| Signer.SignThenVerify | internal/httpsig/verify.go:29-70 | what SignRequest signs is accepted exactly while its Date is in the window and its body is the one signed |
| SignatureCheck.SpellingDoesNotMatter | internal/httpsig/verify.go:54-69 | a request whose header differs only in how the signature is spelled in base64 is accepted with it or refused with it |
| SignatureCheck.SignatureBinds | internal/httpsig/verify.go:29-70 | accepted requests with one signature value under one key agree on every header both sign |
| SignatureCheck.SignaturesBindDates | internal/httpsig/verify.go:29-100 | so in every run a signature is only ever valid with one Date, as the inbox relies on |
| SigningText.SigningString | internal/httpsig/sign.go:113-135 | the loop refines the signed text, with the first missing header as its error |
| SigningText.LinesAre | internal/httpsig/sign.go:113-135 | signing succeeds exactly when every named header has a value, one line for each in order |
| SigningText.FixedListDetermines | internal/httpsig/sign.go:113-135 | for one header list equal texts of line-free values agree on every value |
| SigningText.TextDetermines | internal/httpsig/sign.go:113-135 | equal texts were signed over the same names with the same values, even from different lists |
| SigningText.TextBindsValue | internal/httpsig/sign.go:113-135 | texts that both sign a name agree on its value wherever it stands |
| SigningText.TargetDetermines | internal/httpsig/sign.go:98-111 | equal request targets agree on the method, up to case, and on the target |
| SigningText.TargetOfDetermines | internal/httpsig/sign.go:98-111 | equal targets have equal paths and equal queries |
| Search.ThreePassesEscapeOnce | internal/files/store.go:241-246 | the three passes escape each special character exactly once |
| Search.PatternMeansContains | internal/files/store.go:216-246 | the pattern built from any query matches exactly the strings containing it, without ASCII case |
| Search.SearchFindsExactly | internal/files/store.go:203-239 | what a search pages through is exactly the public files whose name or path contains the query |
| Search.QueryExactly | internal/files/store.go:203-208 | what is searched for is the trimmed text or its first 200 characters |
| Search.SearchPagesCover | internal/files/store.go:203-239 | consecutive pages of a search, with any limit, visit everything selected once and in order; every page reports how many there are, and holds at most 80 |
| Numbers.DigitsOfItoa | internal/activitypub/handler.go:379-379 | decimal text reads back as its number |
| Paging.ParsePageOfItoa | internal/activitypub/handler.go:371-387 | a printed page number is parsed as that page |
| Paging.Serve | internal/activitypub/handler.go:102-147 | the loop over one page's rows builds the page document of the whole shown listing |
| Paging.NextOfPage | internal/activitypub/handler.go:237-242 | next leads to the following page up to the last, prev back |
| Paging.OneWalk | internal/activitypub/handler.go:203-246 | there is exactly one walk from first along next: all pages in order; none for an empty collection |
| Paging.WalkVisitsAll | internal/activitystreams/collection.go:28-48 | the walk visits every item once and in order, in ceil(total/20) pages, ends at last, and prev takes each step back |
| Paging.WalkPages | internal/activitypub/handler.go:203-246 | each page is found under the id it gives, names its collection and is full unless it is the last; the collection counts the items |
| Paging.AskedExactly | internal/activitypub/handler.go:371-387 | which page parameters are refused and what the others ask for |
| Paging.PastTheEndExactly | internal/activitypub/handler.go:222-239 | a page past the end has no next, and is empty exactly when its offset, wrapped to an int64, is not before the end; an offset that fits never is |
| Paging.RepeatsTheFirstExactly | internal/activitypub/handler.go:222-230 | a page repeats the first page's items when its wrapped offset is not positive, and only then where the first item is listed once |
| Paging.FarPages | internal/activitypub/handler.go:222-222 | two page numbers whose offsets do not fit: one repeats the first page, one is empty |
| DownloadLimiter.Effective | internal/files/limiter.go:26-34 | limits that are positive are kept; others become 8 overall and 4 per client |
| DownloadLimiter.Limiter.Acquire | internal/files/limiter.go:36-47 | grants exactly when both limits allow, and then counts one slot |
| DownloadLimiter.Limiter.Release | internal/files/limiter.go:48-56 | gives back one slot and drops an entry that reaches zero |
| DownloadLimiter.RunIsSound | internal/files/limiter.go:36-57 | in every interleaving of acquires and single releases the table counts the outstanding slots |
| DownloadLimiter.SlotsAreConserved | internal/files/limiter.go:36-63 | active is the sum of the host counts and the number of outstanding releases, within both limits, and releasing all leaves nothing |

## Left out

- The directories table, status and progress reports, MIME sniffing, `waitStable` and the file watcher; the disk is fixed during one Scan, and database calls succeed.
- The branch at internal/indexer/indexer.go:153-158: a row is only found unchanged when it is available, so it never runs.
- Indexer.Indexer.RemovePath: runs as one atomic step, although the source takes no index lock around it.
- Indexer.Indexer.MoveCandidate: any of several equally good matches may be chosen, because the query orders them only by the database.
- FileStore.Store.Upsert: a conflict on the path is looked at before a conflict on the id; the random source never gives an id that was stored before or that a caller brings along.
- Text.TrimSpace: strings are sequences of characters; invalid UTF-8, and letter case outside ASCII, are not modelled (`strings.ToLower`, `EqualFold`).
- Search.QueryExactly: characters are counted where the source counts bytes.
- Search.SearchFindsExactly: the query is cut at 200 characters where the source cuts at 200 bytes, and the table is given in its ORDER BY order.
- Frames.Conn.ReadFrame: buffering, deadlines and the write lock; a frame is written and read atomically.
- Stream.BytesShowEachResponse: the JSON of head and end frames is a pair of inverse functions; messages too large for a frame are left to the limit `Frames.Conn.WriteFrame` enforces.
- Statuses below 200, flushing, ping frames and the handshake.
- Sessions.Session.OnHead: the client's header map is empty before the first head, so adding to it is setting it; header names compare in one letter case.
- Sessions.Session.Close: pending requests are values in a table rather than shared pointers; a frame callback is one atomic step, and request ids are not reused within a session.
- Demux.PlayKeeps: one handler thread per request; frames of different requests interleave freely.
- The gateway's offline fallback, Actor cache, profile pages, and routing.
- Queue.Worker.Tick: cancellation in the middle of a batch, and several workers on one queue.
- Queue.Store.ClaimDue: rows due at the same second come in any order.
- QueueLaws.NoStarvation: nothing is claimed when file jobs are skipped for a pause, because they stay due and can fill every batch.
- Publishing.Publisher.OnIndexChange: the documents and their encoding are a parameter, and saving and queuing succeed.
- Inbox.InboxHandler.HandleFollow: the saved Accept activity and the fields of a follower that no decision depends on.
- InboxFollowers.OnlyTheSigner: the tie between a keyId and the id its document claims (internal/federation/fetch.go:138) is left out; the signer is the id claimed.
- QueuedChanges.QueueHoldsFresh: rows of other activities for the inbox, such as Accepts, and the order in which retries deliver.
- Inbox.InboxHandler.Process: decoding of JSON, URL parsing and fetching of actor documents are parameters; each lookup and each handler is one step.
- SignatureCheck.SignatureBinds: RSA, SHA-256 and base64 are an oracle in which a signature is valid under one key for one text only.
- SignatureBody.SignatureBindsBody: that a digest determines its body, even up to letter case, is a premise.
- Signer.Outgoing.SignRequest: the URL's host, the clock's reading as HTTP writes it, RSA and base64 are parameters, and a missing request or key is not modelled.
- SignatureCheck.SignaturesBindDates: that one signature value comes with one key, and that hashes of different values differ, are premises.
- SigningText.SigningString: `http.Header` is a map from lower-case names to first values.
- Paging.WalkVisitsAll: the listing does not change during the walk, in content or order (the followed actors are sorted by time alone, so ties may be listed in another order from page to page), its size fits an int64 with one page to spare, and page numbers are otherwise unbounded.
- DownloadLimiter.SlotsAreConserved: limits do not change during the run, each release is called once, and bandwidth pacing is not modelled.
- Config loading, `parseRange`, status transitions, size formatting and reconnect jitter are not modelled.
