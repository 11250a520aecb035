# A Dafny model of the file-sharing server

The repository is a LAN file-sharing server written in Go with a browser client. This project models
the parts of it where the logic is hardest and proves what those parts are for.

* **Resumable uploads** (`Ranges`, `Pieces`, `Session`, `Progress`, `Lifecycle`, `Requests`, `UploadSession`,
  `UploadMachine`, `UploadOrder`, `UploadAlone`, `UploadRoom`, `UploadSafety`, `UploadContent`, `UploadAccept`,
  `UploadComplete`, `SessionHistory`, `SessionPanel`). A session keeps a list of received byte intervals, a bitmap of verified pieces and a sparse
  file. Requests check under a lock, write unlocked and account under the lock again, each time reading the saved
  metadata anew; metadata that fails `validMeta` counts as no session (`Lifecycle.Load`). `UploadMachine` runs any
  number of such requests, and completions, in any interleaving, one chunk or one locked section at a time. The
  hash is any function from bytes to strings. Limits have their default values.
* **Guest relay** (`RelayTables`, `RelayHistory`, `RangeHeader`, `RangeMeaning`, `RelayServe`, `RelayAnswers`). Job tables with claims and long polls, and
  downloads answered from a retained prefix followed by a tail the owner sends live.
* **Share registry** (`ShareRegistry`, `ShareTimes`, `LiveRegistry`). Shares by id, their order, their upload sessions,
  and the synchronisation with the managed folder.
* **Folder walks** (`NameOrder`, `DirTree`, `DirPaths`, `EmptyDirs`, `DirWalk`, `DirReach`, `SharedWalks`). The one-pass
  walk that replaced a plain walk followed by a collector of empty directories.
* **QR encoder** (`FieldPolynomials`, `Gf256`, `QrMath`, `QrPolynomial`, `QrBlocks`, `QrMessage`, `QrModules`,
  `QrPatterns`, `QrAlignment`, `QrSymbol`). Log and exp tables, Reed-Solomon remainders, block interleaving, function patterns and module
  placement. The field laws are proved for the library's tables, and the polynomial theory once for every
  commutative ring of characteristic two with division.
* **DNS codec** (`DnsName`, `DnsEncode`, `Llmnr`). Names with compression pointers, name encoding, and the
  LLMNR reply. Lower-casing is any function.
* **Streaming SHA-256** (`Sha256Stream`). Buffering and padding around any compression function.

Code that updates state is modelled by classes and methods with the loops of the source. Each is proved
equal to a function, and the theorems are about that function. `Wrappers` holds `Option` and the byte type,
`Sequences` lists without repetitions.

## What the proofs found

The following promises of the code or of its comments do not hold on all inputs. Each has a theorem that
gives the exact condition.

* `rangeAdd` called with a start at the session's size, or with a span below zero, leaves an empty interval
  in the list unless that interval touches another one (`Ranges.AddRangeNormalIff`).
* `resumeV2` drops a stored hash list that is shorter than the piece count, so a conflict with a hash recorded
  there goes unnoticed and a marked piece no longer matches its recorded hash
  (`Lifecycle.ResumeMatchIff`, `Lifecycle.ResumeForgetsRecordedHash`).
* Re-sending a piece that is already marked, with a different body, is stored and answered with success; and a
  re-send that is cut short is refused after its bytes were written. In both cases the mark stays, and it is
  wrong exactly when the piece as it then is has another hash (`UploadSafety.ResendMatchIff`,
  `UploadSafety.ResendCorrupts`, `UploadSafety.CutShortCorrupts`).
* A session of more than 20000 pieces can come to hold more intervals than `validMeta` accepts, so its saved
  metadata is rejected on reload, whether its pieces are verified or not (`Lifecycle.LargeSessionsOutgrowReload`).
  Arrival order then matters: some order refuses an acceptable request exactly when some proper part of them
  leaves more than 10000 intervals (`UploadRoom.NeverRefusedIff`), which for two requests means that one of them, alone,
  already does (`UploadRoom.TwoRequestsIff`, `UploadRoom.SomeOrderRefuses`).
* Under the default configuration an upload of any size is accepted, but metadata of a file above 64 GiB is
  rejected on reload, so such a session is lost as soon as it is saved (`Lifecycle.NewSessionInv`,
  `Lifecycle.HugeInitIsLost`). Up to 64 GiB and 20000 pieces a session fed whole pieces is never rejected
  (`SessionHistory.SmallHistoryNeverLost`).
* The sessions panel is cut to fifty entries, so it shows every unfinished session exactly when there are at most
  fifty (`SessionPanel.PanelListsIff`).
* A session upgraded from the sequential format has marked pieces without recorded hashes as soon as it holds
  one whole piece (`Lifecycle.UpgradeMatchIff`).
* The Reed-Solomon generator has a zero coefficient at degree 255 and at no smaller one, so
  `getErrorCorrectPolynomial` throws exactly from 256 on; block tables stay far below
  (`QrPolynomial.GeneratorZeroIff`).
* `readName` gives back what `encodeName` wrote exactly for names whose labels have 1 to 63 bytes and are fewer
  than the moves allowed; others are written all the same (`DnsEncode.RoundTripIff`).
* With the owner gone, a request without a range is answered with status 200 although only a prefix is there;
  such an answer is the whole file exactly when the file is complete, the owner is there or the prefix is full
  (`RelayServe.WholeAnswerIff`).
* One pass of `syncTempLive` may leave work for a second one: it settles exactly when the registry is full
  afterwards, or every shareable item was admitted or is covered by an entry whose bytes are there. Two passes
  always settle (`ShareRegistry.OnePassSettlesIff`, `ShareRegistry.OnePassMayNotSettle`,
  `ShareRegistry.TwoPassesSettle`).

## Model

| member | source | states |
|---|---|---|
| Ranges.AddRangeIsUnion | goserver/pieces.go:44-86 | on any list of non-empty intervals, adding a span that is not clamped away covers exactly the old bytes and the span, and the result is sorted with no two intervals touching |
| Ranges.AddRangeNormalIff | goserver/pieces.go:44-86 | exactly which calls keep the normal form, including spans clamped to nothing |
| Ranges.NormalFormUnique | goserver/pieces.go:44-86 | two normal lists that cover the same bytes are the same list |
| Ranges.RemoveRangeIsDifference | goserver/pieces.go:95-111 | removal is set difference on bytes and keeps the normal form |
| Ranges.RemoveRangeNormalIff | goserver/pieces.go:95-111 | a removal spoils the normal form exactly when its span is empty and lies strictly inside an interval |
| Ranges.RangeCoverIff | goserver/pieces.go:87-94 | on the normal form a span is inside one interval exactly when every byte of it is covered |
| Ranges.ReceivedCountsCovered | goserver/pieces.go:112-120 | the byte counter is the number of covered bytes |
| Ranges.AllBytesReceivedIff | goserver/pieces.go:112-120 | the counter reaches the size exactly when all bytes are covered, and exactly when the list is one interval |
| Pieces.PiecesTile | goserver/pieces.go:13-26 | pieces are non-empty, at most one piece length long and follow each other without gap up to the size |
| Pieces.PieceOfByte | goserver/pieces.go:13-26 | every byte lies in the piece its quotient names |
| Session.ScanSpanMeaning | goserver/upload_chunk.go:211-248 | after the scan of a span a piece is marked exactly when it was, or is complete and passes its hash; rejected pieces, and nothing else, lose their bytes and are reported |
| Session.AccountMeaning | goserver/upload_chunk.go:337-358 | what one accounting section does to bitmap, intervals and rejected list, for every piece of the session |
| Session.AccountKeepsInv | goserver/upload_chunk.go:211-248 | after any span, verified or not, a piece is marked exactly when all its bytes are in the intervals |
| Progress.FinishedViewsAgree | goserver/pieces.go:34-132 | no missing pieces, all bytes received, one whole interval and contiguous offset at the end are the same thing |
| Progress.ContiguousIsReceived | goserver/pieces.go:121-132 | everything before the contiguous offset has been received |
| Progress.HalfAsManyRanges | goserver/pieces.go:44-86 | intervals made of whole pieces number at most half the pieces, rounded up, and one more when one piece is partly there |
| Progress.AccountKeepsWholePieces | goserver/upload_chunk.go:337-358 | accounting a whole piece keeps all intervals made of whole pieces, but for the one that is partly there |
| Lifecycle.NewSessionInv | goserver/upload_init.go:88-101 | a new session satisfies the session invariant, and can be read again exactly when its file has at most 64 GiB |
| Lifecycle.HugeInitIsLost | goserver/upload_init.go:29-63 | a concrete init of 68 GiB in 4352 pieces that is accepted and cannot be read again |
| Lifecycle.LoadIff | goserver/sessions.go:170-204 | which saved metadata is read again, with every limit spelled out |
| Lifecycle.ReloadIff | goserver/sessions.go:170-204 | a session created by an accepted init is accepted on reload exactly when it holds at most the allowed number of intervals and its file has at most 64 GiB |
| Lifecycle.SmallSessionsReload | goserver/sessions.go:170-204 | for a session of whole pieces, at most 20000 of them, or two fewer with one partly there, only the size of the file decides |
| Lifecycle.LargeSessionsOutgrowReload | goserver/sessions.go:170-204 | sending every other piece, unverified or with its right content, is accepted on reload exactly up to the allowed number of intervals |
| Lifecycle.ReinitKeepsInv | goserver/upload_init.go:146-210 | re-initialisation keeps the invariant, and a resumed session keeps its progress |
| Lifecycle.ResumeRecordsAll | goserver/upload_init.go:105-137 | a resumed session has a recorded hash for every piece |
| Lifecycle.RebuildsIff | goserver/upload_init.go:105-137 | a resume asks for a rebuild exactly when the piece lengths differ or a full list of recorded hashes differs from the offer somewhere |
| Lifecycle.ReinitKeepsFewIntervals | goserver/upload_init.go:105-137 | re-initialisation never makes a session outgrow reload |
| Lifecycle.ResumeMatchIff | goserver/upload_init.go:105-137 | after resuming, marked pieces match their recorded hashes exactly when the stored list was full length or agreed with the offer on the marked pieces |
| Lifecycle.ResumeForgetsRecordedHash | goserver/upload_init.go:105-137 | a concrete session and offer for which they do not |
| Lifecycle.UpgradeKeepsProgress | goserver/registry.go:841-904 | an upgraded session satisfies the invariant and the limits, keeps the byte count, and its contiguous offset lags by less than one piece |
| Lifecycle.UpgradeIff | goserver/registry.go:841-904 | which sequential sessions are upgraded, and that the result has no recorded hashes and pieces of 4 MiB |
| Lifecycle.UpgradeHasFewIntervals | goserver/registry.go:841-904 | whole pieces but one, and too few to outgrow reload, if the file has at most 64 GiB |
| Lifecycle.UpgradeMatchIff | goserver/registry.go:841-904 | its marked pieces match recorded hashes exactly when no whole piece had been received |
| UploadSession.SessionMeta.RangeAdd | goserver/pieces.go:44-86 | the loop in place gives the interval list of the specification and touches nothing else |
| UploadSession.SessionMeta.RangeRemove | goserver/pieces.go:95-111 | the same for removal |
| UploadSession.SessionMeta.ReceivedRangesBytes | goserver/pieces.go:112-120 | the loop counts the received bytes |
| UploadSession.SessionMeta.MissingPieces | goserver/pieces.go:34-43 | the loop lists the missing pieces |
| UploadSession.SessionMeta.ContiguousOffset | goserver/pieces.go:121-132 | the loop stops at the first unmarked piece |
| UploadSession.SessionMeta.MergeClaimHash | goserver/upload_chunk.go:191-204 | the hash list grows to the claimed piece, records the claim or reports a conflict |
| UploadSession.SessionMeta.Resume | goserver/upload_init.go:105-137 | the two loops over offered hashes report a conflict or merge them as specified, and touch nothing but the hash list |
| UploadSession.SessionMeta.Upgrade | goserver/registry.go:841-904 | the loop over pieces gives the specified bitmap, interval and constants, or refuses and changes nothing |
| UploadSession.SessionMeta.VerifySpan | goserver/upload_chunk.go:211-248 | the loop over the pieces of a span gives the specified bitmap, intervals and rejected list |
| UploadSession.ValidMeta | goserver/sessions.go:170-204 | the checks in their order, with the loop over intervals, accept exactly the specified metadata |
| UploadSession.SessionDir.LoadMeta | goserver/sessions.go:57-78 | finds what was saved, unless the check rejects it |
| UploadSession.SessionDir.Check | goserver/upload_chunk.go:277-304 | the first locked section, on reloaded metadata, refuses exactly the requests the specification refuses, and changes nothing |
| UploadSession.SessionDir.StreamBody | goserver/upload_chunk.go:13-41 | the copy loop lays the delivered part of the body over the file |
| UploadSession.SessionDir.SettleSpan | goserver/upload_chunk.go:337-358 | the second locked section reloads, refuses unreadable metadata and leaves it, else merges the claim, accounts and saves |
| SessionPanel.HandleUploadSessions | goserver/upload_status.go:37-76 | the loop, the sort and the cut give one of the specified panels |
| SessionPanel.PanelShows | goserver/upload_status.go:37-76 | at most fifty unfinished sessions, most bytes first, each with its own progress; who is left out was cut and has no more bytes than anyone shown |
| SessionPanel.EntryTells | goserver/upload_status.go:37-76 | an entry in pieces tells the number of received bytes and of unmarked pieces |
| SessionPanel.SequentialUnfinishedIff | goserver/upload_status.go:37-76 | a sequential upload is listed exactly while its file is there and short |
| SessionPanel.PanelListsIff | goserver/upload_status.go:72-74 | no unfinished session is left out exactly when there are at most fifty |
| SessionPanel.PanelHidesFinished | goserver/upload_status.go:54-76 | the panel hides all V2 sessions that pass the missing-pieces gate, and others only if more than fifty are unfinished |
| UploadOrder.SettleOnePiece | goserver/upload_chunk.go:337-358 | settling one piece marks it exactly when it passes, empties it when it fails, and changes no other piece |
| UploadOrder.RunKeepsInv | goserver/upload_chunk.go:253-371 | when every proper part of the requests leaves few enough intervals for reload, in every state of every interleaving each request's bytes, refusal or effect are intact |
| UploadOrder.SamePiecesSameMeta | goserver/upload_chunk.go:253-371 | agreement piece by piece forces equal bitmaps and literally equal interval lists |
| UploadOrder.ArrivalOrderInvisible | goserver/upload_chunk.go:274-358 | under that condition requests for distinct pieces end in the same saved metadata under any two interleavings |
| UploadOrder.NoUpdateLost | goserver/upload_chunk.go:274-358 | under that condition and any interleaving every acceptable request has had its full effect, every other none, and pieces nobody sent are as before; UploadAccept.AcceptedIff says which are acceptable |
| UploadOrder.AllCanFinish | goserver/upload_chunk.go:253-371 | from any state reached some schedule finishes every request |
| UploadAccept.HeardIff | goserver/upload_chunk.go:120-148 | told by the request and the metadata alone: its body is copied exactly when it is well sized, at most 64 MiB long, and claims a digest of 64 hex digits that agrees with what is recorded, or nothing where nothing is needed |
| UploadAccept.AcceptedIff | goserver/upload_chunk.go:120-371 | a request is acceptable exactly when its whole body arrives besides |
| UploadAccept.RefusingIff | goserver/upload_chunk.go:120-148 | the reason a refused request is given, for each of the six, and that there is no other |
| UploadAccept.SpanAcceptedIff | goserver/upload_chunk.go:253-300 | a plain span is accepted exactly when it is not empty, at most 64 MiB long and inside the file |
| UploadAccept.HonestUploadFinishes | goserver/upload_chunk.go:253-371 | a client that opens a session of at most 64 GiB and 20000 pieces and sends each piece once with the digest of its bytes, or with nothing in a turbo session, has every request settled and no piece missing under every schedule that finishes them |
| UploadAccept.HonestUploadIsFile | goserver/upload_chunk.go:253-371 | and the file on disk is then the one the pieces were taken from |
| UploadComplete.CompleteAlone | goserver/upload_complete.go:47-152 | a completion on its own places the file exactly when the session can be read, nothing is missing, and the full hash is the file's, or is absent in a session whose pieces were checked; a mismatch is answered exactly when only the hash is wrong; the bytes stay |
| UploadComplete.PlacedWasHashed | goserver/upload_complete.go:88-97 | in any run whoever named a full hash and was let past it had it compared with the whole file at that step, and it was the file's |
| UploadComplete.PlacedByCompletion | goserver/upload_complete.go:98-152 | in any run a file is only ever moved by a completion past its hash step that finds a readable session with nothing missing |
| UploadAlone.AloneRun | goserver/upload_chunk.go:253-371 | a request running alone, whatever arrives of its body, leaves exactly these bytes and this metadata |
| UploadRoom.PartAddsFew | goserver/pieces.go:44-86 | settled requests begin at most one interval each |
| UploadRoom.RoomStaysReadable | goserver/sessions.go:57-78 | with at most 20000 whole pieces, or as many intervals to spare as requests, the condition holds and the metadata can be read again in every state of every run |
| UploadRoom.NeverRefusedIff | goserver/upload_chunk.go:279-343 | no interleaving refuses an acceptable request, one that UploadAccept.AcceptedIff names, exactly when every proper part of the requests leaves few enough intervals |
| UploadRoom.TwoRequestsIff | goserver/upload_chunk.go:279-343 | for two requests, exactly when each of them alone does |
| UploadRoom.SomeOrderRefuses | goserver/upload_chunk.go:279-343 | a concrete session and two requests of which some order refuses one, although the other order serves both |
| UploadSafety.RunStaysSafe | goserver/upload_chunk.go:211-248 | in a verified session, while no write changes a byte of a marked piece, marked pieces on disk match their recorded hashes throughout any run with uploads and completions |
| UploadSafety.PlacedFileIntact | goserver/upload_complete.go:58-152 | a file placed in such a run has the declared size and every piece matches its recorded hash; UploadComplete.PlacedWasHashed speaks of the full hash |
| UploadSafety.ResendMatchIff | goserver/upload_chunk.go:219-336 | after any request that ran alone, whole, cut short or refused, marked pieces match exactly unless it was heard, its piece was marked, and what arrived leaves the piece with another hash |
| UploadSafety.ResendCorrupts | goserver/upload_chunk.go:219-223 | a concrete run in which such a re-send is answered with success |
| UploadSafety.CutShortCorrupts | goserver/upload_chunk.go:332-336 | a concrete run in which one byte arrives over a marked piece, is refused and stays |
| UploadContent.OneFileIsFaithful | goserver/upload_chunk.go:253-371 | when all bodies, and the pieces marked before, are taken from one file, no write of any run changes a byte of a marked piece, re-sends and cut bodies included |
| UploadContent.PlacedFileIsOriginal | goserver/upload_complete.go:58-152 | the placed file is then that file byte for byte, verified or not, and stays so while late writers finish |
| SessionHistory.HistoryKeepsInv | goserver/sessions.go:57-91 | any history of accounted spans, reloads, inits of either kind and upgrades keeps the session invariant |
| SessionHistory.ReopenIff | goserver/upload_init.go:146-210 | an accepted init leaves a session for its own file; what was there goes on with all its progress exactly when it is that file's and no offered hash conflicts, else the session starts anew |
| SessionHistory.SmallHistoryNeverLost | goserver/sessions.go:57-91 | over such histories of whole pieces, with files of at most 64 GiB and 20000 pieces, the session is accepted on every reload |
| RelayTables.RunKeepsInv | goserver/registry.go:1834-1992 | in every run a token is pending for its owner, once, exactly while its job is live and unclaimed; whoever is registered waits for an owner with nothing pending; every sleeping poll is registered or has its wake-up |
| RelayTables.PendingIsOpen | goserver/registry.go:1856-1902 | an owner has pending exactly the tokens enqueued for it and not claimed or removed since, in order of arrival |
| RelayTables.NeverPendingAgain | goserver/registry.go:1962-1990 | with fresh tokens, a job once claimed or removed is never pending again |
| RelayTables.NoWakeUpLost | goserver/registry.go:1912-1959 | a poll asleep while its owner has work holds its wake-up, and one without a wake-up is registered for the next |
| RelayHistory.JobIff | goserver/registry.go:1856-1996 | in every run a job is in the table exactly when it was enqueued and not removed since, and is claimed exactly when a claim came after |
| RelayHistory.AsleepIff | goserver/registry.go:1912-1959 | a poll is asleep exactly when it found nothing pending and has not ended since |
| RelayHistory.WokenIff | goserver/registry.go:1856-1959 | a sleeping poll holds a wake-up exactly when a job for its owner came after it went to sleep |
| RelayTables.Tables.EnqueueJob | goserver/registry.go:1856-1876 | lists the job, signals everyone registered and forgets them |
| RelayTables.Tables.RemoveJob | goserver/registry.go:1878-1902 | takes the job off both tables |
| RelayTables.Tables.ClaimJob | goserver/registry.go:1962-1996 | accepts exactly live tokens, marks them and takes them off the pending list |
| RelayTables.Tables.PollStart | goserver/registry.go:1912-1930 | offers all pending jobs in order, or registers the poll |
| RelayTables.Tables.PollEnd | goserver/registry.go:1935-1959 | offers what is pending by then and drops the registration |
| RangeHeader.Parse | goserver/download.go:15-70 | the step-by-step parser gives the specified bounds, always inside the file, and the whole file when it refuses |
| RangeHeader.FirstLast | goserver/download.go:41-70 | `a-b` means those bytes cut at the end of the file and is refused exactly when b < a or a is past the end |
| RangeHeader.FromFirst | goserver/download.go:41-70 | `a-` means everything from a on |
| RangeHeader.Suffix | goserver/download.go:32-40 | `-n` means the last n bytes, or all of them |
| RangeHeader.ParseDigits | goserver/download.go:33-61 | every number up to the 64-bit maximum is read back from its decimal digits |
| RangeMeaning.RangeIff | goserver/download.go:15-70 | for every header: it is taken for the part a to b exactly when, blanks and letter case aside, its first spec behind `bytes=` asks for a to b and that lies in the file; all else is the whole file |
| RangeMeaning.BoundsIff | goserver/download.go:26-63 | what one spec asks for, blanks, signs, leading zeros, missing bounds and 64-bit wrap-around included |
| RangeMeaning.ParseIntIff | goserver/download.go:33-61 | a number is digits behind at most one sign, leading zeros allowed, within 64 bits |
| RelayServe.ServeIsPart | goserver/registry.go:1613-1828 | with an honest owner, however early it stops, the retained file stays a growing prefix of the owner's file and the answer is taken from the announced range, from its start |
| RelayServe.ServeInFull | goserver/registry.go:1613-1828 | an answer nobody cuts short is exactly the announced range of the owner's file |
| RelayServe.PartialIff | goserver/registry.go:1613-1828 | a range is answered with status 206 exactly when it parses and the file is complete, the range is retained or the owner picks up the job; what is announced is what was parsed |
| RelayServe.WholeAnswerIff | goserver/registry.go:1634-1645 | when a 200 answer is the whole file |
| RelayAnswers.RefusedIff | goserver/registry.go:1613-1828 | exactly which downloads are refused, with 416, 504 or 404 |
| RelayAnswers.PlainIff | goserver/registry.go:1613-1828 | exactly which downloads are answered with status 200, and what they announce |
| RelayAnswers.RetainedIff | goserver/registry.go:1811-1823 | an uncut download leaves the file up to the end of its range on disk exactly when it was relayed from where the disk ends, else what there was |
| RelayAnswers.AskedIff | goserver/registry.go:1765-1774 | the owner is asked for exactly the bytes of the range that are not on disk |
| RelayServe.RunIsPart | goserver/registry.go:1747-1828 | over any sequence of downloads, cut short or not, retained bytes and answers are the owner's |
| RelayServe.OneFullRelayIsEnough | goserver/registry.go:1811-1823 | after one uncut relay of the whole file every range is answered from disk |
| RelayServe.GuestEntry.CopyTail | goserver/registry.go:1811-1823 | the copy loop, with reads of any size, sends and appends exactly the pulled part of the pipe |
| RelayServe.GuestEntry.ServeGuestRelay | goserver/registry.go:1747-1828 | the relay path gives the specified answer and file |
| RelayServe.GuestEntry.ServeGuestEntry | goserver/registry.go:1613-1683 | so does the entry point |
| ShareRegistry.RunKeepsInv | goserver/registry.go:385-569 | in every run the order lists each live id exactly once and the session table is the inverse of the entries' sessions |
| ShareRegistry.SettledIff | goserver/registry.go:385-569 | a pass leaves the registry alone exactly when no entry's bytes are gone and every shareable item is covered or the registry is full |
| ShareRegistry.OnePassSettles | goserver/registry.go:385-569 | one pass settles a registry none of whose bytes are gone |
| ShareRegistry.TwoPassesSettle | goserver/registry.go:385-569 | on an unchanged disk two passes always reach a state no further pass changes |
| ShareRegistry.OnePassSettlesIff | goserver/registry.go:385-569 | one pass settles exactly when the registry is full afterwards, or every shareable item was admitted or lies on the path of an entry whose bytes are there |
| ShareRegistry.OnePassMayNotSettle | goserver/registry.go:385-569 | a concrete registry for which one pass is not enough |
| ShareTimes.OperationChanges | goserver/registry.go:649-1150 | what adding, finishing, unsharing and restoring leave of the entries |
| ShareTimes.SyncKeeps | goserver/registry.go:385-569 | a pass drops exactly the managed entries whose bytes are gone and leaves the others as they are |
| ShareTimes.SyncRegistersOnly | goserver/registry.go:385-569 | it registers only files with bytes and folders with files, not hidden, not blocked, that no entry lay on |
| ShareTimes.SyncRegistersAll | goserver/registry.go:385-569 | it registers all of them while the limit leaves room, and never passes the limit |
| ShareTimes.FirstListedFirst | goserver/registry.go:385-569 | without room for all, those listed first are taken until the registry is full |
| ShareTimes.OldestFirst | goserver/registry.go:716-719 | in every run the order lists the live entries in the order they came |
| LiveRegistry.Registry.Register | goserver/registry.go:716-719 | adds one entry to every table and keeps the invariant |
| LiveRegistry.Registry.Drop | goserver/registry.go:1136-1150 | takes one entry off every table, searching and splicing the order |
| LiveRegistry.Registry.SyncTempLive | goserver/registry.go:385-569 | the pass with its loops and early stops gives the specified registry |
| NameOrder.SortedUnique | goserver/folders_walk.go:229-256 | a list sorted strictly by name is determined by its elements |
| NameOrder.LessIff | goserver/folders_walk.go:152 | one name is before another exactly when it is a proper start of it or has the smaller character where they first differ |
| DirTree.WalkFindsAll | goserver/folders_walk.go:91-154 | a walk that was not cut short lists exactly the files visible below its root; DirReach.SeesIff says by names which are visible |
| DirReach.SeesIff | goserver/folders_walk.go:108-151 | a file is visible exactly when names without a leading dot lead to it through readable directories within the depth limit, and it is a regular file |
| DirReach.FoundFiles | goserver/folders_walk.go:91-154 | a walk lists only such files, under their paths, all of them unless it was cut short, and it is cut short only with its limit reached |
| DirReach.CollectIff | goserver/folders_zip.go:439-498 | the directories a walk passes, by the same names |
| DirReach.EmptyListIs | goserver/folders_zip.go:439-498 | the directories listed on their own are exactly the ones passed below which no file is shown, sorted |
| DirReach.DepthCounts | goserver/folders_walk.go:97-100 | the depth a walk starts at is the number of names in its path |
| DirPaths.WalkDistinct | goserver/folders_walk.go:91-154 | a walk meets every file and every directory at most once, by path |
| EmptyDirs.MarkAncestors | goserver/folders_walk.go:230-238 | the loop over last slashes marks exactly the directories above a file |
| EmptyDirs.WalkMeetsCollected | goserver/folders_zip.go:439-498 | the one-pass walk meets the collector's directories in the collector's order |
| DirWalk.WalkFrom | goserver/folders_walk.go:108-151 | the stack loop finds what the specification finds and stops where it stops |
| DirWalk.WalkWithEmpty | goserver/folders_walk.go:172-240 | so does the one-pass loop, with its map of directories and its marks |
| DirWalk.CollectEmptyDirs | goserver/folders_zip.go:439-498 | the collector lists, sorted, exactly the directories above no listed file |
| SharedWalks.WalkSharedDir | goserver/folders_walk.go:91-154 | the files found, sorted by path unless cut short |
| SharedWalks.WalkSharedDirWithEmpty | goserver/folders_walk.go:159-256 | the files found, sorted by path, and unless cut short the sorted directories below which nothing is shown |
| SharedWalks.WalkAbsDirWithEmpty | goserver/registry.go:1360-1424 | the same for a host folder, with no depth limit |
| SharedWalks.SharedZipListing | goserver/folders_walk.go:159-256 | for any requested folder one pass gives what two passes give: same files and flag, and unless cut short the same two lists |
| SharedWalks.AbsZipListing | goserver/registry.go:1360-1424 | the same for a host folder |
| DirReach.EmptyIffNothingSeen | goserver/folders_zip.go:439-498 | a directory is listed on its own exactly when no listed file is visible anywhere below it |
| FieldPolynomials.DivisionIdentity | goserver/web/qrcode-vendor.js:1223-1242 | quotient times divisor plus remainder is the dividend |
| FieldPolynomials.GeneratorRoots | goserver/web/qrcode-vendor.js:966-972 | the generator vanishes at each of its powers |
| FieldPolynomials.GeneratorFull | goserver/web/qrcode-vendor.js:966-972 | it has no zero coefficient below the order of its element |
| Gf256.FieldLaws | goserver/web/qrcode-vendor.js:1132-1176 | addition of logs under XOR obeys the laws of a field |
| Gf256.ExpInjective | goserver/web/qrcode-vendor.js:1134-1149 | the first 255 powers are different |
| Gf256.ExpOnto | goserver/web/qrcode-vendor.js:1134-1149 | every non-zero byte is one of them |
| QrMath.ExpRecurrence | goserver/web/qrcode-vendor.js:1139-1145 | the table's recurrence computes powers of the generator element |
| QrMath.Tables.constructor | goserver/web/qrcode-vendor.js:1134-1149 | after set-up the tables hold all powers and their logs |
| QrMath.Tables.Glog | goserver/web/qrcode-vendor.js:1153-1160 | throws exactly on zero, otherwise gives the log |
| QrMath.Tables.Gexp | goserver/web/qrcode-vendor.js:1162-1173 | any integer exponent is reduced to its power |
| QrPolynomial.Multiply | goserver/web/qrcode-vendor.js:1210-1221 | the product of the polynomials, or a throw exactly when a coefficient is zero |
| QrPolynomial.Mod | goserver/web/qrcode-vendor.js:1223-1242 | the remainder, with leading zeros stripped, or a throw exactly when the divisor has a zero coefficient |
| QrPolynomial.GeneratorZeroIff | goserver/web/qrcode-vendor.js:966-972 | up to degree 255 the generator has a zero coefficient exactly at 255 |
| QrPolynomial.GetErrorCorrectPolynomial | goserver/web/qrcode-vendor.js:966-972 | builds the generator up to degree 255 and throws beyond |
| QrBlocks.CodewordIsMultiple | goserver/web/qrcode-vendor.js:267-330 | data followed by the check bytes is a multiple of the generator (section 7.5 of ISO/IEC 18004:2015) |
| QrBlocks.CodewordVanishes | goserver/web/qrcode-vendor.js:267-330 | and evaluates to zero at each power of the element below the check length |
| QrBlocks.ErrorCorrect | goserver/web/qrcode-vendor.js:289-305 | the encoder computes those check bytes for every length its generator allows |
| QrBlocks.InterleavingPlacesOnce | goserver/web/qrcode-vendor.js:312-328 | interleaving places each codeword byte exactly once (section 7.6 of ISO/IEC 18004:2015) |
| QrBlocks.InterleavedAt | goserver/web/qrcode-vendor.js:312-328 | byte i of a block stands behind the first i bytes of all blocks and byte i of the blocks before |
| QrMessage.CreateBytes | goserver/web/qrcode-vendor.js:267-330 | the final message: in front every data byte, in each block filled with zeros past the buffer, behind them every check byte, and each byte at the place its block and index give (section 7.6 of ISO/IEC 18004:2015) |
| QrMessage.MessageLength | goserver/web/qrcode-vendor.js:267-330 | its length is the total codeword count of the block table |
| QrMessage.SingleBlock | goserver/web/qrcode-vendor.js:267-330 | with one block the message is the buffer, zeros and check bytes, and evaluates to zero at every root of the generator |
| QrModules.WalkMeetsAll | goserver/web/qrcode-vendor.js:216-265 | the zigzag walk visits every module outside column 6 exactly once and no other |
| QrModules.WalkAt | goserver/web/qrcode-vendor.js:216-265 | the k-th module of the walk, in closed form (section 7.7.3 of ISO/IEC 18004:2015) |
| QrModules.BitsOfBytes | goserver/web/qrcode-vendor.js:230-236 | message bits are those of its bytes, high bit first, and zero past its end |
| QrModules.ReadBackIsMessage | goserver/web/qrcode-vendor.js:216-265 | re-reading the placed modules in order under the same mask gives the bits of the message, then zeros (section 7.7 of ISO/IEC 18004:2015) |
| QrModules.FinishedGrid | goserver/web/qrcode-vendor.js:216-265 | with column 6 set, no module is left unset, function patterns are untouched and every free module holds its message bit under the mask |
| QrModules.MapData | goserver/web/qrcode-vendor.js:216-265 | the two nested endless loops terminate and place exactly that |
| QrPatterns.SetupPositionProbePattern | goserver/web/qrcode-vendor.js:75-94 | draws the probe and its border where they fit and nothing else |
| QrPatterns.ProbeRings | goserver/web/qrcode-vendor.js:75-94 | a probe is a dark block, a light ring, a dark ring and a light border |
| QrPatterns.SetupTimingPattern | goserver/web/qrcode-vendor.js:116-131 | fills unset timing modules with alternating values and leaves the rest |
| QrAlignment.PatternPosition | goserver/web/qrcode-vendor.js:863-904 | for every version the centres are far enough apart, and clear of the probes except at three corners |
| QrSymbol.CentresEven | goserver/web/qrcode-vendor.js:863-904 | every version's table of centres follows from one rule: even gaps up from the far edge, the rest between the first two (Annex E of ISO/IEC 18004:2015) |
| QrAlignment.SetupPositionAdjustPattern | goserver/web/qrcode-vendor.js:133-160 | every alignment pattern whose centre no probe covers is drawn whole, and nothing else changes |
| QrAlignment.SetupFunctionPatterns | goserver/web/qrcode-vendor.js:44-61 | for every version what each module holds after probes, alignment patterns and timing, and that column 6 is set |
| QrSymbol.SymbolIs | goserver/web/qrcode-vendor.js:44-160 | each module belongs to the probe or the alignment pattern around it, with its ring's value, or to a timing track, or is free |
| DnsName.ReadName | goserver/dns_codec.go:37-76 | the loop with its set of visited offsets gives what following labels and pointers for at most 64 moves gives |
| DnsName.LabelsIff | goserver/dns_codec.go:37-76 | reading succeeds exactly when the root is met within the allowed moves (section 4.1.4 of RFC 1035) |
| DnsName.RevisitNeverEnds | goserver/dns_codec.go:44-50 | the visited check rejects only walks that would never end |
| DnsName.PointerReads | goserver/dns_codec.go:37-76 | a pointer stands for the name at its 14-bit offset and ends the name it stands in |
| DnsName.NothingRead | goserver/dns_codec.go:37-76 | nothing is read outside the packet, at lengths from 64 to 191, at half a pointer or at a label past the end |
| DnsEncode.EncodeName | goserver/dns_codec.go:77-87 | the loop writes each label cut to 63 bytes behind its length, then the root |
| DnsEncode.RoundTripIff | goserver/dns_codec.go:77-87 | a written name reads back as itself, with its end, exactly when it is well formed (section 3.1 of RFC 1035) |
| DnsEncode.DotAtEnd | goserver/dns_codec.go:77-87 | one dot at the end of a name changes nothing |
| Llmnr.BuildAnswer | goserver/dns_codec.go:95-132 | appending records and patching the count gives header, echoed question and one record per address |
| Llmnr.ReplyReadsBack | goserver/nameresolve.go:227-264 | a reply to an uncompressed question re-reads as that question followed by one address record per address, in order, each of class IN with 30 seconds to live, with a matching count below 65536 |
| Llmnr.RepliesIff | goserver/nameresolve.go:227-248 | exactly which packets are answered, from their bytes: queries for one of the two names, of type A or ANY while there is an address, or AAAA |
| Llmnr.AnnouncementReads | goserver/dns_codec.go:95-132 | an announcement has no question and reads as one address record per address, with the cache-flush bit and two minutes to live |
| Sha256Stream.PadShape | goserver/web/app/api.js:102-116 | padding fills whole blocks: the message, the byte 0x80, only zeros, and the bit length in the last eight bytes (section 5.1.1 of FIPS 180-4) |
| Sha256Stream.PadUnique | goserver/web/app/api.js:102-116 | and no other string has this shape |
| Sha256Stream.PadInjective | goserver/web/app/api.js:102-116 | different messages are padded differently |
| Sha256Stream.Hasher.Update | goserver/web/app/api.js:89-101 | any update absorbs its bytes: what is compressed so far are the whole blocks of everything passed |
| Sha256Stream.Hasher.Hex | goserver/web/app/api.js:102-116 | the state is the fold of the compression over the blocks of the whole padded message |
| Sha256Stream.HexDigestInjective | goserver/web/app/api.js:114-116 | equal hex strings mean equal states |
| Sha256Stream.WordHexDigits | goserver/web/app/api.js:114-116 | a word is written as eight small hex digits, high digit first |
| Sha256Stream.InitialWords | goserver/web/app/api.js:65 | the initial words are the fractional parts of the square roots of the first eight primes (section 5.3.3 of FIPS 180-4) |
| Sha256Stream.HashChunks | goserver/web/app/download.js:330-332 | any cut of a message into updates gives the digest of the message |
| Sha256Stream.HashFile | goserver/web/app/upload.js:28-39 | reading a file in slices gives the digest of the file |

## Left out

- HTTP itself: methods, headers other than Range, status texts, translations, cookies, owner tokens, logging.
- File system failures, except where a missing file or folder is a normal case; renames and copies succeed.
- JSON, and the 4 MiB cap on the metadata file, which only lists of more than about 60000 hashes reach; saved metadata is a stored value.
- Re-initialisation or sweeping while a request is between its two locked sections, and lock forgetting: the code does not serialise these.
- The sequential chunk route and the idempotent retry, extraction and collision handling of completion.
- UploadOrder.ArrivalOrderInvisible: is for requests on distinct pieces of one session; two requests for the same piece with different bodies depend on their order.
- UploadSafety.RunStaysSafe: assumes that no write changes a byte of a marked piece, and that a piece is read for its check in one step; UploadContent.OneFileIsFaithful says when clients guarantee the first, and UploadSafety.ResendMatchIff what happens otherwise.
- UploadSafety.PlacedFileIntact: makes the same assumptions; UploadContent.PlacedFileIsOriginal makes neither, since a piece whose writers all send one file reads the same at any time.
- RelayServe.ServeIsPart: assumes that the owner sends the slice it was asked for, perhaps not to the end.
- Piece hashes are computed from the file in one read; the buffered reading of a piece and of the whole file, while others write, is not modelled.
- Limits set through the environment or the configuration; a lower size limit only accepts fewer inits.
- Wrap-around of offset plus length near 2^63 on the unverified offset route.
- Lower-casing of characters outside ASCII, a full hash made of white space, white space outside ASCII in a Range header.
- Two piece uploads for one relay token at the same time, simultaneous relays of one share, and a disk that fails inside a relay and recovers: the code appends regardless.
- The share, offset and length a relay job carries, and the timeouts of polls.
- HEAD requests, conditional requests answered 304, and download slots.
- ETags and the dates behind If-Range; whether it holds is a parameter.
- SharedWalks.WalkSharedDirWithEmpty: says nothing about the directories returned when the walk was cut short, because the caller then refuses the request.
- SharedWalks.SharedZipListing: is for a requested folder that is not the root, because the caller refuses the root.
- The walk used for the folder tree, its depth report, zip lengths and the zip writer; directories whose info cannot be read.
- Paths are taken as clean; names differ within a directory and directory reading returns them in one order.
- Names, owners, sizes and creation times of shares, share limits outside the synchronisation, and races between the snapshot and the update inside one pass.
- ShareRegistry.TwoPassesSettle: is for a disk that lists what exists, and for fresh ids, which the code draws until they are.
- The SHA-256 compression function; plain number arrays with elements above 255, which the buffered path masks and the direct path does not.
- Sha256Stream.Hasher.Hex: is for messages below 2^53 bits, beyond which the client's numbers are not exact; a second call digests something else.
- QR versions' block tables, encoders other than bytes, mask choice, format and version information, and drawing.
- QrBlocks.ErrorCorrect: is for check lengths up to 254; the block tables use at most 30.
- mDNS packets as a whole, sockets and loops of the name responder; the answer builder's mDNS form is modelled.
