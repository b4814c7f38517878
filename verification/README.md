# A verified model of セキュファイル便 (securefile)

This project models, in Dafny 4.11, the parts of securefile that have to be right for a file to come
back as it went in, and proves what they promise:

- **The encrypted chunk stream.** Plaintext is sealed in fixed-size chunks under nonces made of a prefix,
  an index and a final flag (`ChunkFormat`, `ChunkWriter`, `ChunkReader`, `ChunkResume`). `ChunkDecode`
  says, as a pure function on any bytes, what a reader makes of them; the reader class refines it.
- **The resumable upload.** `UploadServer` is `WriteParts` over a file handle whose disk may fail, tear a
  write or take the process down at any byte. `UploadModel` gives the step it may take and the invariant,
  `UploadRuns` the statements over whole runs, `UploadNonces` when a nonce is used only once, `UploadPrefixes`
  how the files under one key stay apart as long as every prefix drawn is new. `UploadCounts`
  is the same step in numbers alone: the reply and what is left on disk as a function of a few lengths,
  which `WriteParts` is shown to compute. `BrowserUpload` is the browser's loop over a lossy network; it too
  is shown to compute a function, `Loop`, about which its endings are proved.
- **Downloads.** `Download` and `RangeHeader` join byte ranges to seeking in the stored stream.
- **The life of a share.** `Lifecycle` is a machine whose steps are single SQL statements and
  mutex-held blocks of concurrent requests; `Takedown` and `Sweeping` are about reports and expiry,
  `Progress` about what requests can always do and never begin.
- **Smaller cores.** The token bucket (`RateLimiter`), the wrapped key (`WrappedKey`), the Windows client's
  JSON text (`JsonText`), and the QR generator: its field, generator polynomials, Reed-Solomon blocks,
  interleaving, function patterns and module placement (`QrField`, `QrTables`, `QrPolynomial`,
  `GaussianRatio`, `QrGenerator`, `QrCodec`, `QrBlocks`, `QrMatrix`, `QrPatterns`).

`dafny verify dfyconfig.toml` checks everything.

## Assumptions

- The authenticated cipher is a parameter together with a ghost log of what was sealed under the key. An
  ideal cipher opens exactly the logged ciphertexts; `ChunkFormat.IdealExists` shows such a cipher exists
  for every log, and `WrappedKey.IdealExists` the same for the wrapped keys. Nonce prefixes, row ids,
  session objects and tokens are fresh when drawn. For row ids the schema alone does not ensure that:
  `drops.id` is an `INTEGER PRIMARY KEY` without `AUTOINCREMENT` (`internal/store/schema.sql:9`), so SQLite
  may give a deleted id out again.
- Requests that write one file do not overlap: `WriteParts` takes no lock of its own.
- A crash keeps every byte that was written; only the last write may be torn.
- The clock does not run backwards. A step of a request reads it when it happens; a sweep uses the time at
  which its pass began, as the code does. The rate limiter is modelled over exact numbers.
- A body read reports its error without data, as `io.LimitReader` over a broken connection does.

## Where the code does not do what one would expect

- A request that fails on a file with acknowledged bytes makes the file stuck for good exactly when it is
  not rolled back and one more whole chunk reached the disk (`UploadCounts.StrandsIff`,
  `UploadRuns.StuckForever`). For a body that breaks off that is more than one chunk
  (`UploadServer.BreakOff`; `UploadServer.StrandedUpload` runs into it), for a request that dies just before
  the row update at least one (`UploadCounts.LostRowStrandsIff`), for a disk that fills up
  `UploadCounts.FullDiskStrandsIff` gives the lengths. The comments at
  `internal/cryptobox/resume.go:26-29` and `internal/service/upload.go:167` speak of resuming after dropping
  the torn chunk; whole chunks beyond the acknowledged length are what they leave out.
  `UploadRuns.CutToReceivedResumes` shows that cutting back to the acknowledged length would always resume.
- The browser's loop can count a file as sent although the server never acknowledged all of it: there is a
  network on which it does exactly when the size is a whole number of chunks and the file takes more than
  one part (`BrowserUpload.MiscountPossibleIff`; `BrowserUpload.LosingRow` is one, on which only the row
  update of the last part is lost). Publishing then refuses (`BrowserUpload.StartUpload`).
- `Writer.Close` after a flush with nothing buffered appends an empty final chunk
  (`ChunkWriter.CloseSealsIff`); `UploadServer.FinishPart` never does that.
- A nonce is used for one chunk only while the sender's bytes stay the same
  (`internal/cryptobox/resume.go:12-13` promises it without that). A part that is tried again with other
  bytes can use one twice exactly if the tries differ where they meet (`UploadNonces.RetryIsSafeIff`): in a
  whole chunk that both bring, if the first does not end the file, for a refused part has sealed all of its
  chunks; and in the first chunk they bring, the final one included, if it does, for a part that fails on a
  full disk has sealed one chunk more than the disk holds. `UploadNonces.NonceUsedTwice` and
  `UploadNonces.LastNonceUsedTwice` call `WriteParts` to run into the one and the other.
- A stored file that lost its tail is still taken as complete at the offset of its end, where `OpenFile` reads
  nothing; an empty file therefore is whatever is left of its stream, and at no other offset is any file
  (`Download.CutFileIsNoticed`).
- `OpenAt` at the very end of the plaintext fails exactly when the last chunk is a full one
  (`ChunkReader.SeekSealed`); `OpenFile` goes around it.
- For an empty file requested without a range the announced length is 1 and nothing is sent
  (`Download.ServeRange`); the announced length is right in every other accepted case.
- A report does not save a share that a sweep has already listed, or a delete request already found: a
  blocked row is certain to stay, while nobody unblocks it or asks for its deletion, exactly when no request
  was on its way to delete it (`Sweeping.BlockedSurvivesIff`). `Sweeping.BlockedShareCanBeSwept` is a run in
  which a share expires, is listed, reported, blocked and swept.
- Byte ranges are read as section 14.1.2 of RFC 9110 says, except that a last position, for a first one
  inside the file, or a suffix length of 2^63 and more is refused (`RangeHeader.RangeMeaning`), which the
  section puts no limit on. Beyond it, plus signs and blanks around the numbers are accepted, as in
  `bytes=+1-+3` and `bytes=1 - 3`; a list of ranges, and the unit in another case, are refused.
  `RangeHeader.AcceptedIff` says exactly which headers are accepted.
- The Windows client reads an escaped backspace or form feed in a JSON string as the letter, and each half of a
  surrogate pair as three bytes that are not UTF-8; everything else as section 7 of RFC 8259 says
  (`JsonText.PieceReadIff`).
- A stored key whose header asks for no time or no threads is not answered with a wrong password: the
  derivation panics (`WrappedKey.UnwrapsOnlyItself`).
- The error correction of a QR block can be computed exactly up to 255 bytes of it, at 255 only for data that
  are all zero (`QrCodec.EncodeBlock`); the standard asks for no more than 30.
- A pending drop is not always due just when its upload session has expired, because its retention counts as
  well. It is exactly if the lifetime of an upload is whole seconds and the retention does not end before the
  session, or if both end in the same second and neither fraction of a second carries
  (`Sweeping.PendingDueIffExpired`; for the clause on pending drops alone, `Sweeping.StalePendingIffExpired`).
  `Sweeping.SweptWhileAlive` is a run in which an upload is swept while its session is alive: a lifetime of
  two days, which the configuration allows, and a share kept for one.
- Chunk nonces of one file are all different exactly up to 2^32 + 1 chunks
  (`ChunkFormat.NoncesDistinctIff`).

## Model

| member | source | states |
|---|---|---|
| ChunkFormat.NonceInjective | internal/cryptobox/stream.go:55-63 | a nonce determines its prefix, index and final flag |
| ChunkFormat.NoncesDistinctIff | internal/cryptobox/stream.go:55-63 | all chunk nonces of a stream differ if and only if the 32-bit counter does not repeat among interior chunks |
| ChunkFormat.NonceLayout | internal/cryptobox/stream.go:55-63 | the prefix, then the index with its first byte weighing most, then 1 for the final chunk and 0 for every other |
| ChunkFormat.GoodHeaderIff | internal/cryptobox/stream.go:213-233 | a header is good exactly if it is the one some prefix gives |
| ChunkFormat.IdealExists | internal/cryptobox/stream.go:65-78 | for every log of sealings there is a cipher that opens exactly the logged ciphertexts |
| ChunkFormat.SealedLength | internal/cryptobox/stream.go:80-87 | a sealed stream has exactly the size CiphertextSize reports |
| ChunkFormat.SealedSlice | internal/cryptobox/stream.go:135-147 | on disk, chunk k is plaintext chunk k sealed under index k, with the final flag exactly on the last |
| ChunkWriter.Writer.constructor | internal/cryptobox/stream.go:102-118 | a fresh writer stands at the start of an empty stream |
| ChunkWriter.Writer.Flush | internal/cryptobox/stream.go:135-147 | appends the header if missing and the buffer as the next chunk; a failing write leaves as much of that as the disk took |
| ChunkWriter.Writer.Write | internal/cryptobox/stream.go:149-168 | takes all bytes into the stream, or exactly the reported number before a failed write; no chunk sealed here can be the last one, error or not |
| ChunkWriter.Writer.FlushFull | internal/cryptobox/stream.go:170-189 | refused exactly off a chunk boundary, changing nothing; otherwise everything taken is on disk as whole chunks |
| ChunkWriter.Writer.Close | internal/cryptobox/stream.go:191-199 | appends what is buffered as the final chunk |
| ChunkWriter.CloseSealsIff | internal/cryptobox/stream.go:191-199 | closing yields the sealed stream if and only if something is buffered or the plaintext is empty |
| ChunkDecode.OpensOnlyItself | internal/cryptobox/stream.go:253-268 | a nonce of the stream opens its own chunk's ciphertext and nothing else |
| ChunkDecode.IdealIsAuthentic | internal/cryptobox/stream.go:39-44 | under an ideal cipher every chunk fills to its plaintext and every strict prefix of it is refused |
| ChunkDecode.DecodeSealed | internal/cryptobox/stream.go:235-282 | reading a sealed stream from any chunk on gives exactly the plaintext from there and a clean end |
| ChunkDecode.ShortEndIsFinal | internal/cryptobox/stream.go:239-268 | less than a chunk is accepted only under the final nonce, whatever was sealed under the key |
| ChunkDecode.DecodeTruncated | internal/cryptobox/stream.go:8-12 | any strict prefix of a stream gives exactly its whole chunks and never a clean end |
| ChunkReader.NewReader | internal/cryptobox/stream.go:213-233 | refuses exactly a short or foreign header, else stands at the start |
| ChunkReader.Reader.FillNext | internal/cryptobox/stream.go:235-268 | decrypting a chunk changes nothing about what is still to be read; failing means nothing is left |
| ChunkReader.Reader.Read | internal/cryptobox/stream.go:270-282 | every buffer size delivers the next bytes; end and error come only when nothing is left |
| ChunkReader.CopyN | internal/cryptobox/seek.go:56-63 | whatever buffer sizes are used, exactly the next n bytes, or all there are and why there are no more |
| ChunkReader.OpenAt | internal/cryptobox/seek.go:20-65 | for any bytes and offset, which error or exactly what can be read, touching no byte but the header and those from the offset's own chunk on |
| ChunkReader.SeekSealed | internal/cryptobox/seek.go:9-19 | opening a sealed stream at an offset reads exactly the plaintext from there, if and only if the offset is inside or the last chunk is short |
| ChunkReader.SeekTruncated | internal/cryptobox/seek.go:9-19 | opening a cut stream anywhere yields only right plaintext and never a clean end |
| ChunkResume.AlignDown | internal/cryptobox/resume.go:53-62 | the largest aligned length not above n, never below the header |
| ChunkResume.InspectPartial | internal/cryptobox/resume.go:23-51 | succeeds exactly on a good header and an aligned length, and gives the prefix, counter and length to go on with |
| ChunkResume.AlignsToChunks | internal/cryptobox/resume.go:53-62 | a file with k whole chunks and a torn one aligns down to exactly those chunks |
| UploadServer.WriterAt | internal/service/upload.go:150-188 | positions a writer exactly when the disk holds as many chunks as acknowledged, else reports what the disk holds |
| UploadServer.FinishPart | internal/service/upload.go:116-129 | ends the stream with the file, flushes at a chunk boundary before; never an empty extra chunk |
| UploadServer.UploadFile.WriteParts | internal/service/upload.go:70-138 | with any body and any fault, the state and reply are an outcome of the model; counts and reply are those of the arithmetic in UploadCounts, after a failure the blob is exactly the part of what was meant that its length says, and a part within one chunk has sealed it unless the body broke off |
| UploadServer.BreakOff | internal/service/upload.go:110-114 | a part broken off in transit makes the file stuck exactly when more than one chunk arrived |
| UploadServer.StrandedUpload | internal/service/upload.go:163-183 | a concrete upload that can never be finished |
| UploadServer.WriteEmptyBlob | internal/service/service.go:337-355 | an empty file is stored as the sealed stream of nothing |
| UploadCounts.CalmPart | internal/service/upload.go:101-137 | without faults an aligned or last part is stored whole, and any other is refused without a trace |
| UploadCounts.StrandsIff | internal/service/upload.go:110-136 | in lengths known before the call: a request fails for good, and strands the file exactly when then one more whole chunk reached the disk |
| UploadCounts.LostRowStrandsIff | internal/service/upload.go:131-136 | a request that dies before the row update strands the file exactly when it brought at least a whole chunk |
| UploadCounts.FullDiskStrandsIff | internal/service/upload.go:110-129 | a full disk strands the file exactly between one whole chunk and the last flush, which alone is rolled back, or the end of the final chunk |
| UploadCounts.ServedKeepsSound | internal/service/upload.go:77-138 | every request, whatever fails, keeps disk and acknowledged length in bounds and at chunk boundaries |
| UploadModel.StepKeepsInv | internal/service/upload.go:77-138 | every outcome of a part keeps the acknowledged bytes sealed on disk; the acknowledged length never falls, nor exceeds the size, and is whole chunks or the size |
| UploadModel.StepKeepsDiskBound | internal/service/upload.go:150-188 | the disk never holds less than acknowledged nor more than the file |
| UploadRuns.RunKeepsInv | internal/service/upload.go:77-138 | the invariant over every run, with nothing acknowledged ever lost |
| UploadRuns.StepKeepsHonest | internal/cryptobox/resume.go:64-84 | across restarts, resumes and torn parts, only the file's own chunks are sealed under its prefix |
| UploadRuns.CompleteFile | internal/service/upload.go:116-137 | however split, retried or interrupted, a complete file is the sealed stream of the sender's bytes, of the announced length, and authentic |
| UploadRuns.SplittingIsInvisible | internal/cryptobox/stream.go:170-189 | resumed and uninterrupted uploads with one prefix are the same bytes |
| UploadRuns.StuckForever | internal/service/upload.go:163-183 | a stuck file is never stored to again, whatever is sent |
| UploadRuns.CutToReceivedResumes | internal/service/upload.go:140-145 | cutting back to the acknowledged length always gives a resumable file |
| UploadNonces.HonestNoncesAreUnique | internal/cryptobox/resume.go:10-21 | in every run whose sender keeps to the same bytes, however torn, retried or restarted, no nonce is used for two plaintexts |
| UploadNonces.RetryIsSafeIff | internal/service/upload.go:110-129 | however a first try ended, sending the offset again uses no nonce for two plaintexts if and only if both tries bring the same in every chunk where they can meet |
| UploadNonces.NonceUsedTwice | internal/service/upload.go:121-129 | three calls, the second refused, after which two whole chunks are sealed under one nonce |
| UploadNonces.LastNonceUsedTwice | internal/service/upload.go:116-120 | three calls, the second failing on a full disk, after which two final chunks are sealed under one nonce |
| UploadPrefixes.StepPrefixes | internal/cryptobox/stream.go:102-118 | a request uses no nonce prefix but the one the file has and the one it draws |
| UploadPrefixes.NewFilesSeparate | internal/service/service.go:215-245 | new files with different prefixes start with nothing in common |
| UploadPrefixes.SeparateNext | internal/service/upload.go:70-138 | any stretch of requests for one file leaves all files of a drop honest, without a prefix in common, and later draws new |
| UploadPrefixes.SeparateReadsBack | internal/service/download.go:169-201 | a complete one of several files under one key reads back from every offset as its sender's bytes, whatever else was sealed under other prefixes |
| BrowserUpload.SendPart | web/static/upload.js:416-461 | one exchange over a network that may lose request or reply, with any fault at the server: what the browser learns and what the server holds |
| BrowserUpload.SendPartWithRetry | web/static/upload.js:463-483 | the same for all attempts at one part |
| BrowserUpload.RoundAdvances | web/static/upload.js:517-547 | every round keeps the server sound and gets nearer to the end by acknowledged bytes, resyncs left, or the offset catching up |
| BrowserUpload.LoopIsDialogue | web/static/upload.js:463-550 | on every network: the same part again exactly when there is no answer, else the part the server asks for; it ends only with all told to be there, a final answer, six attempts without an answer, or a fourth stall |
| BrowserUpload.CancelledIsLast | web/static/upload.js:467-473 | a request that is cancelled, or refused with the browser being told, is the last one, and the file is given up |
| BrowserUpload.RejectedIsLast | web/static/upload.js:471-473 | so is one that the server rejects |
| BrowserUpload.UploadOne | web/static/upload.js:513-550 | the loop always ends, just as Loop says; normally only with the file counted in full, and the server holding it or stuck, the latter only for whole chunks in several parts |
| BrowserUpload.MiscountPossibleIff | web/static/upload.js:528-547 | some network makes the loop count a file that is not acknowledged if and only if it is whole chunks and more than one part |
| BrowserUpload.PatientFile | web/static/upload.js:463-550 | where nobody cancels, and requests and replies may be lost, but not all attempts at one part, the loop ends with the whole file acknowledged |
| BrowserUpload.StartUpload | web/static/upload.js:485-562 | success means every blob is the sealed stream of the chosen bytes, and progress ends at their total; new files on such a network are published exactly if the last request arrives; where the drawn prefixes are new, every published file reads back from every offset |
| RangeHeader.ParseRange | internal/httpd/transfer.go:100-152 | an accepted range of a nonempty file lies inside it; without a header it is all of the file, and only then not partial |
| RangeHeader.RangeMeaning | internal/httpd/transfer.go:123-151 | first-last, first- and -suffix forms mean what section 14.1.2 of RFC 9110 says, refusals included, if and only if their numbers fit 63 bits where it matters |
| RangeHeader.AcceptedIff | internal/httpd/transfer.go:103-152 | a header is accepted if and only if it is empty or one trimmed range in lower-case bytes with an acceptable start, end or suffix |
| RangeHeader.ParseIntIff | internal/httpd/transfer.go:128-146 | the numbers read are exactly the decimals with or without a sign that fit 64 bits |
| RangeHeader.IsSpaceIff | internal/httpd/transfer.go:107 | what is trimmed is exactly the white space of Unicode |
| RangeHeader.BlanksDoNotMatter | internal/httpd/transfer.go:107 | white space around a header changes nothing |
| Download.OpenFile | internal/service/download.go:169-201 | for any bytes and offset, whether it opens and exactly what can be read; for a stored file, its end included, the plaintext from there |
| Download.ServeRange | internal/httpd/transfer.go:31-77 | the body is exactly the requested slice, without a header all of the file and not partial; the announced length is right except for an empty file requested whole |
| Download.PublishedFileReadsBack | internal/store/store.go:332-362 | a completed upload, however split and interrupted, reads back from every offset as the sender's bytes from there, to a clean end, empty files included |
| Download.CutFileIsNoticed | internal/service/download.go:185-201 | a stored file that lost its tail or more gives only right plaintext from any offset, and passes for complete exactly at the offset of its end |
| Lifecycle.StepKeepsInv | internal/service/session.go:87-100 | every step of every request keeps the books, the mutex discipline and the claims |
| Lifecycle.DownloadsAccounted | internal/store/store.go:364-386 | under every interleaving downloads are exactly the claimed sessions, the claim in progress and claims lost to a failed re-read, at most the limit; claimed sessions never outnumber downloads, and equal them when no claim is in progress and no re-read failed; only claimed sessions read |
| Lifecycle.OnlyClaimsCount | internal/service/download.go:73-117 | no step but the claim's UPDATE changes a download counter |
| Lifecycle.NothingBeforePublication | internal/store/store.go:248-256 | under every interleaving, whoever finds a drop live, has a session of it or is counted as a download comes after its publication |
| Lifecycle.SweepingIsUnseen | internal/service/session.go:72-85 | a sweep leaves no expired entry, and changes nothing that a later lookup finds |
| Lifecycle.StepKeepsClaims | internal/service/session.go:87-100 | nothing gets past the claim, and nothing claims twice, for one session |
| Takedown.ReportCutsOff | internal/service/report.go:69-79 | the report's last step leaves no way in to the drop but the requests that already hold a session |
| Takedown.StepKeepsCutOff | internal/service/session.go:60-70 | no later step opens one, while the drop is not unblocked |
| Takedown.NoReaderAfterReport | internal/service/report.go:46-82 | whoever reads a drop after a report on it has blocked and cut it, while it is not unblocked, held its session, already claimed, without a break since the report returned, even if an earlier unlock inserts a session later |
| Takedown.CutOffLasts | internal/service/report.go:46-82 | and no further session of it is ever claimed |
| Sweeping.StalePendingIffExpired | internal/store/store.go:416-427 | the clause for pending drops alone fires exactly when the upload session has expired, if and only if its lifetime is whole seconds |
| Sweeping.PendingDueIffExpired | internal/store/store.go:416-427 | a pending drop is due, by whichever clause, exactly when its upload session has expired, if and only if retention and lifetime end together as stated |
| Sweeping.SweptWhileAlive | internal/service/sweep.go:30-45 | a run in which an upload is swept while its session is alive |
| Sweeping.ListedUploadIsOver | internal/service/sweep.go:30-45 | where they end together, a pending upload on a sweep's list has an expired session |
| Sweeping.LiveOrDue | internal/store/store.go:248-256 | a published unblocked drop is live exactly while it is not reapable |
| Sweeping.Tables.Get | internal/service/session.go:39-52 | a live session, dropping an expired one |
| Sweeping.Tables.DeleteByDrop | internal/service/session.go:60-70 | removes exactly the drop's sessions |
| Sweeping.Tables.SweepSessions | internal/service/session.go:72-85 | removes exactly the expired sessions and counts them |
| Sweeping.Tables.SweepTickets | internal/service/ticket.go:42-53 | removes exactly the expired tickets and counts them |
| Sweeping.Tables.TakeDownload | internal/store/store.go:364-386 | one statement that takes a download exactly from a live row, which is published and not blocked |
| Sweeping.Tables.ClaimOnce | internal/service/session.go:87-100 | a session passes exactly if it has claimed or takes a download now, which it then never does again; a refusal for want of a live row changes nothing, and no other row ever changes |
| Sweeping.ClaimStepsAreClaimOnce | internal/service/session.go:87-100 | the steps of the concurrent machine, run without a break, do just that and release the mutex |
| Progress.PassStepsAreSweep | internal/service/sweep.go:17-47 | the steps of the concurrent machine's sweep, run without a break, leave the tables as the sweep of the tables does |
| Progress.MutexProtects | internal/service/session.go:87-100 | while a request is inside claimOnce, no other comes to the session table, and nothing else is claimed |
| Progress.NobodyIsStuck | internal/service/session.go:87-100 | under every interleaving every request can make a step, or waits for the session mutex, whose holder can |
| Progress.AvailableCanBeRead | internal/service/download.go:73-117 | whenever the session mutex is free, every published, unexpired, unblocked drop with a download left can be unlocked and read, for one of its downloads |
| Progress.BlockedWasReported | internal/service/report.go:46-82 | under every interleaving a row is blocked only by a report on it |
| Progress.NoReaderAfterRemoval | internal/service/download.go:165-201 | a deleted or swept row never comes back, and nobody begins to read it |
| Progress.LookupFindsLive | internal/service/session.go:39-52 | the concurrent machine looks sessions up as the tables do |
| Progress.RedeemingIsUnseen | internal/service/ticket.go:80-110 | redeeming drops a ticket exactly if it has expired |
| Progress.IssuedTicketRedeems | internal/service/ticket.go:55-78 | a ticket is issued exactly for a live session, and gives its token to whoever redeems it in time |
| Progress.RowGoesAfterCut | internal/service/sweep.go:30-45 | under every interleaving a row is removed only by a request that has cut its sessions before |
| Progress.UnblockRestores | internal/store/store.go:490-500 | lifting a block restores the row as it was before the report |
| Sweeping.Tables.Sweep | internal/service/sweep.go:17-47 | an undisturbed pass removes exactly the due rows, none blocked, with their sessions and all expired ones |
| Sweeping.SweptWasDue | internal/service/sweep.go:23-45 | under every interleaving, what a sweep is about to remove was unblocked and due, at the time its pass began, when that pass listed it: past its retention, used up, or pending for the upload lifetime |
| Sweeping.BlockedSurvivesIff | internal/store/store.go:444-451 | a blocked row stays in every run that neither unblocks it nor asks for its deletion if and only if no request was already on its way to delete it |
| Sweeping.BlockedShareCanBeSwept | internal/service/sweep.go:32-45 | a run in which a share expires, is listed by a sweep, is reported and blocked, and is swept |
| RateLimiter.Limiter.Allow | internal/httpd/ratelimit.go:39-62 | grants exactly on a token to spend, and takes it |
| RateLimiter.Limiter.Sweep | internal/httpd/ratelimit.go:64-75 | forgets exactly the refilled buckets |
| RateLimiter.SweepsInvisible | internal/httpd/ratelimit.go:64-75 | sweeps anywhere in a history never change an answer |
| RateLimiter.RateBound | internal/httpd/ratelimit.go:9-15 | after any history from a fresh limiter, any one address gets at most capacity plus refill times the window's length in any window |
| RateLimiter.RefusedIsSpent | internal/httpd/ratelimit.go:39-62 | a request is refused only if its address was granted, in some window ending then, all but less than one token of what that bound allows |
| WrappedKey.WrapKey | internal/cryptobox/passwd.go:32-66 | refuses exactly a key of the wrong size, else writes the wrapped key's byte layout |
| WrappedKey.UnwrapsExactly | internal/cryptobox/passwd.go:68-97 | among any sealings, unwrapping gives a key exactly if the bytes are one of its sealings, under the key the password derives from their own header |
| WrappedKey.WrapRoundTrip | internal/cryptobox/passwd.go:32-97 | what was wrapped unwraps to the same key under the same password, parameter fields included |
| WrappedKey.UnwrapsOnlyItself | internal/cryptobox/passwd.go:68-97 | with one wrapped key in existence, every other byte string and every password that derives another key is refused, and how: short, unknown version, underivable parameters, or wrong password |
| WrappedKey.HeadLayout | internal/cryptobox/passwd.go:20-66 | the header's bytes and the parameters its key is derived with |
| WrappedKey.UnderivableIff | internal/cryptobox/passwd.go:68-97 | which headers make the derivation panic |
| WrappedKey.IdealExists | internal/cryptobox/passwd.go:32-97 | for every log of sealings and every key derivation there is a cipher that opens exactly the logged ones |
| JsonText.Buf.Append | clients/windows/util.c:17-33 | appends or fails unchanged, always with room for and a terminator at the length |
| JsonText.AppendJsonEscaped | clients/windows/util.c:52-72 | appends the escaped text, or a whole-character prefix when memory runs out |
| JsonText.EscapedIffMust | clients/windows/util.c:52-72 | a byte is escaped exactly if section 7 of RFC 8259 says it must be |
| JsonText.ValueOfIff | clients/windows/util.c:103-119 | a value is found exactly behind the first occurrence of the key, with a colon and nothing else but white space between |
| JsonText.DecodeString | clients/windows/util.c:121-163 | what the decoding loop leaves in a buffer of any size, terminator included |
| JsonText.JsonFindString | clients/windows/util.c:103-163 | finds exactly a string value after the first occurrence of the key, and decodes it; a text that was escaped comes back, cut only by the room |
| JsonText.EscapeRoundTrip | clients/windows/util.c:52-72 | reading back an escaped text gives the text, cut only by the room before the terminator |
| JsonText.Utf8IsWellFormed | clients/windows/util.c:138-155 | the bytes of a \u escape are the well-formed UTF-8 of its number, unless that is half of a surrogate pair |
| JsonText.PieceReadIff | clients/windows/util.c:127-160 | one turn reads one character of a JSON string, as section 7 of RFC 8259 says exactly unless it is an escaped backspace or form feed or half of a pair |
| JsonText.StringReadIff | clients/windows/util.c:121-163 | a whole JSON string is read character by character so |
| QrField.HasLog | web/static/qrcode.js:1132-1149 | every nonzero byte is a power of alpha, so the logarithm table is total |
| QrField.TimesDistributes | web/static/qrcode.js:1210-1221 | adding exponents is multiplication of a field: it distributes over exclusive or |
| QrField.TimesAssociates | web/static/qrcode.js:1210-1221 | and it associates |
| QrTables.FillExp | web/static/qrcode.js:1137-1146 | the recurrence fills the table with the powers of alpha |
| QrTables.FillLog | web/static/qrcode.js:1147-1149 | the loop leaves a right logarithm for every nonzero byte |
| QrTables.QrMath.Gexp | web/static/qrcode.js:1162-1173 | alpha to any integer power |
| QrPolynomial.EvalProduct | web/static/qrcode.js:1210-1221 | evaluating a product of polynomials multiplies the values |
| GaussianRatio.Ratio | web/static/qrcode.js:966-972 | the ratio of neighbouring coefficients of the product of x + q^i, in any field where every element is its own negative |
| QrGenerator.GeneratorZeroFree | web/static/qrcode.js:1151-1160 | no generator polynomial below degree 255 has a zero coefficient, so that no logarithm of one is ever refused; that of degree 255 has |
| QrCodec.MakePolynomial | web/static/qrcode.js:1182-1198 | leading zeros dropped, then shifted |
| QrCodec.Multiply | web/static/qrcode.js:1210-1221 | throws exactly at a zero coefficient, else the product |
| QrCodec.GetErrorCorrectPolynomial | web/static/qrcode.js:966-972 | returns exactly up to degree 255: the polynomial of degree n with the first n powers of alpha as roots |
| QrCodec.Mod | web/static/qrcode.js:1223-1242 | ends; throws exactly at a zero coefficient; else a shorter remainder equal to the dividend at every root of the divisor |
| QrCodec.EncodeBlock | web/static/qrcode.js:285-300 | data followed by its error correction has all syndromes zero (section 7.5.2 of ISO/IEC 18004:2015), and exactly when it cannot be computed |
| QrBlocks.SlotHolds | web/static/qrcode.js:311-327 | every block byte is emitted at its slot |
| QrBlocks.SlotsDiffer | web/static/qrcode.js:311-327 | different bytes have different slots |
| QrBlocks.ColumnsTotal | web/static/qrcode.js:303-327 | there are as many slots as bytes, so each is emitted exactly once |
| QrBlocks.CreateBytes | web/static/qrcode.js:267-330 | all blocks encoded with zero syndromes, and interleaved; the data blocks put end to end are the buffer, cut or padded with zeros; it fails exactly if some block's error correction cannot be computed |
| QrMatrix.WalkIsBijective | web/static/qrcode.js:216-265 | the zigzag visits every module outside the timing column exactly once |
| QrMatrix.RanksIncrease | web/static/qrcode.js:216-265 | free modules take the data bits in walk order, no two the same |
| QrMatrix.MapData | web/static/qrcode.js:216-265 | ends; the k-th free module gets bit k flipped by the mask, set modules keep theirs, and none is left unset if the timing column was set |
| QrMatrix.SymbolReadsBack | web/static/qrcode.js:216-265 | walking the finished symbol, skipping what the patterns set and undoing the mask, gives the code bytes, most significant bit first |
| QrPatterns.SetupPositionProbePattern | web/static/qrcode.js:75-94 | the finder and its separator, as far as they lie inside, and nothing else |
| QrPatterns.SetupPositionAdjustPattern | web/static/qrcode.js:133-162 | an alignment pattern at every pair of positions in turn whose centre is still free, and nothing else |
| QrPatterns.SetupTimingPattern | web/static/qrcode.js:116-131 | alternating modules between the finders where no pattern was, and nothing else |
| QrPatterns.SetupTypeInfo | web/static/qrcode.js:179-214 | each format bit at its two places and the fixed module, and nothing else |
| QrPatterns.SetupTypeNumber | web/static/qrcode.js:164-177 | each version bit at its two places, and nothing else |
| QrPatterns.SetupPatterns | web/static/qrcode.js:57-67 | for every version the symbol shows exactly the patterns drawn over each other in that order |
| QrPatterns.FindersStand | web/static/qrcode.js:75-94 | for every version the three finders stand in the result: a dark square of three, a light ring, a dark ring and the light separator |
| QrPatterns.AlignmentsStand | web/static/qrcode.js:133-162 | so does every alignment pattern but those at the finders: dark centre, light ring, dark ring |
| QrPatterns.PositionsSpread | web/static/qrcode.js:863-904 | the table of alignment positions is what one rule of equal gaps gives |
| QrPatterns.TimingStands | web/static/qrcode.js:61-66 | the timing lines alternate from finder to finder, through the alignment patterns on them |
| QrPatterns.FormatStands | web/static/qrcode.js:179-214 | both copies of the format bits can be read from the result, and the fixed module |
| QrPatterns.VersionStands | web/static/qrcode.js:164-177 | from version 7 on, so can both copies of the version bits |
| QrPatterns.RestIsFree | web/static/qrcode.js:57-67 | every module in none of these is left to the data |
| QrPatterns.MakeImpl | web/static/qrcode.js:43-73 | for every version no module is left unset, the patterns stay as drawn, and every other module carries its bit of the data |

## Left out

- AES-GCM, Argon2id, HKDF, HMAC and random generation: library calls; only the ideal cipher, a deterministic key derivation and freshness remain. Keys are taken to have the right length.
- UploadServer.UploadFile.WriteParts: overlapping calls on one file, session lookup and token unwrapping are not part of the step.
- Download.OpenFile: the claim and the sealed file name come before it; the claim is in Lifecycle.
- Lifecycle.DownloadsAccounted: files and blobs of a drop appear only as the drop's presence, the expiry of a session only at its lookup, and the time between reading the clock and the statement that uses it only for sweeps.
- Pauses between the browser's attempts, and its progress display.
- RateLimiter.Limiter.Allow: floating-point rounding and a clock read before the lock is taken.
- JsonText.Buf.Append: wrap-around of size_t.
- QrCodec.EncodeBlock: unassigned array slots count as zero.
- QrPatterns.MakeImpl: the BCH-coded format and version bits, the mask and the code bytes are parameters; choosing the mask is left out.
- Sealed streams with more than 2^32 chunks (4 PiB): reading back and truncation are stated for those whose chunk counter does not wrap.
- Bytes after a complete stream: the reader ignores them, so extension is not detected and not claimed to be.
- Cancelling an upload, the removal of blob directories, and the normalising and storing of report records.
- Size limits, disk quota, HTTP routing, templates, statistics, migrations, archive entry names and the Windows user interface.
