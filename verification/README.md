# y2q: a verified model of its protocols

y2q is an encrypted object store with a FUSE mount, a server, a command-line client and a load
generator. This project models the parts of it where a result depends on several functions, on a loop
or on an interleaving, and proves what those parts promise:

- **The FUSE write-back layer** (`Inodes`, `TempFiles`, `WriteBack`, `Driver`, `FileRename`,
  `DirRename`, `DirClose`): open handles with private buffers, PUTs with a begin and an end, truncation
  through a handle or by path, requests that fail half-way, file and directory rename, and the two-map
  inode table. A run of the driver is compared with a plain file; a directory rename with the exact
  image of the tree.
- **The encrypted envelope** (`Padme`, `Envelope`, `PlaintextStream`, `StreamPut`, `WholeDecrypt`): Padmé
  padding, the streaming encryptor with its held-back final chunk, ranged reads that decrypt one chunk at
  a time from storage that may answer anything, uploads in arbitrary pieces that read back exactly, and
  decryption of a whole envelope that may have been cut or altered.
- **The one-shot key helper** (`KeyAgent`, `KeyUse`): arm and fetch processes that share three file names, one
  step per file-system call, with faults and crashes.
- **Bucket key grants and authorization** (`BucketKeys`, `Authz`, `Claim`): symbolic sealing and
  wrapping, real and decoy slots, rotation, the 403/404 decision, and the race to claim a new bucket.
- **The benchmark's lease pool and the staged download** (`Pools`, `Workload`, `StagedDownload`).

`Base` holds shared vocabulary. `dafny verify dfyconfig.toml` checks everything. State that the
program updates in place is a class whose methods are proved against functions on values; the
statements about whole runs are lemmas about those functions. Random draws, clocks and the outcome of
every remote or file-system call are parameters or nondeterministic choices.

## Findings

Each of these is a place where the code does less than its documentation, tests or purpose promise. For
each there is a concrete input and the exact condition under which the promise holds.

- **Padding.** `padme_len` pads down instead of up for the last 2^57 lengths of the 64-bit range, because
  its addition saturates; `PadmeCoversIff` is the exact condition, `LongestIsPaddedDown` an input. The comment
  on `finish_plaintext` (crates/y2q-core/src/crypto/envelope.rs:236-237) relies on it for every length.
- **File rename loses another writer's data.** Rename-then-close and close-then-rename agree if and only if
  the handle still has to PUT or the server already holds its buffer (`RenameCommutesWithCloseIff`).
  Otherwise a clean, stale write buffer is preferred over the server's copy: in `StaleRenameLosesWrite` a
  second handle has written and closed, and renaming through the first publishes the old body and deletes
  the only copy of the new one.
- **Directory rename leaves new files behind.** It flushes nothing and moves only the handles of listed
  keys, while the inodes of unlisted paths do move. Renaming and then closing every handle agrees with
  closing and then renaming if and only if no handle below the source has an object to upload that the
  server lacks, and none below the destination one that differs from the body moved onto it
  (`DirRenameCommutesIff`). In `CreatedFileStaysBehind` a file is created and the directory renamed
  before it is closed: the close brings the old directory back.
- **403 and 404.** The documentation of `authorize_bucket` promises 403 when only the role ceiling denies a
  visible bucket. The code answers 404 when a non-global role is all that denies a reading or administering
  grant. `AnswerExactly` states both sides and `VisibleBucketReportedMissing` gives an input, with keys as
  the sealing code writes them.
- **One-shot key authorization.** The comment on `take_armed` says two concurrent fetches cannot both read
  the armed file. They can: `OverlappingFetchesCanShareFile` is a run in which one file is used twice. Two
  fetches read the same file if and only if no file was set aside between their opens
  (`SameFileIffNoClaimBetween`), a fetch reads the file it set aside itself if and only if no other was set
  aside between its rename and its open (`OwnFileIffUndisturbed`), and a run uses each file at most once if
  and only if the opens of any two authorizing fetches are so separated (`EachFileOnceIff`). What holds in
  every interleaving is the count (`GrantsNeverExceedArms`).
- **A ranged read can abort.** If the preamble storage returns carries a forged chunk size, the window of a
  chunk may begin exactly at the recorded end of the file. Its computed length is then zero, an empty answer
  passes the length check, and trimming the empty plaintext is an out-of-range slice. `AbortsIffEmptyWindow`
  and `EmptyWindowIff` are the exact conditions, for wrapping subtraction as in the release profile; a build
  with overflow checks would stop at the subtraction for every window that begins past the recorded end.
  `ForgedChunkSizeAborts` is a whole read that aborts; under the sealed geometry it cannot happen
  (`SealedGeometryNeverAborts`), and no wrong byte is delivered either way.
- **Truncated envelopes.** The final-chunk marker of version 4 does what its documentation says except for an
  envelope cut down to its preamble, which is accepted if nothing is expected; version 3 accepts any cut between
  chunks that keeps the expected size (`CutAcceptedIff`). In all those cases the answer is still the right
  plaintext (`WholeIsGenuine`).
- **Staged download.** The in-place fallback relies on a rename error meaning that nothing happened: it is
  safe if and only if that is so (`FallbackSafeIff`). If the rename did take effect, the fallback empties the
  only complete copy, copies nothing onto it, and `Commit` reports success with an empty destination.
- **Claiming a bucket.** The comment in `claim_ownership` (crates/y2qd/src/authz.rs:361-368) says that
  reading back makes every racing caller converge on one owner and key. `TwoWinnersCanDiverge` is a run in
  which two callers that were both told they created the bucket return different keys. Of the callers that
  return key material, two return the same configuration if and only if nothing was stored between their
  last reads (`SameConfigIffNothingStoredBetween`), and one returns the configuration on disk if and only
  if nothing was stored after its last read (`CurrentIffNothingStoredAfter`). At most one winner is
  sufficient for that (`OneWinnerOneKey`), not necessary.

## Model

| member | source | states |
|---|---|---|
| Inodes.StepKeepsInverse | crates/y2q-fuse/src/inode.rs:69-157 | every operation keeps the two maps mutually inverse, never lowers the counter, and adds no number but the next one |
| Inodes.StepEntries | crates/y2q-fuse/src/inode.rs:69-157 | entry by entry, what assigning, removing and the two size updates do; every other entry survives each of them |
| Inodes.RepathEntry | crates/y2q-fuse/src/inode.rs:138-151 | entry by entry: the holder of the old path gets the new one with number and metadata kept, a stale holder of the new path disappears |
| Inodes.RepathKeepsRootIff | crates/y2q-fuse/src/inode.rs:138-151 | a rename leaves the root at number 1 if and only if its source is unknown or it names the root on both sides or neither |
| Inodes.RunKeepsTable | crates/y2q-fuse/src/inode.rs:50-157 | through every run the maps stay inverse, and the root stays at 1 when the run spares it |
| Inodes.EvictedNeverReissued | crates/y2q-fuse/src/inode.rs:69-157 | a number once evicted is never handed out again in any run |
| Inodes.AssignedNumberIsNew | crates/y2q-fuse/src/inode.rs:69-83 | a new path gets a number that no table of the run ever contained |
| Inodes.ByPathDetermined | crates/y2q-fuse/src/inode.rs:50-67 | the path map carries no information of its own |
| Inodes.InodeTable.GetOrAssign | crates/y2q-fuse/src/inode.rs:69-83 | same number for a known path, the next number for a new one, nothing else changes |
| Inodes.InodeTable.RepathTo | crates/y2q-fuse/src/inode.rs:138-151 | moves the mapping in place, keeping the number |
| Inodes.InodeTable.Evict | crates/y2q-fuse/src/inode.rs:153-157 | both maps forget the inode and nothing else |
| TempFiles.TempFile.ZeroRange | crates/y2q-fuse/src/fs.rs:51-62 | the chunked loop zeroes exactly the range |
| TempFiles.TempFile.SetBufferLen | crates/y2q-fuse/src/fs.rs:73-89 | old prefix kept, growth reads as zeros, and the bytes a shrink lets go were zeroed first |
| WriteBack.WriteBackRefinesPlainFile | crates/y2q-fuse/src/fs.rs:1065-1497 | for every legal run with one writable handle, the buffer is the opened body with the writes and truncates applied in order (those that failed half-way as far as they got), and a close whose last PUT works leaves exactly that on the server |
| WriteBack.StepSynced | crates/y2q-fuse/src/fs.rs:1397-1497 | every event, failed requests included, keeps the relation between buffer, PUT in flight and server copy |
| WriteBack.RunSynced | crates/y2q-fuse/src/fs.rs:2606-2682 | the same through every run |
| WriteBack.FailedPutRearms | crates/y2q-fuse/src/fs.rs:2647-2681 | a failed PUT makes the handle pending again, and a retry uploads the whole current buffer |
| WriteBack.RequestFrame | crates/y2q-fuse/src/fs.rs:1397-1497 | writes, flushes and the close of one handle leave every other handle and PUT alone, and touch no object but the one written back |
| WriteBack.OpenMeaning | crates/y2q-fuse/src/fs.rs:1065-1201 | handle by handle: a truncating open empties every other writable buffer of the object with its flags kept and is itself due for an empty PUT; any other open leaves the handles alone, and a writable one starts from the server's body |
| WriteBack.TruncateThroughWritableHandle | crates/y2q-fuse/src/fs.rs:3102-3196 | handle by handle: the object is the handle's, the server is left alone, every writable buffer of it is cut or zero-extended, and only the initiator is marked, if its length changed or it was dirty |
| WriteBack.SizePreservingTruncateIsQuiet | crates/y2q-fuse/src/fs.rs:274-296 | a truncate to the length a clean buffer already has marks nothing |
| WriteBack.TruncateOtherwise | crates/y2q-fuse/src/fs.rs:3126-3149 | without a writable initiator: succeeds if and only if the server object has that size or could be rewritten, or is missing and some handle still has to PUT; what server and buffers hold then |
| WriteBack.TruncateViaHandleEqualsByPath | crates/y2q-fuse/src/fs.rs:3102-3196 | when server and buffers agree, truncating through a handle and flushing equals truncating by path: same server, same buffers, other objects untouched, only the initiator can become pending |
| Driver.Mount.TruncateOpenBuffers | crates/y2q-fuse/src/fs.rs:274-296 | in any visiting order, every writable buffer of the object is resized and only the initiator is flagged; it fails exactly if one of their temp files does, and then leaves the buffers visited before resized |
| Driver.Mount.CutBuffer | crates/y2q-fuse/src/fs.rs:274-296 | one buffer is resized and flagged, or left with part of its tail zeroed |
| Driver.Mount.OpenObject | crates/y2q-fuse/src/fs.rs:1065-1201 | one step of the state machine and, handle by handle, what it leaves: other writers emptied by a truncating open with their flags kept, the new handle seeded, empty or read-only; fails exactly if the temp file, the seed or a truncation fails, with what is left then |
| Driver.Mount.CreateObject | crates/y2q-fuse/src/fs.rs:1318-1395 | one step of the state machine: an empty buffer that the close will upload |
| Driver.Mount.WriteAt | crates/y2q-fuse/src/fs.rs:1397-1455 | a positioned write with zero-filled gap re-arms the handle and tears a PUT in flight; it fails exactly on a handle without buffer or without room, and then keeps what fitted without marking the handle |
| Driver.Mount.TruncateObject | crates/y2q-fuse/src/fs.rs:3102-3196 | one truncate step with every error case: server not reached, server call failing, buffers failing half-way |
| Driver.Mount.TruncateServerFirst | crates/y2q-fuse/src/fs.rs:3126-3149 | the server object is rewritten before any buffer, and the buffers follow only if that worked or a handle will still PUT |
| Driver.Mount.BeginFlush | crates/y2q-fuse/src/fs.rs:2606-2645 | the handle is marked flushed when its buffer is handed to the PUT |
| Driver.Mount.EndFlush | crates/y2q-fuse/src/fs.rs:2647-2681 | the server gets the body (or a mixture if it was written meanwhile); a failure undoes the flag |
| Driver.Mount.ReleaseHandle | crates/y2q-fuse/src/fs.rs:1457-1497 | closing PUTs what is still pending |
| FileRename.RenameCommutesWithCloseIff | crates/y2q-fuse/src/fs.rs:2686-2852 | rename-then-close equals close-then-rename if and only if the handle is pending or the server holds its buffer |
| FileRename.StaleRenameLosesWrite | crates/y2q-fuse/src/fs.rs:2717-2760 | a reachable state in which the two orders end with different bodies and the rename loses the other writer's data |
| FileRename.RenamedIsResult | crates/y2q-fuse/src/fs.rs:2717-2760 | whatever source the scan picks, with one writer it is that one's buffer and with none the server's copy |
| FileRename.LaterWritesReachOnlyNewKey | crates/y2q-fuse/src/fs.rs:2686-2852 | after a rename, through every later run, the old key stays absent; requests through the handle and its close change no object but the new one; closing puts the edited body there |
| FileRename.RunThroughTouchesOnly | crates/y2q-fuse/src/fs.rs:1397-1497 | a run through the one writer of an object changes no other object on the server |
| FileRename.RunKeepsDetached | crates/y2q-fuse/src/fs.rs:2606-2682 | a key that nothing open or in flight can write stays absent through every run that does not open it for writing |
| FileRename.RenamedHandleFollows | crates/y2q-fuse/src/fs.rs:2686-2852 | the renamed state detaches the old key and leaves the handle in sync under the new one |
| FileRename.FlushSource | crates/y2q-fuse/src/fs.rs:2695-2715 | in any order, flushes every pending handle of the source; succeeds if and only if none of those PUTs fails, stops at one that does, touches no other object |
| FileRename.RenameFile | crates/y2q-fuse/src/fs.rs:2686-2852 | succeeds if and only if every flush and call works and there is a writer or a server object; then, name by name, the new key holds the copied body, the old one is gone, every handle of the source (read-only ones too) follows with its buffer and nothing left to PUT, all else is unchanged, and the inode keeps its number; with one writer or none this is the state the commutation theorem speaks of; failure leaves handles on their key and every other body alone |
| DirRename.ApartIffNoSharedKey | crates/y2q-fuse/src/fs.rs:2863-2870 | two directories share no key if and only if neither contains the other |
| DirRename.PathMoves | crates/y2q-fuse/src/fs.rs:2977-3026 | a moved path leaves the old tree and the reverse move restores it |
| DirRename.RepathOneMore | crates/y2q-fuse/src/fs.rs:2942-2954 | moving one more path, in any order, gives the image for one more path |
| DirRename.TreeMovedIsUnique | crates/y2q-fuse/src/fs.rs:2977-3026 | the final inode table does not depend on the order of the scan |
| DirRename.TreeMovedMeaning | crates/y2q-fuse/src/fs.rs:2942-3026 | moved paths keep number and metadata, the old tree is empty, paths outside both trees are as before |
| DirRename.MovedStoreOneMore | crates/y2q-fuse/src/fs.rs:2866-2932 | copying and deleting one more listed object gives the store image for one more key |
| DirRename.BetweenLosesNothing | crates/y2q-fuse/src/fs.rs:2921-2932 | in every state between the server calls of one object's move, nothing is lost and nothing outside changes |
| DirRename.CompleteListingMovesTree | crates/y2q-fuse/src/fs.rs:2856-2955 | with a complete listing the old tree ends empty and the new tree is its exact image over what was there |
| DirRename.WantedMeaning | crates/y2q-fuse/src/fs.rs:2866-2869 | the keys moved are exactly the listed ones below the source prefix |
| DirRename.RewriteLocalDirs | crates/y2q-fuse/src/fs.rs:2957-2975 | the two-pass rewrite of the hash set is the image of the set |
| DirRename.RepathSnapshot | crates/y2q-fuse/src/fs.rs:2977-3026 | repathing from a snapshot, in any order, moves the whole tree |
| DirRename.RepathOne | crates/y2q-fuse/src/fs.rs:2977-3026 | one path of the snapshot moves, or was not in the tree |
| DirRename.MoveNext | crates/y2q-fuse/src/fs.rs:2866-2955 | one turn of the loop: skip, move, or stop with nothing lost |
| DirRename.MoveListed | crates/y2q-fuse/src/fs.rs:2866-2955 | the loop moves objects, handles and inodes together and stops at any error with nothing lost |
| DirRename.RenameDirectory | crates/y2q-fuse/src/fs.rs:2856-3028 | succeeds if and only if every listed object below the source is there, listed once and without a failing call; then whatever was at `s/r` is at `d/r` with the same `r`: listed bodies, handles on them, directory and object inodes with their numbers, local directories; always: at every server call no object of the tree is missing under both keys and nothing outside changed |
| DirRename.RenameTree | crates/y2q-fuse/src/fs.rs:2856-3028 | the same request as the image functions that the lemmas about stores, handles and inode tables speak of |
| DirRename.KeyOfSlash | crates/y2q-fuse/src/fs.rs:2863-2870 | the key `s/r` moves to `d/r` |
| DirClose.DirRenameCommutesIff | crates/y2q-fuse/src/fs.rs:2856-3028 | rename-then-close-all equals close-all-then-rename, for every order of closing, if and only if nothing below the source is still missing from the server and nothing below the destination still to upload differs from what is moved onto it |
| DirClose.CreatedFileStaysBehind | crates/y2q-fuse/src/fs.rs:2934-2941 | for every rename, a file created below the source and not yet closed ends under its old key |
| DirClose.ClosedIsRelease | crates/y2q-fuse/src/fs.rs:1457-1497 | closing handles in an order is the driver's close requests in that order |
| DirClose.CompleteListingIsActedOn | crates/y2q-fuse/src/fs.rs:2866-2869 | with a complete listing the keys the rename moves are the source tree |
| Padme.PadmeCoversIff | crates/y2q-core/src/crypto/envelope.rs:137-152 | padding covers the length if and only if it is at most 2^64 - 2^57 |
| Padme.LongestIsPaddedDown | crates/y2q-core/src/crypto/envelope.rs:137-152 | the longest 64-bit length is padded to less than itself |
| Padme.PadmeOverhead | crates/y2q-core/src/crypto/envelope.rs:129-152 | padding adds at most 12 percent |
| Padme.PadmeIsLeastMultiple | crates/y2q-core/src/crypto/envelope.rs:137-152 | below the limit, the padded length is the least multiple of 2^(e-s) not below the length, for the e and s with 2^e <= l < 2^(e+1) and 2^(s-1) <= e < 2^s |
| Envelope.ParseOfHeader | crates/y2q-core/src/crypto/envelope.rs:668-692 | the reader recovers chunk size, epoch, nonce and length from the written header |
| Envelope.AcceptedIffWritten | crates/y2q-core/src/crypto/envelope.rs:668-692 | a header is accepted with a chunk size if and only if it is one that the writer writes for some epoch, nonce and length |
| Envelope.NoncesDiffer | crates/y2q-core/src/crypto/envelope.rs:1128-1137 | two chunks of an object have the same nonce if and only if they have the same index |
| Envelope.KeyInfoBindsAddress | crates/y2q-core/src/crypto/envelope.rs:1162-1180 | the derivation inputs of two objects are equal if and only if bucket and key are |
| Envelope.SplitOfChunks | crates/y2q-core/src/crypto/envelope.rs:1002-1030 | full chunks followed by a shorter tail are how the text splits |
| Envelope.FinalMarker | crates/y2q-core/src/crypto/envelope.rs:1035-1101 | sealing chunks as not final while streaming and only the true last one as final gives the finished object |
| Envelope.LayoutGrows | crates/y2q-core/src/crypto/envelope.rs:1021-1030 | completing a chunk sends out the one held back and keeps the sink a prefix of the envelope |
| Envelope.EncryptSession.Feed | crates/y2q-core/src/crypto/envelope.rs:1002-1014 | absorbs any piece, whatever its size |
| Envelope.EncryptSession.Finish | crates/y2q-core/src/crypto/envelope.rs:1035-1101 | the output is the envelope of everything absorbed, padded by a 64-bit count, with the length patched in, and its size is reported modulo 2^64 |
| PlaintextStream.IdealAeadExists | crates/y2q-core/src/crypto/envelope.rs:774-846 | the assumptions about the AEAD, that sealed chunks open and nothing else does, can be met together for every sealed object |
| PlaintextStream.ChunkOffset | crates/y2qd/src/cipher.rs:429-438 | chunk i lies where the reader looks for it, and only the last one may be short |
| PlaintextStream.DeliverIsGenuine | crates/y2qd/src/cipher.rs:438-487 | whatever storage returned, a delivered chunk is the next piece of the plaintext range and the preamble carried the sealed geometry |
| PlaintextStream.AbortsIffEmptyWindow | crates/y2qd/src/cipher.rs:429-486 | whatever storage returns, a poll aborts if and only if the computed window is empty and the answer is too |
| PlaintextStream.EmptyWindowIff | crates/y2qd/src/cipher.rs:429-438 | short of overflow, the window is empty if and only if it begins at the recorded end of the file |
| PlaintextStream.SealedGeometryNeverAborts | crates/y2qd/src/cipher.rs:429-486 | with the sealed geometry no window is empty |
| PlaintextStream.ForgedChunkSizeAborts | crates/y2qd/src/cipher.rs:429-486 | an object with trusted metadata, storage that forges only the preamble, and a range whose whole read delivers nothing and aborts |
| PlaintextStream.DeliverIntact | crates/y2qd/src/cipher.rs:429-487 | on intact storage all indexes stay in range below 2^64 and the chunk is delivered exactly when its end is known |
| PlaintextStream.TranscriptVerdict | crates/y2qd/src/cipher.rs:350-492 | every complete read: delivered bytes are a prefix of the range, a clean end means all of it; on intact storage it never aborts and ends cleanly if and only if the end of the last window is known, with one item per chunk |
| PlaintextStream.Stream.Poll | crates/y2qd/src/cipher.rs:372-490 | one poll: preamble once, then one window per chunk |
| PlaintextStream.ReadRange | crates/y2qd/src/cipher.rs:350-492 | the whole stream, with the item count end/c - start/c + 1 |
| StreamPut.StreamEncrypt | crates/y2qd/src/cipher.rs:160-237 | for every splitting into pieces: accepted if and only if the sink works, no piece failed and the total is within the limit; each error exactly with a working sink; and equal to sealing the whole body at once |
| StreamPut.EncryptBytes | crates/y2qd/src/cipher.rs:250-307 | the one-shot form gives the same size, checksum and envelope, or the error |
| StreamPut.EnvelopeIsStored | crates/y2q-core/src/crypto/envelope.rs:1035-1101 | an upload's bytes are a sealed object in the reader's sense, although its length is patched in after sealing |
| StreamPut.UploadIsUsable | crates/y2qd/src/cipher.rs:210-236 | the recorded metadata and the bytes on disk meet the reader's requirements |
| StreamPut.GetBack | crates/y2qd/src/cipher.rs:350-492 | any range of an uploaded body reads back as that slice |
| StreamPut.PutThenGet | crates/y2qd/src/cipher.rs:160-492 | upload in any pieces, then any range reads back as that slice of the body |
| WholeDecrypt.WholeIsGenuine | crates/y2q-core/src/crypto/envelope.rs:210-426 | whatever the envelope: an answer is the sealed plaintext cut to the expected size; in version 4 every chunk was there, or none was and nothing was expected |
| WholeDecrypt.AadBinds | crates/y2q-core/src/crypto/envelope.rs:848-868 | associated data agree if and only if version and header but for the length agree and, in version 4, the final markers |
| WholeDecrypt.CutAcceptedIff | crates/y2q-core/src/crypto/envelope.rs:50-72 | an envelope cut after k chunks, with any length patched in, is accepted if and only if that length is the kept one, no more is expected, and the format is version 3 or all chunks or none are kept |
| WholeDecrypt.EncryptThenDecrypt | crates/y2q-core/src/crypto/envelope.rs:343-426 | a body that padding covers is decrypted from its envelope exactly |
| WholeDecrypt.OpenChunks | crates/y2q-core/src/crypto/envelope.rs:397-421 | the loop opens the chunks in order and takes the one that ends the envelope for the last |
| WholeDecrypt.Decrypt | crates/y2q-core/src/crypto/envelope.rs:210-426 | the whole request with every error, equal to the function the lemmas are about |
| KeyAgent.GrantsNeverExceedArms | crates/y2qd/src/key_agent.rs:283-321 | in every interleaving with faults and crashes, grants plus what is armed or being taken never exceed the arms that reached their rename |
| KeyAgent.GrantsAreWhole | crates/y2qd/src/key_agent.rs:283-338 | a granted authorization is the complete text of one arm request, never a torn one |
| KeyAgent.ArmedCameFromRequest | crates/y2qd/src/key_agent.rs:426-459 | only requests of the arming user become arm processes |
| KeyAgent.FetchCameFromRequest | crates/y2qd/src/key_agent.rs:461-471 | in every run, whatever is or was a fetch process was asked for by the configured peer |
| KeyUse.GrantsGoToThePeer | crates/y2qd/src/key_agent.rs:461-471 | every authorization went to a fetch of the configured peer and came from an arm of the arming user; without a configured peer there is none |
| KeyAgent.OrderlyFetchesUseEachFileOnce | crates/y2qd/src/key_agent.rs:304-338 | when fetches do not overlap, each armed file is granted at most once, whatever arms do meanwhile |
| KeyUse.OwnFileIffUndisturbed | crates/y2qd/src/key_agent.rs:304-338 | in every run, a fetch reads the file it set aside itself if and only if no other fetch set one aside between its rename and its open |
| KeyUse.SameFileIffNoClaimBetween | crates/y2qd/src/key_agent.rs:304-338 | in every run, two fetches read the same file if and only if no file was set aside between their opens |
| KeyUse.GrantsShareFileIff | crates/y2qd/src/key_agent.rs:304-338 | two authorizations come from two fetches, and are of one file if and only if no file was set aside between those fetches' opens |
| KeyUse.EachFileOnceIff | crates/y2qd/src/key_agent.rs:304-338 | a run uses each file at most once if and only if the opens of any two authorizing fetches are so separated |
| KeyUse.RunIsTold | crates/y2qd/src/key_agent.rs:304-338 | in every run each file is set aside once and never comes back, what a fetch opens is the latest file set aside, and each fetch authorizes at most once |
| KeyUse.OverlappingFetchesCanShareFile | crates/y2qd/src/key_agent.rs:304-321 | a run of three overlapping fetches in which one armed file is used twice |
| KeyAgent.RunIsUsable | crates/y2qd/src/key_agent.rs:283-338 | in every run names point to files and every file is a beginning of what its writer set out to store |
| KeyAgent.WriteArmed | crates/y2qd/src/key_agent.rs:283-302 | the sequential code is one arm process of the interleaving model; succeeds if and only if its calls work (clearing only if there was something to clear) and then arms the complete text; on error the temporary name is gone unless removing it failed, and what was armed stays so unless the rename took effect |
| KeyAgent.TakeArmed | crates/y2qd/src/key_agent.rs:308-338 | the sequential code is one fetch process; it authorizes if and only if a file is armed, every call works and the text parses, and then exactly that text; whatever came of reading, neither name is left unless erasing failed |
| BucketKeys.SealGrantSlots | crates/y2qd/src/bucket_keys.rs:151-194 | fails exactly on a wrong slot count or a malformed key; otherwise each slot is sealed to its persona and is real if and only if authorized |
| BucketKeys.NewBucketKeyVersion | crates/y2qd/src/bucket_keys.rs:55-83 | a new epoch is as its grantee list says, last entry per user, or an error if any row cannot be sealed |
| BucketKeys.ReadableIffAuthorized | crates/y2qd/src/bucket_keys.rs:232-335 | reading recovers the epoch's key if and only if the latest row authorizes the persona, the verified open accepts the same personas, the plain open every slot |
| BucketKeys.RunReadableIffAuthorized | crates/y2qd/src/bucket_keys.rs:55-335 | the same after every run of epoch creations and grants made with a verified wrap key, with the current key the highest |
| BucketKeys.OtherUsersUnaffected | crates/y2qd/src/bucket_keys.rs:201-211 | granting to one user changes nothing for any other, at any epoch, slot or key |
| BucketKeys.RelocatedNeverOpens | crates/y2qd/src/bucket_keys.rs:232-335 | an entry sealed for another bucket, epoch, user, slot or persona does not open, nor does a secret key wrapped for another bucket or epoch |
| BucketKeys.CurrentGrantees | crates/y2qd/src/bucket_keys.rs:103-145 | by name: a row for the caller, the owner and everyone at ACL level read, write or admin who is known, and for nobody else; one real slot each, the caller's own persona or the other's primary one |
| BucketKeys.NewEpochReaders | crates/y2qd/src/bucket_keys.rs:103-145 | by name: the new epoch is read by the rotating persona and by the primary persona of the owner and of users at read, write or admin, and by no other; write-only and unnamed users do not read it |
| BucketKeys.NewOwnerKey | crates/y2qd/src/bucket_keys.rs:402-430 | the epoch-0 key is readable by the claiming persona alone |
| BucketKeys.Bucket.PutGrantSlot | crates/y2qd/src/bucket_keys.rs:201-211 | replaces one user's row in place and leaves everything else |
| BucketKeys.Bucket.Grant | crates/y2qd/src/handlers/personas.rs:197-219 | a session grants if and only if its own persona is really authorized |
| BucketKeys.Bucket.RotateKey | crates/y2qd/src/handlers/keys.rs:129-194 | succeeds if and only if the epoch count is in range, the caller's persona reads the newest epoch and every known user who is caller, owner or above write-only has four usable personas, with the error of each other case; the readers of the new epoch by name as in `NewEpochReaders` |
| Authz.AnswerExactly | crates/y2qd/src/authz.rs:193-306 | the exact condition of each answer, without the code's branches |
| Authz.AnswerByName | crates/y2qd/src/authz.rs:67-81 | the exact condition of each answer in roles, ACL levels and verbs by name |
| Authz.RoleCeilings | crates/y2qd/src/authz.rs:67-81 | a disabled role is never allowed and never claims, a write-only role never reads or administers, reading and auditing roles do nothing but read |
| Authz.LevelVerbs | crates/y2qd/src/authz.rs:139-156 | for an ordinary user who decrypts somebody else's bucket, exactly which verbs each ACL level allows |
| Authz.UnenforcedNeverRefuses | crates/y2qd/src/authz.rs:233-250 | without enforcement nothing is refused, and exactly a write to a missing bucket claims it |
| Authz.VisibleBucketReportedMissing | crates/y2qd/src/authz.rs:275-305 | with keys from a legal run, an owner whose persona decrypts the bucket gets 404 to administer it under a reading role |
| Authz.AllowedMeansDecryptable | crates/y2qd/src/authz.rs:193-263 | an allowed verb is within the role; reading and administering need the newest epoch; a write without it is exactly a write-only relationship |
| Authz.InvisibleLooksMissing | crates/y2qd/src/authz.rs:253-306 | to read or administer, an invisible bucket answers like a missing one, and a 403 means visible |
| Authz.ReadersAreAuthorized | crates/y2qd/src/authz.rs:193-306 | tied to every run of key events: readers and administrators are authorized by their latest row; everyone else without a drop box sees a missing bucket |
| Authz.VisibleIffAuthorized | crates/y2qd/src/bucket_keys.rs:385-394 | after every run of key events, a persona sees a bucket if and only if its latest row on the newest epoch authorizes it |
| Authz.RolePermitsIff | crates/y2qd/src/authz.rs:109-115 | a role may be handed out under another if and only if it is never accepted where the other is refused |
| Claim.StoresNeverExceedWinners | crates/y2qd/src/authz.rs:333-375 | in every interleaving no more configurations are stored than callers were told they created the bucket |
| Claim.OneWinnerOneKey | crates/y2qd/src/authz.rs:333-375 | with at most one such caller, one owner and one key are ever stored and everyone who gets key material gets that key |
| Claim.TwoWinnersCanDiverge | crates/y2qd/src/authz.rs:361-375 | a run in which two claimers told that they created the bucket return different keys |
| Claim.SameConfigIffNothingStoredBetween | crates/y2qd/src/authz.rs:333-375 | in every run with fresh keys, two claimers that return key material return the same if and only if nothing was stored between their last reads |
| Claim.CurrentIffNothingStoredAfter | crates/y2qd/src/authz.rs:361-375 | such a claimer returns the configuration on disk if and only if nothing was stored after its last read |
| Claim.RunIsTold | crates/y2qd/src/authz.rs:333-375 | in every run each claimer returns what was on disk at its last read |
| Claim.ClaimOwnership | crates/y2qd/src/authz.rs:333-375 | the code is one claimer of the interleaving model; succeeds if and only if creating and reading work and, for a caller told that it created an unowned bucket, the user has four usable personas and storing and reading back work; such a caller becomes owner of a key its persona alone reads, any other stores nothing |
| Pools.TakeFailsIffAllLeased | crates/y2q-warp/src/generator.rs:120-136 | for every random start, a delete finds nothing if and only if every pooled key is leased |
| Pools.ObjectPool.PickForGet | crates/y2q-warp/src/generator.rs:95-104 | leases a pooled key |
| Pools.ObjectPool.TakeForDelete | crates/y2q-warp/src/generator.rs:120-136 | the wrapping probe takes the first unleased key and swap-removes it |
| Pools.ObjectPool.ReleaseRead | crates/y2q-warp/src/generator.rs:107-115 | gives one lease back and drops a zero count |
| Workload.ReadsAreSafe | crates/y2q-warp/src/worker.rs:91-136 | in every run keys stay distinct and the pool within its cap, lease counts are the outstanding reads, a key being read is pooled, nobody deletes it, and its object exists unless a delete that had removed it reported an error |
| Workload.StepKeepsInvariant | crates/y2q-warp/src/generator.rs:95-156 | every call keeps each key in one place and the leases, counts and objects consistent |
| Workload.ExecuteOp | crates/y2q-warp/src/worker.rs:73-139 | the code of one operation is a piece of such a run, from idle to idle, with the effect of that operation: a put pools the next number if it worked and there is room, reads pick the key at the index and change nothing, a delete takes an unleased key and gives it back if it failed, a list uses none |
| Workload.ExecuteRead | crates/y2q-warp/src/worker.rs:106-113 | a read leases the key at the index and leaves the pool as it was |
| Workload.ExecuteDelete | crates/y2q-warp/src/worker.rs:114-130 | a delete takes an unleased key, fails only if all are leased, and the key comes back to the pool exactly if the request failed |
| StagedDownload.SafeSurvivesCrash | crates/y2q-cli/src/staged_file.rs:114-152 | a safe state shows the old content, the new content or a complete stage, now and after a crash that garbles unsynced data |
| StagedDownload.FallbackSafeIff | crates/y2q-cli/src/staged_file.rs:124-133 | the in-place fallback is safe if and only if the refused rename had no effect |
| StagedDownload.StagedFile.Commit | crates/y2q-cli/src/staged_file.rs:114-152 | succeeds if and only if flush and sync work and the rename or the whole fallback does; unless a rename reported an error after taking effect: every state on the way is safe, success is durable new content and no stage, an error is old content and no stage or a complete durable stage; otherwise no stage is left, success is an empty destination and an error the new content or an empty destination |
| StagedDownload.StagedFile.CopyOver | crates/y2q-cli/src/staged_file.rs:130-151 | the in-place copy keeps the stage complete until the destination is durable, and copies nothing when stage and destination are one file |
| StagedDownload.StagedFile.Drop | crates/y2q-cli/src/staged_file.rs:42-48 | removes the stage and nothing else unless it was disarmed |
| StagedDownload.Download | crates/y2q-cli/src/staged_file.rs:51-152 | refused, aborted, committed and successful each exactly when the calls say so; a whole download: safe at every step; without commit the old content stays and no stage is left |
| StagedDownload.DirectDownload | crates/y2q-cli/src/staged_file.rs:100-118 | without a stage: the destination is emptied at once; success if and only if every call works, and then it holds the transfer |

## Left out

- WriteBackRefinesPlainFile: assumes one PUT in flight per object, no truncate of an object being PUT, and one writable handle of the object. After a request that failed half-way, or a truncate by path that reported failure although it landed, the server may differ until the handle's next PUT of an undisturbed buffer.
- FlushSource: assumes that a handle about to be flushed has no PUT in flight already.
- RenameFile: assumes the same of the source's handles that are still to be flushed.
- RenameDirectory: assumes that neither path contains the other (the kernel refuses such a rename).
- DirRenameCommutesIff: assumes that handles that still have to PUT one object hold the same body, and that every PUT of the closes works.
- PadmeCoversIff: states when padding covers the length instead of the unconditional promise, which is false.
- StreamEncrypt: bodies of 2^64 bytes or more are not modelled, a sink works or fails as a whole upload, and checksums are symbolic.
- EncryptBytes: the same.
- Finish: the same lengths are not modelled.
- GetBack: the read-back is stated for bodies that padding covers and ciphertext plus one chunk below 2^63 bytes.
- PutThenGet: the same.
- ReadRange: assumes ciphertext plus one chunk below 2^63 bytes and trusted metadata; the AEAD is ideal, a chunk opens only to what was sealed for that object, header and index.
- Grant: the authorization check of the handler around it is stated separately in `Authz`.
- RotateKey: errors of the user store and of persisting the configuration are not modelled; the epoch number does not wrap.
- Download: directory operations are durable at once, an open that fails has not truncated the file, and modes and permissions are outcomes only.
- Workload: keys are sequence numbers, without the formatting of their names.
- Overflow of inode numbers, handle numbers and sequence numbers.
- The container offset (`write_offset`) and the backends' storage layout.
- Object labels, cached sizes and other inode metadata beyond the size and freshness flags.
- FUSE lookup, getattr, readdir, xattrs, `compute_read_range` and request plumbing: they would only add easy members.
- WholeIsGenuine: the AEAD is ideal, as for `ReadRange`; a secret key or KEM ciphertext that does not parse is not modelled.
- EncryptThenDecrypt: stated for bodies that padding covers.
- KeyInfoBindsAddress: bucket names of 2^32 bytes or more are not covered, since their length is cut to 32 bits.
- DirectDownload: writes reach the file one by one, and a failing flush is an error without saying which of them were lost.
- Version 1 and 2 envelopes, which the program refuses as well.
- The session's bucket-key cache: a session is user, persona and identity key.
- The rekey job, ACL and persona handlers, except for the key operations they call.
- KEM, AEAD, HKDF, Argon2 and XXH3 internals, secure memory, configuration, CLI, TUI, TLS and metrics.
