# Models of the BACnet/SC hub example

The repository is an example BACnet/SC hub: it keeps its certificates in files that a BACnet client can replace, exchanges certificate requests and answers with a certificate authority as CARI zip files, runs a WebSocket listener, and decodes BACnet frames for its log. These modules model the parts of it that carry state or parse what others send, and prove what they promise. `dafny verify dfyconfig.toml` checks them.

**Certificates** (`CertFiles`, `CertCommit`, `CertAccept`, `CertContents`, `CertRun`, `CertSetup`, `CertLoss`, `CertPaths`, `CertStore`, `CertTransfer`, `Listing`). `CertFiles` has the disk, the staged writes and every operation of `cert_store.cpp` as functions, file operation by file operation: each can succeed, fail or be where the process stops. `CertStore.FileStore` is the object itself, each method proved to be its function. `CertCommit` shows that a commit changes nothing anyone reads, that what was validated is what is on disk, and when it succeeds; `CertAccept` tells exactly which sets of certificates may go live, and `CertContents` what each File object reads as after a write, octet by octet. `CertRun` is the hub's certificate life as a state machine (writes, discards, activation, GENERATE_CSR_FILE, stops, import, start-up) and the invariant of all its runs; `CertSetup` is exactly what the first request and an import do; `CertLoss` is the one way to lose the matching pair and how long it then stays lost, and `CertPaths` the layout it all is about. `CertTransfer` is the chunked file transfer over it.

**CARI files** (`CariPath`, `CariTree`, `TextOrder`, `ZipWrite`, `ZipRead`, `ZipRoundTrip`, `ZipSafety`, `ZipFormat`, `CariRules`, `CariLegal`, `CariTold`, `CariAnswer`, `CariExchange`, `Decimal`). The zip writer and reader octet by octet, exactly which trees survive being written and read, what the reader gives for arbitrary octets, and that it reads every zip file of the format, whoever wrote it; the rules for the tree and, independently, the list of legal names they accept; the requests in a tree and the response that answers them; and the way from the hub's own request to the certificate it imports.

**The WebSocket listener** (`RateLimit`, `RateExact`, `ScAssembly`, `ScOutbox`, `ScState`, `ScRun`, `ScRunAll`, `ScDoes`, `ScMetrics`, `ScTransport`, `BvlcHeader`). The two-level rate limit with its bounded table, and exactly which attempts it refuses; one connection's reassembly and transmit queue; the listener as a state machine whose steps are calls and lws callbacks, followed through every run with a record of each connection; what each call achieves; the object itself; and the header walk.

**Decoders** (`BacnetTag`, `BacnetFrame`, `BacnetCut`, `BacnetTriple`, `Pem`, `Utf8`, `Utf8Strict`, `Octets`). Each decoder against an encoder, whole and cut short, and the two independent frame parsers against each other.

## Assumptions

- OpenSSL and zlib are records of functions (`CertFiles.Crypto`, `CertRun.Tools`, `ZipWrite.Codec`). Of zlib only `ZipWrite.Lossless` is assumed, and only where a lemma requires it: inflating what deflate gave gives it back. Of OpenSSL only `CertRun.PemLaw`: a certificate written as PEM is read as that certificate.
- A rename and a removal happen at once or not at all. A write to a temporary file that does not succeed - the removal of an old one and of what was written included - leaves no temporary file or one with any contents (`CertFiles.Env.left`). The files that an import and the start-up request write directly are written at once or not at all.
- The layout has distinct paths, none the temporary name of another, and fallbacks that end (`CertFiles.Layout.WellFormed`). `CertPaths.HubPathsAreHubLayout` proves it of the layout `main.cpp` makes, for any certificate folder and port folder.
- lws gives a connection whose callback returned -1 no further callback but CLOSED, does not establish a connection that is open, and has given CLOSED to every open connection when it has destroyed a context (`ScRun.LwsMay`, `ScRun.LwsMayDestroy`). The runs are over everything else lws and the stack may do.
- Times are real numbers and do not decrease.

## Where the code and its documentation differ

- A PEM body without an END marker is not always returned whole: an unfinished marker at its end is completed by the END line (`Pem.UnfinishedMarkerInBody`). The exact condition is that of `Pem.GoodBodyIff`: no END marker in the body, and none at its end that lacks only some of its last hyphens.
- After an activation whose promotion failed, GENERATE_CSR_FILE is not refused and replaces the pending key that the certificate on disk needs, so that no restart has a matching pair until another certificate is brought in (`CertLoss.GenerateAfterFailedPromotion`, `CertLoss.LostRunStaysLost`; `CertLoss.PairCanBeLost` is a run from an empty folder that does it). `CertRun.GenerateKeepsInvIff` has the exact condition. It also covers the stop or failure between the two renames at cert_store.cpp:640 and 645, which leaves a new key beside an old request.
- `IsValidUtf8` accepts overlong forms, surrogates and numbers above U+10FFFF, which section 4 of RFC 3629 excludes (`Utf8.OverlongAccepted`, `Utf8Strict.LooserThanGrammar`); `Utf8Strict.StrictIff` has the exact difference.
- A write to a File object that has nothing to read - a missing certificate file without a readable fallback - makes an empty file of it even when the write is refused (`CertTransfer.RefusedWriteCanShow`); `CertTransfer.RefusedWriteStages` has the exact condition.
- Of a network layer message with an address specifier that does not even start within the frame, the decoder still reports a network layer message, while `IsStackChosenBroadcast` says no (`BacnetFrame.TestsCanDiffer`); the contract of both copies has this as its only exception.
- A CARI tree has one folder per device (cari.h:14), but `device-1` and `device-01` are both folders of device 1, and `Validate` accepts a tree with both (`CariLegal.DeviceNamedTwice`). `CariLegal.SameDeviceIff` has the exact condition: names of one device differ in leading zeros only.
- `WriteZip` writes an empty tree as a file that `ReadZip` refuses (`ZipSafety.EmptyTreeNotRead`).
- `IsSafeZipPath` accepts a path with a '/' at its end; `ReadZip` never gives one (`ZipSafety.ReadGivesSafeTree`), so the theorems about trees that were read need no further condition.

## Model

| member | source | states |
|---|---|---|
| `CertStore.FileStore.constructor` | cert_store.cpp:333-336 | A store over an existing folder starts with nothing staged and no promotion due. |
| `CertStore.FileStore.ReadFile` | cert_store.cpp:338-350 | A File object reads as its staged copy, else as its own file, else as the File object it falls back to, followed as far as the fallbacks go. |
| `CertStore.FileStore.StageFile` | cert_store.cpp:89-103 | The first write copies what the File object reads as now, fallback included; a later one keeps the copy; an unknown File object is refused. |
| `CertStore.FileStore.WriteFile` | cert_store.cpp:377-406 | AtomicWriteFile in memory: overwrite in place, extend, or append for a start of -1; the four refusals in the source's order; what was staged before a refusal stays staged. |
| `CertStore.FileStore.ResizeFile` | cert_store.cpp:408-420 | Truncates, or extends with zero octets, and refuses more than 65536. |
| `CertStore.FileStore.HasStagedChanges` | cert_store.cpp:422-424 | Whether any File object has a staged copy; ACTIVATE_CHANGES has nothing to do without one. |
| `CertStore.FileStore.DiscardStaged` | cert_store.cpp:575-578 | Nothing is staged afterwards and no promotion is due; the disk is not touched. |
| `CertStore.FileStore.ParsePem` | cert_store.cpp:163-188 | Every certificate of a PEM blob in order, or nothing if any block is not one or there is something else in the text. |
| `CertStore.FileStore.ParseIssuers` | cert_store.cpp:426-440 | The issuers of all slots as they would be after a commit, in slot order; a slot that does not parse refuses the set. |
| `CertStore.FileStore.ValidateStaged` | cert_store.cpp:426-504 | The first reason, in the source's order of checks, why the files as they would be after commit may not go live; with none, whether the certificate is for the pending key. |
| `CertStore.FileStore.WriteTempFile` | cert_store.cpp:258-288 | The temporary file beside the target, with all the octets after a success; a failure or a stop anywhere in it leaves none or any contents there, and no other file changes. |
| `CertStore.FileStore.RenameFile` | cert_store.cpp:291-329 | The temporary file replaces the target at once or not at all. |
| `CertStore.FileStore.CommitStaged` | cert_store.cpp:506-538 | Every staged copy goes to a temporary file, then each is renamed in order, then the pending key is promoted if the validation said so; wherever one file operation fails or the process stops, the disk and the stage are those of that moment. |
| `CertStore.FileStore.RemoveTempFiles` | cert_store.cpp:515-519 | After a failed write the temporary files written so far are removed in order; one that cannot be removed is left, the process can stop at any, and no other file changes. |
| `CertStore.FileStore.ReconcilePendingKey` | cert_store.cpp:540-573 | At start-up the pending key replaces the private one exactly when the certificate on disk is for the pending key and not for the private one. |
| `CertStore.FileStore.GenerateKeyAndCsr` | cert_store.cpp:580-646 | Refused while anything is staged, without a place for the request or without a readable certificate; otherwise the key and request files, temporary files first. |
| `CertStore.FileStore.ReplaceKeyAndCsr` | cert_store.cpp:613-646 | Both are written before either replaces anything, and the key is renamed first; a failure in between leaves the new key with the old request. |
| `CertStore.FileStore.ReinitializeDevice` | main.cpp:1378-1425 | ACTIVATE_CHANGES short of a crash changes no File object's contents; after a success nothing is staged and the files on disk pass the same validation. |
| `CertCommit.CommitKeepsReads` | cert_store.cpp:506-538 | CommitStaged never changes what Read returns for any File object, whatever it returns and wherever a write, a rename or the promotion fails, for every layout with distinct paths and fallbacks that end. |
| `CertCommit.ValidatedThenCommitted` | cert_store.cpp:426-538 | After a successful ValidateStaged and CommitStaged nothing is staged, a second validation of the files on disk succeeds, and the certificate is for the key that is then at the private key's path. |
| `CertCommit.ValidateByReads` | cert_store.cpp:426-504 | A set of files that passed stays accepted when they read the same and the key its certificate is for has become the private key, as after a promotion. |
| `CertCommit.VerdictByReads` | cert_store.cpp:426-504 | The verdict of a validation, accepting or not, depends only on what the File objects read as and on the two keys on disk; so does the note to promote, unless unreadable or missing certificates are refused, which leaves it as it was. |
| `CertCommit.ValidateChangesOnlyPromotes` | cert_store.cpp:426-504 | A validation changes nothing but the note that the next commit promotes the pending key, and it makes that note only when there is a pending key. |
| `CertCommit.KeyAfterCommit` | cert_store.cpp:506-538 | After a successful commit the key read from the private key's path is the one that was there, or the pending one when the validation asked for the promotion. |
| `CertCommit.RenamedFile` | cert_store.cpp:506-538 | However far a commit got, each file on disk is the old one or the staged one, never a mixture. |
| `CertCommit.RenamedIff` | cert_store.cpp:506-525 | Both loops get to their end, every staged copy renamed into place, if and only if the file of each can be written and renamed. |
| `CertCommit.CommitIff` | cert_store.cpp:506-538 | A commit succeeds if and only if every staged copy can be written and renamed and the promotion, if one is asked for, has a pending key and succeeds; then every staged copy is on disk, nothing is staged, and the pending key is or is not the private one as asked. Short of the renames' end the whole stage is kept. |
| `CertCommit.FailedWriteKeepsFiles` | cert_store.cpp:507-520 | When one write does not succeed, no file but temporary ones has been touched. |
| `CertAccept.ValidateIff` | cert_store.cpp:426-504 | A staged set is accepted if and only if every issuer slot parses, together they hold a certificate, the operational file parses with a first certificate that is for the private or the pending key, is no CA's and chains to the issuers both as a TLS server and as a TLS client; the promotion is asked for exactly when it is not for the private key. |
| `CertAccept.RefusalIff` | cert_store.cpp:426-504 | Each of the seven refusals is given if and only if it names the first thing that is wrong. |
| `CertAccept.CertificatesAreBlocks` | cert_store.cpp:163-188 | A PEM blob holds these certificates if and only if it is white space and blocks, one certificate in each, in this order. |
| `CertAccept.ActivatedIsAcceptable` | main.cpp:1378-1425 | After a successful activation the files on disk are such a set, with the certificate for the private key then on disk. |
| `CertAccept.ActivateIff` | main.cpp:1378-1425 | When the file operations it needs succeed, ACTIVATE_CHANGES puts the whole stage on disk if the set is acceptable, and changes neither disk nor stage if it is not. |
| `CertContents.ReadAlongChain` | cert_store.cpp:338-350 | A File object with neither a staged copy nor a file reads as the first along its fallbacks that has one; nothing is read when none has. |
| `CertContents.SecondSlotReadsAsFirst` | cert_layout.cpp:62-75 | The hub's second issuer slot serves the first one's certificate while it has none of its own, and no other file falls back. |
| `CertContents.WriteIs` | cert_store.cpp:377-406 | Which writes are refused and why (the limit is 65536 octets), where the others go, and that what was written then stands there with everything around it as it was; no other File object, nor the disk, changes. |
| `CertContents.ResizeIs` | cert_store.cpp:408-420 | A new size of at most 65536 keeps the octets up to it and fills up with zeros; a larger one changes nothing. |
| `CertContents.DiscardIs` | cert_store.cpp:575-578 | After a discard each File object holds what is in its file, and no promotion is due. |
| `CertRun.PickIsFirst` | cert_tool.cpp:341-354 | The certificate that is taken is the first candidate that is one for the wanted key. |
| `CertRun.ReadResponse` | cert_tool.cpp:307-404 | The certificate that is imported is for the key of the hub's own request and has not expired, and it comes with the one or two issuers of the response, the first of which signed it. |
| `CertRun.SignerFirst` | cert_tool.cpp:377-388 | Rotating the first signer to the front gives the same issuers with a signer first, and fails exactly if none signed. |
| `CertRun.ImportEffect` | cert_tool.cpp:472-503 | An import stopped after any of its three writes keeps the certificate for the private or pending key and leaves request and keys alone. |
| `CertRun.RequestEffect` | cert_tool.cpp:410-470 | The start-up request keeps certificate, request and keys matching wherever it stops, and never touches an existing private key. |
| `CertRun.ReconcileEffect` | cert_store.cpp:540-573 | ReconcilePendingKey keeps the invariant, and when it succeeds a readable certificate on disk is for the private key. |
| `CertRun.ReconcileIff` | cert_store.cpp:540-573 | ReconcilePendingKey promotes the pending key if and only if the certificate on disk is for it and not for the private key and the rename succeeds; it returns true unless a promotion that is needed does not succeed, and changes nothing else. |
| `CertRun.CommitKeepsInv` | cert_store.cpp:506-538 | An activation stopped between any two file operations leaves the certificate on disk for the private or the pending key, and the request matching. |
| `CertRun.PrivateKeyOnlyPromoted` | cert_store.cpp:317-329 | No step of any kind does anything to an existing private key but replace it by what was the pending key. |
| `CertRun.GenerateEffect` | cert_store.cpp:580-646 | GENERATE_CSR_FILE succeeds if and only if nothing is staged, there is a place for key and request, the operational certificate is readable, and both writes and both renames succeed; key and request are replaced exactly as far as it got, and certificate and private key are left alone. |
| `CertRun.StepKeepsInv` | main.cpp:1378-1472 | Every step of the hub's certificate life - write, resize, discard, activate, generate, stop, import, start, each stopped anywhere - keeps: certificate for the private or pending key, request for the pending key if there is one and else for the private key. |
| `CertRun.RunKeepsInv` | main.cpp:2117-2131 | The same after every run, and a certificate that was once readable stays readable. |
| `CertRun.EveryRestartHasAMatchingPair` | cert_store.cpp:540-573 | After every run that ends stopped, a restart has the certificate on disk for the private key on disk if and only if there is a readable certificate on disk at all and, if it is still for the pending key alone, the one rename that then is needed succeeds; and once there is such a certificate there always is. |
| `CertRun.EveryRestartFromAnEmptyFolder` | main.cpp:2117-2131 | The same of every run from an empty folder, with nothing assumed of how it starts. |
| `CertRun.GenerateKeepsInvIff` | cert_store.cpp:580-646 | With a fresh key, a GENERATE_CSR_FILE that replaces the pending key keeps the invariant if and only if the certificate on disk (if any) is for the private key, and the request is replaced too or there is none. |
| `CertRun.FailedPromotion` | cert_store.cpp:526-537 | The bad case is real: after an activation whose promotion fails, nothing is staged and the certificate on disk is for the pending key alone, which is still there. |
| `CertLoss.GenerateAfterFailedPromotion` | cert_store.cpp:580-646 | GENERATE_CSR_FILE with a fresh key is then accepted, replaces that pending key and breaks the invariant; the next restart, and every one after a run that brings neither another certificate nor that key, completes ReconcilePendingKey without a certificate for the private key. |
| `CertLoss.LostPairStaysLost` | cert_store.cpp:540-573 | A start-up changes nothing about a certificate that is for neither key. |
| `CertLoss.LostRunStaysLost` | cert_store.cpp:540-573 | A certificate that is for neither key stays on disk and for neither key through every run - writes, refused activations, new requests, stops, refused imports, restarts - until an activation passes its validation, a response is imported or its very key is made again. |
| `CertLoss.PairCanBeLost` | main.cpp:1378-1472 | Such a run exists in every layout: nine steps from an empty folder - request, import, new key, new certificate, failed promotion, GENERATE_CSR_FILE - all but the last careful, after which the pair stays lost in the sense of the row above. |
| `CertPaths.HubPathsAreHubLayout` | cert_layout.cpp:62-75 | The files the hub uses, whatever its folders are called, are distinct, none the temporary file of another, and their one fallback ends. |
| `CertRun.EmptyStart` | cert_tool.cpp:410-470 | An empty folder satisfies the invariant. |
| `CertSetup.RequestIff` | cert_tool.cpp:410-470 | The start-up request succeeds in exactly three cases - the zip is there, the request is there and readable, or there is no key at all - if the writes each needs succeed; key, request and zip are then what was generated, and nothing existing is replaced. |
| `CertSetup.ReadResponseIff` | cert_tool.cpp:307-404 | A response is taken if and only if some candidate is a certificate for the key, the first such has not expired, all issuer files are certificates, at most two, and one of them signed it; it gives that certificate and the issuers with the first signer in front and the others in order. |
| `CertSetup.ImportIs` | cert_tool.cpp:472-497 | An import puts certificate, signer and other issuer (or the signer again) in their three files in this order, as far as it gets, and touches no other file. |
| `CertSetup.ImportedCertificates` | cert_tool.cpp:472-497 | After a whole import the certificate on disk is the answer's for the key of the request, and the two slots parse to its signer and the other issuer. |
| `CertTransfer.ChunkedWrite` | cert_store.cpp:377-420 | File_Size 0 and then any partition of at most 65536 octets, each chunk written at its position or appended: every write succeeds and is acknowledged at its position, the File object reads as the octets, the disk is unchanged, and a discard restores every read. |
| `CertTransfer.DiscardForgetsWrites` | cert_store.cpp:575-578 | No write or resize, refused or not, changes what a discard goes back to. |
| `CertTransfer.RefusedWriteStages` | cert_store.cpp:377-393 | Every refused write to one of our File objects leaves a staged copy of it, so HasStagedChanges is true afterwards; and every File object reads as before if and only if that one could be read. |
| `CertTransfer.RefusedWriteCanShow` | cert_store.cpp:98-100 | A missing file without a fallback reads as an empty one after a refused write. |
| `CertTransfer.CallbackReadFile` | main.cpp:1229-1266 | The octets from a position on, as many as asked for, as there are and as fit the buffer, and whether the file ends there; refused past the end. |
| `CertTransfer.ReadChunkIs` | main.cpp:1229-1266 | A chunk is the octets at that position, no more than were asked for, are there or fit, and as many as that; the end of the file is reported exactly when it is reached, and a start behind it is refused. |
| `CertTransfer.ChunkedRead` | main.cpp:1229-1266 | Reading on with any positive limits ends, the chunks together are the file, and only the last one is reported as its end. |
| `CertTransfer.TransferRoundTrip` | main.cpp:1229-1309 | What a client wrote in chunks is what it reads back in chunks, for any two ways to cut it. |
| `Pem.SplitPemBlocks` | cert_store.cpp:118-159 | The splitter's loop ends for every text, because the position strictly grows, and gives the specified blocks or the specified error. |
| `Pem.SplitAcceptsExactlyLayouts` | cert_store.cpp:118-159 | A text is accepted if and only if it is white space interleaved with blocks of the wanted label, each closing at its first END marker, and the result is exactly those blocks in order. |
| `Pem.MadeBlockIsBlock` | cert_store.cpp:118-159 | A block as a writer makes it, with a body that starts a new line, is a block if and only if the END marker's first occurrence in body and END line is the END line. |
| `Pem.GoodBodyIff` | cert_store.cpp:150-155 | A body is good if and only if no END marker is in it and it does not end with an END marker that lacks one to five of its last hyphens, for every label without hyphens. |
| `Pem.SplitReturnsWrittenBlocks` | cert_store.cpp:118-159 | Any list of such blocks joined by white space is split back into exactly that list. |
| `Pem.UnfinishedMarkerInBody` | cert_store.cpp:150-155 | A body without any END marker is not enough: one that ends with an unfinished marker, completed by the END line's own dashes, is cut too early. |
| `Utf8.IsValidUtf8` | main.cpp:1724-1751 | Ends for every text and accepts by the shapes of lead and continuation bytes. |
| `Utf8.ValidIffChars` | main.cpp:1724-1751 | Accepted texts are exactly the concatenations of characters in the byte shapes of section 3 of RFC 3629 (overlong forms included). |
| `Utf8.ReturnCharacterString` | main.cpp:1015-1034 | The buffer receives the cut text, nothing outside it is written, one element stays free, and a size of 0 means no limit. |
| `Utf8.CutIsLongestValidPrefix` | main.cpp:1015-1034 | For every accepted NUL-free text the cut is the longest accepted prefix shorter than the buffer, and the whole text if it fits. |
| `Utf8.ValidPrefix` | main.cpp:1015-1034 | The accepted proper prefixes of an accepted text are those that end before a lead byte. |
| `Utf8.OverlongAccepted` | main.cpp:1724-1751 | An overlong form of NUL is accepted. |
| `Utf8Strict.StrictIffNumber` | main.cpp:1724-1751 | A character of the accepted shape is one of the grammar in section 4 of RFC 3629 exactly when its number needs that many octets, is no surrogate and is at most U+10FFFF. |
| `Utf8Strict.StrictIff` | main.cpp:1724-1751 | All UTF-8 is accepted, and an accepted text is UTF-8 exactly when all its characters are such; a text is cut into characters in one way only. |
| `Utf8Strict.LooserThanGrammar` | main.cpp:1724-1751 | An overlong form, a surrogate and a number above U+10FFFF that have an accepted shape. |
| `Utf8Strict.CutKeepsStrict` | main.cpp:1015-1034 | What ReturnCharacterString leaves of UTF-8 is UTF-8. |
| `CariPath.SplitJoin` | cari.cpp:100-108 | Joining non-empty parts without '/' and splitting again gives the parts. |
| `CariPath.JoinSplit` | cari.cpp:100-108 | Splitting a path without a '/' at its end and joining again gives the path. |
| `CariPath.PrefixIsSafe` | cari.cpp:80-98 | Every folder above a safe path is a safe path without a '/' at its end. |
| `CariTold.SafeIff` | cari.cpp:80-98 | A path is safe if and only if it does not start with a slash, has no backslash, colon or control character, and between its slashes there is never nothing, "." or "..". |
| `CariTold.NameIff` | cari.cpp:168-179 | A name is legal if and only if it has 1 to 128 octets, none a control character or one of the nine reserved ones. |
| `CariTree.MutableTree.AddFolder` | cari.cpp:148-154 | The loop adds the partial path after each part, and changes no file. |
| `CariTree.MutableTree.AddFile` | cari.cpp:156-162 | The file is there with its contents, and its parent folders were added first. |
| `CariTree.WithFolderAdds` | cari.cpp:148-154 | Adding a safe path adds exactly the prefixes that end before a '/' and the path itself without one at its end. |
| `CariTree.FileAdds` | cari.cpp:156-162 | Adding a file adds it and exactly the folders above it. |
| `CariTree.FolderKeepsWellFormed` | cari.cpp:148-154 | A tree of safe, '/'-free-ended paths that has every parent folder stays one when any safe path is added as a folder. |
| `CariTree.FileKeepsWellFormed` | cari.cpp:156-162 | And when any such path is added as a file. |
| `TextOrder.Connected` | cari.cpp:309-322 | The order in which std::set and std::map walk paths is total; with TextOrder.Transitive and TextOrder.Irreflexive it determines one listing. |
| `ZipWrite.ListFolders` | cari.cpp:316-319 | The first loop lists every folder once, in path order, with a '/' at its end. |
| `ZipWrite.ListFiles` | cari.cpp:320-322 | The second lists every file once, in path order, with its contents. |
| `ZipWrite.WriteZip` | cari.cpp:309-388 | The two buffers grow record by record and end as the specified file, with every cast to 16 or 32 bits in place. |
| `ZipRead.FindEndRecord` | cari.cpp:194-206 | The backward scan finds an end record within the last 65557 octets such that none starts behind it, or says that none starts there. |
| `ZipRead.FindDirectory` | cari.cpp:184-221 | A directory that is accepted lies before the end record, the end record lies within the file, and there are at most 4096 entries in at most 4 MiB. |
| `ZipRead.Contents` | cari.cpp:275-299 | Contents that are accepted have the size and the CRC-32 that the directory gives, whether stored or deflated. |
| `ZipRead.ReadOne` | cari.cpp:224-305 | One turn of the loop for arbitrary octets: every index in range, the first failing check in the source's order, or the entry added to the tree. |
| `ZipRead.ReadZip` | cari.cpp:183-307 | For arbitrary octets the reader ends, never reads outside them, and gives the specified error or fills the tree with the specified contents. |
| `ZipRoundTrip.CentralReads` | cari.cpp:224-242 | The reader takes from a central record, wherever it stands, exactly the fields that were put in. |
| `ZipRoundTrip.EntryReads` | cari.cpp:324-376 | Every offset and size the writer computes for an entry is the one the reader follows, and the contents come back through deflate and inflate. |
| `ZipRoundTrip.ReadGivesBackTree` | cari.cpp:183-388 | ReadZip of WriteZip gives exactly the tree, for every non-empty parent-closed tree of safe paths without a '/' at the end and within the limits. |
| `ZipSafety.ReadGivesBackTreeIff` | cari.cpp:183-388 | For every tree whatever: it survives being written and read if and only if it is parent-closed with safe, '/'-free-ended paths, not empty, and within the limits (4096 entries, 16 MiB of contents, 4 MiB of file, names below 65536 octets). |
| `ZipSafety.ReadGivesSafeTree` | cari.cpp:183-307 | Whatever the octets, a tree that is read has only safe paths, each with all its folders, and at most 16 MiB of contents. |
| `ZipSafety.ReadGivesWhatIsListed` | cari.cpp:183-307 | The tree that is read is exactly what its directory lists: each file entry's path once, with the contents its data unpacks to, the folders listed and those above, and nothing else. |
| `ZipFormat.CentralIsRead` | cari.cpp:221-242 | Of any directory entry of the format (section 4.3.12 of the .ZIP File Format Specification) the reader keeps the right fields and goes on right behind its name, extra field and comment. |
| `ZipFormat.DirectoryIsRead` | cari.cpp:221-242 | Any list of such entries, with any names, extra fields and comments, is walked from each to the next. |
| `ZipFormat.EndIsFound` | cari.cpp:183-217 | The end record at the end of a file, with any comment of up to 65535 octets that does not look like another, says where the directory is; several parts, more than 4096 entries or an overlap are refused. |
| `ZipFormat.ContentsIff` | cari.cpp:275-301 | The contents of an entry are what its data unpacks to, stored or deflated, behind a local header whose name and extra field need not be those of the directory, if and only if size and CRC agree. |
| `ZipFormat.ReadIff` | cari.cpp:183-307 | A file is accepted if and only if its directory is found and can be walked, every entry is unencrypted, not zip64, stored or deflated, with a safe path and, for a file, readable contents, no file is listed twice, and the files unpack to at most 16 MiB. |
| `ZipFormat.AnyZipIsRead` | cari.cpp:183-307 | So every zip file of the format that keeps to these limits, whoever wrote it, is read as exactly its files with their contents and their folders. |
| `ZipFormat.CentralConforms` | cari.cpp:309-388 | The directory entries that WriteZip writes are of the format, field by field. |
| `ZipFormat.LocalConforms` | cari.cpp:309-388 | So are its local headers and data. |
| `ZipFormat.EndConforms` | cari.cpp:378-388 | So is its end record. |
| `ZipSafety.EmptyTreeNotRead` | cari.cpp:190-193 | The file written for an empty tree is refused: it does not start with a local header. |
| `CariRules.Validate` | cari.cpp:392-478 | The four loops report the specified problems in the specified order, and the verdict is that there are none. |
| `CariTold.ProblemIff` | cari.cpp:392-478 | Exactly these problems are reported: the fault of each folder and file by itself, that there is no device, and each device folder without a port. |
| `CariTold.TopFileFaults` | cari.cpp:432-443 | What is wrong with a file in cert1/ itself, for every name and size. |
| `CariTold.ThirdLevelFaults` | cari.cpp:444-449 | What is wrong with a file one folder below cert1/, in the issuer folder or elsewhere. |
| `CariTold.PortFileFaults` | cari.cpp:450-463 | What is wrong with a file two folders below, in a port folder or elsewhere, by its name and size. |
| `CariTold.FolderFaults` | cari.cpp:401-424 | What is wrong with a folder at each depth. |
| `CariTold.OutsideFaults` | cari.cpp:401-431 | Everything outside cert1/ is refused as that. |
| `CariLegal.FileNameIff` | cari.cpp:136-142 | FileName finds a name exactly in the file names that are prefix, legal name and ".pem" put together. |
| `CariLegal.NoProblemsIffLegal` | cari.cpp:392-478 | Validate has no problem with a parent-closed tree if and only if every path is one that the CARI layout lists (cari.h:12-22), a device folder exists and each has a port folder. |
| `CariLegal.FoldersAreNoFiles` | cari.cpp:392-478 | In a tree without problems no path is both a folder and a file, which the zip reader by itself allows. |
| `CariLegal.SameDeviceIff` | cari.cpp:118-133 | Two device folder names are of the same instance if and only if they differ in leading zeros only, and a name is the one the hub writes if and only if it has no leading zero. |
| `CariLegal.DeviceNamedTwice` | cari.cpp:392-478 | A tree with the folders device-1 and device-01, each with a port, has no problems. |
| `CariAnswer.ListCsrs` | cari.cpp:480-500 | The loop lists the requests in path order. |
| `CariAnswer.OneEntryEach` | cari.cpp:480-500 | There is exactly one entry for each request file, and none for anything else. |
| `CariTold.CsrEntryIff` | cari.cpp:480-502 | ListCsrs tells exactly of the files that are requests by the names of their folders and of themselves, with instance, port, name, answer path, key file, hub and router mark as the tree has them. |
| `CariAnswer.AnswerPathsAreNew` | cari.cpp:480-500 | In a valid request the answers' paths are not taken, no two requests share one, and each is a legal place in a folder that is there. |
| `CariAnswer.RequestIsResponse` | cari.cpp:392-478 | What is legal as a request is legal as a response. |
| `CariAnswer.ResponseHasNoProblems` | cari.cpp:392-500 | A request without problems, with a file of at most 64 KiB at each answer's path and none, one or both issuers, has no problems as a response, keeps every file of the request, and holds each answer at its place. |
| `CariExchange.DeviceFolderRead` | cert_layout.cpp:80-85 | The folder name written for any instance up to 4194302 is read as that instance. |
| `CariExchange.HubRequestIsValid` | cert_tool.cpp:286-305 | The request the hub writes is a valid request with exactly one certificate signing request, that of its hub port, whose answer belongs where the hub keeps its certificate. |
| `CariExchange.ListCandidates` | cert_tool.cpp:325-338 | The hub's own place first, then every other opr- file in path order. |
| `CariExchange.ListIssuers` | cert_tool.cpp:360-372 | The iss- files under the issuer folder in path order. |
| `CariExchange.ResponseInIff` | cert_tool.cpp:325-366 | A file is tried as the answer if and only if its own name starts with opr- or it is in the hub's own place, which comes first; it is an issuer if and only if it is an iss- file under cert1/issuer/. |
| `CariExchange.AnswerIsFoundFirst` | cert_tool.cpp:322-369 | In the response to a request, the answer to each entry is the first candidate for whoever looks where ListCsrs says it goes, and the issuers are exactly those that were added, slot 1 first. |
| `CariExchange.AnswerIsImported` | cert_tool.cpp:307-404 | So ReadCariResponse returns that answer with those issuers when it is an unexpired certificate for the request's key that the issuer in slot 1 signed. |
| `CariExchange.ResponseTravels` | cert_tool.cpp:307-314 | A response written as a zip file within the limits is read back as the same legal response. |
| `RateLimit.TakeToken` | sc_transport/ScTransport.cpp:219-236 | Refill up to one second's worth, then take one token if there is one. |
| `RateLimit.RateLimiter.SetConnectionRateLimits` | sc_transport/ScTransport.cpp:743-748 | Both rates are set and every bucket starts anew. |
| `RateLimit.RateLimiter.AgeOut` | sc_transport/ScTransport.cpp:755-766 | Exactly the addresses idle for a second or more are forgotten. |
| `RateLimit.RateLimiter.AllowNewConnectionAttempt` | sc_transport/ScTransport.cpp:750-785 | The verdict, which limit refused, and the table afterwards, with eviction and the "no room" fallback. |
| `RateLimit.EveryRunStaysBounded` | sc_transport/ScTransport.h:435-447 | In every run at most 1024 addresses are tracked and every touched bucket holds between 0 and its rate. |
| `RateLimit.BoundedGivesSameVerdicts` | sc_transport/ScTransport.cpp:750-785 | In every run with non-decreasing times without a fallback, the bounded, evicting table gives the same verdict on every attempt as one that never forgets. |
| `RateLimit.RefusalsAreOwn` | sc_transport/ScTransport.cpp:750-785 | The per-address refusals of an address are what one bucket of its own answers to its own attempts. |
| `RateLimit.OthersDoNotMatter` | sc_transport/ScTransport.h:167-187 | Two runs in which an address attempts at the same times refuse it at the same attempts, whatever all other addresses do. |
| `RateLimit.TakenInWindow` | sc_transport/ScTransport.cpp:219-236 | A bucket admits at most rate * (1 + T) times within T seconds, from any state. |
| `RateExact.AnswerIff` | sc_transport/ScTransport.cpp:219-236 | A bucket that was never touched answers an attempt yes if and only if, for every attempt up to it, this one and those answered yes since then are at most rate * (1 + time since then). |
| `RateLimit.AdmittedInWindow` | sc_transport/ScTransport.cpp:750-785 | Within T seconds the listener admits at most rate * (1 + T) attempts, fallbacks included. |
| `RateLimit.AddressAdmittedInWindow` | sc_transport/ScTransport.cpp:750-785 | Within T seconds one address is admitted at most rate * (1 + T) times, from any point a run without fallback reaches. |
| `RateLimit.AddressAdmittedInAnyWindow` | sc_transport/ScTransport.cpp:750-785 | The same for every window of every run without fallback from the start. |
| `RateExact.PerAddressIff` | sc_transport/ScTransport.cpp:750-785 | In every run without a fallback an attempt is refused for its address if and only if, since some attempt of that address, this one and those that passed are more than the rate allows in that time. |
| `RateExact.TotalIff` | sc_transport/ScTransport.cpp:750-785 | In every run, fallbacks included, an attempt that passes the per-address limit is refused by the total one if and only if, since some such attempt, this one and those admitted are more than the rate allows. |
| `RateExact.NoLimitNoRefusal` | sc_transport/ScTransport.cpp:750-785 | A limit of 0 refuses nobody. |
| `RateExact.FallbackIff` | sc_transport/ScTransport.cpp:750-785 | Up to the first fallback, an attempt is checked against the total limit only if and only if 1024 other addresses have tried within the last second. |
| `RateExact.NeverFallsBackIff` | sc_transport/ScTransport.cpp:750-785 | So a run has no fallback if and only if that is so at none of its attempts. |
| `ScAssembly.TakeIsFaithful` | sc_transport/ScTransport.cpp:1649-1676 | Taking a fragment keeps the buffer equal to the unfinished message, or marked too long, and gives out a message exactly when its last fragment is there and it has at most 1600 octets. |
| `ScAssembly.AnyFragmentation` | sc_transport/ScTransport.cpp:1636-1678 | However a list of messages is cut into fragments, the fragments carry exactly those messages in order. |
| `ScAssembly.OneMessageDelivered` | sc_transport/ScTransport.cpp:1636-1678 | A message cut in any way comes out whole if it has at most 1600 octets and not at all if it has more, and nothing of it is left. |
| `ScOutbox.EnqueueKeepsOrder` | sc_transport/ScTransport.cpp:1218-1241 | Accepting or refusing a frame keeps accepted = written + queued (until frames are lost), at most 64 queued and a callback coming; nothing is accepted once a close is asked for. |
| `ScOutbox.EnqueueIff` | sc_transport/ScTransport.cpp:1218-1241 | A frame is accepted if and only if no close is asked for and fewer than 64 wait. |
| `ScOutbox.TurnKeepsOrder` | sc_transport/ScTransport.cpp:1569-1584 | So does a WRITEABLE turn, whatever lws_write returns. |
| `ScOutbox.NormalCloseComesLast` | sc_transport/ScTransport.cpp:1204-1216 | A turn closes with 1000 only when every accepted frame has been written, and otherwise only with 1008. |
| `ScOutbox.QueueRunsOut` | sc_transport/ScTransport.cpp:1380-1399 | Once a normal close is asked for, each turn writes the next queued frame, whatever is sent or asked for in between. |
| `ScOutbox.QueueIsWritten` | sc_transport/ScTransport.cpp:1380-1399 | Unless the connection is closed at once, what waits is written in order, one frame a turn, whether or not a close is asked for. |
| `ScOutbox.NormalCloseInTime` | sc_transport/ScTransport.cpp:1204-1216 | So the close comes in turn queue length + 1 and not before. |
| `ScOutbox.OverflowClosesAtOnce` | sc_transport/ScTransport.cpp:1223-1233 | At 64 waiting frames the next one is refused, nothing further is accepted, and the very next turn closes with 1008. |
| `ScRun.NamesDiffer` | sc_transport/ScTransport.cpp:1523-1524 | Connection strings of different clients differ, whatever the two URIs are. |
| `ScRun.NextNameIsNew` | sc_transport/ScTransport.cpp:918-923 | The string the next connection would get was never made before, on any URI. |
| `ScRun.CallbackKeepsInv` | sc_transport/ScTransport.cpp:1401-1634 | Every callback keeps the whole invariant: tables inverse, counters right, frames whole and in order, queues in order, one closing event per closed connection. |
| `ScRunAll.RunKeepsInv` | sc_transport/ScTransport.cpp:795-1007 | So does every run of callbacks, sends, disconnects, pops, listener starts, stops, retries and certificate reloads. |
| `ScRunAll.ClosingAllMayDestroy` | sc_transport/ScTransport.cpp:931-953 | CLOSED once for every open connection, in any order, meets what is assumed of a destroyed context, so the assumption can be met from every state. |
| `ScRunAll.TablesMirrorEachOther` | sc_transport/ScTransport.cpp:1521-1628 | After every run m_peers and m_connStringToWsi are inverse to each other, every connection there ever was is counted as a connect, and connects less disconnects are the open peers. |
| `ScRunAll.StringIsNew` | sc_transport/ScTransport.cpp:918-923 | After every run, and any callbacks while a listener is being destroyed, the next string is not one that was made before. |
| `ScRunAll.RunGrows` | sc_transport/ScTransport.cpp:918-923 | A string that was made is remembered for the rest of the run. |
| `ScRunAll.StringsDiffer` | sc_transport/ScTransport.cpp:1521-1531 | In every run any two connections get different strings, wherever in it they are established: across restarts and URI changes and while a listener is being destroyed. |
| `ScRunAll.EachStringEndsOnce` | sc_transport/ScTransport.cpp:1595-1628 | In every run each string that was made has exactly one closing event if its connection is over, and none while it is open: Disconnected if the last close code of the peer is 1000, 0 or none, else Error, with that code. |
| `ScRunAll.FramesAreWholeMessages` | sc_transport/ScTransport.cpp:1636-1678 | In every run, under any interleaving of peers, the frames of one peer are its whole messages of at most 1600 octets in order, whatever there is of an unfinished one, and those that PopReceived has handed out are the first of them; longer messages leave no trace. |
| `ScRunAll.PopReceivedIs` | sc_transport/ScTransport.cpp:1296-1303 | A frame that is handed out followed by those that remain is the queue as it was, and there is none if and only if the queue was empty. |
| `ScRunAll.PopStatusEventIs` | sc_transport/ScTransport.cpp:1371-1378 | The same of status events. |
| `ScRunAll.MetricsCountFrames` | sc_transport/ScTransport.cpp:1305-1323 | rxMessages and rxBytes are the number and the total length of the frames delivered or waiting. |
| `ScMetrics.MetricsCountWrites` | sc_transport/ScTransport.cpp:1223-1399 | In every run txMessages and txBytes are the number and total length of the frames written over all connections there ever were, and txQueueOverflows is the number of those whose queue was ever full. |
| `ScRunAll.OpenConnectionsInOrder` | sc_transport/ScTransport.cpp:1194-1241 | In every run, on every open connection, accepted frames are written frames then queued frames until an overflow or a short write, at most 64 are queued, and what is due has a callback coming. |
| `ScRunAll.NormalCloseLosesNothing` | sc_transport/ScTransport.cpp:1569-1584 | In every run a callback that closes a connection with 1000 has had every accepted frame written. |
| `ScRunAll.WrittenInOrder` | sc_transport/ScTransport.cpp:1380-1399 | Even after an overflow, a short write or the end of a connection, what was written is the first part of what was accepted. |
| `ScRunAll.EndedIffMinusOne` | sc_transport/ScTransport.cpp:1553-1584 | The record that a connection has ended says exactly that a callback returned -1 for it. |
| `ScDoes.SendIff` | sc_transport/ScTransport.cpp:1248-1272 | In every run a frame is accepted if and only if its string is that of an open connection that is not being closed and on which fewer than 64 wait; it is then the last of those accepted there, and no other connection changes. |
| `ScDoes.WriteableWritesNext` | sc_transport/ScTransport.cpp:1569-1584 | In every run a WRITEABLE callback whose write is whole writes the first accepted frame that was not written, if one is left; with none left it ends the connection if that was asked for; and it ends at once one whose queue was full. |
| `ScDoes.FragmentAdds` | sc_transport/ScTransport.cpp:1636-1678 | A fragment adds a frame to the queue if and only if it completes a message of at most 1600 octets: that message, from the connection's string to the listener's URI. |
| `ScDoes.EstablishedOpens` | sc_transport/ScTransport.cpp:1508-1531 | A client of the right subprotocol gets a new string and an empty connection of its own; any other is refused and changes nothing. |
| `ScDoes.DisconnectIs` | sc_transport/ScTransport.cpp:1175-1192 | In every run a disconnect asks for a close with 1000 of that connection alone unless one was asked for, after which nothing more is accepted there. |
| `ScDoes.StartListens` | sc_transport/ScTransport.cpp:795-929 | StartListening succeeds if and only if the transport is configured and listens there already or can; it then listens there, and the URI is wanted either way. |
| `ScDoes.StopStops` | sc_transport/ScTransport.cpp:974-983 | StopListening ends a listener on that URI and no other, with all its connections, and its being wanted. |
| `ScDoes.WantedListenerComesBack` | sc_transport/ScTransport.cpp:985-1007 | In every run a listener is where it is wanted, and a retry or a certificate reload that can bind it brings it back there. |
| `ScTransport.Transport.Configure` | sc_transport/ScTransport.cpp:735-741 | The transport counts as configured and nothing else changes. |
| `ScTransport.Transport.EnqueueFrame` | sc_transport/ScTransport.cpp:1218-1241 | Refused when closing; at 64 frames the queue is dropped, counted and a 1008 close asked for; otherwise appended. Nothing else changes. |
| `ScTransport.Transport.Send` | sc_transport/ScTransport.cpp:1248-1272 | The frame goes to the peer with that string, or is refused without a change. |
| `ScTransport.Transport.Disconnect` | sc_transport/ScTransport.cpp:1175-1192 | A normal close is asked for on that peer alone; an unknown string changes nothing. |
| `ScTransport.Transport.AskToClose` | sc_transport/ScTransport.cpp:1194-1202 | The first close asked for stands, and a callback is coming. |
| `ScTransport.Transport.ApplyRequestedClose` | sc_transport/ScTransport.cpp:1204-1216 | A 1008 close at once, any other only with an empty queue. |
| `ScTransport.Transport.FlushOneQueuedFrame` | sc_transport/ScTransport.cpp:1380-1399 | One frame leaves the queue; it is counted unless the write was short, and another turn is asked for while frames remain. |
| `ScTransport.Transport.OnWriteable` | sc_transport/ScTransport.cpp:1569-1584 | The WRITEABLE callback does what a turn of the transmit queue is specified to do, counters included, and reports whether it ends the connection. |
| `ScTransport.Transport.HandleIncomingFragment` | sc_transport/ScTransport.cpp:1636-1678 | A non-binary fragment changes nothing and ends the connection; any other updates this peer's assembly and perhaps queues and counts one frame. |
| `ScTransport.Transport.OnEstablished` | sc_transport/ScTransport.cpp:1521-1531 | A new string, its entry in both tables and the counters. |
| `ScTransport.Transport.OnClosed` | sc_transport/ScTransport.cpp:1595-1628 | Out of both tables, one event (Disconnected for a clean or missing close code, Error for any other), one disconnect counted. |
| `ScTransport.Transport.HandleServerCallback` | sc_transport/ScTransport.cpp:1401-1634 | Each callback does what the state machine says and returns -1 exactly when it says so. |
| `ScTransport.Transport.DestroyListenerContext` | sc_transport/ScTransport.cpp:931-953 | All callbacks lws makes meanwhile are handled in order, then both tables are empty. |
| `ScTransport.Transport.StopListening` | sc_transport/ScTransport.cpp:974-983 | The URI is no longer wanted, and the listener goes only if it listens there. |
| `ScTransport.Transport.StartListening` | sc_transport/ScTransport.cpp:795-929 | Nothing if already there; another URI tears the old listener down first; the client number is not reset. |
| `ScTransport.Transport.ReloadCredentials` | sc_transport/ScTransport.cpp:985-1007 | The wanted listener is torn down and started again on the same URI. |
| `ScTransport.Transport.Service` | sc_transport/ScTransport.cpp:1274-1281 | A wanted listener that is down is tried again. |
| `ScTransport.Transport.PopReceived` | sc_transport/ScTransport.cpp:1296-1303 | First in, first out. |
| `ScTransport.Transport.PopStatusEvent` | sc_transport/ScTransport.cpp:1371-1378 | First in, first out. |
| `BvlcHeader.BvlcPayloadOffset` | sc_transport/ScTransport.cpp:248-274 | The nested loops end for every input and read only in range. |
| `BvlcHeader.OffsetOfEncodedHeader` | sc_transport/ScTransport.cpp:248-274 | For every header with optional virtual addresses and any two option lists (AB.2.1 of ANSI/ASHRAE 135-2024), followed by anything, the offset is the encoded header's length. |
| `BvlcHeader.OffsetIffHeader` | sc_transport/ScTransport.cpp:238-274 | A non-zero offset is returned if and only if the octets up to there are an encoded header; it is then between 4 and the length, and the only one. |
| `BacnetTag.DecodeTagHeader` | common/CASExampleHelper.cpp:1313-1371 | Decodes as specified for every frame and offset, reading only within the frame. |
| `BacnetTag.TagIffStands` | common/CASExampleHelper.cpp:1313-1371 | A tag is returned if and only if its encoding of clause 20.2.1 of ANSI/ASHRAE 135 stands there, in the short or any extended form, and then with that number, class, length and header length. |
| `BacnetFrame.DecodeObjectAndProperty` | common/CASExampleHelper.cpp:1425-1469 | Fills the object, property and index as specified for every frame, reading only within it. |
| `BacnetFrame.TripleRead` | common/CASExampleHelper.cpp:1425-1469 | Every object type, instance, property and optional array index, in whatever tag forms it is written, is recovered; one without an index if and only if no context tag 2 with a value follows, which is otherwise taken for the index. |
| `BacnetTriple.TripleIff` | common/CASExampleHelper.cpp:1425-1469 | An object, property and index is found if and only if it is written there, in any of its forms, and, without an index, no context tag 2 with a value follows. |
| `BacnetFrame.DecodeBacnetFrame` | common/CASExampleHelper.cpp:1473-1639 | The decoder fills the report field by field as specified, for every frame, reading only within it. |
| `BacnetFrame.NpduRead` | common/CASExampleHelper.cpp:1473-1546 | Every NPDU header of a BACnet/IP frame that is encoded is reported as it is, with nothing further if the frame ends there, and else what follows is decoded from right behind it. |
| `BacnetCut.CutNpdu` | common/CASExampleHelper.cpp:1473-1546 | Of an NPDU header that is cut anywhere exactly the parts that are there are reported. |
| `BacnetFrame.PduRead` | common/CASExampleHelper.cpp:1547-1639 | Every APDU header that is encoded is reported with its type, invoke ID and service choice. |
| `BacnetCut.CutPdu` | common/CASExampleHelper.cpp:1547-1639 | Of an APDU header that is cut anywhere the type, segmentation and invoke ID are reported as far as the decoder takes them one by one. |
| `BacnetFrame.OwnAnswerAt` | common/CASExampleHelper.cpp:249-281 | What the decoder reports of an original NPDU, told from where its two address specifiers end. |
| `BacnetFrame.IsStackChosenBroadcast` | common/CASExampleHelper.cpp:249-281 | It says yes exactly when the independent decoder reports an original NPDU of version 1 that is a network layer message or an unconfirmed I-Am or I-Have, and the address specifiers start within the frame. |
| `BacnetFrame.IsStackChosenBroadcastRouter` | sc_transport/ScTransportRouter.cpp:248-277 | The second copy gives the same answer on every frame. |
| `BacnetFrame.TestsCanDiffer` | common/CASExampleHelper.cpp:249-281 | A frame of six octets that is the exception. |

## Left out

- CertRun.EveryRestartHasAMatchingPair: is about runs in which GENERATE_CSR_FILE keeps to the condition of CertRun.GenerateKeepsInvIff, because outside it the statement is false (CertLoss.PairCanBeLost).
- CertRun.RunKeepsInv: says nothing about the chain from certificate to issuers after a stop between issuer renames, because the code promises only that certificate and key match.
- ScRunAll.StringsDiffer: the client number is not bounded, so it leaves out the wrap-around of a uint64_t after 2^64 connections; the same holds for the counters.
- RateLimit.AdmittedInWindow: tokens are real numbers, so rounding of `double` is not in it.
- RateLimit.AddressAdmittedInWindow: leaves out runs that take the "no room" fallback, because an attempt that falls back is checked against the total limit only.
- ScTransport.Transport.Configure: the TLS files and the subprotocol that it stores are not modelled, because what listening makes of them is the outcome `bound` of StartListening.
- Certificate chains, revocation lists and certificate diagnostics are functions of the environment; the trusted-issuers bundle, file permissions and modification times are not modelled.
- The text of error messages, log lines, the count of refused attempts and the audit trail of accepted peers (VMAC, UUID, Connect-Accept) are not modelled; errors are the reasons they stand for.
- The connector half of the transport uses the same queue, close and reassembly code and would repeat it; its contexts and dialling are not modelled.
- The parsing of listen URIs, the checks of certificate files before listening and the 5 second pause between attempts are one outcome (`bound`) of StartListening; the time limit of the flush before a listener goes away is in what lws does meanwhile.
- The refusal of unknown subprotocols before the upgrade, and its HTTP answer.
- The padding that lws wants before each frame.
- Writing a tree to a folder and reading it back (cari.cpp:504-557), and the search for hub port folders on disk (cert_layout.cpp:43-63).
- The choice of a folder for the log, the clock, terminal and password prompts, UDP sockets, polling order, property callbacks, device set-up and command line.
- The use the router makes of IsStackChosenBroadcast when it sends (sc_transport/ScTransportRouter.cpp:279-340).
- A tree with a file whose path is empty: WriteZip looks at the last octet of that name, which is undefined, so the method asks for none.
- Frames longer than 65535 octets, which the public entry of the decoder cannot be given (common/CASExampleHelper.cpp:1665).
