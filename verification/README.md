# Verification of the age inbox

A Dafny model of the age inbox service: vaults into which anyone may upload, each file sealed with the
age public key of its vault, and from which the owner reads after unlocking it with a password. The
project proves that what was uploaded is what a live session reads back, whatever the interleaving of
requests, the chunking of streams or the requested range, and says exactly where the code falls short.

Check everything with `dafny verify dfyconfig.toml` (Dafny 4.11).

## How it is built

| module | part of the service |
|---|---|
| `Prelude`, `Text`, `Utf8` | Option and Result, the string operations the code uses, UTF-8 (RFC 3629) |
| `Crypto` | keys, ciphertexts, the deterministic salt |
| `Names`, `Metadata`, `Config` | path checks and drop names, the flattened metadata record, the configuration file |
| `HttpRange`, `Download` | single byte ranges, the three ways to serve them |
| `Streams` | readers with short reads and failures, the copy loops, encrypting and decrypting files |
| `Multipart` | the upload body: nested loops, and the same without loops |
| `Bodies` | what an upload body means, field by field |
| `Sessions` | unlock, lock and lazy expiry, against the history of calls |
| `Vaults` | what stays fixed while the service runs: keys, flags, the two library functions |
| `Store`, `Commit` | the upload and delete protocol as a step system, and what it guarantees over whole runs |
| `Handlers` | the upload and delete handlers as code on a disk that may be faulty; each run of theirs is a run of the step system |
| `WalkDir`, `Listing` | the directory walk and the two listings |
| `Moving` | what a rename does that meets a directory in the place of its temporary file |
| `Reading` | the download and metadata handlers, each look at the disk at a moment of its own |
| `Service` | files and sessions together: the list handler and the end-to-end theorems |
| `Access` | who may do what: the checks of each handler, and what follows from them over whole runs |
| `Inboxes` | the creation of vaults, what the handlers read from the configuration files, a vault without its file |

A run of `Store` is a list of actions: a directory is made; an upload begins, takes a step, fails, its guard
removes a file; a delete, aimed at any file, looks, removes the file, removes the sidecar; the process
crashes. Any number of uploads and deletes are in flight. The marks `deleted` and `stripped` record which
payloads and sidecars a delete has removed; `Commit.MarkMeansRemoved` ties them to the run. A run ends where
a rename meets a directory (`Moving`). A run of `Service` mixes these with calls on the session table, and
the steps of a download fall at any moments of it. Age is a datatype: a sealed file remembers its recipient
and plaintext and opens exactly for that identity. The key derivation function and the JSON object reader
are arbitrary functions. Each generated name is used once.

## What the proofs found

- A metadata field that repeats `filename`, `origin` or `filesize` (a form field called `filesize` is
  enough, or such a key in `extended`) makes the flattened sidecar repeat a JSON key, and reading it fails.
  The upload succeeds, but the file cannot be downloaded decrypted, `list` passes over it and `raw/list`
  shows it.
  `Metadata.SizedReadableIff`, `Listing.ListingsAgreeIff`, `Service.DownloadIsExact` and
  `Service.ListedIffDownloadable` state this exactly.
- A file name with a control character, such as a line feed in the form field `filename`, is stored and
  listed, but cannot stand in the `Content-Disposition` header: every download of the drop, whole or by a
  range that is satisfiable, is answered with status 500. `Service.DownloadIsExact`,
  `Service.UploadedIsReadBack` and `Service.ListedIffDownloadable` carry the exact condition.
- With several payload parts the sidecar records only the length of the last one (src/api/upload.rs:255),
  so range requests are cut short; `Commit.RecordedSizeIff` and `Reading.DeservedRangeIff` say
  when, `Reading.RangesEndAtLastPart` and `Reading.TwoPartsAreCut` how.
- The documentation says that the `extended` field is merged into the metadata (docs/API.md:164); the code
  replaces what was collected (src/api/upload.rs:287-290). The model follows the code.
- The documentation says that a failed request leaves no partial file behind (docs/ARCHITECTURE.md:254-257).
  That holds, but a failure between the two renames leaves a whole sidecar without payload. No listing
  shows it; its metadata can be asked for (`Service.MetadataIsExact`).
- Sidecar names trim `.age` repeatedly, so the metadata of `x.age.age` is that of `x.age`, file or no file.
- The range parser departs from section 14.1.2 of RFC 9110 for a suffix longer than the resource and for
  a last position beyond 64 bits (`HttpRange.AgreesWithRfc9110`). What it accepts beyond the grammar is
  exactly the headers with a plus sign, which it ignores (`HttpRange.AcceptedIsGrammaticalIff`).
- The delete handlers do not look at the suffix, so a sidecar can be deleted without its payload.
  `Commit.CommitInvariant` says over all runs which payloads lose theirs, `Commit.SidecarDeletionBreaks`
  that this can also happen before the payload is there, between the two renames. Such a drop cannot be
  downloaded decrypted (`Service.UploadedIsReadBack`) and disappears from both listings; a directory made
  later under the name of the lost sidecar brings it back into `raw/list` (`Listing.RawListIsExact`).
- An upload whose subpath leads through a file, such as an earlier drop or `.inbox-age.config`, or holds a NUL
  character or a component of more than 255 bytes, passes every check and then fails with status 500 when its
  directories are made; `Commit.UploadCommitsIff` says exactly when.
- Whoever knows the name of an upload that is still running can delete its temporary file and have a
  directory made in its place by another upload. The rename then moves that directory: the upload reports
  success without a payload or without a sidecar, and committed drops below the directory leave their paths.
  `Moving.FolderIsAReplacement` says that there is no other way to this, `Moving.MoveLoses` who loses what.
- `raw/delete` of `.inbox-age.config` passes every check and ends all access to the vault
  (`Handlers.DeleteRaw`, `Inboxes.WithoutConfigNothingWorks`). The directory that is left, like that of a
  creation that failed before its file was written, blocks its name: nothing creates the vault again.
- The session check of delete passes on an expired entry that nobody has evicted yet.
- Vault names that share their first sixteen bytes share salt and, under one password, keys.

## Model

| member | source | states |
|---|---|---|
| `Service.DownloadIsExact` | src/api/download.rs:155-375 | In any run of the service (uploads, deletes of any file, unlocks, locks, evictions, process deaths in any interleaving, up to a rename that meets a directory) and with any events between the steps of the download: it is answered `resp` if and only if the request is in order, at its check an unlock of the vault is open and at most an hour old, one drop was there when its payload was looked for, opened and, for a range, opened again, and had a readable record when that was read, the uploaded form fields of that drop determine `resp`, and the file name in `resp`, if it has one, can stand in a header |
| `Service.UploadedIsReadBack` | src/api/upload.rs:94-188 | Read after write over whole runs: a drop with a readable record is committed at some moment; at the end, whatever came in between, a live session is answered status 200, exactly the bytes of its upload and its file name without directories, if and only if the run holds no delete that removed its payload or, aimed at it, its sidecar, and that name holds no control character but the tab |
| `Reading.DeservedWhole` | src/api/download.rs:359-375 | Without a range every upload deserves status 200, the concatenated payload parts, and the recorded name without directories or else `drop-` and the hex digits |
| `Reading.DeservedRange` | src/api/download.rs:254-358 | With a range every upload deserves what the header selects from as many bytes as its last payload part had, with status 206, the bounds, that size and the number of bytes asked for in the headers, or status 416 with that size |
| `Reading.SizelessRange` | src/api/download.rs:301-358 | For a record without a size the range is taken from the decrypted payload itself |
| `Reading.DeservedRangeIff` | src/api/download.rs:254-358 | With a range the answer is that of decrypting everything and slicing, exactly if all payload parts of the upload but the last were empty |
| `Reading.RangesEndAtLastPart` | src/api/upload.rs:241-255 | No range of any upload reaches behind the length of its last payload part |
| `Reading.TwoPartsAreCut` | src/api/upload.rs:241-255 | An upload of two payload parts of one byte each: both are stored and answered whole, every range that is served gives the first byte only, and asking for the first byte is answered so if the file name can stand in a header |
| `Service.PiecesMakeTheUpload` | src/api/download.rs:280-300 | A client fetches a payload in consecutive ranges, every request with its steps at moments of its own in a run in which anything else may happen: if all are granted, the pieces concatenate to the uploaded bytes |
| `Service.MetadataIsExact` | src/api/metadata.rs:28-107 | With any events between its steps, metadata is served if and only if a live session asks and the sidecar that the path leads to is seen, and there and readable when it is opened; it is the record of the upload that wrote that sidecar, with the size on disk if the payload is there when its size is asked for |
| `Service.ListedIffDownloadable` | src/api/list_files.rs:21-104 | In any reachable world in which the listing is answered and downloads are allowed, a path is listed with a name that can stand in a header if and only if it is that of an unhidden drop and its download at that moment succeeds |
| `Service.ListFiles` | src/api/list_files.rs:21-104 | The list handler: refusals in order, a session check that evicts nothing, then the listing |
| `Reading.NameOfDownload` | src/api/download.rs:239-246 | A download of a drop, however its path is spelled, is named after the recorded file name without directories, or `drop-` and the hex digits when there is none |
| `Service.Projects` | src/api/download.rs:179-190 | Files and sessions interact only through process death: a run of the service splits into a run of the store and a run of the session table |
| `Reading.FoundIsDrop` | src/api/download.rs:192-195 | Whatever file a payload path leads to in a reachable state is a committed, undeleted drop |
| `Reading.ServedFromDrop` | src/api/download.rs:197-246 | For the vault key, and with the disk changing between the steps: the drop met at the opening is served as uploaded if it was there whenever it was needed, its record was there and readable, and its answer can be built, and refused otherwise |
| `Reading.ServedIff` | src/api/download.rs:192-300 | What is served over four moments of the disk is exactly what some one drop yields at all of them |
| `Reading.DownloadFile` | src/api/download.rs:155-375 | The handler with its checks in order: its answer is the specified outcome (or, on a faulty disk, a read failure), and it drops exactly an expired entry from the table |
| `Reading.PathRefusalsInOrder` | src/api/download.rs:160-177 | Download and metadata refuse by the first check that fails: name and path, suffix, vault, and each its own flag |
| `Reading.DownloadRefusals` | src/api/download.rs:179-195 | Behind these checks: locked, expired, or not found, in this order, and nothing else but an internal error |
| `Reading.Serve` | src/api/download.rs:192-375 | Behind the session check, each look at the disk on its own view of it; only a faulty disk makes it fail where the specified outcome, which includes the building of the response, does not |
| `Reading.SendAll` | src/api/download.rs:359-375 | The whole plaintext goes into the body, unless the file name cannot stand in a header |
| `Reading.DownloadMetadata` | src/api/metadata.rs:28-107 | The metadata handler, each look at the disk on its own view, answers its specified outcome (or, on a faulty disk, a read failure) and drops exactly an expired entry |
| `Reading.MetadataRefusals` | src/api/metadata.rs:48-69 | Behind the checks of a metadata request: locked, expired, or no sidecar, in this order, and nothing else but an internal error |
| `Reading.DescribedIff` | src/api/metadata.rs:61-107 | What is described over three moments of the disk is exactly the record of the upload whose sidecar stands at each step that needs it |
| `Service.UploadUnlockDownload` | src/api/upload.rs:36-201 | The code of upload, unlock and download one after another on the disk of any reachable state: what the download delivers is what the form fields determine; it delivers only if request, directories, body, record keys, file name, flags and password are in order and the hour has not passed, and on a disk without faults it delivers if they are |
| `Inboxes.WithoutConfigNothingWorks` | src/api/delete_raw.rs:28-58 | A delete aimed at `.inbox-age.config` passes every check of the delete handler; from the directory that is left no handler finds a vault, and create_vault takes it for an existing one |
| `Inboxes.WithoutFileIsClosed` | crates/age-inbox-core/src/inbox_core.rs:132-136 | A directory without its configuration file is missing from what the handlers find, and nothing else is |
| `Inboxes.Root.CreateVault` | crates/age-inbox-core/src/inbox_core.rs:183-212 | Refusals in order; success writes the file for the derived key and the given flags; on a faulty disk, or for a name that the operating system does not take, it fails, and may then leave the bare directory |
| `Inboxes.CreatedIsRead` | crates/age-inbox-core/src/inbox_core.rs:132-212 | After create_vault, for every name, the handlers read exactly the derived key and the given flags, and every other vault as before |
| `Inboxes.UnlockAfterCreateIff` | crates/age-inbox-core/src/inbox_core.rs:214-252 | After create_vault a password unlocks the vault if and only if unlocking is allowed and it derives the same keys as the one the vault was created with |
| `Inboxes.UnlockFollowsEnv` | crates/age-inbox-core/src/inbox_core.rs:214-252 | As long as every configuration file was written by create_vault, unlocking by the files, which compares spelled keys, is unlocking in the environment that the other theorems take as given |
| `Inboxes.UnlockRefusals` | crates/age-inbox-core/src/inbox_core.rs:221-241 | Which error each failing check of unlock gives, reading the files, and when it succeeds |
| `Access.UploadRefusalsInOrder` | src/api/upload.rs:42-77 | Upload refuses by the first check that fails: name, vault, the upload flag, the subfolder flag if there is a subpath, the subpath |
| `Access.DeleteRefusalsInOrder` | src/api/delete.rs:28-60 | Delete refuses by the first check that fails: name and path, vault, the delete flag, the lock, and whether the path leads anywhere |
| `Access.ListRefusalsInOrder` | src/api/list_files.rs:25-46 | List refuses by the first check that fails: name, vault, the list flag, no session, an expired one |
| `Access.ListingNeedsSession` | src/api/list_files.rs:25-46 | In every run of a monotone clock the list handler answers exactly in a live session of a vault that allows listing |
| `Access.DeletingNeedsUnlock` | src/api/delete.rs:28-60 | In every run delete_file gets past its checks exactly if the request is in order, the vault allows deleting, an unlock of it is open that no check has found expired, and there is something to delete |
| `Access.UploadsArePermitted` | src/api/upload.rs:53-77 | Every upload that began in any run is into a vault that allows uploading, and has a subpath only where subfolders are allowed |
| `Access.FoldersArePermitted` | src/api/upload.rs:66-86 | Directories are only ever made where uploads and subfolders are allowed |
| `Access.NothingLiesOutside` | src/api/validation.rs:7-9 | In every reachable state all files and directories lie in their vault: no component of their paths is the parent directory or holds a separator |
| `Access.AcceptedPathsStayInside` | src/api/validation.rs:2-9 | A path that the download, metadata or delete handlers accept leads nowhere else either |
| `Access.BlockedIff` | src/api/upload.rs:79-86 | What makes the directories of an upload impossible, said of the names on the way: a file, the configuration file, a NUL character, more than 255 bytes |
| `Access.RemovalsArePermitted` | src/api/delete_raw.rs:37-41 | In every run, nothing is removed from a vault that does not allow deleting |
| `Reading.SuffixStaysInLastSegment` | src/api/download.rs:164-169 | The suffix test on the whole path decides the suffix of the file it resolves to |
| `Store.RunKeepsInv` | src/api/upload.rs:124-188 | Every action of every run keeps the protocol invariant, with any number of uploads and deletes in flight; a delete may be aimed at any file, sidecars and temporary files included, and no place is ever both file and directory; a run ends at a rename that meets a directory |
| `Store.StepKeepsDropOk` | src/api/upload.rs:124-188 | Each step of an upload, failure and guard steps included, keeps its drop in order |
| `Store.FeedsAdd` | src/api/upload.rs:242-254 | A body may arrive in pieces of any size: two pieces do what both at once would have done |
| `Store.RemoveMainKeepsInv` | src/api/delete.rs:62-65 | Removing the file that a delete was aimed at keeps the invariant, whatever file it is |
| `Store.RemoveSidecarKeepsInv` | src/api/delete.rs:67-72 | Removing the sidecar second keeps the invariant: it is that of a payload already gone |
| `Store.MakeOneKeepsInv` | src/api/upload.rs:79-86 | Making one directory keeps the invariant: where a directory is made there is no file |
| `Store.CrashKeepsInv` | src/api/upload.rs:109-117 | A crash, in which no guard runs, keeps the invariant |
| `Store.CrashStopsAll` | src/api/upload.rs:109-117 | A crash takes no file with it, and no upload or delete that was under way goes on |
| `Store.PutFrame` | src/api/upload.rs:94-103 | Steps of one upload touch no file of another |
| `Commit.CommitInvariant` | src/api/upload.rs:119-188 | In every state that runs reach, up to a rename that meets a directory, every file with a payload name is the complete payload of some upload, and its complete sidecar lies beside it if and only if the run holds no delete aimed at that sidecar |
| `Commit.DropHolds` | src/api/upload.rs:154-188 | The payload of a committed, undeleted drop is whole; its sidecar is there and whole exactly unless it was stripped |
| `Commit.PayloadsAreCommittedDrops` | src/api/upload.rs:180-186 | A payload file exists exactly for committed drops that were not deleted, up to a rename that meets a directory |
| `Commit.CommittedMeansRenamed` | src/api/upload.rs:184-186 | A drop counts as committed exactly if the run holds the rename of its payload |
| `Commit.MarkMeansRemoved` | src/api/delete.rs:62-65 | A payload counts as deleted, and a sidecar as stripped, exactly if the run holds a delete that was aimed at that file and removed it |
| `Commit.OnlyDeletesMark` | src/api/delete.rs:62-65 | One action sets either mark exactly if it is such a removal |
| `Commit.PayloadsAreStable` | src/api/upload.rs:180-186 | As long as a committed drop is not deleted its payload file is there and never changes, up to a rename that meets a directory |
| `Commit.RunExtends` | src/api/upload.rs:94-188 | No later step takes back a request, a commit, a deletion, a cleanup or a directory |
| `Commit.RecordedSizeIff` | src/api/upload.rs:241-255 | The recorded size is the payload length if and only if all payload parts but the last were empty |
| `Commit.FailedUploadLeavesNothing` | src/api/upload.rs:105-122 | After a failure at any step and a successful cleanup neither temporary file nor payload is left, and a sidecar exactly if the failure fell between the two renames and no delete was aimed at it |
| `Commit.CleanedStaysClean` | src/api/upload.rs:105-122 | Nothing of a cleaned-up upload comes back in any later state |
| `Commit.UploadCommitsIff` | src/api/upload.rs:79-186 | In every reachable state and under every new name an admissible request can be carried through to its commit if and only if its body is good and no directory of its subpath would have to be where a file is, the configuration file included, or has a name with a NUL character or of more than 255 bytes |
| `Commit.FoldersRun` | src/api/upload.rs:79-86 | Making the directories of a subpath one after another works exactly if none of them is where a file is or has a name that the operating system does not take, and adds exactly them |
| `Commit.UploadRuns` | src/api/upload.rs:124-188 | The steps of one upload act on its drop inside any store as they would alone, and touch nothing else |
| `Commit.SidecarDeletionBreaks` | src/api/delete.rs:62-72 | From the state after a sidecar was deleted, some continuation shows a payload without sidecar if and only if the payload is there already, or its upload stands between its two renames and can still do the second |
| `Moving.FolderIsAReplacement` | src/api/upload.rs:180-186 | A rename meets a directory only if, earlier in the run, a delete was aimed at the temporary file of that running upload and later a directory was made under its name |
| `Moving.MissingMeansRemoved` | src/api/upload.rs:124-186 | While an upload still needs a temporary file that it has created, the file is missing only if a delete aimed at it removed it |
| `Moving.MoveLoses` | src/api/upload.rs:180-186 | When a rename moves a directory, every file below it is found unchanged below the new name, and the committed payloads that leave their place without a delete are exactly those below it and, at the second rename, that of the upload itself, which is then committed without a payload |
| `Moving.MoveUndoesTheCommitInvariant` | src/api/upload.rs:180-186 | After a first rename that moved a directory, the second one shows a payload without sidecar although no delete was aimed at it |
| `Handlers.HandleUpload` | src/api/upload.rs:36-201 | The handler with its drop guard on a disk that may be faulty: it refuses exactly the inadmissible requests and touches nothing, otherwise its answer and the disk are explained by a finished sequence of protocol steps; without faults it fails only for a directory that cannot be made, the content type or the body, and then leaves no temporary file |
| `Handlers.SucceedsIff` | src/api/upload.rs:79-201 | On a disk without faults an admitted upload in a reachable state succeeds if and only if no directory of its subpath is barred, the content type is right and the body is good |
| `Handlers.UploadIsARun` | src/api/upload.rs:36-201 | Every run of the handler is a run of the step system with the same files and directories at the end, committed exactly if the handler reported success |
| `Handlers.RefusedIffInadmissible` | src/api/upload.rs:42-77 | The checks refuse exactly the requests that the protocol does not admit |
| `Handlers.MakeFolders` | src/api/upload.rs:79-86 | create_dir_all: nothing for a path with a NUL character, otherwise the directories up to the first that cannot be made; without faults that is one where a file is or whose name is too long |
| `Handlers.OpenFiles` | src/api/upload.rs:124-136 | Two temporary files, metadata first; it fails only on a faulty disk, and then leaves the upload to the guard |
| `Handlers.StreamBody` | src/api/upload.rs:152 | The body lands in the temporary file: all of the payload if the body is good, a prefix of it otherwise |
| `Handlers.CloseFiles` | src/api/upload.rs:154-178 | The payload is sealed before the metadata record is written |
| `Handlers.RenameFiles` | src/api/upload.rs:180-188 | Sidecar first, payload second; only the second rename commits |
| `Handlers.CleanUp` | src/api/upload.rs:105-122 | The guard tries both removals and ignores failures; the drop counts as cleaned exactly if both files are gone, which a disk without faults guarantees |
| `Handlers.WriteDrop` | src/api/upload.rs:119-188 | Success exactly if the drop is committed; a failure has its reason in the disk, the content type or the body |
| `Handlers.WriteOrCleanUp` | src/api/upload.rs:105-188 | The same with its guard: nothing of it is under way at the end, and on a disk without faults a failure leaves neither temporary file |
| `Handlers.UploadedPathIff` | src/api/upload.rs:190-200 | The path in the answer leads to the uploaded payload, and the other handlers accept it if and only if the subpath was not the empty text, which the route never hands on |
| `Handlers.DeleteFile` | src/api/delete.rs:24-75 | Refusals in order (the session is only looked up, not checked for expiry; behind a file name not even a slash is allowed), then the file, then its sidecar; without an entry in the session table, or the flag, nothing changes; success means the file is gone; a directory stays and is an error, and the configuration file takes its vault with it |
| `Handlers.DeleteRaw` | src/api/delete_raw.rs:24-68 | The same without a session |
| `Handlers.RemovePath` | src/api/delete_raw.rs:50-65 | Behind the checks: no such path, also for a file name followed by a slash or a dot, a directory, the configuration file, or any other file with its sidecar |
| `Handlers.RemoveWithSidecar` | src/api/delete_raw.rs:55-65 | If the main file cannot be removed nothing changes; otherwise it is gone, and besides it at most its sidecar; a failure to remove that is ignored; without faults both are gone |
| `Handlers.DeleteIsARun` | src/api/delete_raw.rs:50-65 | Every delete that is not refused and meets a file, a sidecar or any other, is a run of the step system with the same files at the end |
| `Listing.RawListIsExact` | src/api/list_files_raw.rs:38-59 | In every reachable state the raw listing holds, once each, path and size of exactly the committed, undeleted drops below no hidden directory whose sidecar name exists |
| `Listing.ListIsExact` | src/api/list_files.rs:51-101 | The listing of a live session holds, once each, exactly the committed, undeleted drops below no hidden directory whose record is there and can be read, with their size and the name and origin of their upload |
| `Listing.ListingsAgreeIff` | src/api/list_files.rs:51-101 | The two listings name the same paths if and only if every such drop whose sidecar name exists has a sidecar whose record repeats no field name |
| `Listing.SomeTreeShows` | src/api/list_files.rs:201-231 | For every reachable state there is a directory tree that shows exactly its files: none lies below another |
| `Listing.DropPathsAreUsable` | src/api/validation.rs:7-9 | The listed path of every drop passes both path checks and resolves to its own payload |
| `Listing.SidecarOfDrop` | src/api/list_files_raw.rs:45-49 | For every committed, undeleted drop: the raw listing makes an entry of its path exactly if its sidecar name exists, and with the vault key its record reads back as uploaded exactly if the sidecar is there and no key is reserved |
| `Listing.SidecarIsRead` | src/api/list_files.rs:116-199 | Any sidecar, also one left without a payload, reads back as its upload recorded it exactly if no key is reserved |
| `Listing.ReadSidecarIff` | src/api/list_files.rs:116-199 | A sidecar is read exactly if it is there, was finished, is sealed for this very key and holds a record that can be read |
| `Listing.ListRaw` | src/api/list_files_raw.rs:38-59 | The collecting loop with its two `continue`s keeps each walked path, with its size, as often as the filter says |
| `Listing.List` | src/api/list_files.rs:51-103 | The collecting loop of the decrypted listing: each readable entry with its size, name and origin, as often as it was walked |
| `WalkDir.Walk` | src/api/list_files.rs:201-231 | The stack loop returns each file of the recursive definition exactly as often, and terminates: the measure is the total size of the trees on the stack |
| `WalkDir.ReadDir` | src/api/list_files.rs:206-227 | One directory: hidden entries are passed over, directories pushed, files collected |
| `WalkDir.VisibleAre` | src/api/list_files.rs:208-226 | The walk yields, once each, exactly the joined paths of files reached through names that do not start with a dot |
| `WalkDir.TreeExists` | src/api/list_files.rs:201-231 | Every finite set of proper paths of which none is a prefix of another is the set of files of some tree |
| `Sessions.LazyExpiryIsEager` | src/api/download.rs:179-190 | Over every run of a monotone clock the check passes at time t if and only if the latest successful unlock has not been closed and is at most an hour old, whoever evicted what in between; and it yields the key derived by that unlock |
| `Sessions.PresentIff` | src/api/delete.rs:43-48 | An entry is in the table if and only if an unlock is open and no later check met it after its hour, under any clock |
| `Sessions.SessionsHoldVaultKeys` | crates/age-inbox-core/src/inbox_core.rs:237-249 | Every entry holds an identity that opens what is sealed for its vault |
| `Sessions.PresenceOutlivesTheHour` | src/api/delete.rs:43-48 | The presence check of delete can pass when the session is expired |
| `Sessions.SessionTable.Unlock` | crates/age-inbox-core/src/inbox_core.rs:214-252 | One critical section: it succeeds exactly if unlocking is allowed and the password derives the key of the vault, and then sets the entry of the vault to that identity for an hour; refusals leave the table alone |
| `Sessions.SessionTable.Lock` | crates/age-inbox-core/src/inbox_core.rs:254-276 | Where locking is allowed the entry is gone afterwards, and it succeeds exactly if there was one; otherwise nothing changes |
| `Sessions.SessionTable.CheckAndEvict` | crates/age-inbox-core/src/inbox_core.rs:278-291 | The check passes up to and including the hour and drops an expired entry |
| `Sessions.LockLocks` | crates/age-inbox-core/src/inbox_core.rs:254-276 | In every run that ends with a lock of the vault, where locking is allowed, nothing is left of its session, and no check passes at any time |
| `Sessions.LockedUntilUnlocked` | crates/age-inbox-core/src/inbox_core.rs:214-252 | A vault without a session stays without one, whatever is called, until an unlock with a password of it |
| `Sessions.HourIsExact` | crates/age-inbox-core/src/inbox_core.rs:243-249 | A session passes its check up to 3600 seconds after the unlock, that moment included, and expires one nanosecond later |
| `Sessions.RefusalsInOrder` | crates/age-inbox-core/src/inbox_core.rs:221-241 | Lock and unlock refuse by the first check that fails: name, vault, flag, then entry or password |
| `Streams.DecryptRange` | crates/age-inbox-core/src/inbox_core.rs:375-419 | For any pattern of short reads: exactly plaintext[start .. min(end+1, len)] is written and counted, nothing for a wrong key, a prefix of it on a failed read or write, and only faulty streams make it fail |
| `Streams.SkipTo` | crates/age-inbox-core/src/inbox_core.rs:403-409 | After the skip through a 64 KiB buffer that is then discarded the stream stands exactly at min(start, len) |
| `Streams.Drain` | crates/age-inbox-core/src/inbox_core.rs:405-408 | The copy into nothing ends with the limit used up or the stream at its end, and with an empty buffer |
| `Streams.BufReader.Read` | crates/age-inbox-core/src/inbox_core.rs:405 | The buffer always holds exactly the bytes by which the inner stream is ahead |
| `Streams.CopyOut` | crates/age-inbox-core/src/inbox_core.rs:413-418 | A limited copy writes exactly the next bytes up to the limit |
| `Streams.CopyRange` | crates/age-inbox-core/src/inbox_core.rs:401-418 | Skip and limited copy together, with no overflow of `end - start + 1` |
| `Streams.OpensOnlyItsKey` | crates/age-inbox-core/src/inbox_core.rs:340-360 | A file opens for the key it was sealed for, and for no other |
| `Streams.DecryptAll` | crates/age-inbox-core/src/inbox_core.rs:340-370 | The whole plaintext for the right key |
| `Streams.EncryptReader` | crates/age-inbox-core/src/inbox_core.rs:293-338 | What is sealed and counted is exactly what was left to read |
| `Streams.SealedRangeReadsBack` | crates/age-inbox-core/src/inbox_core.rs:293-419 | Encrypting a stream and decrypting a range gives that range of the stream |
| `Download.FastIsSimpleIff` | src/api/download.rs:254-358 | For every payload, header and recorded size the fast path and the decrypt-everything path give the same status, headers and body if and only if the recorded size is the true one |
| `Download.FastAnswersAsSimpleIff` | src/api/download.rs:254-358 | What the client gets of both paths is the same if and only if the recorded size is the true one or both fail to build a range response for the file name |
| `Download.SimplePathIs` | src/api/download.rs:301-358 | Decrypting everything and slicing answers a satisfiable range with status 206, exactly its bytes, their number and bounds and the size in the headers, and any other range with status 416 and the size |
| `Download.FastPathIs` | src/api/download.rs:255-300 | The fast path does so for the size it is told, with the bytes that there are |
| `Download.HeaderTextIff` | src/api/download.rs:286-300 | Which names can stand in a header, byte by byte of their UTF-8 form |
| `Download.RangesTile` | src/api/http_range.rs:8-42 | Any partition into intervals, each printed as `bytes=a-b` and requested: all are range responses, which can be built exactly if the file name can stand in a header, and they concatenate to the whole |
| `Download.TilesOnEveryPath` | src/api/download_raw.rs:77-105 | The same for the fast path with the true size and for raw downloads |
| `Download.ServeFast` | src/api/download.rs:255-300 | The branch for a recorded size is the fast response, unless a read of a faulty disk fails or the file name cannot stand in a header |
| `Download.ServeSimple` | src/api/download.rs:301-358 | The branch without a recorded size, with the same two exceptions |
| `Download.ServeRaw` | src/api/download_raw.rs:60-125 | Seek and limited read over the stored bytes answer like slicing them; without a range all of them, with their number as the content length |
| `Download.SendSeeked` | src/api/download_raw.rs:77-105 | The seeked and limited stream delivers exactly the range |
| `HttpRange.AgreesWithRfc9110` | src/api/http_range.rs:3-43 | For every single range of the grammar the parser returns the interval that section 14.1.2 of RFC 9110 selects, or refuses an unsatisfiable one, if and only if it is no suffix longer than a non-empty resource and no last position beyond 64 bits after a satisfiable first one |
| `HttpRange.AcceptedHeaders` | src/api/http_range.rs:3-43 | Every accepted header, of any shape, spells two decimal numbers that may carry a plus sign, and exactly what their digits select is served |
| `HttpRange.AcceptedIsGrammaticalIff` | src/api/http_range.rs:18-34 | An accepted header lies outside the grammar of section 14.1.2 of RFC 9110 if and only if it holds a plus sign |
| `HttpRange.ParseSingleRange` | src/api/http_range.rs:3-43 | Every success satisfies start <= end < size |
| `HttpRange.PrintParse` | src/api/http_range.rs:8-42 | Printing an interval inside the resource and parsing it gives it back |
| `HttpRange.PlusIsIgnored` | src/api/http_range.rs:18-34 | A plus sign in front of either number changes no result |
| `Crypto.SaltsEqualIff` | crates/age-inbox-core/src/crypto.rs:13-22 | Two names have equal salts if and only if they agree on their first min(16, length) bytes |
| `Crypto.ShortNamesHaveDistinctSalts` | crates/age-inbox-core/src/crypto.rs:13-22 | Different names of at most 16 bytes never share a salt |
| `Crypto.SaltTellsShorterName` | crates/age-inbox-core/src/crypto.rs:19-22 | A padding byte never starts a character (section 3 of RFC 3629), so the salt tells where a short name ends |
| `Crypto.PaddingIsAmbiguousWithoutUtf8` | crates/age-inbox-core/src/crypto.rs:19-22 | For byte strings that are not UTF-8 it would not |
| `Crypto.FillSalt` | crates/age-inbox-core/src/crypto.rs:13-22 | The two filling loops compute the salt |
| `Crypto.SaltIs` | crates/age-inbox-core/src/crypto.rs:13-22 | The sixteen bytes of a salt one by one: those of the name, then a fixed table by position |
| `Crypto.DeriveKeysSees` | crates/age-inbox-core/src/crypto.rs:24-28 | The derivation is given the password and the salt of the name, in this order |
| `Crypto.SharedPrefixSharesKeys` | crates/age-inbox-core/src/crypto.rs:11-41 | Names with the same first sixteen bytes derive the same keys from the same password |
| `Utf8.DecodeEncode` | src/api/upload.rs:279 | Decoding what was encoded gives the text back, for every character |
| `Utf8.DecodeIff` | src/api/upload.rs:279 | Decoding succeeds exactly on the encoding of a text and gives that text: no longer form, surrogate or value beyond the last character is accepted |
| `Utf8.EncodedBits` | crates/age-inbox-core/src/crypto.rs:14 | The bits of each character, as section 3 of RFC 3629 spreads them over one to four bytes |
| `Utf8.BoundaryIsNoTail` | crates/age-inbox-core/src/crypto.rs:19-22 | What follows a valid text inside a valid text starts a character |
| `Config.ConfigRoundTrip` | crates/age-inbox-core/src/inbox_core.rs:138-174 | For every inbox name, also one that forges key and permission lines, what is written is read back unchanged if and only if the key is one non-empty line without trailing carriage return that does not start like a key line; the flags come back in any case |
| `Config.ReadConfig` | crates/age-inbox-core/src/inbox_core.rs:132-160 | The line scan: last matching line wins, prefixes are trimmed repeatedly, unparsable permissions are passed over |
| `Config.LastKeyWins` | crates/age-inbox-core/src/inbox_core.rs:141-144 | A key line with no key line after it gives the key |
| `Config.FlagsRoundTrip` | crates/age-inbox-core/src/inbox_core.rs:167-172 | Seven flags printed compactly are parsed back |
| `Config.WrittenFlags` | crates/age-inbox-core/src/inbox_core.rs:168-169 | The seven flags, each under its own key, word for word |
| `Config.CompactIff` | crates/age-inbox-core/src/inbox_core.rs:146 | Exactly the text that would be written for some flags is read as them without the JSON reader |
| `Config.LastFlagsWin` | crates/age-inbox-core/src/inbox_core.rs:144-149 | The last permissions line that can be parsed gives the flags |
| `Config.FlagsLine` | crates/age-inbox-core/src/inbox_core.rs:138-149 | A key line and a permissions line: the key, and the flags that the text stands for, or the defaults if it stands for none |
| `Config.KeyOnlyFile` | crates/age-inbox-core/src/inbox_core.rs:138-149 | Without a permissions line everything is allowed but subfolders |
| `Multipart.HandleMultipart` | src/api/upload.rs:203-318 | The nested loops compute the outcome of the fields; what was written is the payload on success and a prefix of it in every other case; only a faulty writer makes it fail otherwise |
| `Multipart.ChunkingDoesNotMatter` | src/api/upload.rs:242-270 | Outcome and payload depend on the fields and their contents only, never on chunk boundaries (writes that do not fail) |
| `Multipart.WhichFieldsAreFiles` | src/api/upload.rs:232 | A payload part is one named `file`, or the nameless one before all of these |
| `Multipart.EarliestErrorDecides` | src/api/upload.rs:222-298 | The earliest field that is broken or too large decides the error; there is none if no field is |
| `Multipart.ReadText` | src/api/upload.rs:258-270 | A text field overflows if and only if its total length exceeds 65536 |
| `Multipart.CopyFile` | src/api/upload.rs:241-255 | Everything is passed on and counted; after a failed write, a prefix |
| `Multipart.LastTouchDecides` | src/api/upload.rs:287-294 | An entry of `extended` is what the last field that set it made it; an `extended` object sets or removes every key at once |
| `Multipart.UntouchedIsAbsent` | src/api/upload.rs:287-294 | A key no field set is absent |
| `Multipart.SizeIsPayloadLengthIff` | src/api/upload.rs:241-255 | The recorded size is the total length if and only if all payload parts but the last are empty |
| `Multipart.AcceptedIff` | src/api/upload.rs:222-315 | A body is accepted if and only if no field is broken or too large, the stream ends well, some part carries payload and some field or part proposes a file name |
| `Multipart.LastFormNameWins` | src/api/upload.rs:282-286 | The file name is the last `filename` field that is valid UTF-8 and not blank |
| `Multipart.LastPartNameWins` | src/api/upload.rs:233-238 | Failing that, the last payload part with a file name that is not blank |
| `Multipart.TrimSplits` | src/api/upload.rs:234 | Trimming takes away white space on both sides, and all of it |
| `Multipart.Conclude` | src/api/upload.rs:300-317 | Success exactly with a payload part and a file name, the form field before the part |
| `Bodies.RecordedNameIff` | src/api/upload.rs:233-309 | The name an accepted upload is recorded under is that of the last `filename` field that proposes one, and only if there is none that of the last payload part that carries one; proposals are texts in UTF-8, trimmed and not blank |
| `Bodies.RecordedIff` | src/api/upload.rs:255-281 | The origin is the text of the last `origin` field in UTF-8, and the size the length of the last payload part |
| `Bodies.ExtendedIs` | src/api/upload.rs:287-294 | An entry of `extended` is what the last field that decides about its key says: a field of that name, or an `extended` object, which decides about every key |
| `Bodies.PayloadIs` | src/api/upload.rs:232-254 | The payload is the contents of the parts called `file`, or of the first nameless one before them, one after another |
| `Bodies.OutcomeIff` | src/api/upload.rs:222-315 | Which error a body gives: that of the first field that breaks off or exceeds 65536 bytes, then a broken stream, then no payload part, then no name; and none otherwise |
| `Bodies.NonBlankIff` | src/api/upload.rs:234-237 | What trimming leaves: the text between white space on both sides, if there is any |
| `Names.SidecarAgreesWithExtension` | crates/age-inbox-core/src/inbox_core.rs:112-120 | Repeated trimming and replacing the extension agree on a payload name stem + `.age` if and only if the stem is not empty and does not end in `.age` |
| `Names.DropNamesDistinct` | src/api/upload.rs:94-103 | The four names of a drop differ from each other and from those of every other drop |
| `Names.DropNameRoles` | crates/age-inbox-core/src/inbox_core.rs:112-130 | Both ways lead from a generated payload name to its sidecar; the temporary names are neither payloads nor sidecars |
| `Names.DropNameIsComponent` | crates/age-inbox-core/src/inbox_core.rs:124-130 | A generated name is a visible path component without `..` |
| `Names.JoinIsValid` | src/api/validation.rs:7-9 | A path joined from accepted components is accepted again |
| `Names.ComponentsOfSlash` | src/api/upload.rs:190-194 | Joining with a slash joins the components |
| `Names.NothingLeadsOut` | src/api/validation.rs:7-9 | No component of an accepted subpath is the parent directory or holds a separator |
| `Names.ValidSubpathIff` | src/api/validation.rs:7-9 | The subpath check position by position: no two dots in a row, no backslash, no slash in front |
| `Names.ValidNameIff` | src/api/validation.rs:2-4 | The name check position by position: not empty, no separator, no two dots in a row |
| `Names.PayloadPathIff` | src/api/download.rs:164-169 | A payload path ends in `.age`, with something or nothing before it, but not in `.meta.age` |
| `Names.ComponentsOfSlashed` | src/api/upload.rs:79 | Of the segments between slashes exactly the empty ones and single dots do not count |
| `Names.FileNameIs` | src/api/download.rs:143-148 | The file name of a path is its last segment, unless that is the parent directory |
| `Names.HiddenIff` | src/api/list_files.rs:210 | A path leads through a hidden entry exactly if a segment of it starts with a dot and is longer |
| `Names.SidecarForIs` | crates/age-inbox-core/src/inbox_core.rs:112-120 | The sidecar name for any name, however often it ends in `.age`, and which names have none |
| `Names.GeneratedIff` | crates/age-inbox-core/src/inbox_core.rs:124-130 | The names that can be generated are `drop-`, sixteen bytes in lower-case hex, `.age` |
| `Names.HexInjective` | crates/age-inbox-core/src/inbox_core.rs:128 | Different bytes give different names |
| `Metadata.FlattenRoundTrip` | crates/age-inbox-core/src/inbox_core.rs:94-102 | Flattening a record, in any order of its map, and reading it back gives the same record if and only if no key of `extended` is `filename`, `origin` or `filesize` |
| `Metadata.SizedReadableIff` | crates/age-inbox-core/src/inbox_core.rs:455-462 | A record with a size can be read at all if and only if no key repeats a field |
| `Metadata.WrittenPairs` | crates/age-inbox-core/src/inbox_core.rs:94-102 | The record as it is written: `filename` and `origin` always, `filesize` only if known, every entry of `extended` under its own key |
| `Metadata.ReadOnePair` | crates/age-inbox-core/src/inbox_core.rs:94-102 | What each entry is read as: the three fields by their type or null, anything else kept as it is, absent if it is not there |

## Left out

- Routing, extractors, CORS, TLS, the command line, start-up, the mapping of errors to status codes and texts: each is settled by reading one line. Where a status is part of a range response it is modelled.
- The internals of age, X25519, Argon2, Bech32 and the clearing of secrets: library code. A recipient is modelled as the wrapper of its identity, so distinct identities have distinct recipients.
- General JSON syntax: metadata is a list of key/value pairs, `extended` objects come from an arbitrary reader, and permissions text that is not in the written form is parsed by an arbitrary function.
- The wire format of multipart bodies: fields arrive as lists of chunks, each possibly ending in an error. A body of 2^64 bytes or more is excluded by the body limit.
- HTTP header encoding and the text of Content-Disposition: the model keeps the file name, whether it can stand in a header, and the header values that matter for ranges.
- A body stream that breaks after its headers are sent: the model reports a failure instead of a short body.
- Sizes of ciphertexts: they are a parameter of the metadata and list handlers; a raw download serves arbitrary stored bytes.
- File names that are not UTF-8, symbolic links, case-insensitive or Windows paths, files put into a vault by hand. The theorems over whole runs hold while the vaults stay as they are: the creation of a vault, and a delete aimed at a configuration file, are modelled with what they change, but such a run ends there.
- A request that is dropped while a file system call of it is still running: that call may still create or rename its file after the guard has run. In the model a failure falls between two calls.
- A subpath of several directories is made from the outermost on, which create_dir_all does in effect.
- The limit of the operating system on the length of a whole path (4096 bytes on Linux), and limits on names other than 255 bytes.
- A vault called `.`: the name check accepts it, creating it fails because the directory exists; vaults are separate directories in the model.
- The probability that a random drop name repeats: names are assumed fresh, for files and for directories made by other requests.
- A listing that runs while files are renamed or deleted: each listing is taken at one moment. The order in which five sidecars at a time finish is not modelled; nothing stated depends on order.
- The checks of name, vault and permission in front of the raw listing and the raw download.
- Store.RunKeepsInv: a run ends at a rename that meets a directory, where the code goes on and moves the directory; Moving.MoveLoses says what is lost by that one step, nothing is said about the steps after it.
- Commit.CommitInvariant: likewise only up to such a rename.
- Commit.PayloadsAreCommittedDrops: likewise only up to such a rename.
- Commit.PayloadsAreStable: likewise only up to such a rename.
- Service.DownloadIsExact: likewise only up to such a rename, and for paths that are not too long as a whole.
- Service.UploadedIsReadBack: likewise only up to such a rename, and for paths that are not too long as a whole.
- Commit.UploadCommitsIff: for paths that are not too long as a whole.
- Handlers.SucceedsIff: for paths that are not too long as a whole.
- Inboxes.Root.CreateVault: the configuration file is written whole or not at all.
- Several server processes on one directory, and a loss of power that takes back a completed write or rename: after a crash the files are as the last completed call left them.
- Handlers.StreamBody: the interleaved writes of one body appear on the disk in one piece within a single handler; the step system has them one by one, in pieces of any size.
- Streams.CopyRange: requires start <= end and end - start < 2^64 - 1, which its only caller guarantees; outside that range the original's `end - start + 1` would wrap or panic.
