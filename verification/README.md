# sshc, modelled and proved in Dafny

sshc is an SSH and SFTP client: a Go engine with a command line (`cmd/sshc`), an Android
library (`mobile`) and a demo that runs in the browser (`demo`). This project models the parts
of it that carry an algorithm or a protocol of their own, and proves what they are for.
`dafny verify dfyconfig.toml` checks everything; nothing here runs the original program.

- **Scheduled tasks on Windows** (`TaskCanonical`, `XmlTask`, `TaskAccounts`). Two task
  definitions are compared by printing them. The printed form is proved to be a decision procedure: equal
  strings exactly for trees that are equal up to order and ignored defaults. The parsed XML
  is the starting point; names are local names, made of name characters (XML 1.0, section 2.3).
- **Planning a transfer** (`RemoteListings`, `TransferPlan`, `GetPlan`, `PutPlan`). A memo of
  remote listings that infers missing directories; a download walk, bounded by a budget, of a
  remote tree that need not be finite; an upload walk of a local tree with any symbolic links,
  cycles included. Both walks are compared with a reading of the tree that knows no walk, no
  budget and no stack.
- **Transferring** (`UploadRanges`, `UploadSequential`, `Pool`, `FileWorkers`, `RangeWorkers`).
  Which byte ranges of an interrupted upload are still to be sent, on int64 arithmetic, and the two worker pools as
  state machines over every schedule.
- **The browser cache** (`Tar`, `ArchiveCache`). The ustar reader (POSIX.1 pax, "ustar
  Interchange Format") against a writer, and the completion marker of the cache against
  every interruption.
- **Secrets** (`PasswordUnix`, `PasswordWindows`, `PasswordMask`, `Json`, `VaultJson`, on
  `Utf8` and `Utf16`). Line editors on bytes and on UTF-16 units that refine an editor on
  characters, the asterisks on the screen, and a JSON writer (RFC 8259) that fills a buffer of
  a size computed beforehand, against a reader.
- **Android** (`EngineLifecycle`, `BlockedPrograms`). Start and Stop of the one engine over
  all interleavings, and the queue that keeps one change per session.
- **The command line** (`CommandOptions`, `ServiceUnit`, `Picker`). The option parser as the
  inverse of writing a command line, the systemd unit that a path can be read back from, and
  the connection picker.

## How it is modelled

A record that is a value is a datatype; an object that methods update is a class with those
fields, and each method states its new state by a function that the lemmas are about. A
protocol with goroutines is a set of steps, and results hold for every schedule. Go's `int64`
is a newtype with range checks, or wrapped explicitly (`UploadRanges.Wrapped`). Text is a
sequence of Unicode scalar values and bytes are numbers below 256. Library tables and the
world outside (case folding, exclusion rules, `Lstat`, what the server answers, what digest
belongs to what archive) are function-valued parameters, so each result holds whatever they
answer, as long as they keep answering the same.

## What was found

- `sftpUploadFile` asks for an upload of the planned size and accepts the engine's reply without
  comparing the size in it, against which the completed ranges are validated. The chunks are
  computed from the planned size. For an accepted reply, every byte is covered once exactly when
  its ranges are also well placed for the planned size (`ReplyDecided`, `ExactlyOnceDecided`), as
  they are in a reply of that size; a reply of another size can have a byte sent that is already
  there (`OtherSizeSentTwice`).
- The start of the chunk loop wraps around exactly when the planned size, rounded up to chunks, is
  no int64 (`MissingRanges`); the loop then goes on with a range no file has (`WrappedRange`), as
  for the largest size of all in chunks of two bytes (`LargestFileWraps`).
- The walk of a download accepts a listing that names an entry twice. No local path is the
  target of two transfers exactly when no directory lists two entries to be taken under one
  name (`GetPlan.TargetsDistinctDecided`); `FileListedTwice` is a tree where one does.
- The tar reader's text decoder drops a leading byte order mark, so an archive comes back as it
  was written exactly when no regular entry has a name or prefix that starts with it (`RoundTrip`,
  `MarkedEntries`).
- An archive with a file at the address of the completion marker can leave a cache that passes
  the completeness test of another archive and lacks its files (`MarkerFileBreaks`). The test is
  right for all archives exactly when no path that the reader accepts resolves to the marker
  (`MarkerDecided`). Today one does: the reader accepts `.archive-complete`, which is the marker's
  own name (`OwnMarkerClashes`).
- On Windows a key that carries a character is typed exactly when it is not the key of C, D or U
  with Ctrl down (`TypedDecided`). AltGr counts as Ctrl, so on a keyboard where AltGr+C types
  U+0107 that character cancels the password (`AltGrCancels`). The key codes of c, d and u that are
  accepted too belong to the numeric keypad's 3 and 4 and to F6, which so do the same with Ctrl
  (`KeypadCommands`).
- After Esc and a byte that starts no sequence the connection picker drops one byte, and so not the
  whole of a character of several bytes typed with Alt (`AltDecided`, `AltLeavesByte`). From a
  search that is text, it is text wherever a read stops exactly when no such character is typed
  (`TextKeptDecided`).
- An upload plan takes a link to a directory on the server for a directory, and creating the planned
  directories refuses one (`LinkNotEnsured`). They can all be made exactly when none of them is a
  link, besides what the server answers and allows (`EnsuredDecided`).
- On Windows the deferred clearing of the typed units is given the slice as it was before anything
  was typed, which has no elements. Nothing of a password is left in memory exactly when no units
  are held at the end (`PasswordWindows.ReadPassword`); after a password has been read they are
  (`PasswordStays`).
- An executable with a character that XML cannot carry is registered under another path
  (`CarriedDecided`, `NotCarried`).
- A managed systemd unit is called current exactly when it is the fixed text around anything
  at all that is not empty (`OutdatedDecided`): the middle is not examined, and can have lines of
  its own (`ExtraLineIsCurrent`).

## Model

| member | source | states |
|---|---|---|
| TaskCanonical.CanonicalDecidesEquality | cmd/sshc/service_task_definition.go:186-225 | The canonical strings of two task trees are equal exactly when the trees are equal up to child order, attribute order, trimmed text, the cleaned Command path, and the ignored metadata and defaults. |
| TaskCanonical.KeptDecided | cmd/sshc/service_task_definition.go:207-224 | For elements that are not ignored the printed forms also never continue each other, so children can be concatenated without separators. |
| XmlTask.AtAgrees | cmd/sshc/service_task_definition.go:36-50 | Along a path of elements that are never ignored, equal trees have equal elements, or neither has one. |
| XmlTask.MatchDecided | cmd/sshc/service_task_definition.go:227-234 | A task matches exactly when executable and SID are acceptable and the task means what sshc would register for them, as XML carries the two. |
| XmlTask.MatchNamesExecutable | cmd/sshc/service_task_definition.go:81 | A task that matches runs this executable and belongs to this user, as XML carries the two and up to the trimming and cleaning of the comparison. |
| XmlTask.MatchManaged | cmd/sshc/service_task_definition.go:82-87 | A task that matches has one action, and so is managed by the user exactly when description, user and command are right to the letter. |
| XmlTask.CarriedDecided | cmd/sshc/service_task_definition.go:96-100 | The registered task names the executable itself exactly when XML carries each of its characters. |
| XmlTask.NotCarried | cmd/sshc/service_task_definition.go:72-77 | An acceptable executable that is registered under another path. |
| TaskAccounts.SidsDecided | cmd/sshc/service_task_definition.go:155-184 | Replacing account names fails exactly when an account is not found; otherwise only the users' texts change, and all are SIDs if the lookup gives SIDs. |
| TaskAccounts.Idempotent | cmd/sshc/service_task_definition.go:155-184 | Replacing account names twice is doing it once. |
| TaskAccounts.ComesBack | cmd/sshc/service_task_definition.go:155-184 | The registered task, returned with the trigger's user as an account name, becomes the registered task again when the name stands for the SID. |
| TaskAccounts.TaskUtf16 | cmd/sshc/service_task_definition.go:123-131 | The byte array filled by index is the byte order mark and the text's UTF-16 words, low bytes first. |
| TaskAccounts.FileReadBack | cmd/sshc/service_task_definition.go:123-131 | Reading those bytes as little-endian words gives the mark and then exactly the text. |
| RemoteListings.Memo.List | cmd/sshc/sftp_plan.go:101-123 | A listing through the memo agrees with the direct one, inferred not-found answers included, and no directory is requested twice. |
| RemoteListings.Memo.Stat | cmd/sshc/sftp_plan.go:125-140 | A lookup through the memo agrees with the lookup without one. |
| RemoteListings.RemoteTree.Ensure | cmd/sshc/sftp_plan.go:560-581 | Succeeds exactly when the lookups on the way are answered, the nearest existing path is a directory, and the server accepts the creation of the rest; whatever happens, only directories on the way are added and nothing else changes. |
| RemoteListings.RemoteTree.EnsureAll | cmd/sshc/sftp_transfer.go:82-86 | The directories of a plan, one after the other: all succeed exactly when each could be ensured at the start; then all are there and nothing else has changed. |
| GetPlan.Budget.constructor | cmd/sshc/sftp_plan.go:150-169 | Limits out of range give way to defaults within bounds, others are kept, and the root counts as one entry. |
| GetPlan.Budget.Include | cmd/sshc/sftp_plan.go:171-190 | An entry is accepted exactly when depth, entries and bytes allow it, with the counters that result and the limit that is named otherwise. |
| GetPlan.Walk | cmd/sshc/sftp_plan.go:280-345 | The walk ends on every tree, and succeeds exactly when an unlimited reading of the tree, down to the depth allowed, finds nothing wrong and its totals fit; then the plan has grown by exactly that content. A refusal names the first thing that is wrong, or a limit that the tree does not fit in. Listings asked for never exceed directories planned. |
| GetPlan.TakeEntry | cmd/sshc/sftp_plan.go:293-343 | The same for one entry, with its branch for exclusions, links and unknown kinds. |
| GetPlan.TakeDirectory | cmd/sshc/sftp_plan.go:310-322 | The same for a directory: local conflicts refuse it, its content follows it in the plan. |
| GetPlan.TakeFile | cmd/sshc/sftp_plan.go:323-332 | The same for a file: its size is counted once, in the plan and in the budget. |
| GetPlan.Build | cmd/sshc/sftp_plan.go:248-256 | On success, the plan is the root and all below it, its bytes are the sum of the file sizes and within the limit, and the entry counter is directories plus files plus excluded entries; at most as many listings as entries are allowed are ever requested. |
| GetPlan.PlanIsTree | cmd/sshc/sftp_plan.go:280-345 | The content is exactly the directories and files that can be reached under no excluded directory, each at the place below the chosen root that answers to its own, none deeper than the limit. |
| GetPlan.TreeDecided | cmd/sshc/sftp_plan.go:288-344 | There is a content exactly when every reached directory lists and every listed entry has a valid name, its own path and, unless it is skipped, a size, a kind, a local place and a depth that are allowed. |
| GetPlan.TargetsDistinctDecided | cmd/sshc/sftp_plan.go:293-332 | No local path is the target of two transfers if and only if no reached directory lists two entries to be taken under one name. |
| GetPlan.FileListedTwice | cmd/sshc/sftp_plan.go:293-332 | A server that lists one file twice: the plan is made and writes one local path twice. |
| TransferPlan.Plan.AddFile | cmd/sshc/sftp_plan.go:331-332 | A file is appended and counted with its size; nothing else changes. |
| PutPlan.PutWalk.Directory | cmd/sshc/sftp_plan.go:431-493 | The upload walk has exactly the outcome of the reading of the tree by place, its first failure included, and appends exactly its content; on every return the ancestors are as before the call, and the depth limit is met only by a chain of 257 different places. |
| PutPlan.PutWalk.TakeEntry | cmd/sshc/sftp_plan.go:449-491 | The same for one entry: exclusions, links without target, conflicts with what the server has. |
| PutPlan.PutWalk.TakeAll | cmd/sshc/sftp_plan.go:449-492 | The same for the entries of one directory; a failure leaves the ancestors as they were. |
| PutPlan.Build | cmd/sshc/sftp_plan.go:409-415 | The plan of an upload is the root and exactly what is to be uploaded, its bytes are the sum of the file sizes even when it fails, and it is too deep only for a folder below 257 different places. |
| PutPlan.PlanIsTree | cmd/sshc/sftp_plan.go:431-493 | The content is exactly the directories and files that can be reached without entering a directory inside itself, each at the place below the remote root that answers to its own. |
| PutPlan.TreeDecided | cmd/sshc/sftp_plan.go:431-493 | There is a content exactly when every folder resolves and, unless it is one of those above it, can be read, and every entry is excluded, a link without target, or something that fits what the server has and the depth allowed. |
| PutPlan.TargetsDistinctDecided | cmd/sshc/sftp_plan.go:431-493 | No remote path is the target of two uploads if and only if no directory that is entered has two entries to be taken under one name, whatever its links lead to. |
| PutPlan.EnsuredDecided | cmd/sshc/sftp_plan.go:560-579 | The directories of a successful plan can all be ensured if and only if the root can, the lookups are answered, what is missing may be created, and none that is there is a link. |
| PutPlan.LinkNotEnsured | cmd/sshc/sftp_plan.go:566-568 | A server with a link to a directory where one is planned: the plan is made, its directories cannot be. |
| PutPlan.NeverInsideItself | cmd/sshc/sftp_plan.go:436-445 | Of the directories on the way to an entered one, no two are the same behind their links. |
| PutPlan.FewPlacesNeverTooDeep | cmd/sshc/sftp_plan.go:431-445 | When all links lead to at most 256 places, an upload is never refused for being too deep. |
| PutPlan.TooDeep | cmd/sshc/sftp_plan.go:432-434 | Behind a refusal for depth stands a folder one level deeper than allowed, reached without entering any directory inside itself. |
| UploadRanges.ValidRanges | cmd/sshc/sftp_transfer.go:419-437 | Accepts exactly the ranges that are ordered with gaps, aligned, inside the upload and sum to the transferred amount; no sum overflows an int64. |
| UploadRanges.ExactlyOnceDecided | cmd/sshc/sftp_transfer.go:419-454 | For accepted ranges, completed and missing chunks cover every byte of a file of any size exactly once if and only if the ranges are well placed for that size, as they are for the upload's own. |
| UploadRanges.ReplyDecided | cmd/sshc/sftp_transfer.go:360-368 | For an accepted reply, every byte of the planned file is covered exactly once if and only if its ranges are also well placed for the planned size, as they are when the reply has that size. |
| UploadRanges.OtherSizeSentTwice | cmd/sshc/sftp_transfer.go:360-368 | An accepted reply whose size is another than the planned one, by which a byte is covered twice. |
| UploadRanges.HeldIsCovered | cmd/sshc/sftp_transfer.go:441-450 | A completed range that holds a byte holds the whole chunk of that byte. |
| UploadRanges.MissingAmount | cmd/sshc/sftp_transfer.go:439-454 | The missing sizes sum to the total minus what was transferred. |
| UploadRanges.MissingRanges | cmd/sshc/sftp_transfer.go:439-454 | The loop finds exactly the missing chunks; the start that follows is the size rounded up to chunks as an int64, and is negative exactly when that is no int64. |
| UploadRanges.WrappedRange | cmd/sshc/sftp_transfer.go:441-454 | After a start that wrapped, the loop goes on with a range of negative start and negative size, which no completed range covers. |
| UploadRanges.LargestFileWraps | cmd/sshc/sftp_transfer.go:441-442 | A file of 2^63-1 bytes in chunks of 2: the next start is -2^63 and its size -1. |
| UploadSequential.SendRest | cmd/sshc/sftp_transfer.go:360-411 | What is sent is the next bytes of the file at their own offsets, whatever fails; it completes, with the whole planned rest sent, exactly when the start is inside the file, the file is long enough and every piece is confirmed by the offset behind it. |
| FileWorkers.EverySchedule | cmd/sshc/sftp_transfer.go:104-142 | On every schedule: at most min(jobs, files) transfers at once, no file given twice, a bounded number of steps and always one to take, the first cause as the result, and nil only if every file was transferred exactly once. |
| FileWorkers.StepInv | cmd/sshc/sftp_transfer.go:104-142 | Every step of producer, workers, failures and cancellation keeps the invariant. |
| FileWorkers.Progress | cmd/sshc/sftp_transfer.go:104-142 | Until the call returns, the producer or a worker can move. |
| RangeWorkers.EverySchedule | cmd/sshc/sftp_transfer.go:455-495 | On every schedule: no chunk sent twice, no failure lost to a full channel, no deadlock; the result is the first failure or else the caller's cancellation, and nil only if every missing chunk was sent exactly once. |
| RangeWorkers.StepInv | cmd/sshc/sftp_transfer.go:455-495 | Every step keeps the invariant. |
| RangeWorkers.Progress | cmd/sshc/sftp_transfer.go:455-495 | Until the call returns, some step is possible. |
| Tar.ReadTarFiles | demo/src/tar-archive.js:5-34 | The loop ends and returns what the recursive reading of the archive does, or its error. |
| Tar.AcceptedIsSafe | demo/src/tar-archive.js:9-33 | In every accepted archive the bodies are in-bounds slices, in order and disjoint, and the paths are distinct, without empty, "." or ".." parts. |
| Tar.RoundTrip | demo/src/tar-archive.js:5-47 | For entries with safe distinct paths, directories among them, reading what a ustar writer produces gives exactly the regular files, in order, with their own paths and bytes, if and only if no field of a regular entry starts with a byte order mark. |
| Tar.ArchiveRead | demo/src/tar-archive.js:9-31 | Any written archive is accepted exactly when the paths without such marks are safe and distinct, and then gives the files under those paths. |
| Tar.MarkedEntries | demo/src/tar-archive.js:23-28 | A file whose name starts with the mark comes back under another name; a directory of that name does no harm. |
| Tar.HeaderRead | demo/src/tar-archive.js:10-18 | A written header passes the checksum and gives back size, kind and the path without leading marks. |
| Tar.FieldReadDecided | demo/src/tar-archive.js:36-39 | A text field comes back exactly when its text has no NUL and no leading byte order mark. |
| Tar.OctalRead | demo/src/tar-archive.js:41-47 | Octal digits followed by NUL read back as their number. |
| ArchiveCache.NeverFalselyComplete | demo/src/archive-cache.js:18-40 | After any history of runs, finished, failed or cut off between any two operations, a cache that passes the completeness test with the archive's real count holds every file with its own bytes. |
| ArchiveCache.RunInv | demo/src/archive-cache.js:18-40 | One run keeps the invariant wherever it stops, deletions in any order included. |
| ArchiveCache.CompleteIsCached | demo/src/ui-archive.js:9-13 | The completeness test is right about every cache that the invariant describes. |
| ArchiveCache.CompletesDecided | demo/src/archive-cache.js:18-40 | A visit with a usable archive that neither fails nor is cut off leaves a cache that passes its own test if and only if the files resolve to addresses of their own, none of them the marker's. |
| ArchiveCache.MarkerDecided | demo/src/archive-cache.js:18-40 | Whatever readable archives there are, the completeness test is right after every history if and only if no path that an archive may have resolves to the marker. |
| ArchiveCache.OwnMarkerClashes | demo/src/ui-cache-addresses.js:6-8 | Below any base address the reader accepts the marker's own name as a path, and there are readable archives for which the test is wrong. |
| ArchiveCache.MarkerFileBreaks | demo/src/archive-cache.js:29-38 | With a file at the address of the marker, a run cut off before the marker leaves a cache that passes for another archive, a readable and usable one, and lacks its files. |
| ArchiveCache.CacheStorage.Prepare | demo/src/ui-archive.js:9-21 | The entries after a visit are those of the run, whichever operation throws or is the last. |
| ArchiveCache.CacheStorage.Populate | demo/src/archive-cache.js:29-38 | Old keys are deleted, files put, and only then the marker. |
| ArchiveCache.DownloadArchive | demo/src/archive-cache.js:42-62 | The stream is accepted exactly when it has the declared size, and never more than that is kept. |
| PasswordUnix.ReaderRefinesEditor | cmd/sshc/vault_terminal_unix.go:103-204 | On every text the bytes held, the asterisks reported and the outcome are those of an editor on whole characters. |
| PasswordUnix.EraseLastCharacter | cmd/sshc/vault_terminal_unix.go:206-218 | Erasing removes exactly the last character of a text. |
| PasswordUnix.EraseLastSymbol | cmd/sshc/vault_terminal_unix.go:206-218 | On any bytes one erase removes exactly the last character, or a byte that is part of none. |
| PasswordUnix.ReportedDecided | cmd/sshc/vault_terminal_unix.go:147-162 | On any bytes the number reported is that of the characters, once no byte is part of none. |
| PasswordUnix.NeverTooLong | cmd/sshc/vault_terminal_unix.go:176-204 | On any bytes at all the buffer stays within 4096. |
| PasswordUnix.PasswordBuffer.EraseLastRune | cmd/sshc/vault_terminal_unix.go:206-218 | In place: what is cut off is cleared and the rest is as specified. |
| PasswordUnix.PasswordBuffer.Consume | cmd/sshc/vault_terminal_unix.go:176-204 | In place: one byte does what the specification says, in each of its cases. |
| PasswordUnix.PasswordBuffer.Report | cmd/sshc/vault_terminal_unix.go:147-162 | The screen shows one asterisk for each character, once all are whole. |
| PasswordUnix.ReadPassword | cmd/sshc/vault_terminal_unix.go:103-174 | The read loop returns what feeding the bytes one by one gives. |
| PasswordMask.MaskedPrompt.Feedback | cmd/sshc/vault.go:280-292 | After any change of the count the line is the caption and exactly that many asterisks. |
| PasswordMask.ErasesStars | cmd/sshc/vault.go:285-289 | Backspace, space, backspace, repeated, takes the asterisks away one by one. |
| PasswordWindows.ReaderRefinesEditor | cmd/sshc/vault_terminal_windows.go:75-231 | On every stream of key events, from any state, what is held, the asterisks and the outcome are those of an editor on characters and lone halves of surrogate pairs. |
| PasswordWindows.TextTyped | cmd/sshc/vault_terminal_windows.go:194-231 | A text that arrives unit by unit, with any ignored events in between, is what is held, and Enter returns its UTF-8 form or that it is too long. |
| PasswordWindows.TypedDecided | cmd/sshc/vault_terminal_windows.go:198-231 | A key down that carries a character to be typed, and fits, adds it exactly when it is not the key of C, D or U with Ctrl down. |
| PasswordWindows.AltGrCancels | cmd/sshc/vault_terminal_windows.go:198-203 | AltGr+C that types U+0107 cancels; the same character without Ctrl is added. |
| PasswordWindows.KeypadCommands | cmd/sshc/vault_terminal_windows.go:198-219 | Ctrl with the keypad's 3 or 4 or F6 cancels, ends or clears. |
| PasswordWindows.EncoderDecided | cmd/sshc/vault_terminal_windows.go:252-280 | The encoder succeeds exactly on well-formed UTF-16 whose UTF-8 form fits in 4096 bytes, and then gives the UTF-8 of the same characters. |
| PasswordWindows.RuneCountDecided | cmd/sshc/vault_terminal_windows.go:182-192 | On any units the counter is the number of characters and lone halves. |
| PasswordWindows.AppendUnit | cmd/sshc/vault_terminal_windows.go:227-230 | A unit that is added completes a lone high half at the end or stands as a symbol of its own; nothing before changes. |
| PasswordWindows.EraseLastSymbol | cmd/sshc/vault_terminal_windows.go:240-250 | One erase removes exactly the last character, or a lone half, whatever is held. |
| PasswordWindows.SubmitDecided | cmd/sshc/vault_terminal_windows.go:252-280 | What is returned is decided by the characters before the first lone half: too long, ill-formed, or their UTF-8 form. |
| PasswordWindows.UnitBuffer.Consume | cmd/sshc/vault_terminal_windows.go:194-231 | In place: one key event does what the specification says, in each of its cases. |
| PasswordWindows.UnitBuffer.Truncate | cmd/sshc/vault_terminal_windows.go:240-250 | Units cut off are cleared in place. |
| PasswordWindows.UnitBuffer.Count | cmd/sshc/vault_terminal_windows.go:182-192 | The counting loop computes the count specified. |
| PasswordWindows.UnitBuffer.EncodePassword | cmd/sshc/vault_terminal_windows.go:252-280 | The encoding loop computes the result specified, or fails with its error. |
| PasswordWindows.ReadPassword | cmd/sshc/vault_terminal_windows.go:75-180 | The read loop returns what feeding the events one by one gives; at the end the storage is all zero if and only if no units are held then. |
| PasswordWindows.PasswordStays | cmd/sshc/vault_terminal_windows.go:134-179 | After the letter a and Enter the password is read and its unit is still held. |
| Json.StringRead | cmd/sshc/vault.go:536-579 | Reading a written string gives back its characters, whatever follows it. |
| Json.ObjectRead | cmd/sshc/sync_setup.go:313-366 | Reading a written object gives back its members in order. |
| VaultJson.StringSize | cmd/sshc/vault.go:502-534 | The size function fails exactly on invalid UTF-8; otherwise it is the length that the writer writes. |
| VaultJson.AppendString | cmd/sshc/vault.go:536-579 | The writer fails exactly on invalid UTF-8; otherwise it appends the string and never grows its buffer. |
| VaultJson.ObjectSize | cmd/sshc/sync_setup.go:313-336 | The total computed beforehand is the length of the object, and fails exactly on a field that is not valid UTF-8. |
| VaultJson.BuildZeroJson | cmd/sshc/sync_setup.go:313-366 | What is built decodes to the fields in order; the buffer never grows and the final length check never fails. |
| VaultJson.PassphrasePayload | cmd/sshc/vault.go:452-472 | The payload is refused exactly for invalid text or for its size; otherwise it is the object with that passphrase. |
| VaultJson.ChangePayload | cmd/sshc/vault.go:474-500 | The same for the current and the next passphrase. |
| EngineLifecycle.AtMostOneEngine | mobile/sshc.go:82-184 | Over all interleavings, whenever the mutex is free, only the engine that the cancel function stops can be unfinished, and none when there is no such function. |
| EngineLifecycle.ReportsAreTrue | mobile/sshc.go:82-184 | Every failed start has waited for its engine to end; a failure is reported with its own cause, and "stopped early" only for an engine that returned nil or Canceled. |
| EngineLifecycle.NeverStuck | mobile/sshc.go:82-184 | The holder of the mutex can move, or the engine it waits for can. |
| EngineLifecycle.StepInv | mobile/sshc.go:82-268 | Every step of Start, Stop, the engine's goroutine, the announcement and the probe keeps the invariant. |
| EngineLifecycle.HeldBriefly | mobile/sshc.go:82-184 | Over all interleavings, no call holds the mutex for more than 13 steps of its own and of the goroutines. |
| BlockedPrograms.EveryRun | mobile/blocked_programs.go:29-52 | In every run of adds and takes a session has at most one change pending, and what was taken for it and is pending is some of what was added, in order, ending with the latest. |
| BlockedPrograms.DrainedIsLatest | mobile/blocked_programs.go:29-52 | A session with nothing pending: the last change taken for it is its latest. |
| BlockedPrograms.NeverOvertaken | mobile/blocked_programs.go:29-52 | A session at position i goes with the (i+1)th take, however many adds come between. |
| BlockedPrograms.BlockedProgramQueue.Add | mobile/blocked_programs.go:29-40 | A change not taken yet is replaced where it stands, else the new one is appended. |
| BlockedPrograms.BlockedProgramQueue.Take | mobile/blocked_programs.go:42-52 | The first change is taken and the others stay in order. |
| CommandOptions.Parse | cmd/sshc/command_options.go:69-111 | The index loop computes the reading of the arguments from the front, or its refusal. |
| CommandOptions.ParseWithoutPositionals | cmd/sshc/command_options.go:113-122 | The same, refused further exactly for a positional. |
| CommandOptions.ParseInvertsWriting | cmd/sshc/command_options.go:69-111 | A result is read from an argument list exactly when the list can be written for it: options in any order, by any spelling, values in either form, positionals between them, and a tail behind the delimiter. |
| CommandOptions.LineRead | cmd/sshc/command_options.go:69-111 | A line of well-formed pieces is read as the one result that they mean, and is refused as a repetition exactly when an option is given twice, an alias included. |
| CommandOptions.WritingDoesNotMatter | cmd/sshc/command_options.go:69-111 | Two lines with the same positionals, tail and given options read alike, whatever the order, spelling and form of values. |
| CommandOptions.FormsInterchangeable | cmd/sshc/command_options.go:87-108 | A value behind the option's word and a value behind an equals sign, by whatever spellings, are read alike. |
| CommandOptions.EverySpellingWorks | cmd/sshc/command_options.go:124-136 | In a table of distinct spellings, each name and alias stands for its own option. |
| ServiceUnit.UnitDecidesPath | cmd/sshc/service_linux.go:261-287 | The path can be read back from the unit, so two accepted executables have the same unit exactly when their cleaned paths are equal. |
| ServiceUnit.EscapeRead | cmd/sshc/service_linux.go:268-273 | Escaping is undone by reading a quoted word, whatever follows its closing quote. |
| ServiceUnit.PathStaysOnItsLine | cmd/sshc/service_linux.go:265-273 | What is written for an accepted path has no control character, so it stays on its line. |
| ServiceUnit.UnchangedDecided | cmd/sshc/service_definition_unix.go:40-66 | A snapshot tells the file apart from every other, an empty file from none included. |
| ServiceUnit.OutdatedDecided | cmd/sshc/service_definition_unix.go:108-135 | A managed unit is current exactly when it is the fixed text around something that is not empty. |
| ServiceUnit.ExtraLineIsCurrent | cmd/sshc/service_definition_unix.go:108-135 | A unit with lines of its own in the middle, which sshc writes for no executable, is called current. |
| ServiceUnit.RestartDecided | cmd/sshc/service_definition_unix.go:83-106 | A unit written for one executable is never called outdated; a restart for another is planned exactly when the cleaned paths are equal and refused as a mismatch otherwise. |
| Picker.FilterHosts | cmd/sshc/tui.go:73-94 | The hosts shown are exactly those that contain every word, in order. |
| Picker.TuiModel.Move | cmd/sshc/tui.go:104-116 | The selection moves and stays among the rows. |
| Picker.TuiModel.Feed | cmd/sshc/tui.go:129-164 | One read of the terminal does what its keys do, one after the other, up to the one that ends the picker. |
| Picker.TuiModel.PressKey | cmd/sshc/tui.go:179-215 | One byte does what the specification says, in each of its cases. |
| Picker.SequenceIsNoText | cmd/sshc/tui.go:126-164 | A whole escape sequence in a read is at most one key, and none of its bytes reach the search. |
| Picker.SelectionInRange | cmd/sshc/tui.go:102-215 | Whatever is typed, the selection is the first row or a row there is, and the picker ends with no alias or that of the selected row. |
| Picker.Rows | cmd/sshc/tui.go:231-248 | For every height the rows shown are in bounds, as many as fit, and include the selected one. |
| Picker.QueryIsText | cmd/sshc/tui.go:129-214 | On every read of whole characters, Esc among them, the search is what an editor holds that drops whole sequences and the first byte of a character typed with Alt, while the picker goes on. |
| Picker.EraseLastSymbol | cmd/sshc/tui.go:197-204 | Backspace takes exactly the last character away, or a byte that is part of none, whatever bytes the search holds. |
| Picker.AltDecided | cmd/sshc/tui.go:138-142 | A character typed with Alt is dropped whole exactly when it has one byte; otherwise its other bytes are typed and the search is no text. |
| Picker.AltLeavesByte | cmd/sshc/tui.go:138-142 | Alt with U+00E9 leaves the byte A9, which is not valid UTF-8. |
| Picker.TextKeptDecided | cmd/sshc/tui.go:129-214 | From a search that is text, it is text wherever the read stops if and only if no character of several bytes is typed with Alt. |

## Left out

- GetPlan.Walk: the memo's stored listing is sorted in place by the source; here the sorted order is the walk's own, and entries of one name keep their order, which the source's sort need not keep. For a listing that names an entry twice the order in the plan, and which of two refusals comes first, may differ; whether there is one does not (`GetPlan.TreeDecided`, `GetPlan.Walk`).
- Paths: remote and local paths in plans are sequences of components, so joining and cleaning of path strings is not part of those modules (`GoText.Clean` models it where strings are compared).
- GetPlan.Build: resolving `~`, the single-file case and naming a child after the source are single branches around the walk, as they are for PutPlan.Build.
- PutPlan.PutWalk.Directory: the sum of local file sizes is unbounded here; the memo's inference is taken to be right, that is, nothing exists below a directory that does not exist.
- Parsing XML, `strings.ToLower`, `strings.EqualFold` and `strconv.IsPrint`: taken as given; a registered task is the tree that parsing its XML yields, up to white space between elements. Namespaces of elements and attributes are not compared by the source and not part of the tree.
- ServiceUnit.EscapeRead: reading is the inverse of what sshc writes; how systemd reads a unit is not part of this model.
- ServiceUnit.OutdatedDecided: the launchd property list is judged by the same code with another template and is not modelled.
- Picker.TuiModel.Feed: a sequence split over two reads is dropped up to the end of the first, as in the source; nothing is claimed about the rest. Drawing, widths and colours are left out.
- BlockedPrograms.BlockedProgramQueue.Take: waiting on the condition variable is modelled as the step being possible only when something is pending.
- Two tabs writing one cache at once, and the configuration check after the marker.
- Context deadlines, HTTP, SFTP and console calls, process launch, redaction of failure texts, help texts and exit codes.
- The field lists of the sync setup requests: their writer is modelled for any fields.
