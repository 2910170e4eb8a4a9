# Rotating file handler, modelled in Dafny

This project models `RotatingFileHandler` from the Rust crate
`rotating_file_handler`. The handler appends binary records to a live log
file. When the next record would push the file past `max_bytes`, it first
rotates. Rotation shifts the numbered backups `.0 … .(backup_count-1)` up one
slot, renames the live file to `.0`, recreates the live file and writes the
optional header into it again.

The filesystem is a map from a `Key` to a byte sequence. The key is `Live`
(the base path) or `Backup(i)` (the path with suffix `.i`).

- `exists` is map membership.
- `rename` fails when the source is missing. Otherwise it removes the source
  and overwrites the destination.
- Opening in append/create mode adds an empty file if none is there.
- `write_all` appends.

Files:

- `fs.dfy` (module `Fs`): bytes, keys, the rename/create/append primitives as
  functions, and a `FileSystem` class whose methods update its `files` map.
- `rotation.dfy` (module `Rotation`): the behaviour of `new`, `rotate` and
  `emit` as functions of the files and the size counter, with the lemmas
  about them. These cover the strict `>` threshold, the descending shift,
  eviction of the oldest backup, the header, size accounting and the error
  paths. `ShiftDown` is the shift loop as a recursion. `ShiftedEntry` states
  the loop's result for each slot without the loop. `ShiftDownEntry` proves
  the two agree, by induction.
- `handler.dfy` (module `Handler`): the class `RotatingFileHandler`. It has
  the configuration fields, the mutable `currentSize` and a reference to the
  shared `FileSystem`. `New`, `Rotate`, `Emit`, `Write` and `Flush` are
  imperative methods. `Rotate` keeps the source's descending `for` loop, with
  a loop invariant. Each method is proved to leave exactly the state that the
  matching `Rotation` function gives for the old state.
- `scenarios.dfy` (module `Scenarios`): the repository's unit tests as client
  methods on a fresh, empty filesystem. Each one states the exact file
  contents it ends with. Records of the right length stand for the tests'
  literal ASCII strings. Further scenarios cover the header, a rejected
  header and a missing live file.

Behaviour that is kept as the code has it:

- `new` opens or creates the live file before it checks the header length.
  A rejected header therefore still leaves the live file behind.
- A successful `new` appends the header to whatever the file already held.
  It then sets the counter to the full length on disk, header included.
- After a rotation the header is written but not counted, because the counter
  is reset to 0. After the next append the live file is longer than the
  counter by the header's length. So after a rotation the counter is not the
  live file's on-disk length; the model follows the code.
- An oversized header is reported with the `InvalidInput` error kind.
- The rename of the live file to `.0` does not check that the file exists.
  If it is missing, the rotation fails after the shifts have run, so they
  stay applied. The counter keeps its value and `emit` returns the error
  without appending.
- If the live file is removed while the handler runs, the open handle still
  refers to the unlinked file. Appends then succeed but change nothing
  visible (`Fs.Appended`).

## Model

| member | source | states |
|---|---|---|
| `Fs.Renamed` | src/lib.rs:100 | rename succeeds exactly when the source exists; afterwards the destination holds the source's old contents, the source is gone, every other file is unchanged |
| `Fs.Created` | src/lib.rs:104-107 | opening with create keeps an existing file's contents and creates a missing one empty; no other file changes |
| `Fs.Appended` | src/lib.rs:131 | writing through the live handle appends the bytes to that file and changes no other file |
| `Fs.FileSystem.Exists` | src/lib.rs:99 | reports whether the path is present |
| `Fs.FileSystem.Rename` | src/lib.rs:100 | the filesystem becomes `Renamed` of the old one when the source exists, is unchanged otherwise; the result says which |
| `Fs.FileSystem.OpenAppend` | src/lib.rs:66-69 | the filesystem becomes `Created` of the old one |
| `Fs.FileSystem.WriteAll` | src/lib.rs:131 | the filesystem becomes `Appended` of the old one |
| `Fs.FileSystem.Len` | src/lib.rs:79 | returns the length on disk of an existing file |
| `Rotation.ShiftStep` | src/lib.rs:97-101 | one iteration of the shift loop: when backup i-1 exists it moves to slot i, slot i-1 becomes empty and nothing else changes; when it is missing nothing changes |
| `Rotation.ShiftDown` | src/lib.rs:96-102 | the shift loop's iterations i, i-1, ..., 1 in that descending order: the live file and every slot above i are untouched, and slot 0 ends empty once any iteration ran |
| `Rotation.Shifted` | src/lib.rs:96-102 | the whole shift loop for a backup count (no iteration when the count is 0 or 1): the live file and every slot at or beyond the count are untouched; with a count of 2 or more slot 0 ends empty |
| `Rotation.ShiftedEntry` | src/lib.rs:96-102 | the loop's result per key, written without the loop: slot j < count gets the old slot j-1; slot 0 is emptied when count >= 2; a slot whose predecessor was missing is emptied, except the last, which keeps its contents; the live file and slots at or beyond the window are unchanged |
| `Rotation.Rotate` | src/lib.rs:94-113 | rotation (shift, unchecked rename of the live file to slot 0, recreate the live file, write the header, reset the counter): it succeeds exactly when the live file exists; on failure the error is NotFound and the counter is kept; on success the counter is 0 and a live file exists |
| `Rotation.Emit` | src/lib.rs:127-134 | emit (rotate first when counter plus length strictly exceeds the maximum, then append and count): an error happens only when that rotation was due and the live file is missing, and then it is NotFound with the counter kept; on success the counter covers at least the new bytes |
| `Rotation.Open` | src/lib.rs:60-88 | construction (open or create the live file, reject an oversized header, append the header): a live file always exists afterwards; the only error is InvalidInput; on success the counter is the live file's full length on disk |
| `Rotation.StepEntry` | src/lib.rs:96-102 | one iteration (slot i-1 to slot i) followed by the closed form for the lower iterations equals the closed form for iterations i down to 1 |
| `Rotation.ShiftDownEntry` | src/lib.rs:96-102 | the shift loop run from i down to 1 leaves every key exactly as `ShiftedEntry` says; proved by induction on i |
| `Rotation.ShiftedClosedForm` | src/lib.rs:96-102 | the whole shift for a backup count, including counts 0 and 1 where the loop does nothing, agrees with `ShiftedEntry` at every key |
| `Rotation.RotateMissingLive` | src/lib.rs:96-103 | with no live file, rotation fails with NotFound after the shifts, which stay applied; no live file appears and the counter is unchanged |
| `Rotation.RotateWithLive` | src/lib.rs:103-111 | with a live file, rotation succeeds; slot 0 holds the old live contents (also when backup count is 0 or 1); the live file holds exactly the header (or nothing); the counter is 0; no slot at or beyond max(backup count, 1) changes |
| `Rotation.RotateShiftsChain` | src/lib.rs:96-102 | within the window slot j receives the old slot j-1 when that existed, so the old last backup is overwritten; a slot whose predecessor was missing becomes empty, except the last slot, which keeps its contents |
| `Rotation.ShiftedChain` | src/lib.rs:96-102 | files that agree with the shift's closed form on every slot from 1 up have slot j holding the old slot j-1 inside the window, an empty slot after each missing predecessor, and the last slot kept when its predecessor was missing |
| `Rotation.RotatedBackups` | src/lib.rs:96-107 | after a successful rotation every backup slot from 1 up holds what the shift loop left there |
| `Rotation.RotateKeepsGapFree` | src/lib.rs:96-103 | a successful rotation of a chain without gaps leaves a chain without gaps |
| `Rotation.ShiftedHasPredecessor` | src/lib.rs:96-102 | after shifting a chain without gaps, every occupied slot j >= 2 has an occupied slot j-1 |
| `Rotation.FailedRotateLeavesGap` | src/lib.rs:99-103 | a rotation that fails on a missing live file can leave a gap: slot 0 moves to slot 1 and nothing fills slot 0 |
| `Rotation.EmitWithoutRotation` | src/lib.rs:128-133 | when counter plus length is at most the maximum, emit succeeds; no backup changes; the bytes are appended to the live file; the counter grows by their length |
| `Rotation.EmitWithRotation` | src/lib.rs:128-133 | when counter plus length strictly exceeds the maximum and the live file exists, emit rotates once and then appends; slot 0 is the old live file, the live file is header then bytes, the counter is the bytes' length, each backup moves up one slot |
| `Rotation.EmitMissingLive` | src/lib.rs:128-129 | past the threshold with no live file, emit returns NotFound, applies only the shifts, appends nothing and keeps the counter |
| `Rotation.EmitFailsOnlyWithoutLive` | src/lib.rs:128-133 | emit fails if and only if it must rotate and the live file is missing |
| `Rotation.EmitKeepsWindow` | src/lib.rs:96-103 | emit never changes a backup at or beyond max(backup count, 1), so it preserves "every backup lies in the window" |
| `Rotation.EmitSizeAccounting` | src/lib.rs:104-132 | a successful emit keeps the live-length-minus-counter difference when it does not rotate, and sets it to the header length when it does |
| `Rotation.NoHeaderCounterIsLength` | src/lib.rs:79-132 | without a header the counter equals the live file's length after construction and after an emit |
| `Rotation.OpenRejectsLongHeader` | src/lib.rs:66-76 | construction fails with InvalidInput exactly when the header is longer than max_bytes, and the live file has been opened or created even then |
| `Rotation.OpenAppendsHeader` | src/lib.rs:66-79 | successful construction appends the header to the live file's previous contents and starts the counter at the full length; nothing else changes |
| `Rotation.ReopenAccounting` | src/lib.rs:66-132 | reopening an N-byte file without a header and emitting M bytes with N + M <= max rotates nothing and leaves the old contents followed by the bytes |
| `Handler.RotatingFileHandler.Init` | src/lib.rs:80-87 | the new handler holds the given configuration, filesystem and counter |
| `Handler.RotatingFileHandler.New` | src/lib.rs:60-88 | the filesystem and the outcome are those of `Open`; on success the handler is fresh, has the given configuration and starts the counter at `Open`'s size |
| `Handler.RotatingFileHandler.Rotate` | src/lib.rs:94-113 | the descending loop of existence-checked renames, then the unchecked rename, recreation and header write, leave the files, counter and outcome that `Rotation.Rotate` gives |
| `Handler.RotatingFileHandler.Emit` | src/lib.rs:127-134 | files, counter and outcome are those of `Rotation.Emit`; it fails exactly when it must rotate and the live file is missing; it preserves "every backup lies in the window" |
| `Handler.RotatingFileHandler.Write` | src/lib.rs:151-154 | same effect on files and counter as emit; on success returns the buffer length, on failure emit's error |
| `Handler.RotatingFileHandler.Flush` | src/lib.rs:163-165 | always succeeds and changes nothing |
| `Scenarios.RotationOnMaxFileSize` | src/lib.rs:176-196 | max 10, 3 backups, four 5-byte records: live is records 3 and 4, slot 0 is records 1 and 2, there is no slot 1 |
| `Scenarios.RotationOnMaxCount` | src/lib.rs:206-225 | max 10, 2 backups, four 10-byte records: live is record 4, slot 0 record 3, slot 1 record 2, no slot 2 |
| `Scenarios.EmitConcatenates` | src/lib.rs:235-244 | two emits that fit within 50 bytes give their concatenation and no backup |
| `Scenarios.WriteConcatenates` | src/lib.rs:248-257 | the same through `Write`, and each write reports its whole buffer |
| `Scenarios.HeaderOnEveryIncarnation` | src/lib.rs:104-111 | with header h, an emit that overflows leaves slot 0 = h and live = h followed by the record, with the counter at the record's length |
| `Scenarios.RejectedHeaderLeavesLiveFile` | src/lib.rs:66-76 | an oversized header gives InvalidInput and leaves an empty live file on an empty filesystem |
| `Scenarios.MissingLiveFileFails` | src/lib.rs:103 | after the live file is removed, each rotating emit fails with NotFound; the first moves slot 0 to slot 1; the counter is unchanged |

## Left out

- Flushing: the map-based filesystem has no buffers, so `flush` (also the
  first step of `rotate`) always succeeds and changes nothing.
- Operating-system failures such as permission errors or a full disk, and the
  kinds and messages of `io::Error`. The model has only the two deterministic
  failures: the oversized header (`InvalidInput`) and the missing live file at
  rename (`NotFound`). Opening, writing and reading metadata never fail here.
- Path strings and `format!("{}.{}", …)`: paths are the keys `Live` and
  `Backup(i)`, so a base path that collides with a backup name is not modelled.
- A live path replaced by another file behind the handler's back. The model
  covers only a removed live file, whose handle then writes to the unlinked
  file.
- Rust `u64` and `usize` overflow of the counter and the sizes: they are `nat`.
- The `write!`/`fmt` machinery of the test for the `Write` trait, the doc
  example and the tests' file cleanup.
- Concurrency and several processes sharing the files; the code does no
  locking.
