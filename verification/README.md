# pgfs: a verified model of the store, the rename and the inode maps

pgfs keeps a filesystem in two PostgreSQL tables, `entries` (one row per file or directory) and
`blocks` (sparse 64 KiB rows of file content), both keyed by directory path and name, with an
in-memory inode table and per-handle write-back buffers on top. This project models that stack in
layers and proves that it behaves as a tree of flat byte files, or says exactly when it does not.

| file | part of the system |
|---|---|
| `Base`, `Paths` | optional values, the `as i32` cast; joining and splitting paths, "strictly under", the prefix rewrite |
| `Cascade` | the SQL of a directory rename: `LIKE`, `substring`, byte lengths |
| `Chunks` | one file's rows as one flat, zero-filled byte array: write, truncate |
| `Schema` | the two tables, well-formed trees, what each statement does to them |
| `Relabel`, `Renaming` | `UPDATE` of key columns as a collision-free relabelling; the rename transaction |
| `CascadeLimits` | exactly when a directory rename's SQL is right, for one tree and for all |
| `Database` | class `Db`: each database operation, step by step, as one transaction |
| `WriteBack` | class `HandleBuffer`; buffered writes compared with direct writes |
| `Inodes` | the path and inode maps, their re-keying loop, and rename on both representations |
| `Operations`, `Refinement` | the filesystem operations on the tables, and their refinement of a tree of flat files |
| `Mount` | tables, inode maps and open handles together, over runs of callbacks |
| `Fs` | class `PgFs`: the FUSE callbacks; those that change the tree give the tables and maps of a step of `Mount` |
| `Replica`, `Heartbeat` | two timed protocols: the freshness cache and the liveness check |

Main results:

- Over every run of create, mkdir, write, flush, set-size, unlink, rmdir and rename the tables
  simulate a tree of flat files and give the same replies (`RunSimulates`). A shrink to a block
  boundary leaves one block of old bytes behind; the abstract file carries those offsets as its
  residue, and runs without such a shrink read back exactly (`RunExact`).
- The rename callback's checks suffice for the rename transaction: its statements succeed and give
  the renamed tree (`ChecksSuffice`, `StatementsRename`). Of those checks the one on the source's own
  subtree is needed: with everything else given the statements leave a tree if and only if the new
  path is not under the old one (`StatementsNeed`); the check that the target is of the source's kind
  only serves the reply. The reply is the POSIX one except exactly when a path that does not exist is
  renamed to itself (`PosixReplyExact`). For a directory the SQL is right, in every order in which PostgreSQL may
  update rows, if and only if its `LIKE` pattern and its cut by byte length fit every stored row
  (`StatementsExact`); it is right in every tree if and only if the directory's path is ASCII without
  `%`, `_` and backslash (`CascadeSafeExact`, with a well-formed tree that goes wrong for every other
  path). The whole-run results need the fit for the rows at hand, not a safe path.
- Over every run of callbacks an inode resolves, through the maps and the tables, to its entry
  wherever renames took it, and reading through it shows the abstract file (`InodeReads`); after
  unlink or rmdir has removed its entry it never resolves again (`RemovedStaysUnknown`). Bytes written
  through a handle and then flushed are what a read through the inode shows, whatever ran in between,
  if the file is still at the key it was opened with (`PutSyncRead`); if it has moved they leave it
  unchanged (`HandleReaches`), and whatever file is at that key gets them (`HandleStrays`).
- Buffering and flushing shows the same file as writing directly if and only if every visible byte
  of a touched block that no write covers was already zero (`FlushVersusDirect`).
- A read routed by the freshness verdict misses at most the last 500 ms of WAL before its reading of
  the clock, so one answered within d ms of that at most the last 500 + d ms before the answer
  (`BoundedStaleness`), and for every d no smaller bound holds (`TtlIsTight`). A liveness check never reports a stall falsely if and
  only if the beat gap and the delay between its two readings together fit 30 s (`NoFalseAlarmExact`).

Behaviours that differ from what one may expect are modelled as they are, with the exact condition:
stale bytes after an aligned shrink (`ShrinkTail`, `AlignedShrinkResurfaces`), bytes lost by a flush
(`FlushVersusDirect`), an inode left behind as a second name when a target that has one is replaced,
which even files created later at that path are reached through (`ReplacedInodeAliases`,
`AliasesExactly`, `InternAliasesExactly`, `ReplacedInodeLingers`), orphaned rows when a dirty handle is flushed after its
file was unlinked or moved (`FlushWellFormedExact`, `FlushAfterUnlink`, `FlushAfterRename`), a
truncate that does not reach a handle's buffer (`BufferOutlivesTruncate`), and the i32 cast above
2^47, where a write that starts below visits no block while the size still grows (`CodeRowsExact`),
a read may find no row (`ReadBoundExact`) and a shrink may cut the wrong rows (`ShrinkKeepsExact`).

Where code and documentation disagree the code is followed: `MANUAL.md` and `spec/app.py` describe
whole-file blobs in the `data` column, but content is stored in `blocks` only; `spec/replica.py`
says file reads are served from a fresh standby, but `read_range` always reads the primary
(`src/db.rs:524-533`).

What the kernel guarantees its callers is the predicate `Operations.Enabled`: names are valid, a
directory inode it passes exists, `unlink` names no directory and `rmdir` no file, writes go to existing
files. The same predicate keeps writes and shrinks below 2^47 bytes, a flush to a key that names a
file unless the buffer is clean, and a directory that is about to be renamed to one whose rows the
cascade fits; the members above say what happens outside those bounds.

## Model

| member | source | states |
|---|---|---|
| `Paths.RFind` | src/fs.rs:115 | the index found is that of the last occurrence, and none is reported only if there is none |
| `Paths.SplitJoin` | src/fs.rs:114-119 | splitting undoes joining for every slash-free, non-empty name under any parent string |
| `Paths.JoinSplit` | src/db.rs:248-254 | joining undoes splitting for every path except exactly those whose only slash is the first character |
| `Paths.PathInjective` | src/db.rs:248-254 | two keys with valid names and the same full path are the same key |
| `Paths.UnderJoin` | src/fs.rs:648 | an entry lies under a directory iff its parent is that directory or lies under it |
| `Paths.UnderIsDescent` | src/fs.rs:648 | "starts with dir + '/'" holds iff the path is a strict descendant in the tree of components |
| `Paths.RekeyBack` | src/fs.rs:135-147 | the prefix rewrite is undone by the opposite rewrite, so moved paths stay distinct |
| `Paths.RekeyKeyPath` | src/db.rs:864-901 | rewriting the parent column (and the entry's own row) is rewriting full paths, and keeps names valid |
| `Paths.RekeyMovesComponents` | src/db.rs:864-901 | in the tree, a rename replaces the leading components of every moved path and keeps the rest, at any depth |
| `Cascade.Utf8Len` | src/db.rs:870 | the byte length is at least the character length, with equality iff the string is ASCII |
| `Cascade.Utf8LenIs` | src/db.rs:870 | the byte length is the number of bytes of the UTF-8 encoding, for every string |
| `Cascade.EncodeRoundTrip` | src/db.rs:870 | decoding the first bytes of an encoded string gives back its first character, whatever follows, for every scalar value |
| `Cascade.LikeIsPrefix` | src/db.rs:869 | without metacharacters, `LIKE dir || '/%'` selects exactly the strings under `dir` |
| `Cascade.LikeExact` | src/db.rs:869 | among all paths the pattern selects exactly the strict descendants iff the directory's path has no metacharacter |
| `Cascade.CascadeIsRekey` | src/db.rs:864-873 | on a safe path the cascade matches exactly the moved parents and rewrites them as the in-memory maps do |
| `Cascade.RowFitsExact` | src/db.rs:864-873 | a row's parent is rewritten as the rename means to iff it is the directory itself, is matched and cut rightly, or is rightly left alone |
| `CascadeLimits.StatementsExact` | src/db.rs:864-901 | for a checked rename of a directory the statements give the rename, in every order of rows and for all sizes and contents, iff the cascade fits every stored row; otherwise some such tree comes out wrong in every order |
| `CascadeLimits.UnsafeTree` | src/db.rs:864-873 | every directory path that is not ASCII or has a metacharacter has a well-formed tree and a target for which the cascade goes wrong |
| `CascadeLimits.CascadeSafeExact` | src/db.rs:864-883 | renaming a directory is right in every well-formed tree, to every target, iff its path is ASCII without metacharacters |
| `Chunks.BlockNumberCastExact` | src/db.rs:548-549 | the i32 cast of a block number is exact iff the offset is below 2^47, for every u64 offset |
| `Chunks.BlockRangeExact` | src/db.rs:548-549 | both ends of the loop over blocks survive the cast iff the write ends at or below 2^47 |
| `Chunks.MeetsRange` | src/db.rs:548-571 | the loop visits exactly the blocks that share an offset with the write |
| `Chunks.SplitIsPartition` | src/db.rs:560-571 | the chunks are non-empty, contiguous, inside their blocks, and every offset of the write is in exactly one |
| `Chunks.WriteRowsByte` | src/db.rs:560-595 | a write changes exactly the bytes of its range, whatever rows, short or missing, were there |
| `Chunks.WriteRowsDomain` | src/db.rs:560-595 | exactly the touched blocks gain a row; rows of other blocks are kept as they were |
| `Chunks.WriteRowsFit` | src/db.rs:560-595 | row lengths stay at most one block and block numbers stay valid |
| `Chunks.CodeRowsExact` | src/db.rs:548-595 | with the casts as they are, the rows after a write are the right ones iff it ends at or below 2^47; a write across 2^47 leaves every row as it was |
| `Chunks.WriteRefinesOverlay` | src/db.rs:535-612 | a write is the flat zero-extend-and-overlay iff the bytes between the old end and the offset are zero; a zero tail is kept |
| `Chunks.TruncateByte` | src/db.rs:631-662 | every byte after a truncate: kept below the new size, zero above it, except the one block at an aligned new size |
| `Chunks.TruncateRefinesResize` | src/db.rs:631-662 | the visible bytes are the flat resize iff the bytes that become visible are zero, so always for a shrink |
| `Chunks.ShrinkTail` | src/db.rs:631-662 | an unaligned shrink establishes a zero tail from any rows; an aligned one iff the block at the new size was zero; stale bytes lie in that block only |
| `Chunks.AlignedShrinkResurfaces` | src/db.rs:632-642 | for every block boundary there are rows whose old byte comes back when the file is regrown |
| `Chunks.ShrinkKeepsExact` | src/db.rs:632-639 | a shrink keeps every byte below the new size, for all rows, iff the new size is below 2^47 or wraps to the largest block number with no remainder |
| `Chunks.OverwriteRoundTrip` | src/db.rs:749-752 | a byte string written over an emptied file reads back whole, whatever rows were left behind |
| `Database.ReadPart` | src/db.rs:502-517 | the bytes appended for one block are the row's, zeros where it is short or missing, as many as asked |
| `Database.Assemble` | src/db.rs:491-519 | the read loop terminates, advances at least one byte a step, and returns exactly the bytes the rows hold, for any range in a release build's arithmetic, or panics exactly on the ranges named |
| `Database.PatchBlock` | src/db.rs:567-589 | the read-modify-write of one block gives its part of the data, the stored bytes around it, and zeros between |
| `Database.UpsertChunks` | src/db.rs:560-595 | the loop over the cast block numbers leaves the rows the visited blocks give, for any offset, or panics on a slice; below 2^47 those of the whole write |
| `Database.MoveRows` | src/db.rs:864-907 | the `UPDATE` statements succeed in every order of rows whenever none collides, and whenever they succeed no two rows were merged and the result is the relabelling |
| `Database.RenameTransaction` | src/db.rs:820-912 | a checked rename whose cascade fits cannot fail and gives the renamed tables; any success gives what the statements make of the keys; a non-empty target directory is refused |
| `Database.Db.ReadRangePrimary` | src/db.rs:453-522 | nothing for what is not a file; exactly the flat file's bytes from the offset to min(offset + len, size) if they end at or below 2^47, so none at or past the end of the file; past it the selected rows' bytes or a panic |
| `Database.ReadBoundExact` | src/db.rs:473-482 | for every range, when the selected rows show all stored bytes whatever the rows: it ends at or below 2^47, starts there or above, or its last block number wraps to the largest i32 |
| `Database.Db.ReadPrimary` | src/db.rs:744-746 | the whole content of a file of at most 2^47 bytes; of a larger one the selected rows' bytes |
| `Database.Db.WriteRange` | src/db.rs:535-612 | rows and size change as one step, at or below 2^47 to those of the write, past it to those of the visited blocks; an empty write or a panic changes nothing |
| `Database.Db.Truncate` | src/db.rs:614-677 | rows and size after a truncate, including a wrapped block number; an error, and no change, unless the key is a file |
| `Database.Db.WriteBlocksBatch` | src/db.rs:679-736 | whole rows are replaced and the size can only grow, the same for every order of the dirty blocks |
| `Database.Db.Write` | src/db.rs:749-752 | afterwards the file reads back as the data from any earlier rows, stale bytes included, and other files are as before |
| `Database.Db.Create` | src/db.rs:754-763 | an empty file is inserted; an existing entry is left alone |
| `Database.Db.Mkdir` | src/db.rs:765-774 | a directory is inserted; an existing entry is left alone |
| `Database.Db.Unlink` | src/db.rs:776-790 | the entry and all its rows are gone, and nothing else |
| `Database.Db.Rmdir` | src/db.rs:920-940 | deletes, and answers true, iff the entry exists and has no children; otherwise nothing changes |
| `Database.Db.Rename` | src/db.rs:797-915 | success with the renamed tables whenever the checks hold and the cascade fits; any other success gives what the statements make of the keys; every error leaves both tables as they were |
| `Relabel.UpdateKeys` | src/db.rs:864-901 | a key update that succeeds merged no rows and is the relabelling; a collision-free one succeeds in every order of rows |
| `Relabel.RelabelTwice` | src/db.rs:864-901 | two successive key updates are one update by the composed rewrite |
| `Renaming.RekeyCollisionFree` | src/db.rs:826-901 | the whole rewrite is injective and hits no surviving key |
| `Renaming.CascadeCollisionFree` | src/db.rs:864-883 | the cascade alone never collides, keeps the directory's own row and leaves the target's key free |
| `Renaming.DirectoryStatements` | src/db.rs:864-901 | cascade then own row: no collision in `entries` or `blocks`, and together the whole rewrite |
| `Renaming.FileStatements` | src/db.rs:885-901 | for a file, moving its own rows is the whole rewrite |
| `Renaming.StatementsRename` | src/db.rs:826-907 | when the checks hold and the cascade fits, no statement collides or finds zero rows, and the result is the relabelling |
| `Renaming.RenamedEntry` | src/db.rs:864-901 | every surviving entry is at its rewritten path with the same kind, size and rows |
| `Renaming.RenamedOrigin` | src/db.rs:826-901 | every entry afterwards is a surviving one: only the replaced target is dropped |
| `Renaming.RenamedWellFormed` | src/db.rs:826-901 | a rename keeps the tree well-formed, rows with their files included |
| `WriteBack.HandleBuffer.Write` | src/fs.rs:45-75 | the buffer holds what the writes since the last flush leave on an empty file, with their largest end; past 2^47 what the visited blocks give |
| `WriteBack.BufferChunks` | src/fs.rs:55-74 | the buffer's loop overlays the data on the dirty rows exactly as a direct write overlays stored rows, casts included |
| `WriteBack.WriteAllByte` | src/fs.rs:45-75 | after any sequence of writes a covered byte is the last one written there, any other the stored one |
| `WriteBack.BufferedByte` | src/fs.rs:45-75 | the buffer holds the last written byte at every covered offset and zero elsewhere |
| `WriteBack.HandleBuffer.DirtyIs` | src/fs.rs:178 | there is something to flush iff some write since the last flush was not empty |
| `WriteBack.FlushedByte` | src/db.rs:710-715 | after a flush a touched block holds the last written bytes and zeros only, any other block its stored ones |
| `WriteBack.FlushAgrees` | src/fs.rs:176-191 | flushed and direct bytes agree iff every visible, uncovered byte of a touched block was zero |
| `WriteBack.FlushSameRows` | src/db.rs:710-728 | if no touched block has a stored row the rows are identical |
| `WriteBack.FlushVersusDirect` | src/fs.rs:176-191 | on the tables: same sizes and other files always, same content iff nothing is lost, same tables when no touched block is stored |
| `InodeMaps.RekeyMaps` | src/fs.rs:124-148 | one outcome for every iteration order of the hash map when neither path lies under the other |
| `InodeMaps.RekeyedExactly` | src/fs.rs:130-147 | exactly the cached paths equal to or under the old path move, each keeping its inode |
| `InodeMaps.ApplyConsistent` | src/fs.rs:124-148 | interning, forgetting and re-keying each keep the maps consistent and never lower the allocator |
| `InodeMaps.RunConsistent` | src/fs.rs:215-222 | over every run a cached path's inode leads back to it, inode 1 is the root, and no two paths share an inode |
| `InodeMaps.NumbersNeverReused` | src/fs.rs:215-222 | a number the allocator has passed is never handed out again, whatever is removed or moved |
| `InodeMaps.AliasesExactly` | src/fs.rs:130-147 | while no two inodes have one path, a rename makes two have one iff some cached path moves onto the path of a known inode, cached or not |
| `InodeMaps.InternAliasesExactly` | src/fs.rs:215-222 | while no two inodes have one path, giving a path an inode makes two have one iff the path is not cached but some inode still has it |
| `InodeMaps.ReplacedInodeAliases` | src/fs.rs:130-133 | while no two inodes have one path and nothing is known under the target, replacing it gives the new path a second inode iff some inode had the target's path |
| `InodeMaps.ReplacedInodeLingers` | src/fs.rs:816-818 | the replaced target's inode still resolves after the new file is unlinked, and to the next file created there |
| `InodeMaps.ReadyApart` | src/fs.rs:644-651 | whenever a rename reaches the maps neither path lies under the other |
| `InodeMaps.RenameCommutes` | src/fs.rs:692-697 | every inode of an existing path but the replaced target's resolves, through maps and tables, to the same kind, size and rows |
| `InodeMaps.RenamesCommute` | src/fs.rs:692-697 | over every run of renames an inode follows its entry until the entry is replaced |
| `Renaming.StatementsNeed` | src/db.rs:826-907 | with names, the new directory, a droppable target and a fitting cascade given, the statements leave a tree, and succeed in every order of rows, iff the new path is not under the old one |
| `Operations.ChecksSuffice` | src/fs.rs:644-690 | the callback's checks pass iff what the statements are proved to need holds and the target is of the source's kind |
| `Operations.StepWellFormed` | src/db.rs:754-941 | every operation keeps the tree: parents exist, names are valid, rows belong to files and fit their blocks |
| `Operations.FlushWellFormedExact` | src/fs.rs:176-191 | a flush keeps the tree iff its key names a file or the buffer is clean |
| `Operations.FlushAfterUnlink` | src/fs.rs:176-191 | after its file was removed a flush keeps the tree iff the buffer is clean |
| `Operations.FlushAfterRename` | src/fs.rs:37-42 | a handle keeps its key across a rename: its flush keeps the tree iff its file did not move or the buffer is clean |
| `Operations.BufferOutlivesTruncate` | src/fs.rs:402 | after a truncate and the handle's flush the resized content stands iff no buffered write ends past the new size and what the touched blocks hold is what was there |
| `Refinement.WrittenAgrees` | src/db.rs:535-612 | a write to the rows is the overlay on the abstract file, and clears the residue it covers |
| `Refinement.ResizedAgrees` | src/db.rs:614-677 | a truncate is the flat resize outside the residue, which only an aligned shrink extends |
| `Refinement.FlushedAgrees` | src/db.rs:679-736 | a flush sets each byte of a touched block to the last one written there, or zero, and clears the residue of those blocks |
| `Refinement.OccupiedIsChildren` | src/db.rs:924-932 | a directory has a child row iff the tree has a path under it |
| `Refinement.ListingExact` | src/db.rs:375-385 | the rows whose parent is a directory are exactly the tree's paths one component below it, each of its node's kind |
| `Refinement.RenamedSimulates` | src/db.rs:797-915 | the renamed tables simulate the tree in which the target is dropped and every path under the source moves |
| `Refinement.RepliesAgree` | src/fs.rs:644-702 | the operations reply as the abstract tree does |
| `Refinement.PosixReplyExact` | src/fs.rs:644-690 | a rename's reply is the one POSIX.1-2017 asks for iff it is not a missing path renamed to itself |
| `Refinement.MissingRenamedToItself` | src/fs.rs:644-647 | any name in an empty filesystem, renamed to itself, is answered with success where POSIX asks for ENOENT |
| `Refinement.StepSimulates` | src/db.rs:453-941 | one operation keeps the simulation and gives the same reply |
| `Refinement.RunSimulates` | src/db.rs:453-941 | every run keeps the simulation and gives the same replies |
| `Refinement.ReadAgrees` | src/db.rs:453-522 | a read shows the abstract bytes at every offset outside the residue, and all of them if there is none |
| `Refinement.CleanRun` | src/db.rs:631-662 | without a shrink to a block boundary no run ever leaves residue |
| `Refinement.RunExact` | src/db.rs:453-941 | from an empty filesystem, over every run without such a shrink, every file reads back exactly |
| `Mount.CallHealthy` | src/fs.rs:607-859 | every callback keeps the tree well-formed and the maps consistent |
| `Mount.CallKeepsNames` | src/fs.rs:607-859 | one callback: an inode still names its entry, of the same kind, wherever the callback left it |
| `Mount.AskedIsNamed` | src/fs.rs:704-798 | a lookup, create or mkdir gives the entry's path its known inode or the next number, and no other path one |
| `Mount.WhitherExact` | src/fs.rs:607-859 | an entry is lost iff it is unlinked, rmdir'ed or replaced with success; otherwise it is where it was or, under a renamed path, at the rewritten one |
| `Mount.SessionSimulates` | src/fs.rs:607-859 | every run of callbacks keeps maps and tree in order and the tables simulating the tree of flat files |
| `Mount.InodeReads` | src/fs.rs:429-468 | over every run an inode resolves to its entry's present path, and a read through it shows the abstract bytes outside the residue |
| `Mount.RemovedStaysUnknown` | src/fs.rs:813-820 | once unlink or rmdir has removed the entry an inode names, the inode resolves to nothing over every run that follows |
| `Mount.HandleKeepsKey` | src/fs.rs:518-544 | a handle's number is never given out again and its key never changes, over every run |
| `Mount.OpenRecords` | src/fs.rs:518-544 | opening an inode records its entry's present key, with nothing pending, under a number no handle has |
| `Mount.CreateRecords` | src/fs.rs:741-751 | so does creating a file |
| `Mount.OpenUntilClosed` | src/fs.rs:585-605 | over every run a handle stays open iff it is not released and no flush of it fails |
| `Mount.HandleHolds` | src/fs.rs:472-516 | a handle still open holds exactly the writes put through it since it was last flushed, read off the calls |
| `Mount.SyncShows` | src/fs.rs:176-191 | a flush or release leaves the pending bytes in the file at the handle's key and every other file as it was |
| `Mount.OthersLeaveTables` | src/fs.rs:472-544 | asking, opening, writing to a handle and a failed flush leave the tables as they are |
| `Mount.PutSyncRead` | src/fs.rs:429-516 | over every run, a byte put through a handle and then flushed is what the inode of its file shows, as long as the file has not moved |
| `Mount.HandleReaches` | src/fs.rs:429-468 | over every run, a flush shows the bytes put through the handle since the last one in the file its inode names if that file is still at the handle's key, and leaves that file as it was if it moved, whether or not the old key is taken |
| `Mount.HandleStrays` | src/fs.rs:176-191 | whatever file is at the handle's key gets the bytes put through it since its last flush; its content changes iff a write ends past its end or a touched block did not already show what the flush puts there |
| `Fs.ResolvedIsChild` | src/fs.rs:919-929 | the key a callback acts on is, in the tree, the name one component below the directory its inode names |
| `Fs.ResolvedRoot` | src/fs.rs:919-929 | for inode 1 it is the name alone, and there is no key iff the inode is unknown |
| `Fs.PgFs.InoFor` | src/fs.rs:215-222 | a known path keeps its inode, a new one gets the next number; the maps stay consistent |
| `Fs.PgFs.Lookup` | src/fs.rs:302-325 | the inode of the path one name below the directory's, if that entry is seen, otherwise no entry and no change |
| `Fs.PgFs.Readdir` | src/fs.rs:861-914 | every child, with its kind, and the parent directory get an inode, known paths keep theirs, and no other path gets one |
| `Fs.PgFs.Create` | src/fs.rs:704-757 | success adds exactly that path, one name below the directory's, as an empty file, and gives an inode and a new empty handle beside the open ones; no change on failure |
| `Fs.PgFs.Mkdir` | src/fs.rs:759-798 | success adds exactly that path, one name below the directory's, as a directory, and gives an inode; no change on failure |
| `Fs.PgFs.Unlink` | src/fs.rs:800-823 | exactly the path one name below the directory's is gone, with its rows; its inode is forgotten |
| `Fs.PgFs.Rmdir` | src/fs.rs:825-859 | success removes exactly the path one name below the directory's; the path and inode are forgotten only then |
| `Fs.PgFs.CheckRename` | src/fs.rs:644-690 | passes iff what the statements need holds and the kinds agree, and gives the callback's error codes otherwise |
| `Fs.PgFs.Rename` | src/fs.rs:607-702 | reply and tables as the operation says and maps re-keyed on success; if the cascade does not fit, any success leaves what the statements make of the keys; every other reply leaves tables and maps unchanged |
| `Fs.PgFs.RekeyPathMaps` | src/fs.rs:291-298 | both maps are re-keyed and stay consistent |
| `Fs.PgFs.Setattr` | src/fs.rs:351-415 | the size change goes to the tables only; root, unknown inodes and directories are left alone |
| `Fs.PgFs.Open` | src/fs.rs:518-544 | a new handle with an empty buffer for the inode's current path; every other handle keeps its key and pending writes, as the step `Mount.Open` says |
| `Fs.PgFs.HandleForIs` | src/fs.rs:489-493 | a callback that names a handle uses it; one that names none uses the inode's latest |
| `Fs.PgFs.Write` | src/fs.rs:472-516 | appended to the writes of the named open handle without touching the tables, otherwise written directly; past 2^47 what the cast loop leaves, or a panic |
| `Fs.PgFs.FlushHandle` | src/fs.rs:176-191 | the tables after the buffered writes, whatever the key now names; a failed commit changes no table and drops the handle |
| `Fs.PgFs.Read` | src/fs.rs:429-468 | what a range read gives of the file as it is after the handle's flush, whether or not the flush succeeded; other handles stay |
| `Fs.PgFs.Release` | src/fs.rs:585-605 | flushes, closes the handle, and drops the inode's pointer and every pointer to the handle |
| `Fs.Retained` | src/fs.rs:601-603 | every pointer stays but those of the inode and those to the released handle |
| `Replica.FreshnessCache.ReplicaFresh` | src/db.rs:285-324 | fresh iff the standby is a primary itself or has replayed at least what the primary reports; any failed query means not fresh |
| `Replica.VerdictIsFresh` | src/db.rs:285-324 | the verdict of the protocol's steps is the one a direct check of the same answers gives |
| `Replica.FreshCases` | src/db.rs:285-324 | a failed query is never fresh, a promoted standby always, and otherwise the positions decide |
| `Replica.FreshnessCache.ReplicaFreshCached` | src/db.rs:328-339 | within 500 ms the cached verdict and nothing changes; otherwise a new verdict, stored with the clock read before it |
| `Replica.NextKeepsInv` | src/db.rs:285-339 | commits, replay, time and each step of a read keep the cached verdict backed by replayed WAL |
| `Replica.BoundedStaleness` | src/db.rs:389-431 | over every interleaving, a routed read sees all WAL written by 500 ms before its clock, by 500 + d ms before an answer at most d ms after it, and all of it if sent to the primary |
| `Replica.UncachedIsCurrent` | src/db.rs:302-322 | a check that is made is fresh iff the standby has replayed all the primary had written when asked, whatever happens in between |
| `Replica.TtlIsTight` | src/db.rs:226 | for every d, a run in which a read answered d ms after its clock misses WAL written 499 + d ms before the answer |
| `Heartbeat.Liveness.CheckLiveness` | src/metrics.rs:87-103 | the answer and what is remembered: an advanced counter re-arms the deadline, an unchanged one only compares the clock |
| `Heartbeat.NeverFalseAlarm` | src/metrics.rs:87-103 | no interleaving of timely beats and callbacks makes a check report a stall |
| `Heartbeat.NoFalseAlarmExact` | src/metrics.rs:87-103 | for every gap and delay, false alarms are impossible iff beat gap plus callback delay is at most 30 s or no time can pass |
| `Heartbeat.AtPeriod` | src/metrics.rs:285-293 | with beats at most 10 s apart false alarms are impossible iff a check takes less than 20 s between its two readings |
| `Heartbeat.LateBeatRun` | src/metrics.rs:87-101 | past that bound, a run that ends in a false alarm |
| `Heartbeat.StallDetected` | src/metrics.rs:87-103 | once beats stop, every callback whose clock is 30 s past that of a check that saw the last beat reports the stall |

## Left out

- The PostgreSQL client, pools, prepared statements, connection strings and DDL; a table is a map and each transaction one atomic step. Database failures appear only as the `commits` parameter of flush, read and release.
- Concurrent database clients, crash recovery and unlogged tables; callbacks are dispatched one at a time.
- `mtime`, ownership, permissions, attribute times, kernel attribute TTLs and capability negotiation; the `data` column, which the code never reads.
- Metrics, tracing, the state dump, signals, PID and ready files, and the preamble of each callback that replies EIO after a stall.
- `blocks` is grouped by (parent, name): one map from key to that file's rows. A key collision is then judged per file, which is stricter than per row.
- The block size is the constant 65536 and not an arbitrary positive number; byte counts are unbounded naturals with the i32 casts written out, for offsets below 2^63. The i64 cast of a size at or above 2^63, the i32 cast of a path's byte length and the u64 wrap of inode and handle numbers are not modelled.
- The getattr callback. Entries read from a standby enter `Lookup` and `Readdir` as the table `seen`.
- Names that are not UTF-8 (replied ENOENT), Unicode collation and non-default `LIKE` escapes; a pattern that ends in a lone escape matches nothing here, but the cascade's never does.
- Fs.PgFs.Readdir: `.`, the order of a listing and its resumption by offset are left out.
- Arithmetic past 2^47 is that of a release build, where u64 wraps; a debug build panics on it earlier. Memory is unbounded.
- Fs.PgFs.Write: after a write past 2^47 into a buffer the handle is described no further.
- Refinement.RunSimulates: does not cover a rename of a directory whose rows the cascade does not fit, nor a flush of a dirty handle whose key names no file; both can end in tables that are no tree (Operations.FlushWellFormedExact), and what they leave is stated for `Database.Db.Rename` and `Fs.PgFs.FlushHandle`.
- Refinement.RunExact: covers the runs Refinement.RunSimulates covers.
- Mount.SessionSimulates: covers the sessions whose operations Refinement.RunSimulates covers.
- Mount.InodeReads: covers the sessions Mount.SessionSimulates covers.
- Replica.BoundedStaleness: assumes a standby that stays in recovery, replay that never goes backwards, and WAL position as the measure of what is visible.
- Heartbeat.NoFalseAlarmExact: assumes a counter that never reaches 2^64 - 1.
