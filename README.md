# cs1550: a two-level FUSE filesystem, modelled in Dafny

`cs1550.c` implements a small filesystem in one disk image of 512-byte blocks:

- block 0 holds the root table, with up to 29 directories (`nDirectories` and slots `{dname, nStartBlock}`);
- block 1 holds the allocation table, one cell per block, `USED` (1) or `UNUSED` (0), and `EOF` (-1) in the cell `write` claims as an end-of-chain marker;
- each directory's block holds its file table, with up to 17 files (`nFiles` and slots `{fname, fext, fsize, nStartBlock}`).

Paths have at most two levels: `/dir` and `/dir/file.ext`, with 8.3 names.

This project models the part of the program that runs between its reads and writes of blocks:

- the block allocator;
- `mkdir` and `mknod`;
- the `sscanf` split of a path into directory, file and extension, and the length checks after it;
- `getattr`'s classification and `readdir`'s listing;
- the checks `read` and `write` make before they move data;
- `write`'s copy of the data into its block buffer, and its reservation of allocation-table cells.

Modules, in dependency order:

- `Layout`: the constants, the error numbers, and `Result`.
- `PathParse`: `Scan`, the `sscanf` call as a function, with `Join` as its inverse. Also the two name checks.
- `Fat`: the allocator as a function (`Allocate`) and as a loop over an array (`GetFreeBlock`), plus `write`'s reservation.
- `Tables`: the on-disk records, the lookups, and the invariant `WellFormed`. Every image `mkdir`, `mknod` and `write`'s allocation-table update build keeps `WellFormed`. The invariant is about the tables as the model holds them: `write`'s `fwrite` of the data is left out. On disk that data lands one block past the position the `fseek` at cs1550.c:965 chooses (the start of the file's first block plus `offset / BLOCK_SIZE` bytes), that is in the block after the file's first block: the `fread` at cs1550.c:967 moves the stream past the block it reads, and no `fseek` comes before the `fwrite` at cs1550.c:978. That next block may hold another directory's table.
- `Resolve`: `getattr`, `readdir`, and the read/write checks (`Locate`).
- `Create`: `mkdir` and `mknod` as functions on images. Also the lemmas that they keep `WellFormed`, show the new entry, can be repeated without effect, and change nothing else.
- `Fs`: the class `FileSystem`. It holds the root table and the allocation table as arrays and the directory blocks as a map, and records the order of the blocks written back. Its `Mkdir`, `Mknod` and `Write` change the arrays in place and are proved equal to the `Create`/`Resolve` functions.
- `Findings`: a concrete image reachable from a formatted disk, on which `mknod` as written goes wrong.

Where the code and its comments disagree, the model follows the code:

- `getattr` matches a file by name only and reports size 0.
- The `mknod`, `read` and `write` directory lookups skip empty names; those of `getattr` and `readdir` do not.
- `mkdir`'s duplicate scan covers all 29 slots. On a well-formed image all three lookups agree (`Tables.LookupsAgree`).
- `%s` skips leading white space, as `sscanf` does. The path guards (`strlen(path) > 1`, `!= 1`, or none) make no difference, because `Scan` of any path of at most one character gives three empty components.

## Model

| member | source | states |
|---|---|---|
| `Layout.Capacities` | cs1550.c:32-66 | 17 file records and 29 directory records are the most that fit in a block after its int counter, and the allocation table has one cell per block of the 5,000,000-byte image |
| `PathParse.Until` | cs1550.c:212 | `%[^c]` consumes the longest prefix without `c`; what follows it, if anything, is `c` |
| `PathParse.SkipSpace` | cs1550.c:212 | the white space `%s` skips is exactly the leading run of white space |
| `PathParse.Word` | cs1550.c:212 | `%s` stores the longest prefix without white space |
| `PathParse.Scan` | cs1550.c:211-213 | the components have the shape the pattern allows (no `/` in the directory, no `.` in the file, no space in the extension, each present only after the one before); a path of at most one character yields three empty components, so the `strlen` guards never matter |
| `PathParse.ScanDir` | cs1550.c:212 | the split after the leading `/` has the shape the pattern allows |
| `PathParse.ScanFile` | cs1550.c:212 | the split after the second `/` keeps the directory and has the allowed shape |
| `PathParse.Join` | cs1550.c:212 | the path `"/d"`, `"/d/f"` or `"/d/f.e"` that names a set of components; `ScanJoin` proves that splitting recovers them |
| `PathParse.ScanJoin` | cs1550.c:212 | splitting undoes joining: every shape of components is recovered from the path `"/d"`, `"/d/f"` or `"/d/f.e"` that names it |
| `PathParse.ScanIdempotent` | cs1550.c:212 | splitting the re-joined components of any path gives the same components |
| `PathParse.TooLong` | cs1550.c:217-220 | getattr's and readdir's length test: a directory or file name of more than 8 characters or an extension of more than 3 |
| `PathParse.NameCheck` | cs1550.c:561-584 | succeeds exactly when there is a directory and a file name of at most 8 and an extension of at most 3; EPERM exactly when the directory or the file name is missing; otherwise ENAMETOOLONG |
| `Fat.ScanStart` | cs1550.c:173-178 | the scan starts at exactly 2 for a directory and at exactly MAX_DIRS_IN_ROOT for a file, so blocks 0 and 1 are never handed out |
| `Fat.FirstFree` | cs1550.c:179-184 | the lowest UNUSED index at or after the start, or -1 exactly when every such cell is taken |
| `Fat.Allocate` | cs1550.c:171-188 | the returned block was UNUSED and is now USED, it is at or after the start, no other cell changes, and on -1 nothing changes |
| `Fat.AllocateTwice` | cs1550.c:171-188 | a second allocation returns a strictly later block, and fails if the first did: no block is handed out twice |
| `Fat.GetFreeBlock` | cs1550.c:171-188 | the loop over the array returns the block `Allocate` names and leaves the table `Allocate` leaves |
| `Fat.ReserveKeepsTaken` | cs1550.c:984-987 | repeated file allocations never change a taken cell or a cell of the directory region |
| `Fat.Reserve` | cs1550.c:984-987 | the table after n successive file-region allocations; `Fat.ReserveClaims` says which cells they claim |
| `Fat.FreeBefore` | cs1550.c:179-184 | the number of free cells in a range, never more than the range's length, and none in an empty range |
| `Fat.FreeBeforeGrows` | cs1550.c:179-184 | a later free cell has strictly more free cells before it, so the count names at most one free cell |
| `Fat.FreeBeforeHits` | cs1550.c:179-184 | every count below the count before b is the count before some free cell under b |
| `Fat.FirstFreeCounts` | cs1550.c:179-184 | the cell the allocator's scan of the file region finds has no free cell of the region before it |
| `Fat.ReserveClaims` | cs1550.c:984-987 | n allocations claim exactly the n lowest free cells from MAX_DIRS_IN_ROOT on (all of them when fewer are free), and leave every other cell as it was |
| `Fat.ReserveForWrite` | cs1550.c:984-991 | the table write leaves keeps every taken cell and the whole directory region |
| `Fat.ReserveForWriteClaims` | cs1550.c:984-991 | the `extra` lowest free cells of the file region become USED, the next free one becomes EOF, and every other cell keeps its value |
| `Fat.ReservedAsWritten` | cs1550.c:984 | the loop bound as written: always below BLOCK_SIZE, and equal to n for data shorter than a block |
| `Fat.ExtraBlocks` | cs1550.c:852 | the first block plus `n / BLOCK_SIZE` more hold n bytes, with at most one block to spare |
| `Fat.ReservedAsWrittenIsWrong` | cs1550.c:984 | the loop bound `n % BLOCK_SIZE` reserves n blocks for data that fits in the first block, and 488 instead of 1 for 1000 bytes |
| `Fat.ReservedAsWrittenClaims` | cs1550.c:984-991 | for data shorter than a block, the corrected count marks no free cell USED and puts EOF in the lowest free cell of the file region only, while the count as written marks the n lowest free cells USED |
| `Tables.Subdir` | cs1550.c:604-610 | a directory block never written reads as an empty table |
| `Tables.FindDir` | cs1550.c:400-412 | the first used root slot with the name, found exactly when the name is among the used slots' names |
| `Tables.FindNamedDir` | cs1550.c:589-601 | the first used root slot with the name, never a slot with an empty name |
| `Tables.FindFile` | cs1550.c:290-300 | getattr's file lookup: the first slot with that name, found exactly when the name is among the table's names |
| `Tables.FindEntry` | cs1550.c:620-628 | the first slot with that name and extension, found exactly when the pair is in the table |
| `Tables.NameTaken` | cs1550.c:493-499 | mkdir's duplicate test: some slot among all MAX_DIRS_IN_ROOT, used or not, holds this non-empty name |
| `Tables.DisplayName` | cs1550.c:429-439 | readdir shows a file as its name, or as name, `.` and extension when the extension is not empty |
| `Tables.Listing` | cs1550.c:429-439 | the display names of a table's used slots, in slot order |
| `Tables.LookupsAgree` | cs1550.c:493-494 | on a well-formed image the three directory scans give the same answer, and mkdir's all-slot test holds exactly when the lookup finds the name |
| `Tables.FindDirAppend` | cs1550.c:502-513 | appending a directory of a different name leaves the lookup of every other name where it was |
| `Tables.Append` | cs1550.c:630-646 | the new record goes in slot nFiles, the count grows by one, and the earlier slots are kept |
| `Tables.AppendListings` | cs1550.c:429-439 | after an append the names, the (name, extension) pairs and the listing each gain exactly the new file at the end |
| `Tables.AddDir` | cs1550.c:502-513 | the root table gains one used slot, and its list of names gains exactly the new name at the end |
| `Tables.AddFile` | cs1550.c:630-654 | only the directory's table changes: the root table, the allocation table and the table of every slot at another block are kept, and the directory's table is the old one with the record appended |
| `Resolve.GetAttr` | cs1550.c:196-320 | errors are ENAMETOOLONG, exactly when a component is too long, or ENOENT; `/` is a directory; a file is reported with size 0 |
| `Resolve.GetAttrDirectory` | cs1550.c:225-261 | `/dir` is a directory exactly when dir is a used root slot's name, otherwise ENOENT; a directory has mode `S_IFDIR | 0755` (16877) and 2 links |
| `Resolve.GetAttrFile` | cs1550.c:286-308 | `/dir/file.ext` is a file of size 0 exactly when dir is used and its table has a slot named file, whatever the extension; a file has mode `S_IFREG | 0666` (33206) and 1 link |
| `Resolve.ReadDir` | cs1550.c:326-450 | every listing starts with `.` and `..`; ENAMETOOLONG exactly when a component is too long; `/` lists the used root slots' names in slot order |
| `Resolve.ReadDirDirectory` | cs1550.c:396-440 | `/dir` lists the table of dir, and is ENOENT when dir is not a used slot |
| `Resolve.Locate` | cs1550.c:695-792 | the read/write checks on a path: `LocateParts` on the components `Scan` splits it into |
| `Resolve.LocateParts` | cs1550.c:695-792 | errors come from the name checks first and are EPERM, ENAMETOOLONG, ENOENT or EFBIG; a found record has the requested name and extension, the size is non-zero and the offset is within fsize blocks |
| `Resolve.LocateCases` | cs1550.c:729-792 | once the names pass: ENOENT for an unknown directory or (name, extension) pair, then ENOENT for size 0, EFBIG for an offset past fsize blocks, otherwise the record the file lookup finds |
| `Resolve.ListedPathJoins` | cs1550.c:429-439 | the name readdir shows for a used slot, under its directory, is the path that splits back into the slot's name and extension |
| `Resolve.FindDirOfSlot` | cs1550.c:400-412 | with distinct names, the lookup of a used slot's name finds that slot |
| `Resolve.FindEntryOfSlot` | cs1550.c:620-628 | with distinct pairs, the lookup of a used file slot's pair finds that slot |
| `Resolve.ListedSlotFound` | cs1550.c:429-439 | every lookup finds the slot of a listed name again |
| `Resolve.ListedNameResolves` | cs1550.c:429-439 | every name readdir lists leads back to its record: getattr reports a file of size 0, and read and write find exactly that slot |
| `Resolve.LocateOnlyAtStart` | cs1550.c:786-792 | no file ever grows past size 0, so on a well-formed image read and write succeed only at offset 0 |
| `Resolve.GetAttrSameTables` | cs1550.c:196-320 | getattr reads only the root table and the table of the directory it finds |
| `Resolve.ReadDirSameTables` | cs1550.c:326-450 | readdir reads only the root table and the table of the directory it finds |
| `Resolve.LocateSameTables` | cs1550.c:695-792 | the read/write checks read only the root table and the table of the directory they find |
| `Resolve.SameParts` | cs1550.c:211-213 | two paths other than `/` that split alike get the same answers from getattr, readdir and the read/write checks |
| `Create.Mkdir` | cs1550.c:456-525 | ENOENT for a missing name, a full root or no free block, and EEXIST exactly when the name is taken, each with the image unchanged; success exactly when the name is given and free, there is room and a block is free; the new slot is at index nDirectories with the lowest free block from 2 on |
| `Create.MknodTarget` | cs1550.c:561-628 | the validation chain's error first; then ENOENT exactly when the directory is not found, EEXIST exactly when its table holds the (name, extension) pair; otherwise the directory's slot |
| `Create.Mknod` | cs1550.c:540-661 | errors leave the image unchanged; ENOENT when no block of the file region is free, success exactly when one is; the new record, of size 0 with the lowest free block from MAX_DIRS_IN_ROOT on, is appended to the directory's table |
| `Create.MknodAsWritten` | cs1550.c:648-654 | mknod as written: the same outcome as `Mknod`, with the root table unchanged |
| `Create.Misfile` | cs1550.c:650-654 | the grown table lands in the block of root slot nFiles, and every table at another block is kept |
| `Create.SubdirOkGrows` | cs1550.c:171-188 | claiming cells keeps a table's records pointing at taken blocks |
| `Create.FatGrowPreserves` | cs1550.c:171-188 | an allocation table that only claims cells keeps the image well formed |
| `Create.AddDirPreserves` | cs1550.c:502-513 | a new directory with a fresh name and a fresh taken block keeps the image well formed |
| `Create.AddFilePreserves` | cs1550.c:630-646 | a new file with a fresh pair and a fresh taken block keeps the image well formed |
| `Create.MkdirPreserves` | cs1550.c:456-525 | mkdir of a name of at most 8 characters keeps the image well formed |
| `Create.MknodPreserves` | cs1550.c:540-661 | mknod keeps the image well formed |
| `Create.MkdirBlock` | cs1550.c:504-508 | the new directory's block was the lowest free one from 2 on and had no table yet |
| `Create.MkdirNewSlot` | cs1550.c:502-513 | after mkdir only slot nDirectories holds the new name, its table is empty, and the root's names gain exactly that name |
| `Create.MkdirVisible` | cs1550.c:456-525 | after mkdir getattr reports the directory, readdir of it lists only `.` and `..`, and the root lists it after the old names |
| `Create.MkdirAgain` | cs1550.c:493-498 | a second mkdir of the same name fails with EEXIST, or ENOENT once the root is full, and changes nothing |
| `Create.FatUnseen` | cs1550.c:196-450 | getattr, readdir and the read/write checks never read the allocation table |
| `Create.MkdirFrame` | cs1550.c:456-525 | mkdir changes no answer of getattr or the read/write checks for any other name, nor of readdir below the root |
| `Create.MknodNewEntry` | cs1550.c:630-654 | after mknod the table of the directory is the old one with the new record appended, the lowest free block of the file region in it |
| `Create.MknodVisible` | cs1550.c:540-661 | after mknod getattr reports the file with size 0, read and write find its record at offset 0, and readdir lists it after the old files |
| `Create.MknodListing` | cs1550.c:429-439 | after mknod readdir of the directory lists the old files and then the new one |
| `Create.MknodAgain` | cs1550.c:620-628 | a second mknod of the same path fails with EEXIST and changes nothing |
| `Create.MknodFrame` | cs1550.c:540-661 | mknod changes no answer of getattr, readdir or the read/write checks for paths in other directories |
| `Create.MknodAsWrittenMisfiles` | cs1550.c:650-654 | as written, mknod leaves its directory's table as it was and puts the new table in the block of root slot nFiles |
| `Findings.WithFileReachable` | cs1550.c:456-661 | mkdir `/a` and then mkdir `/b` on a formatted disk succeed and give the two-directory image; mknod `/a/x` on that image succeeds and gives the example image, both as corrected and as written (the misfiled table is slot 0's own, since `/a` is empty); the result is well formed with root names `a`, `b` |
| `Findings.TargetOfY` | cs1550.c:589-646 | mknod `/a/y` on the example targets directory slot 0 and succeeds |
| `Findings.CorrectedYInA` | cs1550.c:540-661 | with the corrected write-back, `/a` lists x and y |
| `Findings.CorrectedYInB` | cs1550.c:540-661 | with the corrected write-back, `/b` stays empty |
| `Findings.AsWrittenYInA` | cs1550.c:650-654 | as written, `/a` still lists only x |
| `Findings.AsWrittenYInB` | cs1550.c:650-654 | as written, `/b` lists x and y |
| `Findings.AsWrittenBreaksInvariant` | cs1550.c:650-654 | as written, x's block is owned by two directories, so the image is no longer well formed |
| `Findings.MknodAsWrittenCounterexample` | cs1550.c:650-654 | the whole counterexample: the corrected and the as-written listings, and the broken invariant |
| `Fs.BufferBlocks` | cs1550.c:852 | the buffer holds the block at the offset and enough blocks for the data |
| `Fs.Staged` | cs1550.c:852-972 | the zeroed buffer with the file's first block read into its first block |
| `Fs.Splice` | cs1550.c:976 | the data lands at positions [at, at + n) and every other byte of the buffer is unchanged |
| `Fs.ReserveForWritePreserves` | cs1550.c:984-991 | the allocation table write leaves keeps the image well formed |
| `Fs.StageBlock` | cs1550.c:852-976 | the array built is the staged buffer with the data spliced in at offset % BLOCK_SIZE |
| `Fs.FileSystem.Mount` | cs1550.c:115-169 | loading a well-formed image gives an object whose state is that image and that has written nothing |
| `Fs.FileSystem.Mkdir` | cs1550.c:456-525 | the in-place mkdir gives the result and the image `Create.Mkdir` gives, keeps the invariant, and on success writes the allocation table before the root table |
| `Fs.FileSystem.AppendDirectory` | cs1550.c:502-513 | the record lands in slot nDirectories and the count grows by one, which is `AddDir` of the old image; nothing else changes |
| `Fs.FileSystem.Mknod` | cs1550.c:540-661 | the in-place mknod gives the result and the image `Create.Mknod` gives, keeps the invariant, and on success writes the directory's own block, then the allocation table |
| `Fs.FileSystem.ReserveBlocks` | cs1550.c:984-991 | the reservation loop leaves the table `ReserveForWrite` names and writes the allocation table once per allocation |
| `Fs.FileSystem.WriteFound` | cs1550.c:945-999 | once the checks pass: the data spliced at offset % BLOCK_SIZE into the staged buffer, the reserved table, the invariant kept, and the length of the data returned |
| `Fs.FileSystem.Write` | cs1550.c:839-999 | the errors of the read/write checks with nothing changed; on success the data spliced at offset % BLOCK_SIZE inside the buffer, the reserved table, the invariant kept, and the length of the data returned |

## Left out

- FUSE registration and `main`, and the no-op `rmdir`, `unlink`, `truncate`, `open` and `flush`: they only return 0.
- The `fopen`/`fseek`/`fread`/`fwrite` plumbing. The image is a value (`Tables.DiskState`).
- Only the first 512 bytes of the allocation table are written to and read from disk. The model treats the whole table as persisted.
- The bytes `read` and `write` move. The stream positions, the `strlen` lengths and the data blocks are not tracked. `Fs.FileSystem.Write` takes the block `fread` delivers as a parameter and returns the buffer it builds, but does not say where `fwrite` puts it.
- `read` after its checks: `Resolve.Locate` models its checks, and its data transfer is left out for the same reason.
- `Fs.FileSystem.Write` reserves `n / BLOCK_SIZE` blocks, the corrected count, not the `n % BLOCK_SIZE` of the source. `Fat.ReservedAsWritten` models the source's count.
- The store of EOF at index -1 when the last allocation of `write` fails is outside the table. `Fat.ReserveForWrite` leaves the table as it is in that case.
- The data length is `|buf|` (the source's `strlen(buf)`). The FUSE `size` argument is only checked against 0. `size` and `offset` are `nat`: negative offsets are not modelled.
- `Create.Mknod` requires `MknodFits`: the directory's table has a free slot. The source never checks this and writes past the table's end.
- `Create.MkdirPreserves` and `Fs.FileSystem.Mkdir` require a directory name of at most 8 characters. The source never checks this and overflows `dname`.
- `Fs.FileSystem.Mknod` requires `MknodFits`, for the same reason as `Create.Mknod`.
- `PathParse.NameCheck` and `PathParse.TooLong` count characters, since paths are strings of characters. The source's `strlen` counts bytes, so the 8/8/3 limits agree with the source only for ASCII names: a name of five two-byte UTF-8 characters passes here and is ENAMETOOLONG in the source.
- `Tables.DisplayName` gives the full `name.ext`. The source builds it in a 9-byte buffer, which a name with an extension of more than 8 characters in all overflows.
- `readdir` calls `filler` for `.` and `..` before its checks. The model returns only a listing or an error.
- The checks of `fread`'s result against 0 can never fail and are not modelled.
- `mkdir` and `mknod` write the name into their in-memory copy of the table before the allocation. When the allocation fails, that copy is not written back, so the model leaves the image unchanged.
- The process-wide `directory`/`filename`/`extension` buffers are local values. `printf` output, struct packing and concurrency are not modelled.
- `Create.MknodAsWritten` writes `nStartBlock` 0 for an unused slot at index nFiles, which is the root block. The model keeps the root table in `DiskState.root` and the new table in `subdirs[0]`, so it does not show the root block being overwritten.

## Findings

| source | as written | input that shows it | evidently intended | confidence | as-written member | corrected member |
|---|---|---|---|---|---|---|
| cs1550.c:650-654 | the new table is written to the block of `root_block.directories[i]`, where `i` now holds the file slot index | mkdir `/a`, mkdir `/b`, mknod `/a/x`, then mknod `/a/y`: `y` is listed in `/b`, not `/a`, and x's block belongs to two directories | write the table back to the block of the directory found at cs1550.c:589-594 | not executed | `Findings.MknodAsWrittenCounterexample` | `Create.Mknod` |
| cs1550.c:984 | the reservation loop runs `strlen(buf) % BLOCK_SIZE` times | a write of 10 bytes marks the 10 lowest free cells of the file region USED where it needs none beyond the first block; one of 1000 bytes reserves 488 where it needs 1 | `strlen(buf) / BLOCK_SIZE`, the count the buffer is sized by at cs1550.c:852 | not executed | `Fat.ReservedAsWrittenClaims` | `Fat.ExtraBlocks` |
