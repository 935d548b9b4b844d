/**
 * The mounted filesystem as the C code keeps it in memory between its
 * fread and fwrite calls: the root table as an array of slots and a count,
 * the allocation table as an array of cells, and the directory blocks by
 * block number. mkdir, mknod and write change these in place; each is proved
 * against the pure operation it implements, and every image it leaves is
 * well formed.
 */
module Fs {
  import opened Layout
  import opened PathParse
  import opened Fat
  import opened Tables
  import opened Resolve
  import opened Create

  /** How many blocks write's buffer holds: the block at the offset and the blocks the data needs (cs1550.c:852). */
  function BufferBlocks(offset: nat, n: nat): (k: nat)
    ensures offset / BLOCK_SIZE < k
    ensures n < BLOCK_SIZE * k
  {
    1 + offset / BLOCK_SIZE + ExtraBlocks(n)
  }

  /** write's buffer once it is zeroed and the file's first block is read into it. */
  function Staged(stored: seq<byte>, offset: nat, n: nat): (s: seq<byte>)
    requires |stored| == BLOCK_SIZE
    ensures |s| == BufferBlocks(offset, n) * BLOCK_SIZE
    ensures s[..BLOCK_SIZE] == stored
    ensures forall i :: BLOCK_SIZE <= i < |s| ==> s[i] == 0
  {
    stored + seq((BufferBlocks(offset, n) - 1) * BLOCK_SIZE, _ => 0)
  }

  /** memcpy of data into base at position at. */
  function Splice(base: seq<byte>, at: nat, data: seq<byte>): (r: seq<byte>)
    requires at + |data| <= |base|
    ensures |r| == |base|
    ensures r[at..at + |data|] == data
    ensures forall i :: 0 <= i < |base| && !(at <= i < at + |data|) ==> r[i] == base[i]
  {
    base[..at] + data + base[at + |data|..]
  }

  /** The table write leaves is one the image's invariant survives. */
  lemma ReserveForWritePreserves(d: DiskState, extra: nat)
    requires WellFormed(d)
    ensures WellFormed(d.(fat := ReserveForWrite(d.fat, extra)))
  {
    var fat := ReserveForWrite(d.fat, extra);
    assert Grows(d.fat, fat);
    FatGrowPreserves(d, fat);
  }

  /** When mkdir's checks pass and the allocator returns b, mkdir adds the directory with block b, keeping the invariant. */
  lemma MkdirSucceeds(d: DiskState, path: string, b: int, fat: seq<int>)
    requires WellFormed(d) && |Scan(path).dir| <= MAX_FILENAME
    requires Scan(path).dir != "" && d.root.nDirectories < MAX_DIRS_IN_ROOT && !NameTaken(d.root, Scan(path).dir)
    requires (b, fat) == Allocate(d.fat, false) && b > 0
    ensures Create.Mkdir(d, path) == (Ok(()), AddDir(d.(fat := fat), DirEntry(Scan(path).dir, b)))
    ensures WellFormed(AddDir(d.(fat := fat), DirEntry(Scan(path).dir, b)))
  {
    MkdirPreserves(d, path);
  }

  class FileSystem {
    /** Block 0: the number of used slots and the MAX_DIRS_IN_ROOT slots. */
    var nDirectories: int
    var directories: array<DirEntry>
    /** Block 1: one cell per block. */
    var fat: array<int>
    /** The directory blocks, by block number; a block never written reads as zeros. */
    var subdirs: map<int, SubdirBlock>
    /** The numbers of the blocks written back to disk, in order. */
    ghost var written: seq<int>

    /** The image the arrays and the map hold. */
    function State(): DiskState
      reads this, fat, directories
    {
      DiskState(RootBlock(nDirectories, directories[..]), fat[..], subdirs)
    }

    ghost predicate Valid()
      reads this, fat, directories
    {
      fat.Length == MAX_NUM_BLOCKS && directories.Length == MAX_DIRS_IN_ROOT && WellFormed(State())
    }

    /** Load a well-formed image. */
    constructor Mount(d: DiskState)
      requires WellFormed(d)
      ensures Valid() && State() == d && written == []
    {
      nDirectories := d.root.nDirectories;
      directories := new DirEntry[MAX_DIRS_IN_ROOT](k requires 0 <= k < MAX_DIRS_IN_ROOT => d.root.directories[k]);
      fat := new int[MAX_NUM_BLOCKS](i requires 0 <= i < MAX_NUM_BLOCKS => d.fat[i]);
      subdirs := d.subdirs;
      written := [];
      new;
      assert directories[..] == d.root.directories;
      assert fat[..] == d.fat;
    }

    /**
     * cs1550_mkdir: the checks of Create.Mkdir, then the allocation, the
     * new slot at index nDirectories, and the count; the allocation table
     * is written back before the root table.
     */
    method Mkdir(path: string) returns (r: Result<()>)
      requires Valid() && |Scan(path).dir| <= MAX_FILENAME
      modifies this, fat, directories
      ensures Valid()
      ensures (r, State()) == Create.Mkdir(old(State()), path)
      ensures written == old(written) + (if r.Ok? then [FAT_BLOCK, ROOT_BLOCK] else [])
    {
      ghost var d := State();
      var p := Scan(path);
      if p.dir == "" {
        return Err(ENOENT);
      }
      if nDirectories >= MAX_DIRS_IN_ROOT {
        return Err(ENOENT);
      }
      if NameTaken(RootBlock(nDirectories, directories[..]), p.dir) {
        return Err(EEXIST);
      }
      var b := GetFreeBlock(fat, false);
      if b <= 0 {
        return Err(ENOENT);
      }
      ghost var claimed := State();
      AppendDirectory(DirEntry(p.dir, b));
      written := written + [FAT_BLOCK, ROOT_BLOCK];
      r := Ok(());
      MkdirSucceeds(d, path, b, claimed.fat);
    }

    /** The new record goes into slot nDirectories of the root table, and the count goes up by one. */
    method AppendDirectory(e: DirEntry)
      requires directories.Length == MAX_DIRS_IN_ROOT && Shaped(State())
      requires 0 <= nDirectories < MAX_DIRS_IN_ROOT
      modifies this, directories
      ensures fat == old(fat) && directories == old(directories) && written == old(written)
      ensures State() == AddDir(old(State()), e)
    {
      directories[nDirectories] := e;
      nDirectories := nDirectories + 1;
    }

    /**
     * cs1550_mknod: the checks of Create.MknodTarget, then the allocation
     * and the new record at index nFiles of the directory's table; the
     * table is written back to the directory's own block, then the
     * allocation table.
     */
    method Mknod(path: string) returns (r: Result<()>)
      requires Valid() && MknodFits(State(), path)
      modifies this, fat
      ensures Valid()
      ensures (r, State()) == Create.Mknod(old(State()), path)
      ensures r.Err? ==> written == old(written)
      ensures r.Ok? ==>
                var k := FindDir(old(State()).root, Scan(path).dir);
                k < old(nDirectories)
                && written == old(written) + [old(directories[k].nStartBlock), FAT_BLOCK]
    {
      ghost var d := State();
      var p := Scan(path);
      var check := NameCheck(p);
      if check.Err? {
        return Err(check.errno);
      }
      var k := FindNamedDir(RootBlock(nDirectories, directories[..]), p.dir);
      if k == nDirectories {
        return Err(ENOENT);
      }
      var blk := directories[k].nStartBlock;
      var subdir := Subdir(State(), blk);
      assert subdir == Dir(d, k);
      if FindEntry(subdir, p.file, p.ext) < subdir.nFiles {
        return Err(EEXIST);
      }
      var b := GetFreeBlock(fat, true);
      if b == -1 {
        return Err(ENOENT);
      }
      subdir := Append(subdir, FileEntry(p.file, p.ext, 0, b));
      subdirs := subdirs[blk := subdir];
      written := written + [blk, FAT_BLOCK];
      r := Ok(());
      LookupsAgree(d, p.dir);
      assert State() == Create.Mknod(d, path).1;
      MknodPreserves(d, path);
    }

    /**
     * The end of cs1550_write, with the corrected count: extra cells
     * reserved one by one, one more claimed and set to EOF, and the table
     * written back after each.
     */
    method ReserveBlocks(extra: nat)
      requires fat.Length == MAX_NUM_BLOCKS
      modifies this, fat
      ensures nDirectories == old(nDirectories) && directories == old(directories) && fat == old(fat)
      ensures subdirs == old(subdirs)
      ensures fat[..] == ReserveForWrite(old(fat[..]), extra)
      ensures written == old(written) + seq(extra + 1, _ => FAT_BLOCK)
    {
      ghost var cells := fat[..];
      ghost var written0 := written;
      var i := 0;
      while i < extra
        invariant 0 <= i <= extra
        invariant nDirectories == old(nDirectories) && directories == old(directories) && fat == old(fat)
        invariant subdirs == old(subdirs)
        invariant fat[..] == Reserve(cells, i)
        invariant written == written0 + seq(i, _ => FAT_BLOCK)
      {
        var _ := GetFreeBlock(fat, true);
        written := written + [FAT_BLOCK];
        i := i + 1;
      }
      var e := GetFreeBlock(fat, true);
      if e != -1 {
        fat[e] := EOF;
      }
      written := written + [FAT_BLOCK];
    }

    /**
     * cs1550_write with the corrected reservation count: the checks of
     * Resolve.Locate, then WriteFound. The result is the number of bytes
     * of data, or the error of the first check that fails, with nothing
     * changed.
     */
    method Write(path: string, buf: seq<byte>, size: nat, offset: nat, stored: seq<byte>)
      returns (r: Result<nat>, block: array<byte>)
      requires Valid() && |stored| == BLOCK_SIZE
      modifies this, fat
      ensures Valid() && fresh(block)
      ensures nDirectories == old(nDirectories) && directories[..] == old(directories[..]) && subdirs == old(subdirs)
      ensures Locate(old(State()), path, size, offset).Err? ==>
                r == Err(Locate(old(State()), path, size, offset).errno)
                && fat[..] == old(fat[..]) && written == old(written)
      ensures Locate(old(State()), path, size, offset).Ok? ==>
                r == Ok(|buf|) && offset == 0
                && offset % BLOCK_SIZE + |buf| <= BufferBlocks(offset, |buf|) * BLOCK_SIZE
                && block[..] == Splice(Staged(stored, offset, |buf|), offset % BLOCK_SIZE, buf)
                && fat[..] == ReserveForWrite(old(fat[..]), ExtraBlocks(|buf|))
                && written == old(written) + seq(ExtraBlocks(|buf|) + 1, _ => FAT_BLOCK)
    {
      var found := Locate(State(), path, size, offset);
      if found.Err? {
        block := new byte[BufferBlocks(offset, |buf|) * BLOCK_SIZE](_ => 0);
        return Err(found.errno), block;
      }
      LocateOnlyAtStart(State(), path, size, offset);
      r, block := WriteFound(buf, offset, stored);
    }

    /**
     * cs1550_write once its checks have passed, at an offset that keeps the
     * copy inside the buffer: the data staged by StageBlock in a buffer whose
     * first block is `stored`, the file's first block as fread delivers it,
     * then the reservation of ReserveBlocks.
     */
    method WriteFound(buf: seq<byte>, offset: nat, stored: seq<byte>) returns (r: Result<nat>, block: array<byte>)
      requires Valid() && |stored| == BLOCK_SIZE
      requires offset % BLOCK_SIZE + |buf| <= BufferBlocks(offset, |buf|) * BLOCK_SIZE
      modifies this, fat
      ensures Valid() && fresh(block)
      ensures nDirectories == old(nDirectories) && directories[..] == old(directories[..]) && subdirs == old(subdirs)
      ensures r == Ok(|buf|)
      ensures block[..] == Splice(Staged(stored, offset, |buf|), offset % BLOCK_SIZE, buf)
      ensures fat[..] == ReserveForWrite(old(fat[..]), ExtraBlocks(|buf|))
      ensures written == old(written) + seq(ExtraBlocks(|buf|) + 1, _ => FAT_BLOCK)
    {
      ghost var d := State();
      block := StageBlock(stored, offset, buf);
      var extra := ExtraBlocks(|buf|);
      ReserveBlocks(extra);
      assert State() == d.(fat := ReserveForWrite(d.fat, extra));
      ReserveForWritePreserves(d, extra);
      r := Ok(|buf|);
    }
  }

  /**
   * The buffer of cs1550_write: BufferBlocks zeroed blocks, the file's
   * first block read into the first, and the data copied in at
   * offset % BLOCK_SIZE, which must leave it inside the buffer.
   */
  method StageBlock(stored: seq<byte>, offset: nat, buf: seq<byte>) returns (block: array<byte>)
    requires |stored| == BLOCK_SIZE && offset % BLOCK_SIZE + |buf| <= BufferBlocks(offset, |buf|) * BLOCK_SIZE
    ensures fresh(block)
    ensures block[..] == Splice(Staged(stored, offset, |buf|), offset % BLOCK_SIZE, buf)
  {
    block := new byte[BufferBlocks(offset, |buf|) * BLOCK_SIZE](_ => 0);
    forall i | 0 <= i < BLOCK_SIZE {
      block[i] := stored[i];
    }
    assert block[..] == Staged(stored, offset, |buf|);
    var at := offset % BLOCK_SIZE;
    forall i | 0 <= i < |buf| {
      block[at + i] := buf[i];
    }
    assert block[..] == Splice(Staged(stored, offset, |buf|), at, buf) by {
      var s := Splice(Staged(stored, offset, |buf|), at, buf);
      forall i | at <= i < at + |buf|
        ensures block[i] == s[i]
      {
        assert s[i] == s[at..at + |buf|][i - at];
      }
    }
  }
}
