/**
 * The two operations that change the image: mkdir appends a record to the
 * root table and claims a block for the new directory; mknod appends a
 * record to a directory's table and claims a block for the new file.
 */
module Create {
  import opened Layout
  import opened PathParse
  import opened Fat
  import opened Tables
  import opened Resolve

  /** Some cell at or after `from` is free. */
  predicate HasFree(fat: seq<int>, from: nat) {
    exists b :: from <= b < |fat| && fat[b] == UNUSED
  }

  /** The lowest free cell at or after `from` is b. */
  predicate LowestFree(fat: seq<int>, from: nat, b: int) {
    from <= b < |fat| && fat[b] == UNUSED && forall c :: from <= c < b ==> fat[c] != UNUSED
  }

  /**
   * mkdir, in the source's order: a directory component is required, the
   * root table must have room, no slot may already hold the name, and a
   * block must be free; then the directory takes the next root slot and the
   * lowest free block from 2 on. On an error the image is unchanged.
   */
  function Mkdir(d: DiskState, path: string): (r: (Result<()>, DiskState))
    requires Shaped(d)
    ensures Shaped(r.1)
    ensures r.0.Err? ==> r.1 == d && r.0.errno in {ENOENT, EEXIST}
    ensures r.0 == Err(EEXIST) <==>
              Scan(path).dir != "" && d.root.nDirectories < MAX_DIRS_IN_ROOT && NameTaken(d.root, Scan(path).dir)
    ensures r.0.Ok? <==>
              Scan(path).dir != "" && d.root.nDirectories < MAX_DIRS_IN_ROOT
              && !NameTaken(d.root, Scan(path).dir) && HasFree(d.fat, 2)
    ensures r.0.Ok? ==>
              d.root.nDirectories < MAX_DIRS_IN_ROOT
              && (exists b :: LowestFree(d.fat, 2, b)
                    && r.1 == AddDir(d.(fat := d.fat[b := USED]), DirEntry(Scan(path).dir, b)))
  {
    var p := Scan(path);
    if p.dir == "" then (Err(ENOENT), d)
    else if d.root.nDirectories >= MAX_DIRS_IN_ROOT then (Err(ENOENT), d)
    else if NameTaken(d.root, p.dir) then (Err(EEXIST), d)
    else
      var (b, fat) := Allocate(d.fat, false);
      if b <= 0 then (Err(ENOENT), d)
      else
        assert LowestFree(d.fat, 2, b);
        (Ok(()), AddDir(d.(fat := fat), DirEntry(p.dir, b)))
  }

  /**
   * mknod's checks before it allocates, in the source's order: the
   * validation chain, the directory (skipping empty names), and the test
   * that no slot has the same name and extension. The result is the root
   * slot of the directory.
   */
  function MknodTarget(d: DiskState, path: string): (r: Result<nat>)
    requires Shaped(d)
    ensures r.Err? ==> r.errno in {EPERM, ENAMETOOLONG, ENOENT, EEXIST}
    ensures NameCheck(Scan(path)).Err? ==> r == Err(NameCheck(Scan(path)).errno)
    ensures NameCheck(Scan(path)).Ok? ==> (r == Err(ENOENT) <==> Scan(path).dir !in DirNames(d.root))
    ensures r == Err(EEXIST) <==>
              NameCheck(Scan(path)).Ok? && Scan(path).dir in DirNames(d.root)
              && (Scan(path).file, Scan(path).ext) in FileKeys(Dir(d, FindDir(d.root, Scan(path).dir)))
    ensures r.Ok? ==>
              r.value < d.root.nDirectories && r.value == FindDir(d.root, Scan(path).dir)
              && (Scan(path).file, Scan(path).ext) !in FileKeys(Dir(d, r.value))
  {
    var p := Scan(path);
    if NameCheck(p).Err? then Err(NameCheck(p).errno)
    else
      var k := FindNamedDir(d.root, p.dir);
      if k == d.root.nDirectories then Err(ENOENT)
      else if FindEntry(Dir(d, k), p.file, p.ext) < Dir(d, k).nFiles then Err(EEXIST)
      else Ok(k)
  }

  /**
   * mknod does not check that the directory's table has a free slot: on a
   * full table it writes the record one past its end. Callers keep to the
   * case where the table has room.
   */
  predicate MknodFits(d: DiskState, path: string)
    requires Shaped(d)
  {
    MknodTarget(d, path).Ok? ==> Dir(d, MknodTarget(d, path).value).nFiles < MAX_FILES_IN_DIR
  }

  /**
   * mknod: after MknodTarget's checks a block must be free in the file
   * region; then the file, with size 0 and the lowest free block from
   * MAX_DIRS_IN_ROOT on, takes the next slot of its directory's table. On an
   * error the image is unchanged.
   */
  function Mknod(d: DiskState, path: string): (r: (Result<()>, DiskState))
    requires Shaped(d) && MknodFits(d, path)
    ensures Shaped(r.1)
    ensures r.0.Err? ==> r.1 == d
    ensures MknodTarget(d, path).Err? ==> r.0 == Err(MknodTarget(d, path).errno)
    ensures MknodTarget(d, path).Ok? ==> (r.0.Ok? <==> HasFree(d.fat, MAX_DIRS_IN_ROOT))
    ensures MknodTarget(d, path).Ok? && r.0.Err? ==> r.0 == Err(ENOENT)
    ensures r.0.Ok? ==>
              MknodTarget(d, path).Ok?
              && (exists b :: LowestFree(d.fat, MAX_DIRS_IN_ROOT, b)
                    && r.1 == AddFile(d.(fat := d.fat[b := USED]), MknodTarget(d, path).value,
                                      FileEntry(Scan(path).file, Scan(path).ext, 0, b)))
  {
    match MknodTarget(d, path)
    case Err(e) => (Err(e), d)
    case Ok(k) =>
      var (b, fat) := Allocate(d.fat, true);
      if b == -1 then (Err(ENOENT), d)
      else
        var p := Scan(path);
        assert LowestFree(d.fat, MAX_DIRS_IN_ROOT, b);
        (Ok(()), AddFile(d.(fat := fat), k, FileEntry(p.file, p.ext, 0, b)))
  }

  /**
   * mknod as cs1550.c:651-652 has it: the same checks and the same new
   * table, but written back to the block of root slot nFiles (the index of
   * the new file record) instead of the block of the directory's own slot.
   */
  function MknodAsWritten(d: DiskState, path: string): (r: (Result<()>, DiskState))
    requires Shaped(d) && MknodFits(d, path)
    ensures r.0 == Mknod(d, path).0 && r.1.root == d.root
    ensures r.0.Err? ==> r.1 == d
  {
    match MknodTarget(d, path)
    case Err(e) => (Err(e), d)
    case Ok(k) =>
      var (b, fat) := Allocate(d.fat, true);
      if b == -1 then (Err(ENOENT), d)
      else
        var p := Scan(path);
        (Ok(()), Misfile(d.(fat := fat), k, FileEntry(p.file, p.ext, 0, b)))
  }

  /** AddFile's new table, stored at the block of root slot nFiles rather than at the block of slot k. */
  function Misfile(d: DiskState, k: nat, f: FileEntry): (d': DiskState)
    requires Shaped(d) && k < MAX_DIRS_IN_ROOT && Dir(d, k).nFiles < MAX_FILES_IN_DIR
    ensures Shaped(d') && d'.root == d.root && d'.fat == d.fat
    ensures Dir(d', Dir(d, k).nFiles) == Append(Dir(d, k), f)
    ensures forall k' :: 0 <= k' < MAX_DIRS_IN_ROOT
                         && d.root.directories[k'].nStartBlock != d.root.directories[Dir(d, k).nFiles].nStartBlock ==>
              Dir(d', k') == Dir(d, k')
  {
    d.(subdirs := d.subdirs[d.root.directories[Dir(d, k).nFiles].nStartBlock := Append(Dir(d, k), f)])
  }

  // ---------------------------------------------------------------------------
  // The invariant is kept.

  /** fat' claims the cells fat claims, and possibly more. */
  predicate Grows(fat: seq<int>, fat': seq<int>) {
    |fat'| == |fat| && forall i :: 0 <= i < |fat| && fat[i] != UNUSED ==> fat'[i] == fat[i]
  }

  lemma SubdirOkGrows(fat: seq<int>, fat': seq<int>, s: SubdirBlock)
    requires Grows(fat, fat') && SubdirOk(fat, s)
    ensures SubdirOk(fat', s)
  {
    forall j | 0 <= j < s.nFiles
      ensures FileEntryOk(fat', s.files[j])
    {
      assert FileEntryOk(fat, s.files[j]);
    }
  }

  /** Claiming more cells, without releasing any, keeps an image well formed. */
  lemma FatGrowPreserves(d: DiskState, fat: seq<int>)
    requires WellFormed(d) && Grows(d.fat, fat)
    ensures WellFormed(d.(fat := fat))
  {
    var d' := d.(fat := fat);
    assert forall k :: 0 <= k < MAX_DIRS_IN_ROOT ==> Dir(d', k) == Dir(d, k);
    forall k | 0 <= k < d.root.nDirectories
      ensures DirEntryOk(fat, d.root.directories[k])
    {
      assert DirEntryOk(d.fat, d.root.directories[k]);
    }
    forall k | 0 <= k < d.root.nDirectories
      ensures SubdirOk(fat, Dir(d', k))
    {
      SubdirOkGrows(d.fat, fat, Dir(d, k));
    }
    assert RootOk(d') && TablesOk(d') && Owned(d');
    assert forall k, j :: 0 <= k < MAX_DIRS_IN_ROOT && 0 <= j < MAX_FILES_IN_DIR ==> FileBlock(d', k, j) == FileBlock(d, k, j);
    assert Apart(d');
  }

  /** The conditions under which AddDir keeps an image well formed. */
  ghost predicate CanAddDir(d: DiskState, e: DirEntry) {
    WellFormed(d) && d.root.nDirectories < MAX_DIRS_IN_ROOT
    && DirEntryOk(d.fat, e) && !NameTaken(d.root, e.dname) && e.nStartBlock !in d.subdirs
    && (forall k :: 0 <= k < d.root.nDirectories ==> d.root.directories[k].nStartBlock != e.nStartBlock)
    && (forall k, j :: 0 <= k < d.root.nDirectories && 0 <= j < Dir(d, k).nFiles ==> FileBlock(d, k, j) != e.nStartBlock)
  }

  /** AddDir leaves the old slots and their tables as they were; the new slot's table is empty. */
  lemma AddDirSlots(d: DiskState, e: DirEntry)
    requires Shaped(d) && d.root.nDirectories < MAX_DIRS_IN_ROOT && e.nStartBlock !in d.subdirs
    ensures var d' := AddDir(d, e);
            d'.root.directories[d.root.nDirectories] == e && Dir(d', d.root.nDirectories).nFiles == 0
            && forall k :: 0 <= k < MAX_DIRS_IN_ROOT && k != d.root.nDirectories ==>
                 d'.root.directories[k] == d.root.directories[k] && Dir(d', k) == Dir(d, k)
  {
  }

  lemma AddDirRootOk(d: DiskState, e: DirEntry)
    requires CanAddDir(d, e)
    ensures RootOk(AddDir(d, e))
  {
    AddDirSlots(d, e);
    forall k | 0 <= k < d.root.nDirectories
      ensures d.root.directories[k].dname != e.dname
    {
      assert DirEntryOk(d.fat, d.root.directories[k]);
    }
  }

  lemma AddDirTablesOk(d: DiskState, e: DirEntry)
    requires CanAddDir(d, e)
    ensures TablesOk(AddDir(d, e))
  {
    AddDirSlots(d, e);
  }

  lemma AddDirOwned(d: DiskState, e: DirEntry)
    requires CanAddDir(d, e)
    ensures Owned(AddDir(d, e))
  {
    AddDirSlots(d, e);
    var d' := AddDir(d, e);
    forall b | b in d'.subdirs
      ensures exists k :: 0 <= k < d'.root.nDirectories && d'.root.directories[k].nStartBlock == b
    {
      var k :| 0 <= k < d.root.nDirectories && d.root.directories[k].nStartBlock == b;
      assert d'.root.directories[k].nStartBlock == b;
    }
  }

  lemma AddDirApart(d: DiskState, e: DirEntry)
    requires CanAddDir(d, e)
    ensures Apart(AddDir(d, e))
  {
    AddDirSlots(d, e);
    var d' := AddDir(d, e);
    assert forall k, j :: 0 <= k < d.root.nDirectories && 0 <= j < MAX_FILES_IN_DIR ==> FileBlock(d', k, j) == FileBlock(d, k, j);
  }

  /**
   * Appending a directory record keeps an image well formed when the name is
   * new and the record's block is taken, owned by nobody, and not written.
   */
  lemma AddDirPreserves(d: DiskState, e: DirEntry)
    requires CanAddDir(d, e)
    ensures WellFormed(AddDir(d, e))
  {
    AddDirRootOk(d, e);
    AddDirTablesOk(d, e);
    AddDirOwned(d, e);
    AddDirApart(d, e);
  }

  /** The conditions under which AddFile keeps an image well formed. */
  ghost predicate CanAddFile(d: DiskState, k: nat, f: FileEntry) {
    WellFormed(d) && k < d.root.nDirectories && Dir(d, k).nFiles < MAX_FILES_IN_DIR
    && FileEntryOk(d.fat, f) && (f.fname, f.fext) !in FileKeys(Dir(d, k))
    && (forall k' :: 0 <= k' < d.root.nDirectories ==> d.root.directories[k'].nStartBlock != f.nStartBlock)
    && (forall k', j :: 0 <= k' < d.root.nDirectories && 0 <= j < Dir(d, k').nFiles ==> FileBlock(d, k', j) != f.nStartBlock)
  }

  /** AddFile changes only the table of slot k, which gains f. */
  lemma AddFileSlots(d: DiskState, k: nat, f: FileEntry)
    requires CanAddFile(d, k, f)
    ensures forall k' :: 0 <= k' < d.root.nDirectories && k' != k ==> Dir(AddFile(d, k, f), k') == Dir(d, k')
  {
    forall k' | 0 <= k' < d.root.nDirectories && k' != k
      ensures Dir(AddFile(d, k, f), k') == Dir(d, k')
    {
      assert d.root.directories[k'].nStartBlock != d.root.directories[k].nStartBlock;
    }
  }

  lemma AddFileTablesOk(d: DiskState, k: nat, f: FileEntry)
    requires CanAddFile(d, k, f)
    ensures TablesOk(AddFile(d, k, f))
  {
    AddFileSlots(d, k, f);
    var s := Dir(d, k);
    var s' := Dir(AddFile(d, k, f), k);
    assert SubdirOk(d.fat, s);
    forall j | 0 <= j < s.nFiles
      ensures s.files[j].fname != f.fname || s.files[j].fext != f.fext
    {
      assert FileKeys(s)[j] == (s.files[j].fname, s.files[j].fext);
    }
    assert SubdirOk(d.fat, s');
  }

  lemma AddFileOwned(d: DiskState, k: nat, f: FileEntry)
    requires CanAddFile(d, k, f)
    ensures Owned(AddFile(d, k, f))
  {
    var d' := AddFile(d, k, f);
    forall b | b in d'.subdirs
      ensures exists k' :: 0 <= k' < d.root.nDirectories && d.root.directories[k'].nStartBlock == b
    {
      if b != d.root.directories[k].nStartBlock {
        assert b in d.subdirs;
      }
    }
  }

  lemma AddFileApart(d: DiskState, k: nat, f: FileEntry)
    requires CanAddFile(d, k, f)
    ensures Apart(AddFile(d, k, f))
  {
    AddFileSlots(d, k, f);
    var d' := AddFile(d, k, f);
    var s := Dir(d, k);
    assert forall k', j :: 0 <= k' < d.root.nDirectories && 0 <= j < Dir(d', k').nFiles ==>
      FileBlock(d', k', j) == if k' == k && j == s.nFiles then f.nStartBlock else FileBlock(d, k', j);
  }

  /**
   * Appending a file record keeps an image well formed when the directory's
   * table has room, the (name, extension) pair is new there, and the
   * record's block is taken and owned by nobody.
   */
  lemma AddFilePreserves(d: DiskState, k: nat, f: FileEntry)
    requires CanAddFile(d, k, f)
    ensures WellFormed(AddFile(d, k, f))
  {
    AddFileTablesOk(d, k, f);
    AddFileOwned(d, k, f);
    AddFileApart(d, k, f);
  }

  /** On a well-formed image a free block belongs to no directory and no file, and has no table. */
  lemma FreeUnowned(d: DiskState, b: int)
    requires WellFormed(d) && 0 <= b < |d.fat| && d.fat[b] == UNUSED
    ensures forall k :: 0 <= k < d.root.nDirectories ==> d.root.directories[k].nStartBlock != b
    ensures forall k, j :: 0 <= k < d.root.nDirectories && 0 <= j < Dir(d, k).nFiles ==> FileBlock(d, k, j) != b
    ensures b !in d.subdirs
  {
    forall k | 0 <= k < d.root.nDirectories
      ensures d.root.directories[k].nStartBlock != b
    {
      assert DirEntryOk(d.fat, d.root.directories[k]);
    }
    forall k, j | 0 <= k < d.root.nDirectories && 0 <= j < Dir(d, k).nFiles
      ensures FileBlock(d, k, j) != b
    {
      assert SubdirOk(d.fat, Dir(d, k)) && FileEntryOk(d.fat, Dir(d, k).files[j]);
    }
  }

  /** mkdir keeps the image well formed. */
  lemma MkdirPreserves(d: DiskState, path: string)
    requires WellFormed(d) && |Scan(path).dir| <= MAX_FILENAME
    ensures WellFormed(Mkdir(d, path).1)
  {
    var r := Mkdir(d, path);
    if r.0.Ok? {
      var b :| LowestFree(d.fat, 2, b) && r.1 == AddDir(d.(fat := d.fat[b := USED]), DirEntry(Scan(path).dir, b));
      var fat := d.fat[b := USED];
      assert Grows(d.fat, fat);
      FatGrowPreserves(d, fat);
      var d1 := d.(fat := fat);
      FreeUnowned(d, b);
      assert forall k :: 0 <= k < MAX_DIRS_IN_ROOT ==> Dir(d1, k) == Dir(d, k);
      AddDirPreserves(d1, DirEntry(Scan(path).dir, b));
    }
  }

  /** The record mknod builds, with a lowest free block b, may be appended once b is claimed. */
  lemma MknodCanAdd(d: DiskState, path: string, b: int)
    requires WellFormed(d) && MknodFits(d, path) && MknodTarget(d, path).Ok?
    requires LowestFree(d.fat, MAX_DIRS_IN_ROOT, b)
    ensures CanAddFile(d.(fat := d.fat[b := USED]), MknodTarget(d, path).value,
                       FileEntry(Scan(path).file, Scan(path).ext, 0, b))
  {
    var p, k := Scan(path), MknodTarget(d, path).value;
    var fat := d.fat[b := USED];
    var d1 := d.(fat := fat);
    var f := FileEntry(p.file, p.ext, 0, b);
    assert Grows(d.fat, fat);
    FatGrowPreserves(d, fat);
    FreeUnowned(d, b);
    assert NameCheck(p).Ok?;
    assert FileEntryOk(fat, f);
    assert Dir(d1, k) == Dir(d, k);
    assert forall k', j :: 0 <= k' < d1.root.nDirectories && 0 <= j < Dir(d1, k').nFiles ==>
      FileBlock(d1, k', j) == FileBlock(d, k', j);
  }

  /** mknod keeps the image well formed. */
  lemma MknodPreserves(d: DiskState, path: string)
    requires WellFormed(d) && MknodFits(d, path)
    ensures WellFormed(Mknod(d, path).1)
  {
    var r := Mknod(d, path);
    if r.0.Ok? {
      var k := MknodTarget(d, path).value;
      var p := Scan(path);
      var b :| LowestFree(d.fat, MAX_DIRS_IN_ROOT, b)
               && r.1 == AddFile(d.(fat := d.fat[b := USED]), k, FileEntry(p.file, p.ext, 0, b));
      MknodCanAdd(d, path, b);
      AddFilePreserves(d.(fat := d.fat[b := USED]), k, FileEntry(p.file, p.ext, 0, b));
    }
  }

  // ---------------------------------------------------------------------------
  // What the other operations see afterwards.

  /** The block mkdir gives the directory: a free one, at 2 or above. */
  lemma MkdirBlock(d: DiskState, path: string)
    requires WellFormed(d) && Mkdir(d, path).0.Ok?
    ensures var b := Mkdir(d, path).1.root.directories[d.root.nDirectories].nStartBlock;
            LowestFree(d.fat, 2, b) && b !in d.subdirs
            && Mkdir(d, path).1 == AddDir(d.(fat := d.fat[b := USED]), DirEntry(Scan(path).dir, b))
  {
    var b :| LowestFree(d.fat, 2, b) && Mkdir(d, path).1 == AddDir(d.(fat := d.fat[b := USED]), DirEntry(Scan(path).dir, b));
    forall k | 0 <= k < d.root.nDirectories
      ensures d.root.directories[k].nStartBlock != b
    {
      assert DirEntryOk(d.fat, d.root.directories[k]);
    }
  }

  /** What mkdir adds: slot nDirectories holds the new name, which only it holds, and its table is empty. */
  lemma MkdirNewSlot(d: DiskState, path: string)
    requires WellFormed(d) && |Scan(path).dir| <= MAX_FILENAME && Mkdir(d, path).0.Ok?
    ensures var d', name, n := Mkdir(d, path).1, Scan(path).dir, d.root.nDirectories;
            name != "" && '/' !in name && |name| <= MAX_FILENAME
            && d'.root.nDirectories == n + 1 && FindDir(d'.root, name) == n && Dir(d', n).nFiles == 0
            && DirNames(d'.root) == DirNames(d.root) + [name]
  {
    MkdirBlock(d, path);
    var d' := Mkdir(d, path).1;
    var n := d.root.nDirectories;
    assert forall k :: 0 <= k < n ==> d'.root.directories[k] == d.root.directories[k];
  }

  /**
   * After a successful mkdir the directory exists: getattr reports it,
   * readdir of it lists nothing but "." and "..", and readdir of the root
   * lists it after the directories that were there before.
   */
  lemma MkdirVisible(d: DiskState, path: string)
    requires WellFormed(d) && |Scan(path).dir| <= MAX_FILENAME && Mkdir(d, path).0.Ok?
    ensures var d', name := Mkdir(d, path).1, Scan(path).dir;
            GetAttr(d', "/" + name) == Ok(DirAttr)
            && ReadDir(d', "/" + name) == Ok([".", ".."])
            && ReadDir(d', "/") == Ok([".", ".."] + DirNames(d.root) + [name])
  {
    var d' := Mkdir(d, path).1;
    var name := Scan(path).dir;
    MkdirNewSlot(d, path);
    GetAttrDirectory(d', name);
    ReadDirDirectory(d', name);
    var n := d.root.nDirectories;
    assert Listing(Dir(d', n)) == [];
    assert ReadDir(d', "/" + name) == Ok([".", ".."] + Listing(Dir(d', n)));
    assert [".", ".."] + Listing(Dir(d', n)) == [".", ".."];
    assert [".", ".."] + DirNames(d.root) + [name] == [".", ".."] + (DirNames(d.root) + [name]);
  }

  /** mkdir of a name that now exists fails and changes nothing: EEXIST, or ENOENT once the root table is full. */
  lemma MkdirAgain(d: DiskState, path: string)
    requires WellFormed(d) && |Scan(path).dir| <= MAX_FILENAME && Mkdir(d, path).0.Ok?
    ensures var d' := Mkdir(d, path).1;
            Mkdir(d', path) == (Err(if d'.root.nDirectories >= MAX_DIRS_IN_ROOT then ENOENT else EEXIST), d')
  {
    var d' := Mkdir(d, path).1;
    MkdirBlock(d, path);
    assert d'.root.directories[d.root.nDirectories].dname == Scan(path).dir;
  }

  /** getattr, readdir and the read/write checks read the tables, never the allocation table. */
  lemma FatUnseen(d: DiskState, fat: seq<int>, q: string, size: nat, offset: nat)
    requires Shaped(d) && |fat| == |d.fat|
    ensures GetAttr(d.(fat := fat), q) == GetAttr(d, q)
    ensures ReadDir(d.(fat := fat), q) == ReadDir(d, q)
    ensures Locate(d.(fat := fat), q, size, offset) == Locate(d, q, size, offset)
  {
    var d' := d.(fat := fat);
    assert forall k :: 0 <= k < MAX_DIRS_IN_ROOT ==> Dir(d', k) == Dir(d, k);
    GetAttrSameTables(d', d, q);
    ReadDirSameTables(d', d, q);
    LocateSameTables(d', d, q, size, offset);
  }

  /** After a new root slot, the directory lookup of any other name finds the same table, or nothing as before. */
  lemma AddDirLookup(d: DiskState, e: DirEntry, x: string)
    requires Shaped(d) && d.root.nDirectories < MAX_DIRS_IN_ROOT && e.dname != x
    ensures var d', k := AddDir(d, e), FindDir(d.root, x);
            (FindDir(d'.root, x) < d'.root.nDirectories <==> k < d.root.nDirectories)
            && (k < d.root.nDirectories ==> FindDir(d'.root, x) == k && Dir(d', k) == Dir(d, k))
  {
    FindDirAppend(d.root, e, x);
  }

  /** A new root slot is invisible under every other directory name. */
  lemma AddDirFrame(d: DiskState, e: DirEntry, q: string, size: nat, offset: nat)
    requires Shaped(d) && d.root.nDirectories < MAX_DIRS_IN_ROOT && e.dname != Scan(q).dir
    ensures GetAttr(AddDir(d, e), q) == GetAttr(d, q)
    ensures q != "/" ==> ReadDir(AddDir(d, e), q) == ReadDir(d, q)
    ensures Locate(AddDir(d, e), q, size, offset) == Locate(d, q, size, offset)
  {
    AddDirLookup(d, e, Scan(q).dir);
    AddDirGetAttr(d, e, q);
    AddDirReadDir(d, e, q);
    AddDirLocate(d, e, q, size, offset);
  }

  lemma AddDirGetAttr(d: DiskState, e: DirEntry, q: string)
    requires Shaped(d) && d.root.nDirectories < MAX_DIRS_IN_ROOT && e.dname != Scan(q).dir
    ensures GetAttr(AddDir(d, e), q) == GetAttr(d, q)
  {
    AddDirLookup(d, e, Scan(q).dir);
  }

  lemma AddDirReadDir(d: DiskState, e: DirEntry, q: string)
    requires Shaped(d) && d.root.nDirectories < MAX_DIRS_IN_ROOT && e.dname != Scan(q).dir
    ensures q != "/" ==> ReadDir(AddDir(d, e), q) == ReadDir(d, q)
  {
    AddDirLookup(d, e, Scan(q).dir);
  }

  lemma AddDirLocate(d: DiskState, e: DirEntry, q: string, size: nat, offset: nat)
    requires Shaped(d) && d.root.nDirectories < MAX_DIRS_IN_ROOT && e.dname != Scan(q).dir
    ensures Locate(AddDir(d, e), q, size, offset) == Locate(d, q, size, offset)
  {
    if NameCheck(Scan(q)).Ok? {
      AddDirLocateNamed(d, e, Scan(q), size, offset);
    }
  }

  /** The read/write checks on names that pass NameCheck: only the directory lookup can differ, and it does not. */
  lemma AddDirLocateNamed(d: DiskState, e: DirEntry, p: Parts, size: nat, offset: nat)
    requires Shaped(d) && d.root.nDirectories < MAX_DIRS_IN_ROOT && e.dname != p.dir && NameCheck(p).Ok?
    ensures LocateParts(AddDir(d, e), p, size, offset) == LocateParts(d, p, size, offset)
  {
    AddDirLookup(d, e, p.dir);
    assert FindNamedDir(d.root, p.dir) == FindDir(d.root, p.dir);
    assert FindNamedDir(AddDir(d, e).root, p.dir) == FindDir(AddDir(d, e).root, p.dir);
  }

  /**
   * mkdir changes nothing the other operations see under any other name:
   * getattr and the read/write checks give the same answers, and so does
   * readdir of anything but the root.
   */
  lemma MkdirFrame(d: DiskState, path: string, q: string, size: nat, offset: nat)
    requires WellFormed(d) && Mkdir(d, path).0.Ok? && Scan(q).dir != Scan(path).dir
    ensures var d' := Mkdir(d, path).1;
            GetAttr(d', q) == GetAttr(d, q)
            && (q != "/" ==> ReadDir(d', q) == ReadDir(d, q))
            && Locate(d', q, size, offset) == Locate(d, q, size, offset)
  {
    MkdirBlock(d, path);
    var b := Mkdir(d, path).1.root.directories[d.root.nDirectories].nStartBlock;
    var d1 := d.(fat := d.fat[b := USED]);
    AddDirFrame(d1, DirEntry(Scan(path).dir, b), q, size, offset);
    FatUnseen(d, d.fat[b := USED], q, size, offset);
  }

  /** What mknod adds on a well-formed image: the new record, in the next slot of its directory's table. */
  lemma MknodNewEntry(d: DiskState, path: string)
    requires WellFormed(d) && MknodFits(d, path) && Mknod(d, path).0.Ok?
    ensures var d', p := Mknod(d, path).1, Scan(path);
            var k := FindDir(d.root, p.dir);
            var f := FileEntry(p.file, p.ext, 0, FirstFree(d.fat, MAX_DIRS_IN_ROOT));
            k < d.root.nDirectories && Dir(d, k).nFiles < MAX_FILES_IN_DIR
            && WellFormed(d') && d'.root == d.root && Dir(d', k) == Append(Dir(d, k), f)
  {
    var p := Scan(path);
    var k := MknodTarget(d, path).value;
    var b :| LowestFree(d.fat, MAX_DIRS_IN_ROOT, b)
             && Mknod(d, path).1 == AddFile(d.(fat := d.fat[b := USED]), k, FileEntry(p.file, p.ext, 0, b));
    assert b == FirstFree(d.fat, MAX_DIRS_IN_ROOT);
    assert Dir(d.(fat := d.fat[b := USED]), k) == Dir(d, k);
    MknodPreserves(d, path);
  }

  /**
   * After a successful mknod the file exists: getattr reports it, read and
   * write find its record (size 0, the lowest free block of the file region),
   * and readdir of its directory lists it after the files there before.
   */
  lemma MknodVisible(d: DiskState, path: string, size: nat)
    requires WellFormed(d) && MknodFits(d, path) && Mknod(d, path).0.Ok? && size > 0
    ensures var d', p := Mknod(d, path).1, Scan(path);
            var k := FindDir(d.root, p.dir);
            var f := FileEntry(p.file, p.ext, 0, FirstFree(d.fat, MAX_DIRS_IN_ROOT));
            k < d.root.nDirectories
            && GetAttr(d', path) == Ok(FileAttr(0))
            && Locate(d', path, size, 0) == Ok(f)
            && ReadDir(d', "/" + p.dir) == Ok([".", ".."] + Listing(Dir(d, k)) + [DisplayName(f)])
  {
    var d' := Mknod(d, path).1;
    var p := Scan(path);
    var k := FindDir(d.root, p.dir);
    var s := Dir(d, k);
    var f := FileEntry(p.file, p.ext, 0, FirstFree(d.fat, MAX_DIRS_IN_ROOT));
    MknodNewEntry(d, path);
    assert Dir(d', k).files[s.nFiles] == f;
    ListedNameResolves(d', k, s.nFiles, size);
    SameParts(d', path, ListedPath(d', k, s.nFiles), size, 0);
    MknodListing(d, path);
  }

  /** readdir of the directory mknod added to: the old listing, then the new name. */
  lemma MknodListing(d: DiskState, path: string)
    requires WellFormed(d) && MknodFits(d, path) && Mknod(d, path).0.Ok?
    ensures var d', p := Mknod(d, path).1, Scan(path);
            var k := FindDir(d.root, p.dir);
            var f := FileEntry(p.file, p.ext, 0, FirstFree(d.fat, MAX_DIRS_IN_ROOT));
            k < d.root.nDirectories
            && ReadDir(d', "/" + p.dir) == Ok([".", ".."] + Listing(Dir(d, k)) + [DisplayName(f)])
  {
    var d' := Mknod(d, path).1;
    var p := Scan(path);
    var k := FindDir(d.root, p.dir);
    var s := Dir(d, k);
    var f := FileEntry(p.file, p.ext, 0, FirstFree(d.fat, MAX_DIRS_IN_ROOT));
    MknodNewEntry(d, path);
    assert DirEntryOk(d.fat, d.root.directories[k]);
    ReadDirDirectory(d', p.dir);
    AppendListings(s, f);
    assert [".", ".."] + Listing(s) + [DisplayName(f)] == [".", ".."] + (Listing(s) + [DisplayName(f)]);
  }

  /** mknod of a name that now exists fails with EEXIST and changes nothing. */
  lemma MknodAgain(d: DiskState, path: string)
    requires WellFormed(d) && MknodFits(d, path) && Mknod(d, path).0.Ok?
    ensures var d' := Mknod(d, path).1;
            MknodFits(d', path) && Mknod(d', path) == (Err(EEXIST), d')
  {
    var d' := Mknod(d, path).1;
    var p := Scan(path);
    var k := MknodTarget(d, path).value;
    var s := Dir(d, k);
    var b :| LowestFree(d.fat, MAX_DIRS_IN_ROOT, b)
             && d' == AddFile(d.(fat := d.fat[b := USED]), k, FileEntry(p.file, p.ext, 0, b));
    var f := FileEntry(p.file, p.ext, 0, b);
    MknodPreserves(d, path);
    FindDirOfSlot(d', k);
    AppendListings(s, f);
    assert (p.file, p.ext) in FileKeys(Dir(d', k));
    assert MknodTarget(d', path) == Err(EEXIST);
  }

  /** The other directories' blocks differ from that of root slot k (as on a well-formed image). */
  predicate ApartFrom(d: DiskState, k: nat)
    requires Shaped(d) && k < MAX_DIRS_IN_ROOT
  {
    forall k' :: 0 <= k' < d.root.nDirectories && k' != k ==>
      d.root.directories[k'].nStartBlock != d.root.directories[k].nStartBlock
  }

  /** After a file is added to slot k, the directory lookup of any other name finds the same table. */
  lemma AddFileLookup(d: DiskState, k: nat, f: FileEntry, x: string)
    requires Shaped(d) && k < MAX_DIRS_IN_ROOT && Dir(d, k).nFiles < MAX_FILES_IN_DIR && ApartFrom(d, k)
    requires d.root.directories[k].dname != x
    ensures var k' := FindDir(d.root, x);
            k' < d.root.nDirectories ==> Dir(AddFile(d, k, f), k') == Dir(d, k')
  {
  }

  lemma AddFileGetAttr(d: DiskState, k: nat, f: FileEntry, q: string)
    requires Shaped(d) && k < MAX_DIRS_IN_ROOT && Dir(d, k).nFiles < MAX_FILES_IN_DIR && ApartFrom(d, k)
    requires d.root.directories[k].dname != Scan(q).dir
    ensures GetAttr(AddFile(d, k, f), q) == GetAttr(d, q)
  {
    AddFileLookup(d, k, f, Scan(q).dir);
    GetAttrSameTables(AddFile(d, k, f), d, q);
  }

  lemma AddFileReadDir(d: DiskState, k: nat, f: FileEntry, q: string)
    requires Shaped(d) && k < MAX_DIRS_IN_ROOT && Dir(d, k).nFiles < MAX_FILES_IN_DIR && ApartFrom(d, k)
    requires d.root.directories[k].dname != Scan(q).dir
    ensures ReadDir(AddFile(d, k, f), q) == ReadDir(d, q)
  {
    AddFileLookup(d, k, f, Scan(q).dir);
    ReadDirSameTables(AddFile(d, k, f), d, q);
  }

  lemma AddFileLocate(d: DiskState, k: nat, f: FileEntry, q: string, size: nat, offset: nat)
    requires Shaped(d) && k < MAX_DIRS_IN_ROOT && Dir(d, k).nFiles < MAX_FILES_IN_DIR && ApartFrom(d, k)
    requires d.root.directories[k].dname != Scan(q).dir
    ensures Locate(AddFile(d, k, f), q, size, offset) == Locate(d, q, size, offset)
  {
    var d' := AddFile(d, k, f);
    var k' := FindNamedDir(d.root, Scan(q).dir);
    assert k' < d.root.nDirectories ==> k' != k && Dir(d', k') == Dir(d, k');
    LocateSameTables(d', d, q, size, offset);
  }

  /**
   * mknod changes nothing the other operations see under any other
   * directory: getattr, readdir and the read/write checks give the same answers.
   */
  lemma MknodFrame(d: DiskState, path: string, q: string, size: nat, offset: nat)
    requires WellFormed(d) && MknodFits(d, path) && Mknod(d, path).0.Ok? && Scan(q).dir != Scan(path).dir
    ensures var d' := Mknod(d, path).1;
            GetAttr(d', q) == GetAttr(d, q)
            && ReadDir(d', q) == ReadDir(d, q)
            && Locate(d', q, size, offset) == Locate(d, q, size, offset)
  {
    var p := Scan(path);
    var k := MknodTarget(d, path).value;
    var b :| LowestFree(d.fat, MAX_DIRS_IN_ROOT, b)
             && Mknod(d, path).1 == AddFile(d.(fat := d.fat[b := USED]), k, FileEntry(p.file, p.ext, 0, b));
    var d1 := d.(fat := d.fat[b := USED]);
    var f := FileEntry(p.file, p.ext, 0, b);
    assert Dir(d1, k) == Dir(d, k);
    assert ApartFrom(d1, k);
    AddFileGetAttr(d1, k, f, q);
    AddFileReadDir(d1, k, f, q);
    AddFileLocate(d1, k, f, q, size, offset);
    FatUnseen(d, d.fat[b := USED], q, size, offset);
  }

  /**
   * What the write-back of cs1550.c:651-652 does on a well-formed image when
   * root slot nFiles holds another directory: that directory's table is
   * replaced by the grown table the file was meant for, and the directory the
   * file was created in keeps its old table.
   */
  lemma MknodAsWrittenMisfiles(d: DiskState, path: string)
    requires WellFormed(d) && MknodFits(d, path) && Mknod(d, path).0.Ok?
    requires var k := MknodTarget(d, path).value;
             Dir(d, k).nFiles != k && Dir(d, k).nFiles < d.root.nDirectories
    ensures var k := MknodTarget(d, path).value;
            var d' := MknodAsWritten(d, path).1;
            Dir(d', k) == Dir(d, k) && Dir(d', Dir(d, k).nFiles) == Dir(Mknod(d, path).1, k)
  {
    var k := MknodTarget(d, path).value;
    var m := Dir(d, k).nFiles;
    assert d.root.directories[m].nStartBlock != d.root.directories[k].nStartBlock;
  }
}
