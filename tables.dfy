/**
 * The on-disk records: the root directory table (block 0), the subdirectory
 * tables (one block per directory), and the disk as a whole. Also the
 * read-only lookups the operations run over these tables, and the invariant
 * every image this core produces keeps.
 */
module Tables {
  import opened Layout
  import opened PathParse

  /** One slot of the root table: directory name and the block holding its file table. */
  datatype DirEntry = DirEntry(dname: string, nStartBlock: int)

  /** One slot of a subdirectory table. */
  datatype FileEntry = FileEntry(fname: string, fext: string, fsize: nat, nStartBlock: int)

  /** Block 0: how many slots are used, and MAX_DIRS_IN_ROOT slots. */
  datatype RootBlock = RootBlock(nDirectories: int, directories: seq<DirEntry>)

  /** A directory's block: how many slots are used, and MAX_FILES_IN_DIR slots. */
  datatype SubdirBlock = SubdirBlock(nFiles: int, files: seq<FileEntry>)

  /**
   * What the operations read from and write to the image: the root block, the
   * allocation table, and the directory blocks written so far, by block number.
   * Data blocks are not part of the model.
   */
  datatype DiskState = DiskState(root: RootBlock, fat: seq<int>, subdirs: map<int, SubdirBlock>)

  const ZeroDir: DirEntry := DirEntry("", 0)
  const ZeroFile: FileEntry := FileEntry("", "", 0, 0)

  /** A block of zero bytes read as a subdirectory table: no files. */
  function ZeroSubdir(): SubdirBlock {
    SubdirBlock(0, seq(MAX_FILES_IN_DIR, _ => ZeroFile))
  }

  predicate RootShaped(r: RootBlock) {
    |r.directories| == MAX_DIRS_IN_ROOT && 0 <= r.nDirectories <= MAX_DIRS_IN_ROOT
  }

  predicate SubdirShaped(s: SubdirBlock) {
    |s.files| == MAX_FILES_IN_DIR && 0 <= s.nFiles <= MAX_FILES_IN_DIR
  }

  /** The record sizes of the C structs, and counts within them. */
  predicate Shaped(d: DiskState) {
    RootShaped(d.root) && |d.fat| == MAX_NUM_BLOCKS
    && forall b :: b in d.subdirs ==> SubdirShaped(d.subdirs[b])
  }

  /** The subdirectory table read from block b; the image is zero-filled where nothing was written. */
  function Subdir(d: DiskState, b: int): (s: SubdirBlock)
    requires Shaped(d)
    ensures SubdirShaped(s)
    ensures b !in d.subdirs ==> s.nFiles == 0
  {
    if b in d.subdirs then d.subdirs[b] else ZeroSubdir()
  }

  /** The table of the directory in root slot k. */
  function Dir(d: DiskState, k: int): SubdirBlock
    requires Shaped(d) && 0 <= k < MAX_DIRS_IN_ROOT
  {
    Subdir(d, d.root.directories[k].nStartBlock)
  }

  /** First block of file slot j of the directory in root slot k. */
  function FileBlock(d: DiskState, k: int, j: int): int
    requires Shaped(d) && 0 <= k < MAX_DIRS_IN_ROOT && 0 <= j < MAX_FILES_IN_DIR
  {
    Dir(d, k).files[j].nStartBlock
  }

  /** The index of the first occurrence of x in s, or |s| when there is none. */
  function IndexOf<T(==)>(s: seq<T>, x: T): (k: nat)
    ensures k <= |s|
    ensures k < |s| <==> x in s
    ensures k < |s| ==> s[k] == x
    ensures forall i :: 0 <= i < k ==> s[i] != x
  {
    if s == [] || s[0] == x then 0 else 1 + IndexOf(s[1..], x)
  }

  /** The names of the used root slots, in slot order. */
  function DirNames(r: RootBlock): seq<string>
    requires RootShaped(r)
  {
    seq(r.nDirectories, k requires 0 <= k < r.nDirectories => r.directories[k].dname)
  }

  /**
   * The directory lookup of getattr and readdir (cs1550.c:237-250, 400-412):
   * the first used slot whose name is `name`, or nDirectories when there is none.
   */
  function FindDir(r: RootBlock, name: string): (k: nat)
    requires RootShaped(r)
    ensures k <= r.nDirectories
    ensures k < r.nDirectories <==> name in DirNames(r)
    ensures k < r.nDirectories ==> r.directories[k].dname == name
    ensures forall i :: 0 <= i < k ==> r.directories[i].dname != name
  {
    var names := DirNames(r);
    assert forall i :: 0 <= i < |names| ==> names[i] == r.directories[i].dname;
    IndexOf(names, name)
  }

  /**
   * The directory lookup of mknod, read and write (cs1550.c:589-601, 729-740,
   * 895-906), which also skips slots with an empty name: such a slot never
   * matches, so an empty name is never found.
   */
  function FindNamedDir(r: RootBlock, name: string): (k: nat)
    requires RootShaped(r)
    ensures k <= r.nDirectories
    ensures k < r.nDirectories ==> r.directories[k].dname != "" && r.directories[k].dname == name
    ensures forall i :: 0 <= i < k ==> r.directories[i].dname == "" || r.directories[i].dname != name
  {
    if name == "" then r.nDirectories else FindDir(r, name)
  }

  /**
   * The duplicate test of mkdir (cs1550.c:493-499): some slot among all
   * MAX_DIRS_IN_ROOT, used or not, has this non-empty name.
   */
  predicate NameTaken(r: RootBlock, name: string)
    requires RootShaped(r)
  {
    exists k :: 0 <= k < MAX_DIRS_IN_ROOT && r.directories[k].dname != "" && r.directories[k].dname == name
  }

  function FileNames(s: SubdirBlock): seq<string>
    requires SubdirShaped(s)
  {
    seq(s.nFiles, j requires 0 <= j < s.nFiles => s.files[j].fname)
  }

  function FileKeys(s: SubdirBlock): seq<(string, string)>
    requires SubdirShaped(s)
  {
    seq(s.nFiles, j requires 0 <= j < s.nFiles => (s.files[j].fname, s.files[j].fext))
  }

  /** The file lookup of getattr (cs1550.c:290-309): by name alone, whatever the extension. */
  function FindFile(s: SubdirBlock, name: string): (j: nat)
    requires SubdirShaped(s)
    ensures j <= s.nFiles
    ensures j < s.nFiles <==> name in FileNames(s)
    ensures j < s.nFiles ==> s.files[j].fname == name
    ensures forall i :: 0 <= i < j ==> s.files[i].fname != name
  {
    var names := FileNames(s);
    assert forall i :: 0 <= i < |names| ==> names[i] == s.files[i].fname;
    IndexOf(names, name)
  }

  /** The file lookup of mknod, read and write (cs1550.c:621-628, 762-775, 926-941): by name and extension. */
  function FindEntry(s: SubdirBlock, name: string, ext: string): (j: nat)
    requires SubdirShaped(s)
    ensures j <= s.nFiles
    ensures j < s.nFiles <==> (name, ext) in FileKeys(s)
    ensures j < s.nFiles ==> s.files[j].fname == name && s.files[j].fext == ext
    ensures forall i :: 0 <= i < j ==> s.files[i].fname != name || s.files[i].fext != ext
  {
    var keys := FileKeys(s);
    assert forall i :: 0 <= i < |keys| ==> keys[i] == (s.files[i].fname, s.files[i].fext);
    IndexOf(keys, (name, ext))
  }

  /** How readdir shows a file: "name", or "name.ext" when the extension is not empty. */
  function DisplayName(f: FileEntry): string {
    if f.fext == "" then f.fname else f.fname + "." + f.fext
  }

  /** A directory's files as readdir lists them, in slot order. */
  function Listing(s: SubdirBlock): seq<string>
    requires SubdirShaped(s)
  {
    seq(s.nFiles, j requires 0 <= j < s.nFiles => DisplayName(s.files[j]))
  }

  predicate Taken(fat: seq<int>, b: int) {
    0 <= b < |fat| && fat[b] != UNUSED
  }

  /** A used root slot: a name mkdir accepts, and a block it took from the table. */
  predicate DirEntryOk(fat: seq<int>, e: DirEntry) {
    e.dname != "" && |e.dname| <= MAX_FILENAME && '/' !in e.dname
    && 2 <= e.nStartBlock && Taken(fat, e.nStartBlock)
  }

  /** A used file slot: an 8.3 name mknod accepts, size 0, and a block from the file region. */
  predicate FileEntryOk(fat: seq<int>, f: FileEntry) {
    f.fname != "" && |f.fname| <= MAX_FILENAME && '.' !in f.fname
    && NoSpace(f.fext) && |f.fext| <= MAX_EXTENSION
    && f.fsize == 0 && MAX_DIRS_IN_ROOT <= f.nStartBlock && Taken(fat, f.nStartBlock)
  }

  predicate SubdirOk(fat: seq<int>, s: SubdirBlock) {
    SubdirShaped(s)
    && (forall j :: 0 <= j < s.nFiles ==> FileEntryOk(fat, s.files[j]))
    && (forall j1, j2 :: 0 <= j1 < j2 < s.nFiles ==>
          s.files[j1].fname != s.files[j2].fname || s.files[j1].fext != s.files[j2].fext)
  }

  /** The used root slots hold records mkdir accepts, with distinct names and blocks; the rest are empty. */
  ghost predicate RootOk(d: DiskState)
    requires Shaped(d)
  {
    (forall k :: 0 <= k < d.root.nDirectories ==> DirEntryOk(d.fat, d.root.directories[k]))
    && (forall k :: d.root.nDirectories <= k < MAX_DIRS_IN_ROOT ==> d.root.directories[k].dname == "")
    && (forall k1, k2 :: 0 <= k1 < k2 < d.root.nDirectories ==>
          d.root.directories[k1].dname != d.root.directories[k2].dname
          && d.root.directories[k1].nStartBlock != d.root.directories[k2].nStartBlock)
  }

  /** The table of every used directory holds records mknod accepts, with distinct (name, extension) pairs. */
  ghost predicate TablesOk(d: DiskState)
    requires Shaped(d)
  {
    forall k :: 0 <= k < d.root.nDirectories ==> SubdirOk(d.fat, Dir(d, k))
  }

  /** Only the blocks of used directories have been written as tables. */
  ghost predicate Owned(d: DiskState)
    requires Shaped(d)
  {
    forall b :: b in d.subdirs ==>
      exists k :: 0 <= k < d.root.nDirectories && d.root.directories[k].nStartBlock == b
  }

  /** No file's block is a directory's block or another file's. */
  ghost predicate Apart(d: DiskState)
    requires Shaped(d)
  {
    (forall k1, j1, k2 ::
       (0 <= k1 < d.root.nDirectories && 0 <= j1 < Dir(d, k1).nFiles && 0 <= k2 < d.root.nDirectories) ==>
       FileBlock(d, k1, j1) != d.root.directories[k2].nStartBlock)
    && (forall k1, j1, k2, j2 ::
          (0 <= k1 < d.root.nDirectories && 0 <= j1 < Dir(d, k1).nFiles
           && 0 <= k2 < d.root.nDirectories && 0 <= j2 < Dir(d, k2).nFiles && (k1 != k2 || j1 != j2)) ==>
          FileBlock(d, k1, j1) != FileBlock(d, k2, j2))
  }

  /**
   * The invariant of every image mkdir and mknod build from a zero-filled one:
   * the used root slots come first and have distinct names; the (name,
   * extension) pairs of a directory are distinct; every directory and file
   * owns a taken block, and no block has two owners.
   */
  ghost predicate WellFormed(d: DiskState) {
    Shaped(d) && RootOk(d) && TablesOk(d) && Owned(d) && Apart(d)
  }

  /** The image of a freshly formatted, zero-filled disk. */
  function Formatted(): (d: DiskState)
    ensures WellFormed(d) && d.root.nDirectories == 0
  {
    DiskState(RootBlock(0, seq(MAX_DIRS_IN_ROOT, _ => ZeroDir)), seq(MAX_NUM_BLOCKS, _ => UNUSED), map[])
  }

  /**
   * On a well-formed image the three directory scans of the source agree:
   * getattr's and readdir's, the one of mknod, read and write that skips empty
   * names, and mkdir's test over all MAX_DIRS_IN_ROOT slots.
   */
  lemma LookupsAgree(d: DiskState, name: string)
    requires WellFormed(d)
    ensures FindNamedDir(d.root, name) == FindDir(d.root, name)
    ensures NameTaken(d.root, name) <==> FindDir(d.root, name) < d.root.nDirectories
  {
    var n := d.root.nDirectories;
    var k := FindDir(d.root, name);
    if NameTaken(d.root, name) {
      var i :| 0 <= i < MAX_DIRS_IN_ROOT && d.root.directories[i].dname != "" && d.root.directories[i].dname == name;
      assert i < n;
    }
    if k < n {
      assert DirEntryOk(d.fat, d.root.directories[k]);
    }
  }

  /**
   * Appending a slot to the root table: a name other than the new one is
   * found exactly when it was found before, and in the same slot.
   */
  lemma FindDirAppend(r: RootBlock, e: DirEntry, x: string)
    requires RootShaped(r) && r.nDirectories < MAX_DIRS_IN_ROOT && e.dname != x
    ensures var r' := RootBlock(r.nDirectories + 1, r.directories[r.nDirectories := e]);
            RootShaped(r')
            && (FindDir(r', x) < r'.nDirectories <==> FindDir(r, x) < r.nDirectories)
            && (FindDir(r, x) < r.nDirectories ==> FindDir(r', x) == FindDir(r, x))
  {
    var n := r.nDirectories;
    var r' := RootBlock(n + 1, r.directories[n := e]);
    var k := FindDir(r, x);
    var k' := FindDir(r', x);
    assert forall i :: 0 <= i < n ==> r'.directories[i] == r.directories[i];
    assert k' != n;
  }

  /** The table s with f stored in its first unused slot. */
  function Append(s: SubdirBlock, f: FileEntry): (s': SubdirBlock)
    requires SubdirShaped(s) && s.nFiles < MAX_FILES_IN_DIR
    ensures SubdirShaped(s') && s'.nFiles == s.nFiles + 1
    ensures forall j :: 0 <= j < s.nFiles ==> s'.files[j] == s.files[j]
    ensures s'.files[s.nFiles] == f
  {
    SubdirBlock(s.nFiles + 1, s.files[s.nFiles := f])
  }

  /** What the lookups and readdir see after Append: the old slots, then f. */
  lemma AppendListings(s: SubdirBlock, f: FileEntry)
    requires SubdirShaped(s) && s.nFiles < MAX_FILES_IN_DIR
    ensures FileKeys(Append(s, f)) == FileKeys(s) + [(f.fname, f.fext)]
    ensures FileNames(Append(s, f)) == FileNames(s) + [f.fname]
    ensures Listing(Append(s, f)) == Listing(s) + [DisplayName(f)]
  {
  }

  /** The image with a directory record appended to the root table. */
  function AddDir(d: DiskState, e: DirEntry): (d': DiskState)
    requires Shaped(d) && d.root.nDirectories < MAX_DIRS_IN_ROOT
    ensures Shaped(d') && d'.root.nDirectories == d.root.nDirectories + 1
    ensures DirNames(d'.root) == DirNames(d.root) + [e.dname]
  {
    var n := d.root.nDirectories;
    var d' := d.(root := RootBlock(n + 1, d.root.directories[n := e]));
    assert forall k :: 0 <= k < n ==> DirNames(d'.root)[k] == DirNames(d.root)[k];
    d'
  }

  /** The image with file record f appended to the table of the directory in root slot k. */
  function AddFile(d: DiskState, k: nat, f: FileEntry): (d': DiskState)
    requires Shaped(d) && k < MAX_DIRS_IN_ROOT && Dir(d, k).nFiles < MAX_FILES_IN_DIR
    ensures Shaped(d') && d'.root == d.root && d'.fat == d.fat
    ensures Dir(d', k) == Append(Dir(d, k), f)
    ensures forall k' :: 0 <= k' < MAX_DIRS_IN_ROOT && d.root.directories[k'].nStartBlock != d.root.directories[k].nStartBlock ==>
              Dir(d', k') == Dir(d, k')
  {
    d.(subdirs := d.subdirs[d.root.directories[k].nStartBlock := Append(Dir(d, k), f)])
  }
}
