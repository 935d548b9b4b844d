/**
 * The read-only operations: getattr's classification of a path, readdir's
 * listing, and the checks read and write make before they move data.
 */
module Resolve {
  import opened Layout
  import opened PathParse
  import opened Tables

  /** What getattr fills in: a directory, or a regular file of some size. */
  datatype Attr = DirAttr | FileAttr(size: nat) {
    /** st_mode: S_IFDIR | 0755 (040755) or S_IFREG | 0666 (0100666). */
    function Mode(): nat {
      if DirAttr? then 16877 else 33206
    }

    /** st_nlink */
    function Links(): nat {
      if DirAttr? then 2 else 1
    }
  }

  /**
   * getattr: "/" is a directory; "/dir" is a directory when dir names one of
   * the used root slots; "/dir/file..." is a regular file when some file slot
   * of that directory has the name `file`, whatever its extension, and its
   * size is reported as 0. Overlong components fail before any lookup.
   */
  function GetAttr(d: DiskState, path: string): (r: Result<Attr>)
    requires Shaped(d)
    ensures r.Err? ==> r.errno in {ENAMETOOLONG, ENOENT}
    ensures r == Err(ENAMETOOLONG) <==> TooLong(Scan(path))
    ensures path == "/" ==> r == Ok(DirAttr)
    ensures r.Ok? && r.value.FileAttr? ==> r.value.size == 0
  {
    var p := Scan(path);
    if TooLong(p) then Err(ENAMETOOLONG)
    else if path == "/" then Ok(DirAttr)
    else
      var k := FindDir(d.root, p.dir);
      if k == d.root.nDirectories then Err(ENOENT)
      else if p.file == "" then Ok(DirAttr)
      else
        var s := Dir(d, k);
        if FindFile(s, p.file) == s.nFiles then Err(ENOENT)
        else Ok(FileAttr(0))
  }

  /**
   * readdir: "." and "..", then for the root the names of the used root
   * slots, and for "/dir" the files of dir as DisplayName shows them, both in
   * slot order. A path below a directory lists that directory.
   */
  function ReadDir(d: DiskState, path: string): (r: Result<seq<string>>)
    requires Shaped(d)
    ensures r.Ok? ==> |r.value| >= 2 && r.value[..2] == [".", ".."]
    ensures r.Err? ==> r.errno in {ENAMETOOLONG, EEXIST, ENOENT}
    ensures r == Err(ENAMETOOLONG) <==> TooLong(Scan(path))
    ensures path == "/" ==> r == Ok([".", ".."] + DirNames(d.root))
  {
    var p := Scan(path);
    if |p.dir| > MAX_FILENAME then Err(ENAMETOOLONG)
    else if |p.file| > MAX_FILENAME then Err(ENAMETOOLONG)
    else if |p.ext| > MAX_EXTENSION then Err(ENAMETOOLONG)
    else if path == "/" then
      if p.file != "" || p.ext != "" then Err(EEXIST)
      else Ok([".", ".."] + DirNames(d.root))
    else
      var k := FindDir(d.root, p.dir);
      if k == d.root.nDirectories then Err(ENOENT)
      else Ok([".", ".."] + Listing(Dir(d, k)))
  }

  /**
   * The checks read and write make, in this order, before any data moves:
   * the validation chain, the directory (skipping empty names), the file by
   * name and extension, a non-zero size, and an offset within fsize blocks.
   * The result is the file's record.
   */
  function Locate(d: DiskState, path: string, size: nat, offset: nat): Result<FileEntry>
    requires Shaped(d)
  {
    LocateParts(d, Scan(path), size, offset)
  }

  /** Locate on the components sscanf split the path into. */
  function LocateParts(d: DiskState, p: Parts, size: nat, offset: nat): (r: Result<FileEntry>)
    requires Shaped(d)
    ensures r.Err? ==> r.errno in {EPERM, ENAMETOOLONG, ENOENT, EFBIG}
    ensures NameCheck(p).Err? ==> r == Err(NameCheck(p).errno)
    ensures r.Ok? ==> r.value.fname == p.file && r.value.fext == p.ext
    ensures r.Ok? ==> size > 0 && offset <= r.value.fsize * BLOCK_SIZE
  {
    if NameCheck(p).Err? then Err(NameCheck(p).errno)
    else
      var k := FindNamedDir(d.root, p.dir);
      if k == d.root.nDirectories then Err(ENOENT)
      else
        var s := Dir(d, k);
        var j := FindEntry(s, p.file, p.ext);
        if j == s.nFiles then Err(ENOENT)
        else if size == 0 then Err(ENOENT)
        else if offset > s.files[j].fsize * BLOCK_SIZE then Err(EFBIG)
        else Ok(s.files[j])
  }

  /**
   * The read/write checks once the names pass, case by case: ENOENT for a
   * directory that is not a used root slot or a (name, extension) pair its
   * table does not hold, then ENOENT for a zero size, EFBIG for an offset past
   * fsize blocks, and otherwise the record the file lookup finds.
   */
  lemma LocateCases(d: DiskState, p: Parts, size: nat, offset: nat)
    requires Shaped(d) && NameCheck(p).Ok?
    ensures p.dir !in DirNames(d.root) ==> LocateParts(d, p, size, offset) == Err(ENOENT)
    ensures p.dir in DirNames(d.root) ==>
              var s := Dir(d, FindDir(d.root, p.dir));
              ((p.file, p.ext) !in FileKeys(s) ==> LocateParts(d, p, size, offset) == Err(ENOENT))
              && ((p.file, p.ext) in FileKeys(s) ==>
                    var f := s.files[FindEntry(s, p.file, p.ext)];
                    (size == 0 ==> LocateParts(d, p, size, offset) == Err(ENOENT))
                    && (size > 0 && offset > f.fsize * BLOCK_SIZE ==> LocateParts(d, p, size, offset) == Err(EFBIG))
                    && (size > 0 && offset <= f.fsize * BLOCK_SIZE ==> LocateParts(d, p, size, offset) == Ok(f)))
  {
    assert FindNamedDir(d.root, p.dir) == FindDir(d.root, p.dir);
  }

  /** getattr of "/dir": a directory exactly when dir is the name of a used root slot. */
  lemma GetAttrDirectory(d: DiskState, name: string)
    requires Shaped(d)
    requires name != "" && '/' !in name && |name| <= MAX_FILENAME
    ensures GetAttr(d, "/" + name) == if name in DirNames(d.root) then Ok(DirAttr) else Err(ENOENT)
    ensures name in DirNames(d.root) ==>
              GetAttr(d, "/" + name).value.Mode() == 16877 && GetAttr(d, "/" + name).value.Links() == 2
  {
    ScanJoin(Parts(name, "", ""));
    assert "/" + name != "/";
  }

  /**
   * getattr of "/dir/file.ext": a regular file of size 0 exactly when dir is a
   * used root slot and its table has a slot named `file`; the extension plays
   * no part.
   */
  lemma GetAttrFile(d: DiskState, p: Parts)
    requires Shaped(d) && Shape(p) && p.file != "" && !TooLong(p)
    ensures var k := FindDir(d.root, p.dir);
            GetAttr(d, Join(p)) ==
              if k < d.root.nDirectories && p.file in FileNames(Dir(d, k)) then Ok(FileAttr(0)) else Err(ENOENT)
    ensures GetAttr(d, Join(p)).Ok? ==>
              GetAttr(d, Join(p)).value.Mode() == 33206 && GetAttr(d, Join(p)).value.Links() == 1
  {
    ScanJoin(p);
    assert Join(p) != "/";
  }

  /** readdir of "/dir": the listing of dir when dir is a used root slot. */
  lemma ReadDirDirectory(d: DiskState, name: string)
    requires Shaped(d)
    requires name != "" && '/' !in name && |name| <= MAX_FILENAME
    ensures var k := FindDir(d.root, name);
            ReadDir(d, "/" + name) ==
              if k < d.root.nDirectories then Ok([".", ".."] + Listing(Dir(d, k))) else Err(ENOENT)
  {
    ScanJoin(Parts(name, "", ""));
    assert "/" + name != "/";
  }

  /** The path that names file slot j of the directory in root slot k, as readdir lists it. */
  function ListedPath(d: DiskState, k: nat, j: nat): string
    requires Shaped(d) && k < MAX_DIRS_IN_ROOT && j < MAX_FILES_IN_DIR
  {
    "/" + d.root.directories[k].dname + "/" + DisplayName(Dir(d, k).files[j])
  }

  /** The listed path of a used file slot is the one Join builds from its name and extension, and splits back into them. */
  lemma ListedPathJoins(d: DiskState, k: nat, j: nat)
    requires Shaped(d) && k < MAX_DIRS_IN_ROOT && j < MAX_FILES_IN_DIR
    requires DirEntryOk(d.fat, d.root.directories[k]) && FileEntryOk(d.fat, Dir(d, k).files[j])
    ensures var f := Dir(d, k).files[j];
            var p := Parts(d.root.directories[k].dname, f.fname, f.fext);
            Shape(p) && !TooLong(p) && ListedPath(d, k, j) == Join(p)
            && ListedPath(d, k, j) != "/" && Scan(ListedPath(d, k, j)) == p
  {
    var f := Dir(d, k).files[j];
    var p := Parts(d.root.directories[k].dname, f.fname, f.fext);
    if f.fext != "" {
      assert DisplayName(f) == f.fname + "." + f.fext;
      assert "/" + d.root.directories[k].dname + "/" + (f.fname + "." + f.fext)
          == "/" + d.root.directories[k].dname + "/" + f.fname + "." + f.fext;
    }
    ScanJoin(p);
  }

  /** With distinct names, the lookup of a used slot's name finds that slot. */
  lemma FindDirOfSlot(d: DiskState, k: nat)
    requires WellFormed(d) && k < d.root.nDirectories
    ensures FindDir(d.root, d.root.directories[k].dname) == k
  {
    var k' := FindDir(d.root, d.root.directories[k].dname);
    assert k' <= k && d.root.directories[k'].dname == d.root.directories[k].dname;
  }

  /** With distinct (name, extension) pairs, the lookup of a used file slot's pair finds that slot. */
  lemma FindEntryOfSlot(fat: seq<int>, s: SubdirBlock, j: nat)
    requires SubdirOk(fat, s) && j < s.nFiles
    ensures FindEntry(s, s.files[j].fname, s.files[j].fext) == j
    ensures FindFile(s, s.files[j].fname) <= j
  {
    var j' := FindEntry(s, s.files[j].fname, s.files[j].fext);
    assert j' <= j && s.files[j'].fname == s.files[j].fname && s.files[j'].fext == s.files[j].fext;
  }

  /** What the lookups find for the components of a listed path. */
  lemma ListedSlotFound(d: DiskState, k: nat, j: nat)
    requires WellFormed(d) && k < d.root.nDirectories && j < Dir(d, k).nFiles
    ensures var f := Dir(d, k).files[j];
            var p := Scan(ListedPath(d, k, j));
            p == Parts(d.root.directories[k].dname, f.fname, f.fext) && ListedPath(d, k, j) != "/"
            && !TooLong(p) && NameCheck(p).Ok?
            && FindDir(d.root, p.dir) == k && FindNamedDir(d.root, p.dir) == k
            && FindEntry(Dir(d, k), p.file, p.ext) == j && FindFile(Dir(d, k), p.file) < Dir(d, k).nFiles
  {
    var e := d.root.directories[k];
    var s := Dir(d, k);
    assert DirEntryOk(d.fat, e) && SubdirOk(d.fat, s) && FileEntryOk(d.fat, s.files[j]);
    ListedPathJoins(d, k, j);
    FindDirOfSlot(d, k);
    LookupsAgree(d, e.dname);
    FindEntryOfSlot(d.fat, s, j);
  }

  /**
   * Every name readdir lists leads back to its record: on a well-formed
   * image, getattr reports it as a file and read and write find exactly that
   * file slot.
   */
  lemma ListedNameResolves(d: DiskState, k: nat, j: nat, size: nat)
    requires WellFormed(d) && k < d.root.nDirectories && j < Dir(d, k).nFiles && size > 0
    ensures var f := Dir(d, k).files[j];
            ListedPath(d, k, j) != "/"
            && Scan(ListedPath(d, k, j)) == Parts(d.root.directories[k].dname, f.fname, f.fext)
    ensures GetAttr(d, ListedPath(d, k, j)) == Ok(FileAttr(0))
    ensures Locate(d, ListedPath(d, k, j), size, 0) == Ok(Dir(d, k).files[j])
  {
    ListedSlotFound(d, k, j);
  }

  /**
   * Nothing in this core ever raises a file's size above 0, so on a
   * well-formed image read and write succeed only at offset 0.
   */
  lemma LocateOnlyAtStart(d: DiskState, path: string, size: nat, offset: nat)
    requires WellFormed(d) && Locate(d, path, size, offset).Ok?
    ensures offset == 0 && Locate(d, path, size, offset).value.fsize == 0
  {
    var p := Scan(path);
    var k := FindNamedDir(d.root, p.dir);
    var s := Dir(d, k);
    var j := FindEntry(s, p.file, p.ext);
    assert SubdirOk(d.fat, s);
    assert FileEntryOk(d.fat, s.files[j]);
  }

  /** getattr depends only on the root table and on the table of the directory it finds. */
  lemma GetAttrSameTables(d1: DiskState, d2: DiskState, q: string)
    requires Shaped(d1) && Shaped(d2) && d1.root == d2.root
    requires var k := FindDir(d1.root, Scan(q).dir);
             k < d1.root.nDirectories ==> Dir(d1, k) == Dir(d2, k)
    ensures GetAttr(d1, q) == GetAttr(d2, q)
  {
    var k := FindDir(d1.root, Scan(q).dir);
    if k < d1.root.nDirectories {
      var s := Dir(d1, k);
      assert s == Dir(d2, k);
    }
  }

  /** readdir depends only on the root table and on the table of the directory it finds. */
  lemma ReadDirSameTables(d1: DiskState, d2: DiskState, q: string)
    requires Shaped(d1) && Shaped(d2) && d1.root == d2.root
    requires var k := FindDir(d1.root, Scan(q).dir);
             k < d1.root.nDirectories ==> Dir(d1, k) == Dir(d2, k)
    ensures ReadDir(d1, q) == ReadDir(d2, q)
  {
    var k := FindDir(d1.root, Scan(q).dir);
    if k < d1.root.nDirectories {
      var s := Dir(d1, k);
      assert s == Dir(d2, k);
    }
  }

  /** The read/write checks depend only on the root table and on the table of the directory they find. */
  lemma LocateSameTables(d1: DiskState, d2: DiskState, q: string, size: nat, offset: nat)
    requires Shaped(d1) && Shaped(d2) && d1.root == d2.root
    requires var k := FindNamedDir(d1.root, Scan(q).dir);
             k < d1.root.nDirectories ==> Dir(d1, k) == Dir(d2, k)
    ensures Locate(d1, q, size, offset) == Locate(d2, q, size, offset)
  {
    LocatePartsSameTables(d1, d2, Scan(q), size, offset);
  }

  lemma LocatePartsSameTables(d1: DiskState, d2: DiskState, p: Parts, size: nat, offset: nat)
    requires Shaped(d1) && Shaped(d2) && d1.root == d2.root
    requires var k := FindNamedDir(d1.root, p.dir);
             k < d1.root.nDirectories ==> Dir(d1, k) == Dir(d2, k)
    ensures LocateParts(d1, p, size, offset) == LocateParts(d2, p, size, offset)
  {
    if NameCheck(p).Ok? {
      var k := FindNamedDir(d1.root, p.dir);
      if k < d1.root.nDirectories {
        var s := Dir(d1, k);
        assert s == Dir(d2, k);
      }
    }
  }

  /** Two paths other than "/" that split into the same components get the same answers. */
  lemma SameParts(d: DiskState, q1: string, q2: string, size: nat, offset: nat)
    requires Shaped(d) && Scan(q1) == Scan(q2) && q1 != "/" && q2 != "/"
    ensures GetAttr(d, q1) == GetAttr(d, q2)
    ensures ReadDir(d, q1) == ReadDir(d, q2)
    ensures Locate(d, q1, size, offset) == Locate(d, q2, size, offset)
  {
    SamePartsGetAttr(d, q1, q2);
    SamePartsReadDir(d, q1, q2);
    SamePartsLocate(d, q1, q2, size, offset);
  }

  lemma SamePartsGetAttr(d: DiskState, q1: string, q2: string)
    requires Shaped(d) && Scan(q1) == Scan(q2) && q1 != "/" && q2 != "/"
    ensures GetAttr(d, q1) == GetAttr(d, q2)
  {
    var p := Scan(q1);
  }

  lemma SamePartsReadDir(d: DiskState, q1: string, q2: string)
    requires Shaped(d) && Scan(q1) == Scan(q2) && q1 != "/" && q2 != "/"
    ensures ReadDir(d, q1) == ReadDir(d, q2)
  {
    var p := Scan(q1);
  }

  lemma SamePartsLocate(d: DiskState, q1: string, q2: string, size: nat, offset: nat)
    requires Shaped(d) && Scan(q1) == Scan(q2)
    ensures Locate(d, q1, size, offset) == Locate(d, q2, size, offset)
  {
  }
}
