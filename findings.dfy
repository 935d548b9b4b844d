/**
 * A concrete image, reachable from a freshly formatted disk, on which the
 * write-back of mknod as cs1550.c:651-652 has it puts a new file in the
 * wrong directory and leaves the image inconsistent.
 */
module Findings {
  import opened Layout
  import opened PathParse
  import opened Fat
  import opened Tables
  import opened Resolve
  import opened Create

  /** After mkdir "/a": "a" in root slot 0, with block 2. */
  function OneDir(): DiskState {
    AddDir(Formatted().(fat := Formatted().fat[2 := USED]), DirEntry("a", 2))
  }

  /** After mkdir "/b": "b" in root slot 1, with block 3. */
  function TwoDirs(): DiskState {
    AddDir(OneDir().(fat := OneDir().fat[3 := USED]), DirEntry("b", 3))
  }

  /** After mknod "/a/x": "x" in slot 0 of a's table, with block MAX_DIRS_IN_ROOT (29). */
  function WithFile(): DiskState {
    AddFile(TwoDirs().(fat := TwoDirs().fat[MAX_DIRS_IN_ROOT := USED]), 0, FileEntry("x", "", 0, MAX_DIRS_IN_ROOT))
  }

  lemma PathsSplit()
    ensures Scan("/a") == Parts("a", "", "") && Scan("/b") == Parts("b", "", "")
    ensures Scan("/a/x") == Parts("a", "x", "") && Scan("/a/y") == Parts("a", "y", "")
  {
    assert Join(Parts("a", "", "")) == "/a";
    assert Join(Parts("b", "", "")) == "/b";
    assert Join(Parts("a", "x", "")) == "/a/x";
    assert Join(Parts("a", "y", "")) == "/a/y";
    ScanJoin(Parts("a", "", ""));
    ScanJoin(Parts("b", "", ""));
    ScanJoin(Parts("a", "x", ""));
    ScanJoin(Parts("a", "y", ""));
  }

  lemma MkdirA()
    ensures Mkdir(Formatted(), "/a") == (Ok(()), OneDir())
  {
    PathsSplit();
    assert Formatted().fat[2] == UNUSED;
  }

  lemma MkdirB()
    ensures Mkdir(OneDir(), "/b") == (Ok(()), TwoDirs())
  {
    PathsSplit();
    var d := OneDir();
    assert d.root.directories[0].dname == "a";
    assert forall k :: 1 <= k < MAX_DIRS_IN_ROOT ==> d.root.directories[k].dname == "";
    assert d.fat[2] == USED && d.fat[3] == UNUSED;
  }

  /** mknod of a file "x" in "a" targets root slot 0 when "a" is there with an empty table. */
  lemma TargetOfXAt(d: DiskState, path: string)
    requires Shaped(d) && Scan(path) == Parts("a", "x", "")
    requires 0 < d.root.nDirectories && FindDir(d.root, "a") == 0
    requires FindEntry(Dir(d, 0), "x", "") == Dir(d, 0).nFiles == 0
    ensures MknodTarget(d, path) == Ok(0) && MknodFits(d, path)
  {
    assert NameCheck(Scan(path)).Ok?;
  }

  /** A free cell at `from` is the one the allocator's scan from `from` finds. */
  lemma FreeAt(fat: seq<int>, from: nat)
    requires from < |fat| && fat[from] == UNUSED
    ensures HasFree(fat, from) && FirstFree(fat, from) == from
    ensures forall b :: LowestFree(fat, from, b) ==> b == from
  {
  }

  /** Then x takes block MAX_DIRS_IN_ROOT when it is free, and slot 0 of a's table. */
  lemma MknodXAt(d: DiskState, path: string)
    requires Shaped(d) && Scan(path) == Parts("a", "x", "")
    requires MknodTarget(d, path) == Ok(0) && MknodFits(d, path) && d.fat[MAX_DIRS_IN_ROOT] == UNUSED
    ensures Mknod(d, path) ==
              (Ok(()), AddFile(d.(fat := d.fat[MAX_DIRS_IN_ROOT := USED]), 0, FileEntry("x", "", 0, MAX_DIRS_IN_ROOT)))
  {
    FreeAt(d.fat, MAX_DIRS_IN_ROOT);
  }

  lemma MknodX()
    ensures Shaped(TwoDirs()) && MknodFits(TwoDirs(), "/a/x")
    ensures Mknod(TwoDirs(), "/a/x") == (Ok(()), WithFile())
  {
    var d := TwoDirs();
    assert d.root.directories[0].dname == "a";
    assert FindDir(d.root, "a") == 0;
    assert d.subdirs == map[];
    assert Dir(d, 0).nFiles == 0;
    assert FindEntry(Dir(d, 0), "x", "") == 0;
    assert d.fat[MAX_DIRS_IN_ROOT] == UNUSED;
    PathsSplit();
    TargetOfXAt(d, "/a/x");
    MknodXAt(d, "/a/x");
  }

  lemma OneDirWellFormed()
    ensures WellFormed(OneDir())
  {
    MkdirA();
    MkdirPreserves(Formatted(), "/a");
  }

  lemma TwoDirsWellFormed()
    ensures WellFormed(TwoDirs())
  {
    OneDirWellFormed();
    MkdirB();
    MkdirPreserves(OneDir(), "/b");
  }

  /** The example image is one that mkdir and mknod build from a freshly formatted disk. */
  lemma WithFileReachable()
    ensures Mkdir(Formatted(), "/a") == (Ok(()), OneDir())
    ensures Mkdir(OneDir(), "/b") == (Ok(()), TwoDirs())
    ensures Shaped(TwoDirs()) && MknodFits(TwoDirs(), "/a/x")
    ensures Mknod(TwoDirs(), "/a/x") == (Ok(()), WithFile())
    ensures MknodAsWritten(TwoDirs(), "/a/x") == (Ok(()), WithFile())
    ensures WellFormed(WithFile())
    ensures WithFile().root.nDirectories == 2
    ensures DirNames(WithFile().root) == ["a", "b"]
  {
    MkdirA();
    MkdirB();
    TwoDirsWellFormed();
    MknodX();
    MknodPreserves(TwoDirs(), "/a/x");
    assert FindDir(TwoDirs().root, "a") == 0;
    assert Dir(TwoDirs(), 0).nFiles == 0;
  }

  /** The root table of the example image. */
  lemma ExampleRoot()
    ensures Shaped(WithFile())
    ensures var r := WithFile().root;
            r.nDirectories == 2 && r.directories[0] == DirEntry("a", 2) && r.directories[1] == DirEntry("b", 3)
  {
  }

  /** The directory tables of the example image: x alone in a's, nothing in b's. */
  lemma ExampleTables()
    ensures Shaped(WithFile())
    ensures Dir(WithFile(), 0) == Append(ZeroSubdir(), FileEntry("x", "", 0, MAX_DIRS_IN_ROOT))
    ensures Dir(WithFile(), 1) == ZeroSubdir()
  {
    ExampleRoot();
    var d2 := TwoDirs().(fat := TwoDirs().fat[MAX_DIRS_IN_ROOT := USED]);
    assert d2.subdirs == map[];
    assert Dir(d2, 0) == ZeroSubdir();
  }

  /** The allocation table of the example image has block MAX_DIRS_IN_ROOT + 1 free. */
  lemma ExampleFat()
    ensures Shaped(WithFile()) && WithFile().fat[MAX_DIRS_IN_ROOT + 1] == UNUSED
  {
  }

  /** The lookups on the example image. */
  lemma ExampleLookups()
    ensures Shaped(WithFile())
    ensures FindDir(WithFile().root, "a") == 0 && FindDir(WithFile().root, "b") == 1
    ensures Dir(WithFile(), 0).nFiles == 1 && Listing(Dir(WithFile(), 0)) == ["x"]
    ensures FileKeys(Dir(WithFile(), 0)) == [("x", "")]
    ensures Dir(WithFile(), 0).files[0].nStartBlock == MAX_DIRS_IN_ROOT
    ensures Dir(WithFile(), 1).nFiles == 0 && Listing(Dir(WithFile(), 1)) == []
  {
    ExampleRoot();
    ExampleTables();
    var x := FileEntry("x", "", 0, MAX_DIRS_IN_ROOT);
    AppendListings(ZeroSubdir(), x);
    assert FileKeys(ZeroSubdir()) == [] && Listing(ZeroSubdir()) == [];
  }

  /**
   * What the argument below needs of an image: "a" in root slot 0 holding x
   * alone, an empty "b" in slot 1, and block MAX_DIRS_IN_ROOT + 1 free.
   */
  ghost predicate Example(d: DiskState) {
    WellFormed(d) && ExampleShape(d)
  }

  /** The same, less well-formedness. */
  predicate ExampleShape(d: DiskState) {
    Shaped(d) && d.root.nDirectories == 2
    && FindDir(d.root, "a") == 0 && FindDir(d.root, "b") == 1
    && Dir(d, 0).nFiles == 1 && FileKeys(Dir(d, 0)) == [("x", "")] && Listing(Dir(d, 0)) == ["x"]
    && Dir(d, 1).nFiles == 0 && Listing(Dir(d, 1)) == []
    && d.fat[MAX_DIRS_IN_ROOT + 1] == UNUSED
  }

  lemma ExampleHolds()
    ensures Example(WithFile())
  {
    WithFileReachable();
    ExampleLookups();
    ExampleFat();
  }

  /** A table holding x alone has no slot for y. */
  lemma NoY(s: SubdirBlock)
    requires SubdirShaped(s) && FileKeys(s) == [("x", "")]
    ensures FindEntry(s, "y", "") == s.nFiles == 1
  {
    assert "y"[0] != "x"[0];
    assert FileKeys(s)[0] == ("x", "");
  }

  /** mknod of a file "y" in "a" targets directory slot 0 when "a" is there without a "y". */
  lemma TargetOfYAt(d: DiskState, path: string)
    requires Shaped(d) && Scan(path) == Parts("a", "y", "")
    requires 0 < d.root.nDirectories && FindDir(d.root, "a") == 0
    requires FindEntry(Dir(d, 0), "y", "") == Dir(d, 0).nFiles
    ensures MknodTarget(d, path) == Ok(0)
  {
    assert NameCheck(Scan(path)).Ok?;
  }

  /** A free cell at or after `from` means the scan from `from` succeeds. */
  lemma FreeAfter(fat: seq<int>, from: nat, b: nat)
    requires from <= b < |fat| && fat[b] == UNUSED
    ensures HasFree(fat, from)
  {
  }

  /** A table of one file has room for another. */
  lemma RoomInTarget(d: DiskState, path: string)
    requires Shaped(d) && MknodTarget(d, path) == Ok(0) && Dir(d, 0).nFiles == 1
    ensures MknodFits(d, path)
  {
  }

  /** Then the table has room and the file region a free block, so mknod succeeds. */
  lemma MknodYSucceeds(d: DiskState, path: string)
    requires Shaped(d) && MknodTarget(d, path) == Ok(0) && Dir(d, 0).nFiles == 1
    requires d.fat[MAX_DIRS_IN_ROOT + 1] == UNUSED
    ensures MknodFits(d, path) && Mknod(d, path).0.Ok?
  {
    FreeAfter(d.fat, MAX_DIRS_IN_ROOT, MAX_DIRS_IN_ROOT + 1);
    RoomInTarget(d, path);
  }

  /** mknod "/a/y" targets directory slot 0, finds no "y" there and a free block. */
  lemma TargetOfY(d: DiskState)
    requires ExampleShape(d)
    ensures MknodFits(d, "/a/y")
    ensures MknodTarget(d, "/a/y") == Ok(0) && Mknod(d, "/a/y").0.Ok?
  {
    PathsSplit();
    NoY(Dir(d, 0));
    TargetOfYAt(d, "/a/y");
    MknodYSucceeds(d, "/a/y");
  }

  /** The corrected write-back: "/a" lists x and y. */
  lemma CorrectedYInA(d: DiskState)
    requires Example(d)
    ensures MknodFits(d, "/a/y")
    ensures ReadDir(Mknod(d, "/a/y").1, "/a") == Ok([".", "..", "x", "y"])
  {
    TargetOfY(d);
    PathsSplit();
    MknodListing(d, "/a/y");
    assert "/" + "a" == "/a";
    var y := FileEntry("y", "", 0, FirstFree(d.fat, MAX_DIRS_IN_ROOT));
    assert DisplayName(y) == "y";
    assert [".", ".."] + ["x"] + ["y"] == [".", "..", "x", "y"];
  }

  /** The corrected write-back: "/b" stays empty. */
  lemma CorrectedYInB(d: DiskState)
    requires Example(d)
    ensures MknodFits(d, "/a/y")
    ensures ReadDir(Mknod(d, "/a/y").1, "/b") == Ok([".", ".."])
  {
    TargetOfY(d);
    PathsSplit();
    MknodFrame(d, "/a/y", "/b", 1, 0);
    ReadDirDirectory(d, "b");
    assert "/" + "b" == "/b";
    assert ReadDir(d, "/b") == Ok([".", ".."] + Listing(Dir(d, 1)));
    assert [".", ".."] + [] == [".", ".."];
  }

  /** The write-back as written: "/a" lists x alone. */
  lemma AsWrittenYInA(d: DiskState)
    requires Example(d)
    ensures MknodFits(d, "/a/y")
    ensures ReadDir(MknodAsWritten(d, "/a/y").1, "/a") == Ok([".", "..", "x"])
  {
    TargetOfY(d);
    PathsSplit();
    var d' := MknodAsWritten(d, "/a/y").1;
    MknodAsWrittenMisfiles(d, "/a/y");
    ReadDirDirectory(d', "a");
    assert "/" + "a" == "/a";
    assert Dir(d', 0) == Dir(d, 0);
    assert [".", ".."] + ["x"] == [".", "..", "x"];
  }

  /** The write-back as written: "/b" lists x and y. */
  lemma AsWrittenYInB(d: DiskState)
    requires Example(d)
    ensures MknodFits(d, "/a/y")
    ensures ReadDir(MknodAsWritten(d, "/a/y").1, "/b") == Ok([".", "..", "x", "y"])
  {
    TargetOfY(d);
    PathsSplit();
    var d' := MknodAsWritten(d, "/a/y").1;
    MknodAsWrittenMisfiles(d, "/a/y");
    MknodNewEntry(d, "/a/y");
    ReadDirDirectory(d', "b");
    assert "/" + "b" == "/b";
    assert Dir(d', 1) == Dir(Mknod(d, "/a/y").1, 0);
    var y := FileEntry("y", "", 0, FirstFree(d.fat, MAX_DIRS_IN_ROOT));
    assert DisplayName(y) == "y";
    AppendListings(Dir(d, 0), y);
    assert Listing(Dir(d', 1)) == ["x"] + ["y"];
    assert ReadDir(d', "/b") == Ok([".", ".."] + Listing(Dir(d', 1)));
    assert [".", ".."] + (["x"] + ["y"]) == [".", "..", "x", "y"];
  }

  /** The write-back as written leaves x's block owned by both directories. */
  lemma AsWrittenBreaksInvariant(d: DiskState)
    requires Example(d)
    ensures MknodFits(d, "/a/y")
    ensures !WellFormed(MknodAsWritten(d, "/a/y").1)
  {
    TargetOfY(d);
    var d' := MknodAsWritten(d, "/a/y").1;
    MknodAsWrittenMisfiles(d, "/a/y");
    MknodNewEntry(d, "/a/y");
    assert Dir(d', 1).files[0] == Dir(d, 0).files[0];
    assert FileBlock(d', 0, 0) == FileBlock(d', 1, 0);
  }

  /**
   * mknod "/a/y" on the example image: the corrected write-back lists y
   * next to x in "/a"; the write-back as written lists x and y in "/b",
   * leaves "/a" as it was, and gives x's block two owners.
   */
  lemma MknodAsWrittenCounterexample()
    ensures Shaped(WithFile()) && MknodFits(WithFile(), "/a/y")
    ensures ReadDir(Mknod(WithFile(), "/a/y").1, "/a") == Ok([".", "..", "x", "y"])
    ensures ReadDir(Mknod(WithFile(), "/a/y").1, "/b") == Ok([".", ".."])
    ensures ReadDir(MknodAsWritten(WithFile(), "/a/y").1, "/a") == Ok([".", "..", "x"])
    ensures ReadDir(MknodAsWritten(WithFile(), "/a/y").1, "/b") == Ok([".", "..", "x", "y"])
    ensures !WellFormed(MknodAsWritten(WithFile(), "/a/y").1)
  {
    ExampleHolds();
    CorrectedYInA(WithFile());
    CorrectedYInB(WithFile());
    AsWrittenYInA(WithFile());
    AsWrittenYInB(WithFile());
    AsWrittenBreaksInvariant(WithFile());
  }
}
