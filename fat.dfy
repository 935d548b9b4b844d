/**
 * The allocation table (block 1): one cell per block, UNUSED or taken.
 * get_free_nStartBlock scans it linearly and claims the first free cell.
 */
module Fat {
  import opened Layout

  /** Where the scan starts: after blocks 0 and 1 for a directory, after the directory region for a file. */
  function ScanStart(fileFlag: bool): (i: nat)
    ensures 2 <= i <= MAX_DIRS_IN_ROOT
    ensures fileFlag ==> i == MAX_DIRS_IN_ROOT
    ensures !fileFlag ==> i == 2
  {
    if fileFlag then MAX_DIRS_IN_ROOT else 2
  }

  /** The lowest index at or after `from` whose cell is UNUSED, or -1 when there is none. */
  function FirstFree(cells: seq<int>, from: nat): (r: int)
    ensures r == -1 || (from <= r < |cells| && cells[r] == UNUSED)
    ensures forall i :: from <= i < |cells| && (r == -1 || i < r) ==> cells[i] != UNUSED
    decreases |cells| - from
  {
    if from >= |cells| then -1
    else if cells[from] == UNUSED then from
    else FirstFree(cells, from + 1)
  }

  /**
   * get_free_nStartBlock as a function of the table: the block it returns and
   * the table it leaves behind, in which only the returned cell changed, to USED.
   */
  function Allocate(cells: seq<int>, fileFlag: bool): (r: (int, seq<int>))
    ensures |r.1| == |cells|
    ensures r.0 == -1 ==> r.1 == cells
    ensures r.0 != -1 ==> ScanStart(fileFlag) <= r.0 < |cells| && cells[r.0] == UNUSED && r.1[r.0] == USED
    ensures forall i :: 0 <= i < |cells| && i != r.0 ==> r.1[i] == cells[i]
  {
    var b := FirstFree(cells, ScanStart(fileFlag));
    if b == -1 then (-1, cells) else (b, cells[b := USED])
  }

  /** The allocator claims a cell only once: a second call returns a later block, or fails if the first did. */
  lemma AllocateTwice(cells: seq<int>, fileFlag: bool)
    ensures var (b1, cells') := Allocate(cells, fileFlag);
            var b2 := Allocate(cells', fileFlag).0;
            (b1 == -1 ==> b2 == -1) && (b1 != -1 && b2 != -1 ==> b1 < b2)
  {
    var (b1, cells') := Allocate(cells, fileFlag);
    var b2 := Allocate(cells', fileFlag).0;
    if b2 != -1 {
      assert cells'[b2] == UNUSED;
      assert b2 != b1 ==> cells[b2] == UNUSED;
    }
  }

  /**
   * get_free_nStartBlock: scan from ScanStart(fileFlag) up to MAX_NUM_BLOCKS,
   * mark the first UNUSED cell USED and return its index, or return -1.
   * (Only the first BLOCK_SIZE bytes of the C table are ever read from or
   * written to disk; the model treats the whole table as persisted.)
   */
  method GetFreeBlock(fat: array<int>, fileFlag: bool) returns (b: int)
    requires fat.Length == MAX_NUM_BLOCKS
    modifies fat
    ensures (b, fat[..]) == Allocate(old(fat[..]), fileFlag)
  {
    ghost var cells := fat[..];
    var i := ScanStart(fileFlag);
    while i < MAX_NUM_BLOCKS
      invariant ScanStart(fileFlag) <= i <= MAX_NUM_BLOCKS
      invariant fat[..] == cells
      invariant FirstFree(cells, ScanStart(fileFlag)) == FirstFree(cells, i)
    {
      if fat[i] == UNUSED {
        fat[i] := USED;
        return i;
      }
      i := i + 1;
    }
    return -1;
  }

  /** The table after n successive file-region allocations. */
  function Reserve(cells: seq<int>, n: nat): seq<int> {
    if n == 0 then cells else Allocate(Reserve(cells, n - 1), true).1
  }

  /** Reserving never releases or relabels a taken cell, and never touches the directory region. */
  lemma {:induction false} ReserveKeepsTaken(cells: seq<int>, n: nat)
    ensures |Reserve(cells, n)| == |cells|
    ensures forall i :: 0 <= i < |cells| && (cells[i] != UNUSED || i < MAX_DIRS_IN_ROOT) ==> Reserve(cells, n)[i] == cells[i]
  {
    if n > 0 {
      ReserveKeepsTaken(cells, n - 1);
    }
  }

  /** The number of UNUSED cells in [from, i). */
  function FreeBefore(cells: seq<int>, from: nat, i: nat): (c: nat)
    requires i <= |cells|
    ensures from <= i ==> c <= i - from
    ensures i <= from ==> c == 0
  {
    if i <= from then 0 else FreeBefore(cells, from, i - 1) + (if cells[i - 1] == UNUSED then 1 else 0)
  }

  /** Of two free cells at or after `from`, the later one has more free cells before it. */
  lemma {:induction false} FreeBeforeGrows(cells: seq<int>, from: nat, i: nat, j: nat)
    requires from <= i < j <= |cells| && cells[i] == UNUSED
    ensures FreeBefore(cells, from, i) < FreeBefore(cells, from, j)
    decreases j
  {
    if j > i + 1 {
      FreeBeforeGrows(cells, from, i, j - 1);
    }
  }

  /** Every count below FreeBefore(cells, from, b) is the count before some free cell in [from, b). */
  lemma {:induction false} FreeBeforeHits(cells: seq<int>, from: nat, b: nat, m: nat)
    requires b <= |cells| && m < FreeBefore(cells, from, b)
    ensures exists i :: from <= i < b && cells[i] == UNUSED && FreeBefore(cells, from, i) == m
    decreases b
  {
    if m < FreeBefore(cells, from, b - 1) {
      FreeBeforeHits(cells, from, b - 1, m);
    } else {
      assert from <= b - 1 && cells[b - 1] == UNUSED && FreeBefore(cells, from, b - 1) == m;
    }
  }

  /** The lowest free cell of the file region is the one with no free cell of the region before it. */
  lemma FirstFreeCounts(cells: seq<int>, b: int)
    requires b == FirstFree(cells, MAX_DIRS_IN_ROOT) && b != -1
    ensures FreeBefore(cells, MAX_DIRS_IN_ROOT, b) == 0
  {
    if FreeBefore(cells, MAX_DIRS_IN_ROOT, b) > 0 {
      FreeBeforeHits(cells, MAX_DIRS_IN_ROOT, b, 0);
    }
  }

  /**
   * n file-region allocations claim exactly the n lowest free cells from
   * MAX_DIRS_IN_ROOT on (all of them when fewer are free): a cell becomes USED
   * when it was free and fewer than n free cells of the region precede it, and
   * every other cell keeps its value.
   */
  lemma {:induction false} ReserveClaims(cells: seq<int>, n: nat)
    ensures |Reserve(cells, n)| == |cells|
    ensures forall i :: 0 <= i < |cells| ==>
              Reserve(cells, n)[i] ==
                if MAX_DIRS_IN_ROOT <= i && cells[i] == UNUSED && FreeBefore(cells, MAX_DIRS_IN_ROOT, i) < n
                then USED else cells[i]
  {
    if n > 0 {
      ReserveClaims(cells, n - 1);
      var r := Reserve(cells, n - 1);
      var b := FirstFree(r, MAX_DIRS_IN_ROOT);
      assert Reserve(cells, n) == Allocate(r, true).1;
      if b == -1 {
        forall i | MAX_DIRS_IN_ROOT <= i < |cells| && cells[i] == UNUSED
          ensures FreeBefore(cells, MAX_DIRS_IN_ROOT, i) != n - 1
        {
          assert r[i] != UNUSED;
        }
      } else {
        assert cells[b] == UNUSED && FreeBefore(cells, MAX_DIRS_IN_ROOT, b) >= n - 1;
        if FreeBefore(cells, MAX_DIRS_IN_ROOT, b) > n - 1 {
          FreeBeforeHits(cells, MAX_DIRS_IN_ROOT, b, n - 1);
        }
        assert FreeBefore(cells, MAX_DIRS_IN_ROOT, b) == n - 1;
        forall i | MAX_DIRS_IN_ROOT <= i < |cells| && i != b && cells[i] == UNUSED
          ensures FreeBefore(cells, MAX_DIRS_IN_ROOT, i) != n - 1
        {
          if i < b {
            FreeBeforeGrows(cells, MAX_DIRS_IN_ROOT, i, b);
          } else {
            FreeBeforeGrows(cells, MAX_DIRS_IN_ROOT, b, i);
          }
        }
      }
    }
  }

  /**
   * The table write leaves: `extra` reserved cells, then one more cell claimed
   * for the end-of-chain marker and overwritten with EOF. When that last
   * allocation fails the C code stores EOF at index -1, outside the table;
   * the model leaves the table as it is.
   */
  function ReserveForWrite(cells: seq<int>, extra: nat): (r: seq<int>)
    ensures |r| == |cells|
    ensures forall i :: 0 <= i < |cells| && (cells[i] != UNUSED || i < MAX_DIRS_IN_ROOT) ==> r[i] == cells[i]
  {
    ReserveKeepsTaken(cells, extra);
    var reserved := Reserve(cells, extra);
    var (b, marked) := Allocate(reserved, true);
    if b == -1 then reserved else marked[b := EOF]
  }

  /**
   * The cells write claims: the `extra` lowest free cells of the file region
   * become USED, the next free one becomes EOF, and every other cell keeps
   * its value.
   */
  lemma ReserveForWriteClaims(cells: seq<int>, extra: nat)
    ensures forall i :: 0 <= i < |cells| ==>
              ReserveForWrite(cells, extra)[i] ==
                if MAX_DIRS_IN_ROOT <= i && cells[i] == UNUSED then
                  if FreeBefore(cells, MAX_DIRS_IN_ROOT, i) < extra then USED
                  else if FreeBefore(cells, MAX_DIRS_IN_ROOT, i) == extra then EOF
                  else UNUSED
                else cells[i]
  {
    ReserveClaims(cells, extra);
    ReserveClaims(cells, extra + 1);
    var reserved := Reserve(cells, extra);
    var (b, marked) := Allocate(reserved, true);
    assert Reserve(cells, extra + 1) == marked;
    var r := ReserveForWrite(cells, extra);
    assert r == if b == -1 then reserved else marked[b := EOF];
    if b == -1 {
      forall i | MAX_DIRS_IN_ROOT <= i < |cells| && cells[i] == UNUSED
        ensures FreeBefore(cells, MAX_DIRS_IN_ROOT, i) != extra
      {
        assert reserved[i] != UNUSED;
      }
    } else {
      assert marked[b] == USED;
      assert cells[b] == UNUSED && FreeBefore(cells, MAX_DIRS_IN_ROOT, b) == extra;
      forall i | MAX_DIRS_IN_ROOT <= i < |cells| && i != b && cells[i] == UNUSED
        ensures FreeBefore(cells, MAX_DIRS_IN_ROOT, i) != extra
      {
        if i < b {
          FreeBeforeGrows(cells, MAX_DIRS_IN_ROOT, i, b);
        } else {
          FreeBeforeGrows(cells, MAX_DIRS_IN_ROOT, b, i);
        }
      }
    }
  }

  /** How many blocks write reserves for n bytes of data as cs1550.c:984 has it: n % BLOCK_SIZE. */
  function ReservedAsWritten(n: nat): (k: nat)
    ensures k < BLOCK_SIZE
    ensures n < BLOCK_SIZE ==> k == n
  {
    n % BLOCK_SIZE
  }

  /**
   * The blocks beyond the file's first that n bytes of data are given, n / BLOCK_SIZE,
   * the count write's own buffer is sized by (cs1550.c:852): together with the
   * first block they hold the data, with at most one block to spare.
   */
  function ExtraBlocks(n: nat): (k: nat)
    ensures n < BLOCK_SIZE * (k + 1)
    ensures BLOCK_SIZE * k <= n
  {
    n / BLOCK_SIZE
  }

  /**
   * The loop bound of cs1550.c:984 is wrong: data that fits in the file's
   * first block reserves one block per byte, and a write of 1000 bytes
   * reserves 488 blocks where it needs one more.
   */
  lemma ReservedAsWrittenIsWrong(n: nat)
    requires 0 < n < BLOCK_SIZE
    ensures ExtraBlocks(n) == 0 && ReservedAsWritten(n) == n
    ensures ExtraBlocks(1000) == 1 && ReservedAsWritten(1000) == 488
  {
  }

  /**
   * What the wrong count does to the table, for data that fits in the file's
   * first block: the corrected count marks no free cell USED and puts EOF in
   * the lowest free cell of the file region; the count as written marks that
   * cell and every free cell with fewer than n free cells before it USED, and
   * puts EOF after them.
   */
  lemma ReservedAsWrittenClaims(cells: seq<int>, n: nat)
    requires 0 < n < BLOCK_SIZE
    ensures forall i :: MAX_DIRS_IN_ROOT <= i < |cells| && cells[i] == UNUSED ==>
              ReserveForWrite(cells, ExtraBlocks(n))[i] != USED
    ensures forall i :: MAX_DIRS_IN_ROOT <= i < |cells| && cells[i] == UNUSED ==>
              (ReserveForWrite(cells, ExtraBlocks(n))[i] == EOF <==> i == FirstFree(cells, MAX_DIRS_IN_ROOT))
    ensures forall i :: MAX_DIRS_IN_ROOT <= i < |cells| && cells[i] == UNUSED
                        && FreeBefore(cells, MAX_DIRS_IN_ROOT, i) < n ==>
              ReserveForWrite(cells, ReservedAsWritten(n))[i] == USED
  {
    var b := FirstFree(cells, MAX_DIRS_IN_ROOT);
    if b != -1 {
      FirstFreeCounts(cells, b);
    }
    forall i | MAX_DIRS_IN_ROOT <= i < |cells| && cells[i] == UNUSED && FreeBefore(cells, MAX_DIRS_IN_ROOT, i) == 0
      ensures i == b
    {
      assert b != -1 && b <= i;
      if b < i {
        FreeBeforeGrows(cells, MAX_DIRS_IN_ROOT, b, i);
      }
    }
    ReserveForWriteClaims(cells, 0);
    ReserveForWriteClaims(cells, n);
  }
}
