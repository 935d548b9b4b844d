/** Constants of the cs1550 disk layout and the error numbers its operations return. */
module Layout {

  /** Size of one disk block, in bytes. */
  const BLOCK_SIZE: nat := 512

  /** 8.3 file names: at most 8 characters of name and 3 of extension. */
  const MAX_FILENAME: nat := 8
  const MAX_EXTENSION: nat := 3

  // Widths of the C types inside the on-disk records, for an LP64 platform.
  const SIZEOF_INT: nat := 4
  const SIZEOF_LONG: nat := 8
  const SIZEOF_SIZE_T: nat := 8

  /** Bytes of one root-table record {dname[9], nStartBlock} and one file record {fname[9], fext[4], fsize, nStartBlock}. */
  const DIR_RECORD: nat := (MAX_FILENAME + 1) + SIZEOF_LONG
  const FILE_RECORD: nat := (MAX_FILENAME + 1) + (MAX_EXTENSION + 1) + SIZEOF_SIZE_T + SIZEOF_LONG

  /** Number of file records that fit in one subdirectory block; `Capacities` derives it. */
  const MAX_FILES_IN_DIR: nat := 17

  /** Number of directory records that fit in the root block; `Capacities` derives it. */
  const MAX_DIRS_IN_ROOT: nat := 29

  /** Number of cells of the allocation table, one per block of a 5,000,000-byte image. */
  const MAX_NUM_BLOCKS: nat := 9765

  /**
   * The capacities are the C macros' quotients: as many records as fit in a
   * block after its int counter, and one more would not fit. The table has a
   * cell for every whole block of the image.
   */
  lemma Capacities()
    ensures MAX_FILES_IN_DIR == (BLOCK_SIZE - SIZEOF_INT) / FILE_RECORD
    ensures MAX_DIRS_IN_ROOT == (BLOCK_SIZE - SIZEOF_INT) / DIR_RECORD
    ensures SIZEOF_INT + MAX_FILES_IN_DIR * FILE_RECORD <= BLOCK_SIZE < SIZEOF_INT + (MAX_FILES_IN_DIR + 1) * FILE_RECORD
    ensures SIZEOF_INT + MAX_DIRS_IN_ROOT * DIR_RECORD <= BLOCK_SIZE < SIZEOF_INT + (MAX_DIRS_IN_ROOT + 1) * DIR_RECORD
    ensures MAX_NUM_BLOCKS == 5000000 / BLOCK_SIZE
  {
  }

  /** Block 0 holds the root directory table, block 1 the allocation table. */
  const ROOT_BLOCK: nat := 0
  const FAT_BLOCK: nat := 1

  /** Values of an allocation-table cell. */
  const USED: int := 1
  const UNUSED: int := 0
  /** The value of stdio's EOF macro (glibc), which write stores as an end-of-chain marker. */
  const EOF: int := -1

  newtype byte = x: int | 0 <= x < 256

  /** The error numbers the operations return, negated, to the user-space filesystem layer. */
  datatype Errno = EPERM | ENOENT | EEXIST | EFBIG | ENAMETOOLONG {
    /** The Linux value of the error number. */
    function Code(): nat {
      match this
      case EPERM => 1
      case ENOENT => 2
      case EEXIST => 17
      case EFBIG => 27
      case ENAMETOOLONG => 36
    }
  }

  /** An operation's outcome: a value, or the error whose negated number the C function returns. */
  datatype Result<T> = Ok(value: T) | Err(errno: Errno)
}
