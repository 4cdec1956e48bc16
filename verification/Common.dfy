/** What several modules share. */
module Common {

  const TWO32: nat := 0x1_0000_0000

  type Byte = x: nat | x < 256

  /** Bytes in a page, and in a block. */
  const PG_SIZE: nat := 4096
  const BLOCK_SIZE: nat := 4096

  /** Inodes of a volume. */
  const INODES: nat := 4096

  /** Block numbers in an inode that name data, and entries of a table of block numbers. */
  const DIRECT: nat := 12
  const ENTRIES: nat := 1024

  datatype Option<T> = None | Some(value: T)

  predicate NoDup<T(==)>(s: seq<T>) { forall i, j :: 0 <= i < j < |s| ==> s[i] != s[j] }

  lemma {:induction false} Join<T>(a: seq<T>, b: seq<T>, c: seq<T>)
    ensures a + (b + c) == a + b + c
  {
  }
}
