/** Shared vocabulary of the virtual-memory model: page geometry, bytes,
    addresses, and the outcome of a kernel operation that may terminate the
    calling process. */
module VmTypes {

  /** Bytes in a page (PGSIZE in threads/vaddr.h). */
  const PGSIZE: nat := 4096
  /** Bytes in a disk sector (BLOCK_SECTOR_SIZE in devices/block.h). */
  const BLOCK_SECTOR_SIZE: nat := 512
  /** Sectors needed to hold one page on the swap device: PGSIZE / BLOCK_SECTOR_SIZE. */
  const SECTORS_PER_PAGE: nat := 8

  type byte = b: int | 0 <= b < 256

  /** A kernel (physical) page address; NULL is modelled by `None`. */
  type KPage = nat
  /** A user virtual page address. */
  type UPage = nat
  /** Identity of a kernel thread (a user process has exactly one). */
  type Tid = nat
  /** An open file, identified by its inode: every handle reopened from it
      reads and writes the same bytes. */
  type FileRef = nat

  datatype Option<T> = None | Some(value: T)

  /** The result of a system call or fault handler that either returns a
      value or ends the calling process with `sys_exit(-1)`. */
  datatype Completion<T> = Done(value: T) | Killed

  function Zeros(n: nat): (z: seq<byte>)
    ensures |z| == n
    ensures forall i :: 0 <= i < n ==> z[i] == 0
  {
    seq(n, _ => 0)
  }

  /** `page` with the bytes at [at, at + |data|) replaced by `data`
      (a `memcpy` or `memset` into a page buffer). */
  function Overwrite(page: seq<byte>, at: nat, data: seq<byte>): (r: seq<byte>)
    requires at + |data| <= |page|
    ensures |r| == |page|
    ensures r[at..at + |data|] == data
    ensures r[..at] == page[..at] && r[at + |data|..] == page[at + |data|..]
  {
    page[..at] + data + page[at + |data|..]
  }

  function Min(a: int, b: int): (m: int) { if a < b then a else b }
}
