/** The collaborators the virtual-memory code calls but does not own,
    reduced to the state they keep and the effect of each call the VM code
    makes: the user page pool (palloc), physical page contents, the hardware
    page directories (pagedir), the contents of files (file_read_at,
    file_write_at) and whether the current thread holds `file_lock`. */
module Hardware {
  import opened VmTypes

  /** A present hardware page-table entry for one user page. */
  datatype Pte = Pte(kpage: KPage, writable: bool, dirty: bool)

  /** file_read_at: up to n bytes from offset off, fewer at end of file. */
  function ReadAt(content: seq<byte>, off: nat, n: nat): (data: seq<byte>)
    ensures |data| <= n
    ensures |data| == n <==> off + n <= |content| || n == 0
    ensures off + |data| <= |content| || data == []
    ensures off + |data| <= |content| ==> data == content[off..off + |data|]
  {
    if off >= |content| then [] else content[off..Min(off + n, |content|)]
  }

  /** file_write_at on a file of fixed length: the bytes of `data` that fall
      before the end of the file replace the file's bytes from offset off;
      the file never grows. */
  function WriteAt(content: seq<byte>, off: nat, data: seq<byte>): (r: seq<byte>)
    ensures |r| == |content|
    ensures off + |data| <= |content| ==> r == Overwrite(content, off, data)
    ensures forall i :: 0 <= i < |content| && !(off <= i < off + |data|) ==> r[i] == content[i]
  {
    if off >= |content| then content
    else Overwrite(content, off, data[..Min(|data|, |content| - off)])
  }

  /** Every physical page held in `memory` is one page long. */
  predicate PagesSized(memory: map<KPage, seq<byte>>)
  {
    forall k :: k in memory ==> |memory[k]| == PGSIZE
  }

  /** The contents of physical page k (a page never written reads as zero). */
  function PageIn(memory: map<KPage, seq<byte>>, k: KPage): (p: seq<byte>)
    requires PagesSized(memory)
    ensures |p| == PGSIZE
  {
    if k in memory then memory[k] else Zeros(PGSIZE)
  }

  /** The bytes of file f (empty if no bytes are recorded for it). */
  function FileIn(files: map<FileRef, seq<byte>>, f: FileRef): (bytes: seq<byte>)
  {
    if f in files then files[f] else []
  }

  class Machine {
    /** Pages the user pool can still hand out. */
    var free: set<KPage>
    /** Contents of physical pages. */
    var memory: map<KPage, seq<byte>>
    /** Each thread's page directory. */
    var pagedirs: map<Tid, map<UPage, Pte>>
    /** The bytes of every file, by inode. */
    var files: map<FileRef, seq<byte>>
    /** `lock_held_by_current_thread (&file_lock)`. */
    var fileLockHeld: bool

    ghost predicate Valid()
      reads this`memory
    {
      PagesSized(memory)
    }

    function PageContents(k: KPage): (p: seq<byte>)
      reads this`memory
      requires Valid()
      ensures |p| == PGSIZE
    {
      PageIn(memory, k)
    }

    /** Thread t's page directory (empty if t has none yet). */
    function PageDir(t: Tid): (pd: map<UPage, Pte>)
      reads this`pagedirs
    {
      if t in pagedirs then pagedirs[t] else map[]
    }

    function Content(f: FileRef): (bytes: seq<byte>)
      reads this`files
    {
      FileIn(files, f)
    }

    /** palloc_get_page (PAL_USER): some free page of the user pool, or NULL
        when the pool is exhausted. The page is not cleared. */
    method PallocGetPage() returns (k: Option<KPage>)
      modifies this`free
      ensures k.None? <==> old(free) == {}
      ensures k.None? ==> free == old(free)
      ensures k.Some? ==> k.value in old(free) && free == old(free) - {k.value}
    {
      if free == {} {
        k := None;
      } else {
        var p :| p in free;
        free := free - {p};
        k := Some(p);
      }
    }

    /** palloc_free_page: k goes back to the pool. */
    method PallocFreePage(k: KPage)
      modifies this`free
      ensures free == old(free) + {k}
    {
      free := free + {k};
    }

    /** pagedir_set_page: fails, changing nothing, when no page-table page
        can be found for `upage` (`pageTableOk` is false). */
    method PagedirSetPage(t: Tid, upage: UPage, kpage: KPage, writable: bool, pageTableOk: bool)
      returns (ok: bool)
      modifies this`pagedirs
      ensures ok == pageTableOk
      ensures ok ==> pagedirs == old(pagedirs)[t := old(PageDir(t))[upage := Pte(kpage, writable, false)]]
      ensures !ok ==> pagedirs == old(pagedirs)
    {
      ok := pageTableOk;
      if ok {
        pagedirs := pagedirs[t := PageDir(t)[upage := Pte(kpage, writable, false)]];
      }
    }

    /** pagedir_clear_page: upage is no longer present in t's directory. */
    method PagedirClearPage(t: Tid, upage: UPage)
      modifies this`pagedirs
      ensures pagedirs == old(pagedirs)[t := old(PageDir(t)) - {upage}]
    {
      pagedirs := pagedirs[t := PageDir(t) - {upage}];
    }

    /** file_read_at into page k: the bytes read land at the start of the
        page; returns how many were read. */
    method FileReadAt(f: FileRef, k: KPage, off: nat, n: nat) returns (read: nat)
      requires Valid() && n <= PGSIZE
      modifies this`memory
      ensures Valid()
      ensures read == |ReadAt(Content(f), off, n)|
      ensures memory == old(memory)[k := Overwrite(old(PageContents(k)), 0, ReadAt(Content(f), off, n))]
    {
      var data := ReadAt(Content(f), off, n);
      memory := memory[k := Overwrite(PageContents(k), 0, data)];
      read := |data|;
    }

    /** memset (k + at, 0, n). */
    method Memset(k: KPage, at: nat, n: nat)
      requires Valid() && at + n <= PGSIZE
      modifies this`memory
      ensures Valid()
      ensures memory == old(memory)[k := Overwrite(old(PageContents(k)), at, Zeros(n))]
    {
      memory := memory[k := Overwrite(PageContents(k), at, Zeros(n))];
    }

    /** file_write_at. */
    method FileWriteAt(f: FileRef, off: nat, data: seq<byte>)
      modifies this`files
      ensures files == old(files)[f := WriteAt(old(Content(f)), off, data)]
    {
      files := files[f := WriteAt(Content(f), off, data)];
    }
  }
}
