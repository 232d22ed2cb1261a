/** The memory-mapping and descriptor-table parts of the system calls:
    a process's file-descriptor array, its list of memory-mapped files, and
    the calls that map a file into pages of the supplemental page table and
    unmap it again, writing dirty pages back. */
module Syscall {
  import opened VmTypes
  import opened Hardware
  import opened Spt

  /** Slots of the per-thread `fd` array that fd_to_file can index: 0..128. */
  const FD_SLOTS: nat := 129
  /** sys_open hands out descriptors in [FD_FIRST, FD_LIMIT). */
  const FD_FIRST: nat := 2
  const FD_LIMIT: nat := 128

  /** struct mmap_file: a mapping's id, the reopened file and the first user page. */
  datatype MmapFile = MmapFile(id: int, file: FileRef, upage: UPage)

  // ----- page chunking of a mapped file -----

  /** The pages a file of `size` bytes occupies: the `ofs < size; ofs +=
      PGSIZE` loops run this many times. */
  function NumPages(size: nat): (n: nat)
  {
    (size + PGSIZE - 1) / PGSIZE
  }

  /** NumPages is the ceiling of size / PGSIZE: page k of the loop starts
      inside the file exactly when k < NumPages(size). */
  lemma NumPagesIsCeiling(size: nat, k: nat)
    ensures k < NumPages(size) <==> k * PGSIZE < size
    ensures NumPages(size) * PGSIZE >= size
    ensures size == 0 <==> NumPages(size) == 0
  {
  }

  /** User page k of a mapping that starts at addr. */
  function PageAddr(addr: UPage, k: nat): (p: UPage)
  {
    addr + k * PGSIZE
  }

  /** The bytes page k of the mapping reads from the file:
      `ofs + PGSIZE < size ? PGSIZE : size - ofs`. */
  function ChunkReadBytes(size: nat, k: nat): (rb: nat)
    requires k * PGSIZE < size
  {
    if k * PGSIZE + PGSIZE < size then PGSIZE else size - k * PGSIZE
  }

  /** Every chunk reads min(PGSIZE, size - offset) bytes, at least one; the
      chunks before the last are full pages and the last one ends exactly
      at the end of the file, so together they tile [0, size). */
  lemma ChunksTileFile(size: nat, k: nat)
    requires k < NumPages(size)
    ensures k * PGSIZE < size
    ensures ChunkReadBytes(size, k) == Min(PGSIZE, size - k * PGSIZE)
    ensures 0 < ChunkReadBytes(size, k) <= PGSIZE
    ensures k + 1 < NumPages(size) ==> ChunkReadBytes(size, k) == PGSIZE
    ensures k + 1 == NumPages(size) ==> k * PGSIZE + ChunkReadBytes(size, k) == size
  {
    NumPagesIsCeiling(size, k);
    NumPagesIsCeiling(size, k + 1);
  }

  /** The FILE entry sys_mmap creates for page k of the mapping. */
  function MmapEntry(addr: UPage, file: FileRef, size: nat, k: nat): (e: Spte)
    requires k * PGSIZE < size
    ensures WellFormed(PageAddr(addr, k), e)
    ensures e.status == FilePage && e.file == Some(file) && e.kpage.None? && e.writable
    ensures e.fileOffset == k * PGSIZE && e.readBytes == Min(PGSIZE, size - k * PGSIZE)
    ensures e.readBytes + e.zeroBytes == PGSIZE
  {
    var rb := ChunkReadBytes(size, k);
    Spte(PageAddr(addr, k), None, FilePage, Some(file), k * PGSIZE, rb, PGSIZE - rb, true, 0)
  }

  /** Page p is one of the first n pages of a mapping at addr. */
  predicate InSpan(p: UPage, addr: UPage, n: nat)
  {
    addr <= p && (p - addr) % PGSIZE == 0 && (p - addr) / PGSIZE < n
  }

  /** None of the pages a file of `size` bytes would occupy at addr has an entry. */
  predicate SpanFree(entries: map<UPage, Spte>, addr: UPage, size: nat)
  {
    forall k :: 0 <= k < NumPages(size) ==> PageAddr(addr, k) !in entries
  }

  /** The table after the first n pages of the mapping are inserted in order. */
  function InsertChunks(entries: map<UPage, Spte>, addr: UPage, file: FileRef, size: nat, n: nat): (r: map<UPage, Spte>)
    requires n <= NumPages(size)
  {
    if n == 0 then entries
    else
      NumPagesIsCeiling(size, n - 1);
      InsertChunks(entries, addr, file, size, n - 1)[PageAddr(addr, n - 1) := MmapEntry(addr, file, size, n - 1)]
  }

  /** After inserting n chunks, page k < n holds exactly chunk k's entry,
      every other page is as it was, and no entry was lost. */
  lemma {:induction false} InsertChunksContents(entries: map<UPage, Spte>, addr: UPage, file: FileRef, size: nat, n: nat)
    requires n <= NumPages(size)
    ensures var r := InsertChunks(entries, addr, file, size, n);
      && (forall k :: 0 <= k < n ==> k * PGSIZE < size && PageAddr(addr, k) in r && r[PageAddr(addr, k)] == MmapEntry(addr, file, size, k))
      && (forall p :: p in r && !InSpan(p, addr, n) ==> p in entries && r[p] == entries[p])
      && (forall p :: p in entries ==> p in r)
  {
    if n > 0 {
      InsertChunksContents(entries, addr, file, size, n - 1);
      NumPagesIsCeiling(size, n - 1);
      var r := InsertChunks(entries, addr, file, size, n);
      forall k | 0 <= k < n - 1
        ensures PageAddr(addr, k) != PageAddr(addr, n - 1)
      {
      }
      forall p | p in r && !InSpan(p, addr, n)
        ensures p != PageAddr(addr, n - 1) && !InSpan(p, addr, n - 1)
      {
      }
    }
  }

  /** Inserting the chunks of a free span keeps the table well formed. */
  lemma InsertChunksWellFormed(entries: map<UPage, Spte>, addr: UPage, file: FileRef, size: nat, n: nat)
    requires n <= NumPages(size)
    requires forall u :: u in entries ==> WellFormed(u, entries[u])
    ensures var r := InsertChunks(entries, addr, file, size, n);
      forall u :: u in r ==> WellFormed(u, r[u])
  {
    InsertChunksContents(entries, addr, file, size, n);
    var r := InsertChunks(entries, addr, file, size, n);
    forall u | u in r
      ensures WellFormed(u, r[u])
    {
      if InSpan(u, addr, n) {
        var k := (u - addr) / PGSIZE;
        assert u == PageAddr(addr, k);
      }
    }
  }

  /** The page the loop is about to insert is not yet in the table when the
      whole span was free before the first insertion. */
  lemma NextChunkIsNew(entries: map<UPage, Spte>, addr: UPage, file: FileRef, size: nat, k: nat)
    requires k < NumPages(size) && SpanFree(entries, addr, size)
    ensures PageAddr(addr, k) !in InsertChunks(entries, addr, file, size, k)
  {
    InsertChunksContents(entries, addr, file, size, k);
    assert !InSpan(PageAddr(addr, k), addr, k);
  }

  /** A file of 2.5 pages becomes three entries: two full pages and a last
      one that reads 2048 bytes and zeroes the other 2048. */
  lemma TwoAndAHalfPages(entries: map<UPage, Spte>, addr: UPage, file: FileRef)
    ensures NumPages(10240) == 3
    ensures var r := InsertChunks(entries, addr, file, 10240, 3);
      && PageAddr(addr, 0) in r && PageAddr(addr, 1) in r && PageAddr(addr, 2) in r
      && r[PageAddr(addr, 0)].readBytes == PGSIZE && r[PageAddr(addr, 0)].fileOffset == 0
      && r[PageAddr(addr, 1)].readBytes == PGSIZE && r[PageAddr(addr, 1)].fileOffset == PGSIZE
      && r[PageAddr(addr, 2)].readBytes == 2048 && r[PageAddr(addr, 2)].zeroBytes == 2048
      && r[PageAddr(addr, 2)].fileOffset == 2 * PGSIZE
  {
    InsertChunksContents(entries, addr, file, 10240, 3);
  }

  /** A zero-length file is mapped without creating any entry. */
  lemma EmptyFileInsertsNothing(entries: map<UPage, Spte>, addr: UPage, file: FileRef)
    ensures InsertChunks(entries, addr, file, 0, NumPages(0)) == entries
  {
  }

  // ----- mapping ids -----

  /** Ids in the list are at least 1 and strictly increasing front to back. */
  predicate IdsIncreasing(list: seq<MmapFile>)
  {
    && (forall i :: 0 <= i < |list| ==> 1 <= list[i].id)
    && (forall i, j :: 0 <= i < j < |list| ==> list[i].id < list[j].id)
  }

  /** new_mmapid: 1 for an empty list, otherwise the last record's id + 1. */
  function NewMmapId(list: seq<MmapFile>): (id: int)
    ensures IdsIncreasing(list) ==> 1 <= id && forall i :: 0 <= i < |list| ==> list[i].id < id
  {
    if list == [] then 1 else list[|list| - 1].id + 1
  }

  /** Appending a record with the new id keeps the ids increasing, and
      the new id names only that record. */
  lemma AppendNewIdKeepsIncreasing(list: seq<MmapFile>, file: FileRef, upage: UPage)
    requires IdsIncreasing(list)
    ensures var l := list + [MmapFile(NewMmapId(list), file, upage)];
      IdsIncreasing(l) && MmapIndex(l, NewMmapId(list)) == Some(|list|)
  {
    var l := list + [MmapFile(NewMmapId(list), file, upage)];
    assert forall i :: 0 <= i < |list| ==> l[i] == list[i];
    assert l[|list|].id == NewMmapId(list);
  }

  /** Removing one record keeps the ids increasing. */
  lemma RemoveKeepsIncreasing(list: seq<MmapFile>, i: nat)
    requires IdsIncreasing(list) && i < |list|
    ensures IdsIncreasing(list[..i] + list[i + 1..])
  {
    var l := list[..i] + list[i + 1..];
    forall a, b | 0 <= a < b < |l|
      ensures l[a].id < l[b].id
    {
      var a', b' := if a < i then a else a + 1, if b < i then b else b + 1;
      assert l[a] == list[a'] && l[b] == list[b'];
    }
    forall a | 0 <= a < |l|
      ensures 1 <= l[a].id
    {
      assert l[a] == list[if a < i then a else a + 1];
    }
  }

  /** Ids are not unique over time: mapping a file and then unmapping that
      newest mapping makes the next mapping receive the same id again. */
  lemma NewestIdIsReused(list: seq<MmapFile>, file: FileRef, upage: UPage)
    ensures var l := list + [MmapFile(NewMmapId(list), file, upage)];
      NewMmapId(l[..|list|] + l[|list| + 1..]) == l[|list|].id
  {
    var l := list + [MmapFile(NewMmapId(list), file, upage)];
    assert l[..|list|] + l[|list| + 1..] == list;
  }

  /** The position of the first record with the given id. */
  function MmapIndex(list: seq<MmapFile>, id: int): (r: Option<nat>)
    ensures r.None? <==> forall i :: 0 <= i < |list| ==> list[i].id != id
    ensures r.Some? ==> r.value < |list| && list[r.value].id == id
    ensures r.Some? ==> forall j :: 0 <= j < r.value ==> list[j].id != id
  {
    if list == [] then None
    else if list[0].id == id then Some(0)
    else match MmapIndex(list[1..], id)
      case None => None
      case Some(i) => Some(i + 1)
  }

  // ----- write-back on munmap -----

  /** Page p of the span is dirty in page directory pd. */
  predicate IsDirty(pd: map<UPage, Pte>, p: UPage)
  {
    p in pd && pd[p].dirty
  }

  /** The entries of pages the unmap loop will visit can be written back:
      each exists and names a file. */
  predicate SpanWritable(entries: map<UPage, Spte>, pages: seq<UPage>)
  {
    forall i :: 0 <= i < |pages| ==>
      pages[i] in entries && entries[pages[i]].file.Some? && entries[pages[i]].readBytes <= PGSIZE
  }

  /** The files after page p is written back if it is dirty: the first
      readBytes bytes of its frame go to its file at its file offset. */
  function WriteBackPage(files: map<FileRef, seq<byte>>, e: Spte, pd: map<UPage, Pte>, memory: map<KPage, seq<byte>>, p: UPage): (r: map<FileRef, seq<byte>>)
    requires e.file.Some? && e.readBytes <= PGSIZE && PagesSized(memory)
  {
    if IsDirty(pd, p) then
      files[e.file.value := WriteAt(FileIn(files, e.file.value), e.fileOffset, PageIn(memory, pd[p].kpage)[..e.readBytes])]
    else files
  }

  /** The files after the pages in `pages` are written back in order. */
  function WriteBacks(files: map<FileRef, seq<byte>>, entries: map<UPage, Spte>, pd: map<UPage, Pte>, memory: map<KPage, seq<byte>>, pages: seq<UPage>): (r: map<FileRef, seq<byte>>)
    requires SpanWritable(entries, pages) && PagesSized(memory)
  {
    if pages == [] then files
    else
      var n := |pages| - 1;
      WriteBackPage(WriteBacks(files, entries, pd, memory, pages[..n]), entries[pages[n]], pd, memory, pages[n])
  }

  /** Unmapping a span with no dirty page performs no file write. */
  lemma {:induction false} CleanSpanWritesNothing(files: map<FileRef, seq<byte>>, entries: map<UPage, Spte>, pd: map<UPage, Pte>, memory: map<KPage, seq<byte>>, pages: seq<UPage>)
    requires SpanWritable(entries, pages) && PagesSized(memory)
    requires forall i :: 0 <= i < |pages| ==> !IsDirty(pd, pages[i])
    ensures WriteBacks(files, entries, pd, memory, pages) == files
  {
    if pages != [] {
      CleanSpanWritesNothing(files, entries, pd, memory, pages[..|pages| - 1]);
    }
  }

  /** Write-back never changes a file's length. */
  lemma {:induction false} WriteBacksKeepLengths(files: map<FileRef, seq<byte>>, entries: map<UPage, Spte>, pd: map<UPage, Pte>, memory: map<KPage, seq<byte>>, pages: seq<UPage>, f: FileRef)
    requires SpanWritable(entries, pages) && PagesSized(memory)
    ensures |FileIn(WriteBacks(files, entries, pd, memory, pages), f)| == |FileIn(files, f)|
  {
    if pages != [] {
      WriteBacksKeepLengths(files, entries, pd, memory, pages[..|pages| - 1], f);
    }
  }

  /** Only the files named by dirty pages of the span are written. */
  lemma {:induction false} WriteBacksTouchOnlyDirtyFiles(files: map<FileRef, seq<byte>>, entries: map<UPage, Spte>, pd: map<UPage, Pte>, memory: map<KPage, seq<byte>>, pages: seq<UPage>, f: FileRef)
    requires SpanWritable(entries, pages) && PagesSized(memory)
    requires forall i :: 0 <= i < |pages| && IsDirty(pd, pages[i]) ==> entries[pages[i]].file != Some(f)
    ensures FileIn(WriteBacks(files, entries, pd, memory, pages), f) == FileIn(files, f)
  {
    if pages != [] {
      WriteBacksTouchOnlyDirtyFiles(files, entries, pd, memory, pages[..|pages| - 1], f);
    }
  }

  /** Writing back one more page of the span is one more WriteBackPage step. */
  lemma WriteBacksStep(files: map<FileRef, seq<byte>>, entries: map<UPage, Spte>, pd: map<UPage, Pte>, memory: map<KPage, seq<byte>>, pages: seq<UPage>, k: nat)
    requires SpanWritable(entries, pages) && PagesSized(memory) && k < |pages|
    ensures SpanWritable(entries, pages[..k]) && SpanWritable(entries, pages[..k + 1])
    ensures WriteBacks(files, entries, pd, memory, pages[..k + 1])
         == WriteBackPage(WriteBacks(files, entries, pd, memory, pages[..k]), entries[pages[k]], pd, memory, pages[k])
  {
    assert pages[..k + 1][..k] == pages[..k];
  }

  /** The pages listed in ps, as a set. */
  function Elems(ps: seq<UPage>): (s: set<UPage>)
  {
    set p | p in ps
  }

  /** The pages of a prefix one longer are those of the prefix plus the next page. */
  lemma PrefixElemsStep(pages: seq<UPage>, k: nat)
    requires k < |pages|
    ensures Elems(pages[..k + 1]) == Elems(pages[..k]) + {pages[k]}
  {
    assert pages[..k + 1] == pages[..k] + [pages[k]];
  }

  /** The user pages of the first n pages of a mapping at addr. */
  function SpanPages(addr: UPage, n: nat): (ps: seq<UPage>)
    ensures |ps| == n && forall k :: 0 <= k < n ==> ps[k] == PageAddr(addr, k)
  {
    seq(n, k requires 0 <= k => PageAddr(addr, k))
  }

  class Process {
    /** The thread running the process; its page directory is `tid`'s. */
    const tid: Tid
    /** `spt`. */
    const spt: SupplementalPageTable
    /** `fd[]`: the open file in each descriptor slot, or NULL. */
    const fd: array<Option<FileRef>>
    /** `mmap_list`, in list order. */
    var mmapList: seq<MmapFile>

    ghost predicate Valid()
      reads this, spt
    {
      && spt.Valid()
      && fd.Length == FD_SLOTS
      && IdsIncreasing(mmapList)
    }

    constructor (t: Tid, table: SupplementalPageTable)
      requires table.Valid()
      ensures Valid() && tid == t && spt == table && mmapList == [] && fresh(fd)
      ensures forall i :: 0 <= i < FD_SLOTS ==> fd[i].None?
    {
      tid := t;
      spt := table;
      fd := new Option<FileRef>[FD_SLOTS](_ => None);
      mmapList := [];
    }

    /** The descriptor-table part of sys_open, given the result of
        filesys_open: the file goes to the lowest empty slot in [2, 128),
        whose index is returned; -1 when the open failed or every slot is
        taken, with the table unchanged. */
    method SysOpen(newFile: Option<FileRef>) returns (r: int)
      requires fd.Length == FD_SLOTS
      modifies fd
      ensures newFile.None? ==> r == -1
      ensures r == -1 ==> fd[..] == old(fd[..])
      ensures newFile.Some? ==>
        (r == -1 <==> forall i :: FD_FIRST <= i < FD_LIMIT ==> old(fd[i]).Some?)
      ensures r != -1 ==>
        && FD_FIRST <= r < FD_LIMIT && old(fd[r]).None?
        && (forall i :: FD_FIRST <= i < r ==> old(fd[i]).Some?)
        && fd[..] == old(fd[..])[r := newFile]
        && FdToFile(r) == Done(newFile.value)
    {
      if newFile.None? {
        return -1;
      }
      var i := FD_FIRST;
      while i < FD_LIMIT
        invariant FD_FIRST <= i <= FD_LIMIT
        invariant forall j :: FD_FIRST <= j < i ==> fd[j].Some?
      {
        if fd[i].None? {
          fd[i] := newFile;
          return i;
        }
        i := i + 1;
      }
      return -1;
    }

    /** fd_to_file: the file open as descriptor n; the process exits for a
        descriptor outside [0, 128] or an empty slot. */
    function FdToFile(n: int): (r: Completion<FileRef>)
      reads this, fd
      requires fd.Length == FD_SLOTS
      ensures r.Done? <==> 0 <= n < FD_SLOTS && fd[n].Some?
      ensures r.Done? ==> Some(r.value) == fd[n]
    {
      if n < 0 || n > 128 then Killed
      else if fd[n].None? then Killed
      else Done(fd[n].value)
    }

    /** get_mmf: the position of the first mapping with the given id, or NULL. */
    method GetMmf(mapping: int) returns (pos: Option<nat>)
      ensures pos == MmapIndex(mmapList, mapping)
    {
      var i := 0;
      while i < |mmapList|
        invariant 0 <= i <= |mmapList|
        invariant forall j :: 0 <= j < i ==> mmapList[j].id != mapping
      {
        if mmapList[i].id == mapping {
          return Some(i);
        }
        i := i + 1;
      }
      return None;
    }

    /** sys_mmap of descriptor n at address addr, given whether file_reopen
        succeeds. A NULL or unaligned address, a failed reopen, or a span
        that overlaps an existing entry returns -1 and changes nothing; a
        bad descriptor ends the process. Otherwise one writable FILE entry
        per page of the file is inserted and a mapping with a new id is
        appended to the list. */
    method SysMmap(n: int, addr: UPage, m: Machine, reopenOk: bool) returns (r: Completion<int>)
      requires Valid()
      modifies this, spt
      ensures Valid()
      ensures addr == 0 || addr % PGSIZE != 0 ==>
        r == Done(-1) && mmapList == old(mmapList) && spt.entries == old(spt.entries)
      ensures addr != 0 && addr % PGSIZE == 0 && FdToFile(n).Killed? ==>
        r == Killed && mmapList == old(mmapList) && spt.entries == old(spt.entries)
      ensures addr != 0 && addr % PGSIZE == 0 && FdToFile(n).Done? ==>
        var file := FdToFile(n).value;
        var size := |m.Content(file)|;
        && (!reopenOk || !SpanFree(old(spt.entries), addr, size) ==>
              r == Done(-1) && mmapList == old(mmapList) && spt.entries == old(spt.entries))
        && (reopenOk && SpanFree(old(spt.entries), addr, size) ==>
              && r == Done(NewMmapId(old(mmapList)))
              && mmapList == old(mmapList) + [MmapFile(NewMmapId(old(mmapList)), file, addr)]
              && spt.entries == InsertChunks(old(spt.entries), addr, file, size, NumPages(size)))
    {
      if addr == 0 || addr % PGSIZE != 0 {
        return Done(-1);
      }
      var f := FdToFile(n);
      if f.Killed? {
        return Killed;  // sys_exit (-1)
      }
      if !reopenOk {
        return Done(-1);
      }
      // file_reopen shares the inode, so the reopened file has the same bytes.
      var file := f.value;
      var id := NewMmapId(mmapList);
      var size := |m.Content(file)|;

      // Check that no page of the span has an entry yet.
      var k := 0;
      while k < NumPages(size)
        invariant 0 <= k <= NumPages(size)
        invariant forall j :: 0 <= j < k ==> PageAddr(addr, j) !in spt.entries
        invariant mmapList == old(mmapList)
      {
        if spt.GetSpte(PageAddr(addr, k)).Some? {
          return Done(-1);
        }
        k := k + 1;
      }

      // Map each page.
      ghost var before := spt.entries;
      k := 0;
      while k < NumPages(size)
        invariant 0 <= k <= NumPages(size)
        invariant spt.Valid()
        invariant spt.entries == InsertChunks(before, addr, file, size, k)
        invariant mmapList == old(mmapList)
      {
        NumPagesIsCeiling(size, k);
        NextChunkIsNew(before, addr, file, size, k);
        var rb := ChunkReadBytes(size, k);
        var _ := spt.InitFileSpte(PageAddr(addr, k), file, k * PGSIZE, rb, PGSIZE - rb, true);
        k := k + 1;
      }

      AppendNewIdKeepsIncreasing(mmapList, file, addr);
      mmapList := mmapList + [MmapFile(id, file, addr)];
      r := Done(id);
    }

    /** One iteration of the unmap loop: if upage is dirty in the page
        directory, write the first readBytes bytes of its frame to the
        entry's file at the entry's offset; then delete the entry. */
    method UnmapPage(upage: UPage, pd: map<UPage, Pte>, m: Machine)
      requires spt.Valid() && m.Valid()
      requires upage in spt.entries && spt.entries[upage].file.Some?
      modifies spt, m`files
      ensures spt.Valid()
      ensures spt.entries == old(spt.entries) - {upage}
      ensures m.files == WriteBackPage(old(m.files), old(spt.entries[upage]), pd, m.memory, upage)
    {
      var entry := spt.GetSpte(upage).value;
      if IsDirty(pd, upage) {
        var kpage := pd[upage].kpage;
        m.FileWriteAt(entry.file.value, entry.fileOffset, m.PageContents(kpage)[..entry.readBytes]);
      }
      spt.PageDelete(entry);
    }

    /** The loop of sys_munmap over the span of mapping mmf, with the
        process's page directory pd: every page is written back if dirty
        and its entry deleted. */
    method UnmapSpan(mmf: MmapFile, pd: map<UPage, Pte>, m: Machine)
      requires spt.Valid() && m.Valid()
      requires SpanWritable(spt.entries, SpanPages(mmf.upage, NumPages(|m.Content(mmf.file)|)))
      modifies spt, m`files
      ensures spt.Valid()
      ensures var pages := SpanPages(mmf.upage, NumPages(|old(m.Content(mmf.file))|));
        && spt.entries == old(spt.entries) - Elems(pages)
        && m.files == WriteBacks(old(m.files), old(spt.entries), pd, m.memory, pages)
    {
      ghost var size := |m.Content(mmf.file)|;
      ghost var pages := SpanPages(mmf.upage, NumPages(size));
      ghost var entries0 := spt.entries;
      ghost var files0 := m.files;
      var k := 0;
      while k * PGSIZE < |m.Content(mmf.file)|
        invariant k <= NumPages(size) && |m.Content(mmf.file)| == size
        invariant spt.Valid()
        invariant spt.entries == entries0 - Elems(pages[..k])
        invariant m.files == WriteBacks(files0, entries0, pd, m.memory, pages[..k])
        decreases size - k * PGSIZE
      {
        NumPagesIsCeiling(size, k);
        var upage := PageAddr(mmf.upage, k);
        assert upage == pages[k] && upage !in Elems(pages[..k]);
        WriteBacksStep(files0, entries0, pd, m.memory, pages, k);
        PrefixElemsStep(pages, k);
        UnmapPage(upage, pd, m);
        WriteBacksKeepLengths(files0, entries0, pd, m.memory, pages[..k + 1], mmf.file);
        k := k + 1;
      }
      NumPagesIsCeiling(size, k);
      assert pages[..k] == pages;
    }

    /** sys_munmap: for each page of the mapping's span, write a dirty page
        back to its file and delete its entry; then drop the mapping from
        the list. An unknown id changes nothing. Frames are not freed. */
    method SysMunmap(mapping: int, m: Machine)
      requires Valid() && m.Valid()
      requires MmapIndex(mmapList, mapping).Some? ==>
        var mmf := mmapList[MmapIndex(mmapList, mapping).value];
        SpanWritable(spt.entries, SpanPages(mmf.upage, NumPages(|m.Content(mmf.file)|)))
      modifies this, spt, m`files
      ensures Valid()
      ensures MmapIndex(old(mmapList), mapping).None? ==>
        mmapList == old(mmapList) && spt.entries == old(spt.entries) && m.files == old(m.files)
      ensures MmapIndex(old(mmapList), mapping).Some? ==>
        var i := MmapIndex(old(mmapList), mapping).value;
        var mmf := old(mmapList)[i];
        var pages := SpanPages(mmf.upage, NumPages(|old(m.Content(mmf.file))|));
        && mmapList == old(mmapList)[..i] + old(mmapList)[i + 1..]
        && spt.entries == old(spt.entries) - Elems(pages)
        && m.files == WriteBacks(old(m.files), old(spt.entries), old(m.PageDir(tid)), m.memory, pages)
    {
      var pos := GetMmf(mapping);
      if pos.None? {
        return;  // invalid mapping id
      }
      var mmf := mmapList[pos.value];
      UnmapSpan(mmf, m.PageDir(tid), m);
      RemoveKeepsIncreasing(mmapList, pos.value);
      mmapList := mmapList[..pos.value] + mmapList[pos.value + 1..];
    }
  }
}
