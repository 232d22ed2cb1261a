/** The supplemental page table: per process, what each user page holds or
    where its content comes from, and the lazy loader that page faults call. */
module Spt {
  import opened VmTypes
  import opened Hardware
  import opened Frame

  /** enum spt_status. */
  datatype Status = ZeroPage | FramePage | FilePage | SwapPage

  /** struct spte. The fields an initialiser does not set (they hold
      whatever malloc returned) are 0 or None here; `swapId` is never set by
      any of the code modelled. */
  datatype Spte = Spte(
    upage: UPage,
    kpage: Option<KPage>,
    status: Status,
    file: Option<FileRef>,
    fileOffset: nat,
    readBytes: nat,
    zeroBytes: nat,
    writable: bool,
    swapId: int)

  /** spt_less_func: the hash table orders entries by upage only. */
  function SptLess(a: Spte, b: Spte): (less: bool)
    ensures less ==> a.upage != b.upage
  {
    a.upage < b.upage
  }

  /** Two entries are the same key of the table exactly when their user
      pages are equal: nothing else takes part in the comparison. */
  lemma SptLessIdentifiesByUpage(a: Spte, b: Spte)
    ensures !SptLess(a, b) && !SptLess(b, a) <==> a.upage == b.upage
    ensures !SptLess(a, a)
  {
  }

  /** An entry stored under key u. A FILE entry names a file, and the bytes
      it reads and zeroes fit in one page; a FRAME entry has a frame. */
  predicate WellFormed(u: UPage, e: Spte)
  {
    && e.upage == u
    && e.readBytes + e.zeroBytes <= PGSIZE
    && (e.status == FilePage ==> e.file.Some?)
    && (e.status == FramePage ==> e.kpage.Some?)
  }

  /** What load_page leaves in the new frame for entry e, given the bytes
      of e's file and the frame's previous contents: zeroes for a ZERO page,
      the file range followed by zeroes for a FILE page, and the untouched
      frame for a SWAP page (its swap_in is commented out). */
  function LoadedContent(e: Spte, file: seq<byte>, before: seq<byte>): (page: seq<byte>)
    requires |before| == PGSIZE && e.readBytes + e.zeroBytes <= PGSIZE
    ensures |page| == PGSIZE
  {
    match e.status
    case ZeroPage => Zeros(PGSIZE)
    case FilePage =>
      Overwrite(Overwrite(before, 0, ReadAt(file, e.fileOffset, e.readBytes)), e.readBytes, Zeros(e.zeroBytes))
    case _ => before
  }

  /** A ZERO page is loaded as a page of zero bytes. */
  lemma LoadedZeroPage(e: Spte, file: seq<byte>, before: seq<byte>)
    requires |before| == PGSIZE && e.readBytes + e.zeroBytes <= PGSIZE
    requires e.status == ZeroPage
    ensures forall i :: 0 <= i < PGSIZE ==> LoadedContent(e, file, before)[i] == 0
  {
  }

  /** After a full read, a FILE page holds bytes [fileOffset, fileOffset +
      readBytes) of the file, then zeroBytes zeroes, then what the frame held. */
  lemma LoadedFilePage(e: Spte, file: seq<byte>, before: seq<byte>)
    requires |before| == PGSIZE && e.readBytes + e.zeroBytes <= PGSIZE
    requires e.status == FilePage
    requires e.fileOffset + e.readBytes <= |file|
    ensures var page := LoadedContent(e, file, before);
      && page[..e.readBytes] == file[e.fileOffset..e.fileOffset + e.readBytes]
      && (forall i :: e.readBytes <= i < e.readBytes + e.zeroBytes ==> page[i] == 0)
      && page[e.readBytes + e.zeroBytes..] == before[e.readBytes + e.zeroBytes..]
  {
    var rb, zb := e.readBytes, e.zeroBytes;
    var data := ReadAt(file, e.fileOffset, rb);
    var p1 := Overwrite(before, 0, data);
    var page := Overwrite(p1, rb, Zeros(zb));
    assert page == LoadedContent(e, file, before);
    assert page[..rb] == file[e.fileOffset..e.fileOffset + rb] by {
      assert page[..rb] == p1[..rb];
    }
    assert forall i :: rb <= i < rb + zb ==> page[i] == 0 by {
      assert page[rb..rb + zb] == Zeros(zb);
      forall i | rb <= i < rb + zb
        ensures page[i] == 0
      {
        assert page[i] == page[rb..rb + zb][i - rb];
      }
    }
    assert page[rb + zb..] == before[rb + zb..] by {
      assert page[rb + zb..] == p1[rb + zb..];
    }
  }

  /** The bytes of the file a FILE entry reads from (none for other entries). */
  function SourceBytes(e: Spte, m: Machine): (bytes: seq<byte>)
    reads m`files
  {
    if e.file.Some? then m.Content(e.file.value) else []
  }

  /** The file read load_page makes for e returns every byte it asks for
      (trivially so for entries that read nothing). */
  predicate FullRead(e: Spte, file: seq<byte>)
  {
    e.status == FilePage ==> |ReadAt(file, e.fileOffset, e.readBytes)| == e.readBytes
  }

  /** The part of load_page between allocating frame k (just appended to the
      frame table after `prev`) and mapping it: fill it as e's status says.
      A short file read frees the frame, releases `file_lock` and reports
      failure. */
  method FillFrame(e: Spte, k: KPage, current: Tid, ghost prev: seq<Fte>, ft: FrameTable, m: Machine)
    returns (ok: bool)
    requires m.Valid() && ft.Valid(m) && WellFormed(e.upage, e) && e.status != FramePage
    requires FirstIndex(ft.entries, k) == Some(|prev|) && ft.entries == prev + [Fte(k, e.upage, current)]
    modifies ft, m`memory, m`free, m`pagedirs, m`fileLockHeld
    ensures m.Valid() && ft.Valid(m)
    ensures ok <==> FullRead(e, old(SourceBytes(e, m)))
    ensures m.memory - {k} == old(m.memory) - {k}
    ensures ok ==>
      && m.PageContents(k) == LoadedContent(e, old(SourceBytes(e, m)), old(m.PageContents(k)))
      && ft.entries == old(ft.entries) && m.free == old(m.free) && m.pagedirs == old(m.pagedirs)
      && m.fileLockHeld == old(m.fileLockHeld)
    ensures !ok ==>
      && ft.entries == prev && m.free == old(m.free) + {k}
      && m.pagedirs == old(m.pagedirs)[current := old(m.PageDir(current)) - {e.upage}]
      && !m.fileLockHeld
  {
    ok := true;
    match e.status {
      case ZeroPage =>
        m.Memset(k, 0, PGSIZE);
        assert m.PageContents(k) == m.PageContents(k)[0..PGSIZE] == Zeros(PGSIZE);
      case SwapPage =>
        // swap_in is not called.
      case FilePage =>
        ok := ReadFilePage(e, k, current, prev, ft, m);
    }
  }

  /** Undo the allocation of frame k for upage, recorded last in the frame
      table after `prev`: falloc_free_page (kpage). */
  method UndoAllocation(k: KPage, upage: UPage, current: Tid, ghost prev: seq<Fte>, ft: FrameTable, m: Machine)
    requires ft.Valid(m)
    requires FirstIndex(ft.entries, k) == Some(|prev|) && ft.entries == prev + [Fte(k, upage, current)]
    modifies ft, m`free, m`pagedirs
    ensures ft.Valid(m)
    ensures ft.entries == prev && m.free == old(m.free) + {k}
    ensures m.pagedirs == old(m.pagedirs)[current := old(m.PageDir(current)) - {upage}]
  {
    assert Without(ft.entries, |prev|) == prev;
    var _ := ft.FallocFreePage(k, m);
  }

  /** file_read_at of e's range into frame k and, when every byte was
      read, the memset of the zero_bytes after it. */
  method FileIntoFrame(e: Spte, k: KPage, m: Machine) returns (full: bool)
    requires m.Valid() && WellFormed(e.upage, e) && e.status == FilePage
    modifies m`memory
    ensures m.Valid()
    ensures full <==> FullRead(e, m.Content(e.file.value))
    ensures m.memory - {k} == old(m.memory) - {k}
    ensures full ==> m.memory == old(m.memory)[k := LoadedContent(e, m.Content(e.file.value), old(m.PageContents(k)))]
  {
    ghost var before, mem0 := m.PageContents(k), m.memory;
    ghost var data := ReadAt(m.Content(e.file.value), e.fileOffset, e.readBytes);
    var read := m.FileReadAt(e.file.value, k, e.fileOffset, e.readBytes);
    if read != e.readBytes {
      return false;
    }
    assert m.PageContents(k) == Overwrite(before, 0, data);
    m.Memset(k, e.readBytes, e.zeroBytes);
    assert m.memory == mem0[k := Overwrite(Overwrite(before, 0, data), e.readBytes, Zeros(e.zeroBytes))];
    full := true;
  }

  /** The FILE case of load_page: under `file_lock` (taken only if not
      already held), read readBytes bytes from fileOffset to the start of
      the frame and zero the zeroBytes after them. A short read frees the
      frame and releases the lock. */
  method ReadFilePage(e: Spte, k: KPage, current: Tid, ghost prev: seq<Fte>, ft: FrameTable, m: Machine)
    returns (ok: bool)
    requires m.Valid() && ft.Valid(m) && WellFormed(e.upage, e) && e.status == FilePage
    requires FirstIndex(ft.entries, k) == Some(|prev|)
    requires ft.entries == prev + [Fte(k, e.upage, current)]
    modifies ft, m`memory, m`free, m`pagedirs, m`fileLockHeld
    ensures m.Valid() && ft.Valid(m)
    ensures ok <==> FullRead(e, m.Content(e.file.value))
    ensures m.memory - {k} == old(m.memory) - {k}
    ensures ok ==>
      && m.memory == old(m.memory)[k := LoadedContent(e, m.Content(e.file.value), old(m.PageContents(k)))]
      && ft.entries == old(ft.entries) && m.free == old(m.free) && m.pagedirs == old(m.pagedirs)
      && m.fileLockHeld == old(m.fileLockHeld)
    ensures !ok ==>
      && ft.entries == prev && m.free == old(m.free) + {k}
      && m.pagedirs == old(m.pagedirs)[current := old(m.PageDir(current)) - {e.upage}]
      && !m.fileLockHeld
  {
    var wasHoldingLock := m.fileLockHeld;
    if !wasHoldingLock {
      m.fileLockHeld := true;  // lock_acquire (&file_lock)
    }
    ok := FileIntoFrame(e, k, m);
    assert m.pagedirs == old(m.pagedirs) && m.free == old(m.free) && ft.entries == old(ft.entries);
    if !ok {
      UndoAllocation(k, e.upage, current, prev, ft, m);
      m.fileLockHeld := false;  // lock_release (&file_lock)
      return;
    }
    if !wasHoldingLock {
      m.fileLockHeld := false;  // lock_release (&file_lock)
    }
  }

  class SupplementalPageTable {
    /** The hash table, keyed by user page. */
    var entries: map<UPage, Spte>

    ghost predicate Valid()
      reads this
    {
      forall u :: u in entries ==> WellFormed(u, entries[u])
    }

    /** init_spt. */
    constructor ()
      ensures Valid() && entries == map[]
    {
      entries := map[];
    }

    /** init_frame_spte: a writable FRAME entry for upage backed by kpage.
        hash_insert keeps an entry already present under the key. */
    method InitFrameSpte(upage: UPage, kpage: KPage)
      requires Valid()
      modifies this
      ensures Valid()
      ensures upage in old(entries) ==> entries == old(entries)
      ensures upage !in old(entries) ==>
        && upage in entries && entries == old(entries)[upage := entries[upage]]
        && entries[upage].status == FramePage && entries[upage].kpage == Some(kpage)
        && entries[upage].file == None && entries[upage].writable
    {
      if upage !in entries {
        entries := entries[upage := Spte(upage, Some(kpage), FramePage, None, 0, 0, 0, true, 0)];
      }
    }

    /** init_file_spte: a FILE entry with no frame and exactly the given
        file range and writability. Returns the new entry whether or not the
        key was free. */
    method InitFileSpte(upage: UPage, file: FileRef, ofs: nat, readBytes: nat, zeroBytes: nat, writable: bool)
      returns (e: Spte)
      requires Valid() && readBytes + zeroBytes <= PGSIZE
      modifies this
      ensures Valid()
      ensures e.upage == upage && e.kpage == None && e.status == FilePage && e.file == Some(file)
      ensures e.fileOffset == ofs && e.readBytes == readBytes && e.zeroBytes == zeroBytes
      ensures e.writable == writable && e.swapId == 0
      ensures entries == if upage in old(entries) then old(entries) else old(entries)[upage := e]
    {
      e := Spte(upage, None, FilePage, Some(file), ofs, readBytes, zeroBytes, writable, 0);
      if upage !in entries {
        entries := entries[upage := e];
      }
    }

    /** init_zero_spte: a writable ZERO entry with no frame. */
    method InitZeroSpte(upage: UPage)
      requires Valid()
      modifies this
      ensures Valid()
      ensures upage in old(entries) ==> entries == old(entries)
      ensures upage !in old(entries) ==>
        && upage in entries && entries == old(entries)[upage := entries[upage]]
        && entries[upage].status == ZeroPage && entries[upage].kpage == None
        && entries[upage].file == None && entries[upage].writable
    {
      if upage !in entries {
        entries := entries[upage := Spte(upage, None, ZeroPage, None, 0, 0, 0, true, 0)];
      }
    }

    /** get_spte: the entry whose user page is `upage`, or NULL. */
    function GetSpte(upage: UPage): (r: Option<Spte>)
      reads this
      requires Valid()
      ensures r.Some? <==> upage in entries
      ensures r.Some? ==> r.value.upage == upage && r.value == entries[upage]
    {
      if upage in entries then Some(entries[upage]) else None
    }

    /** page_delete: remove the entry stored under entry's user page. */
    method PageDelete(entry: Spte)
      requires Valid()
      modifies this
      ensures Valid()
      ensures entries == old(entries) - {entry.upage}
    {
      entries := entries - {entry.upage};
    }

    /** destroy_spt: every entry is freed. */
    method DestroySpt()
      modifies this
      ensures Valid() && entries == map[]
    {
      entries := map[];
    }

    /** The rest of load_page for an entry that is not yet loaded, once frame
        k has been allocated and appended to the frame table after `prev`:
        fill the frame, map it at upage in current's page directory and mark
        the entry loaded; undo the allocation when the read or the mapping
        fails. */
    method LoadIntoFrame(upage: UPage, k: KPage, ghost prev: seq<Fte>, ft: FrameTable, m: Machine, current: Tid, pageTableOk: bool)
      returns (r: Completion<bool>)
      requires Valid() && m.Valid() && ft.Valid(m)
      requires upage in entries && entries[upage].status != FramePage
      requires FirstIndex(ft.entries, k) == Some(|prev|) && ft.entries == prev + [Fte(k, upage, current)]
      modifies this, ft, m
      ensures Valid() && m.Valid() && ft.Valid(m)
      ensures m.files == old(m.files)
      ensures m.memory - {k} == old(m.memory) - {k}
      ensures var e := old(entries)[upage];
        && (!FullRead(e, old(SourceBytes(e, m))) ==>
              && r == Killed
              && entries == old(entries)
              && ft.entries == prev && m.free == old(m.free) + {k}
              && m.pagedirs == old(m.pagedirs)[current := old(m.PageDir(current)) - {upage}]
              && !m.fileLockHeld)
        && (FullRead(e, old(SourceBytes(e, m))) ==>
              && m.PageContents(k) == LoadedContent(e, old(SourceBytes(e, m)), old(m.PageContents(k)))
              && m.fileLockHeld == old(m.fileLockHeld)
              && (pageTableOk ==>
                    && r == Done(true)
                    && entries == old(entries)[upage := e.(kpage := Some(k), status := FramePage)]
                    && ft.entries == old(ft.entries) && m.free == old(m.free)
                    && m.pagedirs == old(m.pagedirs)[current := old(m.PageDir(current))[upage := Pte(k, e.writable, false)]])
              && (!pageTableOk ==>
                    && r == Killed
                    && entries == old(entries)
                    && ft.entries == prev && m.free == old(m.free) + {k}
                    && m.pagedirs == old(m.pagedirs)[current := old(m.PageDir(current)) - {upage}]))
    {
      var e := entries[upage];
      var filled := FillFrame(e, k, current, prev, ft, m);
      if !filled {
        return Killed;  // sys_exit (-1)
      }
      assert entries == old(entries) && m.files == old(m.files);
      var ok := m.PagedirSetPage(current, upage, k, e.writable, pageTableOk);
      if !ok {
        UndoAllocation(k, upage, current, prev, ft, m);
        return Killed;  // sys_exit (-1)
      }
      entries := entries[upage := e.(kpage := Some(k), status := FramePage)];
      r := Done(true);
    }

    /** load_page, called on a fault at `upage` by thread `current`. A
        missing entry or a failed frame allocation ends the process; ZERO,
        FILE and SWAP entries get a new frame, filled as LoadedContent says,
        mapped with the entry's writability, and the entry becomes FRAME; a
        FRAME entry returns at once. A short file read or a failed mapping
        frees the frame and ends the process. `mallocOk` and `pageTableOk`
        say whether the kernel heap and the page-table allocator succeed. */
    method LoadPage(upage: UPage, ft: FrameTable, m: Machine, current: Tid, mallocOk: bool, pageTableOk: bool)
      returns (r: Completion<bool>, ghost frame: Option<KPage>)
      requires Valid() && m.Valid() && ft.Valid(m)
      modifies this, ft, m
      ensures Valid() && m.Valid() && ft.Valid(m)
      ensures r == Done(true) || r == Killed
      // No entry, or no frame: exit(-1) with nothing changed.
      ensures upage !in old(entries) || old(m.free) == {} || !mallocOk ==>
        && r == Killed && frame.None?
        && entries == old(entries) && ft.entries == old(ft.entries) && unchanged(m)
      ensures upage in old(entries) && old(m.free) != {} && mallocOk ==>
        var e := old(entries)[upage];
        && frame.Some? && frame.value in old(m.free)
        && m.files == old(m.files)
        && m.memory - {frame.value} == old(m.memory) - {frame.value}
        && (e.status == FramePage ==>
              // Already loaded: the table is unchanged; the new frame stays recorded.
              && r == Done(true)
              && entries == old(entries)
              && ft.entries == old(ft.entries) + [Fte(frame.value, upage, current)]
              && m.free == old(m.free) - {frame.value}
              && m.memory == old(m.memory) && m.pagedirs == old(m.pagedirs)
              && m.fileLockHeld == old(m.fileLockHeld))
        && (!FullRead(e, old(SourceBytes(e, m))) ==>
              // Short read: the frame is freed and the process exits.
              && r == Killed
              && entries == old(entries)
              && ft.entries == old(ft.entries) && m.free == old(m.free)
              && m.pagedirs == old(m.pagedirs)[current := old(m.PageDir(current)) - {upage}]
              && !m.fileLockHeld)
        && (e.status != FramePage && FullRead(e, old(SourceBytes(e, m))) ==>
              var k := frame.value;
              && m.PageContents(k) == LoadedContent(e, old(SourceBytes(e, m)), old(m.PageContents(k)))
              && m.fileLockHeld == old(m.fileLockHeld)
              && (pageTableOk ==>
                    && r == Done(true)
                    && entries == old(entries)[upage := e.(kpage := Some(k), status := FramePage)]
                    && ft.entries == old(ft.entries) + [Fte(k, upage, current)]
                    && m.free == old(m.free) - {k}
                    && m.pagedirs == old(m.pagedirs)[current := old(m.PageDir(current))[upage := Pte(k, e.writable, false)]])
              && (!pageTableOk ==>
                    && r == Killed
                    && entries == old(entries)
                    && ft.entries == old(ft.entries) && m.free == old(m.free)
                    && m.pagedirs == old(m.pagedirs)[current := old(m.PageDir(current)) - {upage}]))
    {
      frame := None;
      if upage !in entries {
        return Killed, frame;  // sys_exit (-1)
      }
      var e := entries[upage];
      ghost var ftBefore := ft.entries;
      var kp := ft.FallocGetPage(upage, current, m, mallocOk);
      if kp.None? {
        return Killed, frame;  // sys_exit (-1)
      }
      var k := kp.value;
      frame := kp;
      assert k !in KPages(ftBefore);
      AppendKeepsDistinct(ftBefore, Fte(k, upage, current));

      if e.status == FramePage {
        return Done(true), frame;  // already loaded
      }
      r := LoadIntoFrame(upage, k, ftBefore, ft, m, current, pageTableOk);
      assert old(m.free) - {k} + {k} == old(m.free);
    }
  }
}
