/** The frame table: one global list of the user pages currently handed out
    by the allocator, each with the user page it backs and the thread that
    owns it. */
module Frame {
  import opened VmTypes
  import opened Hardware

  /** struct fte: a frame table entry. */
  datatype Fte = Fte(kpage: KPage, upage: UPage, owner: Tid)

  /** What try_page_allocation asks of its collaborators, in order. */
  datatype AllocStep = Palloc | Evict

  ghost predicate DistinctKPages(es: seq<Fte>)
  {
    forall i, j :: 0 <= i < j < |es| ==> es[i].kpage != es[j].kpage
  }

  function KPages(es: seq<Fte>): (ks: set<KPage>)
  {
    set i | 0 <= i < |es| :: es[i].kpage
  }

  /** The position of the first entry, in list order, whose kernel page is k. */
  function FirstIndex(es: seq<Fte>, k: KPage): (r: Option<nat>)
    ensures r.None? <==> forall i :: 0 <= i < |es| ==> es[i].kpage != k
    ensures r.Some? ==> r.value < |es| && es[r.value].kpage == k
    ensures r.Some? ==> forall j :: 0 <= j < r.value ==> es[j].kpage != k
  {
    if es == [] then None
    else if es[0].kpage == k then Some(0)
    else match FirstIndex(es[1..], k)
      case None => None
      case Some(i) => Some(i + 1)
  }

  /** The list with the element at position i unlinked (list_remove). */
  function Without(es: seq<Fte>, i: nat): (r: seq<Fte>)
    requires i < |es|
    ensures |r| == |es| - 1
    ensures forall j :: 0 <= j < i ==> r[j] == es[j]
    ensures forall j :: i <= j < |r| ==> r[j] == es[j + 1]
  {
    es[..i] + es[i + 1..]
  }

  /** Unlinking an entry keeps the remaining kernel pages distinct and
      removes exactly that entry's page from the recorded set. */
  lemma WithoutKeepsDistinct(es: seq<Fte>, i: nat)
    requires i < |es| && DistinctKPages(es)
    ensures DistinctKPages(Without(es, i))
    ensures KPages(Without(es, i)) == KPages(es) - {es[i].kpage}
  {
    var r := Without(es, i);
    forall a, b | 0 <= a < b < |r|
      ensures r[a].kpage != r[b].kpage
    {
      var a', b' := if a < i then a else a + 1, if b < i then b else b + 1;
      assert r[a] == es[a'] && r[b] == es[b'] && a' < b';
    }
    forall k | k in KPages(es) - {es[i].kpage}
      ensures k in KPages(r)
    {
      var j :| 0 <= j < |es| && es[j].kpage == k;
      assert j != i;
      if j < i { assert r[j] == es[j]; } else { assert r[j - 1] == es[j]; }
    }
  }

  /** Appending an entry whose page is not yet recorded keeps the pages distinct. */
  lemma AppendKeepsDistinct(es: seq<Fte>, e: Fte)
    requires DistinctKPages(es) && e.kpage !in KPages(es)
    ensures DistinctKPages(es + [e])
    ensures KPages(es + [e]) == KPages(es) + {e.kpage}
    ensures FirstIndex(es + [e], e.kpage) == Some(|es|)
  {
    var r := es + [e];
    forall a, b | 0 <= a < b < |r|
      ensures r[a].kpage != r[b].kpage
    {
      if b == |es| { assert r[a].kpage in KPages(es); }
    }
    assert forall i :: 0 <= i < |es| ==> r[i] == es[i] && es[i].kpage in KPages(es);
    assert r[|es|] == e;
    forall k | k in KPages(r)
      ensures k in KPages(es) + {e.kpage}
    {
      var j :| 0 <= j < |r| && r[j].kpage == k;
      if j < |es| { assert es[j].kpage == k; }
    }
  }

  /** create_frame_entry: the entry for kpage, upage and the current thread,
      or NULL when malloc fails. */
  function CreateFrameEntry(kpage: KPage, upage: UPage, current: Tid, mallocOk: bool): (e: Option<Fte>)
    ensures e.Some? <==> mallocOk
    ensures e.Some? ==> e.value.kpage == kpage && e.value.upage == upage && e.value.owner == current
  {
    if mallocOk then Some(Fte(kpage, upage, current)) else None
  }

  class FrameTable {
    /** `frame_table`, in list order. */
    var entries: seq<Fte>

    /** No kernel page is recorded twice, and none of them is still in the
        allocator's pool. */
    ghost predicate Valid(m: Machine)
      reads this, m`free
    {
      && DistinctKPages(entries)
      && forall i :: 0 <= i < |entries| ==> entries[i].kpage !in m.free
    }

    /** frame_init. */
    constructor ()
      ensures entries == []
    {
      entries := [];
    }

    /** get_fte: the first entry for kpage in list order, or NULL. */
    method GetFte(kpage: KPage) returns (pos: Option<nat>)
      ensures pos == FirstIndex(entries, kpage)
    {
      var i := 0;
      while i < |entries|
        invariant 0 <= i <= |entries|
        invariant forall j :: 0 <= j < i ==> entries[j].kpage != kpage
      {
        if entries[i].kpage == kpage {
          return Some(i);
        }
        i := i + 1;
      }
      return None;
    }

    /** evict_page: a stub that changes nothing; in particular no frame is
        given back to the allocator. */
    method EvictPage()
      ensures entries == old(entries)
    {
    }

    /** try_page_allocation: ask the allocator, and only if it has nothing
        evict and ask once more. */
    method TryPageAllocation(m: Machine) returns (k: Option<KPage>, steps: seq<AllocStep>)
      modifies m`free
      ensures steps == if old(m.free) != {} then [Palloc] else [Palloc, Evict, Palloc]
      ensures k.None? <==> old(m.free) == {}
      ensures k.None? ==> m.free == old(m.free)
      ensures k.Some? ==> k.value in old(m.free) && m.free == old(m.free) - {k.value}
    {
      k := m.PallocGetPage();
      steps := [Palloc];
      if k.None? {
        EvictPage();
        steps := steps + [Evict];
        k := m.PallocGetPage();
        steps := steps + [Palloc];
      }
    }

    /** falloc_get_page: a page from the allocator, recorded at the back of
        the table for (upage, current); NULL, with nothing changed, when the
        pool is empty or the entry cannot be allocated. */
    method FallocGetPage(upage: UPage, current: Tid, m: Machine, mallocOk: bool) returns (k: Option<KPage>)
      requires Valid(m)
      modifies this, m`free
      ensures Valid(m)
      ensures k.Some? <==> old(m.free) != {} && mallocOk
      ensures k.None? ==> m.free == old(m.free) && entries == old(entries)
      ensures k.Some? ==> && k.value in old(m.free)
                          && m.free == old(m.free) - {k.value}
                          && entries == old(entries) + [Fte(k.value, upage, current)]
    {
      var page, _ := TryPageAllocation(m);
      if page.None? {
        return None;
      }
      var e := CreateFrameEntry(page.value, upage, current, mallocOk);
      if e.None? {
        m.PallocFreePage(page.value);
        assert m.free == old(m.free);
        return None;
      }
      assert page.value !in KPages(entries);
      AppendKeepsDistinct(entries, e.value);
      entries := entries + [e.value];
      k := page;
    }

    /** falloc_free_page: unlink the entry for kpage, give the page back to
        the allocator and clear the owner's mapping of the entry's user page.
        A kpage with no entry is a kernel PANIC, modelled as `panicked` with
        nothing changed. */
    method FallocFreePage(kpage: KPage, m: Machine) returns (panicked: bool)
      requires Valid(m)
      modifies this, m`free, m`pagedirs
      ensures Valid(m)
      ensures panicked <==> kpage !in KPages(old(entries))
      ensures panicked ==> entries == old(entries) && m.free == old(m.free) && m.pagedirs == old(m.pagedirs)
      ensures !panicked ==>
        var i := FirstIndex(old(entries), kpage).value;
        var e := old(entries)[i];
        && entries == Without(old(entries), i)
        && m.free == old(m.free) + {kpage}
        && m.pagedirs == old(m.pagedirs)[e.owner := old(m.PageDir(e.owner)) - {e.upage}]
    {
      var pos := GetFte(kpage);
      if pos.None? {
        return true;
      }
      var e := entries[pos.value];
      WithoutKeepsDistinct(entries, pos.value);
      entries := Without(entries, pos.value);
      m.PallocFreePage(kpage);
      m.PagedirClearPage(e.owner, e.upage);
      panicked := false;
    }
  }
}
