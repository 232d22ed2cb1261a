/** The swap slot allocator: the swap block device is cut into page-sized
    slots of SECTORS_PER_PAGE consecutive sectors, and a bitmap records which
    slots are free (`true` means free). */
module Swap {
  import opened VmTypes

  type Sector = seq<byte>

  /** The bytes of consecutive sectors, in order. */
  function Flatten(ss: seq<Sector>): (bytes: seq<byte>)
  {
    if ss == [] then [] else Flatten(ss[..|ss| - 1]) + ss[|ss| - 1]
  }

  /** Sector i of a page: bytes [i * BLOCK_SECTOR_SIZE, (i + 1) * BLOCK_SECTOR_SIZE). */
  function SectorOf(page: seq<byte>, i: nat): (s: Sector)
    requires |page| == PGSIZE && i < SECTORS_PER_PAGE
    ensures |s| == BLOCK_SECTOR_SIZE
  {
    page[i * BLOCK_SECTOR_SIZE..(i + 1) * BLOCK_SECTOR_SIZE]
  }

  /** The sector range of a slot lies on a device of n sectors. */
  predicate SlotOnDisk(slot: nat, n: nat) {
    (slot + 1) * SECTORS_PER_PAGE <= n
  }

  /** The device after `page` is written to `slot`, sector by sector. */
  function WriteSlot(disk: seq<Sector>, slot: nat, page: seq<byte>): (r: seq<Sector>)
    requires |page| == PGSIZE && SlotOnDisk(slot, |disk|)
    ensures |r| == |disk|
    ensures forall s :: 0 <= s < |disk| && !(slot * SECTORS_PER_PAGE <= s < (slot + 1) * SECTORS_PER_PAGE) ==>
              r[s] == disk[s]
    ensures forall i :: 0 <= i < SECTORS_PER_PAGE ==> r[slot * SECTORS_PER_PAGE + i] == SectorOf(page, i)
  {
    seq(|disk|, s requires 0 <= s < |disk| =>
      if slot * SECTORS_PER_PAGE <= s < (slot + 1) * SECTORS_PER_PAGE
      then SectorOf(page, s - slot * SECTORS_PER_PAGE) else disk[s])
  }

  /** The page held in `slot`: its sectors read back in order. */
  function ReadSlot(disk: seq<Sector>, slot: nat): (page: seq<byte>)
    requires SlotOnDisk(slot, |disk|)
  {
    Flatten(disk[slot * SECTORS_PER_PAGE..(slot + 1) * SECTORS_PER_PAGE])
  }

  lemma {:induction false} FlattenLength(ss: seq<Sector>)
    requires forall i :: 0 <= i < |ss| ==> |ss[i]| == BLOCK_SECTOR_SIZE
    ensures |Flatten(ss)| == |ss| * BLOCK_SECTOR_SIZE
  {
    if ss != [] {
      FlattenLength(ss[..|ss| - 1]);
    }
  }

  /** The first k sectors of a page, flattened, are the first k * BLOCK_SECTOR_SIZE bytes. */
  lemma {:induction false} FlattenSectorsOf(page: seq<byte>, k: nat)
    requires |page| == PGSIZE && k <= SECTORS_PER_PAGE
    ensures Flatten(seq(k, i requires 0 <= i < k => SectorOf(page, i))) == page[..k * BLOCK_SECTOR_SIZE]
  {
    var ss := seq(k, i requires 0 <= i < k => SectorOf(page, i));
    if k > 0 {
      var prev := seq(k - 1, i requires 0 <= i < k - 1 => SectorOf(page, i));
      assert ss[..k - 1] == prev;
      FlattenSectorsOf(page, k - 1);
      assert Flatten(ss) == page[..(k - 1) * BLOCK_SECTOR_SIZE] + SectorOf(page, k - 1);
    }
  }

  /** Reading a slot back returns exactly the page last written to it. */
  lemma SlotRoundTrip(disk: seq<Sector>, slot: nat, page: seq<byte>)
    requires |page| == PGSIZE && SlotOnDisk(slot, |disk|)
    ensures ReadSlot(WriteSlot(disk, slot, page), slot) == page
  {
    var w := WriteSlot(disk, slot, page);
    var lo := slot * SECTORS_PER_PAGE;
    assert w[lo..lo + SECTORS_PER_PAGE] == seq(SECTORS_PER_PAGE, i requires 0 <= i < SECTORS_PER_PAGE => SectorOf(page, i));
    FlattenSectorsOf(page, SECTORS_PER_PAGE);
  }

  /** Writing one slot leaves the content of every other slot as it was. */
  lemma SlotIsolation(disk: seq<Sector>, slot: nat, page: seq<byte>, other: nat)
    requires |page| == PGSIZE && SlotOnDisk(slot, |disk|) && SlotOnDisk(other, |disk|)
    requires other != slot
    ensures ReadSlot(WriteSlot(disk, slot, page), other) == ReadSlot(disk, other)
  {
    var w := WriteSlot(disk, slot, page);
    var lo := other * SECTORS_PER_PAGE;
    assert w[lo..lo + SECTORS_PER_PAGE] == disk[lo..lo + SECTORS_PER_PAGE];
  }

  /** The number of free slots in a bitmap. */
  function FreeCount(bits: seq<bool>): (n: nat)
  {
    if bits == [] then 0 else FreeCount(bits[..|bits| - 1]) + (if bits[|bits| - 1] then 1 else 0)
  }

  /** Setting one bit changes the free count by exactly the change in that bit. */
  lemma {:induction false} FreeCountUpdate(bits: seq<bool>, i: nat, b: bool)
    requires i < |bits|
    ensures FreeCount(bits[i := b]) + (if bits[i] then 1 else 0) == FreeCount(bits) + (if b then 1 else 0)
  {
    var n := |bits| - 1;
    if i < n {
      assert bits[i := b][..n] == bits[..n][i := b];
      FreeCountUpdate(bits[..n], i, b);
    } else {
      assert bits[i := b][..n] == bits[..n];
    }
  }

  class SwapTable {
    /** The swap block device, sector by sector. */
    const disk: array<Sector>
    /** `swap_valid_table`: bit i is true when slot i is free. */
    const bitmap: array<bool>

    ghost predicate Valid()
      reads this, disk
    {
      && bitmap.Length == disk.Length / SECTORS_PER_PAGE
      && forall s :: 0 <= s < disk.Length ==> |disk[s]| == BLOCK_SECTOR_SIZE
    }

    /** init_swap_table: one slot per whole page of the device, all free. */
    constructor (device: array<Sector>)
      requires forall s :: 0 <= s < device.Length ==> |device[s]| == BLOCK_SECTOR_SIZE
      ensures Valid() && disk == device && fresh(bitmap)
      ensures bitmap.Length == device.Length / SECTORS_PER_PAGE
      ensures forall i :: 0 <= i < bitmap.Length ==> bitmap[i]
      ensures FreeCount(bitmap[..]) == bitmap.Length
    {
      disk := device;
      bitmap := new bool[device.Length / SECTORS_PER_PAGE](_ => true);
      new;
      AllFree(bitmap[..]);
    }

    static lemma {:induction false} AllFree(bits: seq<bool>)
      requires forall i :: 0 <= i < |bits| ==> bits[i]
      ensures FreeCount(bits) == |bits|
    {
      if bits != [] {
        AllFree(bits[..|bits| - 1]);
      }
    }

    /** bitmap_scan_and_flip (swap_valid_table, 0, 1, true): the lowest
        free slot, now marked used. */
    method ScanAndFlip() returns (slot: nat)
      requires Valid()
      requires exists i :: 0 <= i < bitmap.Length && bitmap[i]
      modifies bitmap
      ensures Valid()
      ensures slot < bitmap.Length && old(bitmap[slot])
      ensures forall j :: 0 <= j < slot ==> !old(bitmap[j])
      ensures bitmap[..] == old(bitmap[..])[slot := false]
      ensures FreeCount(bitmap[..]) == old(FreeCount(bitmap[..])) - 1
    {
      slot := 0;
      while !bitmap[slot]
        invariant slot < bitmap.Length
        invariant forall j :: 0 <= j < slot ==> !bitmap[j]
        decreases bitmap.Length - slot
      {
        slot := slot + 1;
      }
      FreeCountUpdate(bitmap[..], slot, false);
      bitmap[slot] := false;
    }

    /** The loop of block_write calls: sector slot * SECTORS_PER_PAGE + i
        receives sector i of the page. */
    method WriteSectors(slot: nat, page: seq<byte>)
      requires Valid() && |page| == PGSIZE && slot < bitmap.Length
      modifies disk
      ensures Valid()
      ensures SlotOnDisk(slot, disk.Length)
      ensures disk[..] == WriteSlot(old(disk[..]), slot, page)
    {
      var lo := slot * SECTORS_PER_PAGE;
      for i := 0 to SECTORS_PER_PAGE
        invariant forall s :: 0 <= s < disk.Length ==>
          disk[s] == if lo <= s < lo + i then SectorOf(page, s - lo) else old(disk[s])
      {
        disk[lo + i] := SectorOf(page, i);
      }
      assert disk[..] == WriteSlot(old(disk[..]), slot, page);
    }

    /** swap_out: take the lowest free slot, mark it used and write the page
        into its sectors. The source does not check for a full swap area, so
        a free slot is required. */
    method SwapOut(page: seq<byte>) returns (slot: nat)
      requires Valid() && |page| == PGSIZE
      requires exists i :: 0 <= i < bitmap.Length && bitmap[i]
      modifies bitmap, disk
      ensures Valid()
      ensures slot < bitmap.Length && old(bitmap[slot])
      ensures forall j :: 0 <= j < slot ==> !old(bitmap[j])
      ensures bitmap[..] == old(bitmap[..])[slot := false]
      ensures FreeCount(bitmap[..]) == old(FreeCount(bitmap[..])) - 1
      ensures SlotOnDisk(slot, disk.Length)
      ensures disk[..] == WriteSlot(old(disk[..]), slot, page)
    {
      slot := ScanAndFlip();
      WriteSectors(slot, page);
    }

    /** swap_in: read the slot's sectors back and mark the slot free. The
        device is not written. */
    method SwapIn(slot: nat) returns (page: seq<byte>)
      requires Valid() && slot < bitmap.Length
      modifies bitmap
      ensures Valid()
      ensures SlotOnDisk(slot, disk.Length)
      ensures page == ReadSlot(disk[..], slot) && |page| == PGSIZE
      ensures bitmap[..] == old(bitmap[..])[slot := true]
      ensures FreeCount(bitmap[..]) == old(FreeCount(bitmap[..])) + (if old(bitmap[slot]) then 0 else 1)
    {
      var lo := slot * SECTORS_PER_PAGE;
      page := [];
      for i := 0 to SECTORS_PER_PAGE
        invariant page == Flatten(disk[lo..lo + i])
      {
        assert disk[lo..lo + i + 1][..i] == disk[lo..lo + i];
        page := page + disk[lo + i];
      }
      FlattenLength(disk[lo..lo + SECTORS_PER_PAGE]);
      FreeCountUpdate(bitmap[..], slot, true);
      bitmap[slot] := true;
    }

    /** A page swapped out and read back from the returned slot is the same
        page, and the bitmap is as it was before. */
    method SwapRoundTrip(page: seq<byte>) returns (back: seq<byte>)
      requires Valid() && |page| == PGSIZE
      requires exists i :: 0 <= i < bitmap.Length && bitmap[i]
      modifies bitmap, disk
      ensures Valid()
      ensures back == page
      ensures bitmap[..] == old(bitmap[..])
    {
      var slot := SwapOut(page);
      back := SwapIn(slot);
      SlotRoundTrip(old(disk[..]), slot, page);
      assert old(bitmap[..])[slot := false][slot := true] == old(bitmap[..]);
    }
  }
}
