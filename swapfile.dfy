/*
 * The swap store of vm/swapfile.c: the 2304-entry availability table
 * offset_array (true = slot free), the lazily created swap file, page
 * write-out (write_to_swap) and victim selection (Pvictim). Page contents and
 * VOP_WRITE are not modelled; whether the write succeeded is a parameter.
 * read_from_swap, which allocates a frame, is in swapin.dfy.
 */
module SwapFile {
  import opened VmDefs
  import opened Tlb
  import opened Coremap
  import opened PageTable
  import opened AddrSpaces

  /* The lowest free slot at or after i, or -1. */
  function LowestFreeFrom(s: seq<bool>, i: nat): (r: int)
    requires i <= |s|
    decreases |s| - i
    ensures r == -1 || i <= r < |s|
    ensures r >= 0 ==> s[r] && forall k :: i <= k < r ==> !s[k]
    ensures r == -1 <==> forall k :: i <= k < |s| ==> !s[k]
  {
    if i == |s| then -1
    else if s[i] then i
    else LowestFreeFrom(s, i + 1)
  }

  /* The slot find_slot returns: the lowest available one, or -1. */
  function LowestFree(s: seq<bool>): (r: int)
    ensures -1 <= r < |s|
    ensures r >= 0 ==> s[r] && forall k :: 0 <= k < r ==> !s[k]
    ensures r == -1 <==> forall k :: 0 <= k < |s| ==> !s[k]
  {
    LowestFreeFrom(s, 0)
  }

  /* Every slot of the table ends inside the swap file: 2304 slots of
     PAGE_SIZE bytes are exactly SWAPFILE_SIZE, so the size check after a
     write to a slot index in range never fires. */
  lemma SlotFitsInFile(index: nat)
    requires index < SWAP_SLOTS
    ensures index * PAGE_SIZE + PAGE_SIZE <= SWAPFILE_SIZE
  {
  }

  /* The slot table as the first get_global_swapfile leaves it, or as it is. */
  function Initialised(ready: bool, s: seq<bool>): (r: seq<bool>)
    requires |s| == SWAP_SLOTS
    ensures |r| == SWAP_SLOTS
  {
    if ready then s else seq(SWAP_SLOTS, _ => true)
  }

  /* The PTE after a write to a fresh slot: it records the slot, gains IN_SWAP
     and loses VALID. Its frame index is kept. */
  function SwappedOut(p: Pte, slot: int): (r: Pte)
    ensures r.swapIndex == slot && r.cmIndex == p.cmIndex && r.pageNumber == p.pageNumber
    ensures Has(r.flag, IN_SWAP) && !Has(r.flag, VALID) && !Resident(r)
    ensures Has(r.flag, DIRTY) == Has(p.flag, DIRTY) && Has(r.flag, MODIFIED) == Has(p.flag, MODIFIED)
  {
    p.(swapIndex := slot, flag := (p.flag | IN_SWAP) & !VALID)
  }

  /* The PTE after rewriting the slot it already has: only VALID is cleared. */
  function Rewritten(p: Pte): (r: Pte)
    ensures r.swapIndex == p.swapIndex && r.cmIndex == p.cmIndex && r.pageNumber == p.pageNumber
    ensures !Has(r.flag, VALID) && !Resident(r) && Has(r.flag, IN_SWAP) == Has(p.flag, IN_SWAP)
    ensures Has(r.flag, DIRTY) == Has(p.flag, DIRTY) && Has(r.flag, MODIFIED) == Has(p.flag, MODIFIED)
  {
    p.(flag := p.flag & !VALID)
  }

  /* What write_to_swap does to the PTE, the slot table and the swap file
     offset, and what it returns. */
  datatype SwapWrite = SwapWrite(r: int, pte: Pte, slots: seq<bool>, offset: int)

  function SwapOutSpec(p: Pte, slots: seq<bool>, offset: int, ioOk: bool): (w: SwapWrite)
    ensures |w.slots| == |slots|
    ensures w.r == 0 || w.r == -1
    ensures w.r == -1 ==> w.pte == p && w.slots == slots
  {
    if !Has(p.flag, MODIFIED) then SwapWrite(0, p, slots, offset)
    else if Has(p.flag, IN_SWAP) then
      if !ioOk then SwapWrite(-1, p, slots, offset)
      else if p.swapIndex * PAGE_SIZE + PAGE_SIZE > SWAPFILE_SIZE then
        SwapWrite(-1, p, slots, p.swapIndex * PAGE_SIZE + PAGE_SIZE)
      else SwapWrite(0, Rewritten(p), slots, p.swapIndex * PAGE_SIZE + PAGE_SIZE)
    else
      var index := LowestFree(slots);
      if index == -1 || !ioOk then SwapWrite(-1, p, slots, offset)
      else SwapWrite(0, SwappedOut(p, index), slots[index := false], index * PAGE_SIZE + PAGE_SIZE)
  }

  /* Outcomes of a write-out: an unmodified page is reported written (0) with
     nothing changed; a failure (-1) leaves the PTE and slot table alone; a
     success takes the page out of memory. */
  lemma SwapOutOutcomes(p: Pte, slots: seq<bool>, offset: int, ioOk: bool)
    ensures var w := SwapOutSpec(p, slots, offset, ioOk);
      (w.r == 0 || w.r == -1) &&
      (!Has(p.flag, MODIFIED) ==> w == SwapWrite(0, p, slots, offset)) &&
      (w.r == -1 ==> w.pte == p && w.slots == slots) &&
      (w.r == 0 && Has(p.flag, MODIFIED) ==>
         (!Resident(w.pte) && Has(w.pte.flag, IN_SWAP) && w.pte.cmIndex == p.cmIndex)) &&
      (!Has(p.flag, IN_SWAP) && Has(p.flag, MODIFIED) && ioOk ==>
         (w.r == 0 <==> exists k :: 0 <= k < |slots| && slots[k]))
  {
  }

  /* No write ever makes a slot available again. */
  lemma SwapOutNeverFreesSlots(p: Pte, slots: seq<bool>, offset: int, ioOk: bool, k: nat)
    requires k < |slots| && !slots[k]
    ensures !SwapOutSpec(p, slots, offset, ioOk).slots[k]
  {
  }

  /* The swap bookkeeping of an address space is consistent with the slot
     table: every IN_SWAP PTE holds an in-range slot that is marked taken, and
     no two IN_SWAP PTEs share a slot. */
  ghost predicate SwapConsistent(v: AsView, slots: seq<bool>)
  {
    |slots| == SWAP_SLOTS &&
    (forall l :: InRange(v, l) && Has(PteAt(v, l).flag, IN_SWAP) ==>
      0 <= PteAt(v, l).swapIndex < SWAP_SLOTS && !slots[PteAt(v, l).swapIndex]) &&
    (forall l, m ::
      (InRange(v, l) && InRange(v, m) && l != m &&
       Has(PteAt(v, l).flag, IN_SWAP) && Has(PteAt(v, m).flag, IN_SWAP)) ==>
      PteAt(v, l).swapIndex != PteAt(v, m).swapIndex)
  }

  /* write_to_swap keeps the bookkeeping consistent: a fresh slot is one no
     IN_SWAP PTE holds, because those are all marked taken. */
  lemma SwapOutKeepsConsistency(v: AsView, slots: seq<bool>, l: PteLoc, offset: int, ioOk: bool)
    requires SwapConsistent(v, slots) && InRange(v, l)
    ensures var w := SwapOutSpec(PteAt(v, l), slots, offset, ioOk);
      SwapConsistent(SetPte(v, l, w.pte), w.slots)
  {
    var p := PteAt(v, l);
    var w := SwapOutSpec(p, slots, offset, ioOk);
    var v' := SetPte(v, l, w.pte);
    forall m | InRange(v', m) && Has(PteAt(v', m).flag, IN_SWAP)
      ensures 0 <= PteAt(v', m).swapIndex < SWAP_SLOTS && !w.slots[PteAt(v', m).swapIndex]
    {
      if m != l {
        assert PteAt(v', m) == PteAt(v, m);
      }
    }
    forall m, n | InRange(v', m) && InRange(v', n) && m != n &&
      Has(PteAt(v', m).flag, IN_SWAP) && Has(PteAt(v', n).flag, IN_SWAP)
      ensures PteAt(v', m).swapIndex != PteAt(v', n).swapIndex
    {
      if m == l {
        assert PteAt(v', n) == PteAt(v, n);
      } else if n == l {
        assert PteAt(v', m) == PteAt(v, m);
      } else {
        assert PteAt(v', m) == PteAt(v, m) && PteAt(v', n) == PteAt(v, n);
      }
    }
  }

  /* The lowest index at or after i whose PTE is resident (cm_index >= 0 and
     VALID), or -1. */
  function FirstResidentFrom(ptes: seq<Pte>, i: nat): (r: int)
    requires i <= |ptes|
    decreases |ptes| - i
    ensures r == -1 || i <= r < |ptes|
    ensures r >= 0 ==> Resident(ptes[r]) && forall k :: i <= k < r ==> !Resident(ptes[k])
    ensures r == -1 <==> forall k :: i <= k < |ptes| ==> !Resident(ptes[k])
  {
    if i == |ptes| then -1
    else if Resident(ptes[i]) then i
    else FirstResidentFrom(ptes, i + 1)
  }

  /* The segment Pvictim scans for a request tagged `segment`: TEXT and DATA
     requests both take a data page, STACK requests a stack page. */
  function VictimSeg(segment: int): Option<Seg>
  {
    if segment == TEXT || segment == DATA then Some(Data)
    else if segment == STACK then Some(Stack)
    else None
  }

  /* Pvictim's result: NULL (None) without an address space, the lowest
     resident PTE of the scanned segment, a panic after a full fruitless
     pass, and an endless loop for any other tag. */
  function VictimSpec(ov: Option<AsView>, segment: int): (r: Outcome<Option<PteLoc>>)
    ensures r == Done(None) <==> ov.None?
    ensures r == Stop(Spins) <==> ov.Some? && VictimSeg(segment).None?
    ensures r.Stop? ==> r.why == Spins || r.why == KernelPanic
  {
    if ov.None? then Done(None)
    else match VictimSeg(segment)
      case None => Stop(Spins)
      case Some(s) =>
        var k := FirstResidentFrom(SegPtes(ov.value, s), 0);
        if k >= 0 then Done(Some(PteLoc(s, k))) else Stop(KernelPanic)
  }

  /* A victim Pvictim returns is a resident PTE of the scanned segment. */
  lemma VictimIsResident(ov: Option<AsView>, segment: int)
    requires VictimSpec(ov, segment).Done? && VictimSpec(ov, segment).value.Some?
    ensures var l := VictimSpec(ov, segment).value.value;
      ov.Some? && InRange(ov.value, l) && Resident(PteAt(ov.value, l)) && Some(l.seg) == VictimSeg(segment)
  {
  }

  /* Pvictim: the while(1) scan with i = (i + 1) % array_num and a panic when i
     wraps to 0 after the first step. */
  method PVictim(space: AddrSpace?, segment: int) returns (o: Outcome<Option<PteLoc>>)
    ensures o == VictimSpec(if space == null then None else Some(space.View()), segment)
  {
    if space == null {
      return Done(None);
    }
    var seg := VictimSeg(segment);
    if seg.None? {
      return Stop(Spins);   // no branch of the loop body matches: it never ends
    }
    var s := seg.value;
    var ptes := SegPtes(space.View(), s);
    var n := |ptes|;
    if n == 0 {
      return Stop(KernelPanic);   // array_get on an empty array fails its bound assertion
    }
    var i := 0;
    var j := 0;
    while true
      invariant j <= n && i == (if j < n then j else 0) && (j == n ==> n == 1)
      invariant forall k :: 0 <= k < j && k < n ==> !Resident(ptes[k])
      decreases n + 1 - j
    {
      if ptes[i].cmIndex >= 0 && Has(ptes[i].flag, VALID) {
        return Done(Some(PteLoc(s, i)));
      }
      assert (i + 1) % n == if i + 1 < n then i + 1 else 0;
      i := (i + 1) % n;
      if i == 0 && j > 0 {
        return Stop(KernelPanic);
      }
      j := j + 1;
    }
  }

  class SwapStore {
    var slots: array<bool>    // offset_array: true while the slot is free
    var ready: bool           // global_swapfile != NULL
    var fileOffset: int       // global_swapfile->offset

    ghost predicate Valid()
      reads this
    {
      slots.Length == SWAP_SLOTS
    }

    /* Before the swap file exists: the static table is all false. */
    constructor ()
      ensures Valid() && !ready && fresh(slots) && fileOffset == 0
      ensures forall i :: 0 <= i < SWAP_SLOTS ==> !slots[i]
    {
      slots := new bool[SWAP_SLOTS](_ => false);
      ready := false;
      fileOffset := 0;
    }

    /* get_global_swapfile: the first call marks every slot available and
       opens the file at offset 0; later calls change nothing. */
    method GetGlobalSwapfile()
      requires Valid()
      modifies this, slots
      ensures Valid() && ready && slots == old(slots)
      ensures slots[..] == Initialised(old(ready), old(slots[..]))
      ensures fileOffset == if old(ready) then old(fileOffset) else 0
    {
      if ready {
        return;
      }
      var table := slots;
      var i := 0;
      while i < SWAP_SLOTS
        invariant 0 <= i <= SWAP_SLOTS && table == slots && Valid()
        invariant forall k :: 0 <= k < i ==> table[k]
      {
        table[i] := true;
        i := i + 1;
      }
      assert table[..] == seq(SWAP_SLOTS, _ => true);
      ready := true;
      fileOffset := 0;
    }

    /* find_slot */
    method FindSlot() returns (r: int)
      requires Valid()
      ensures r == LowestFree(slots[..])
    {
      var i := 0;
      while i < SWAP_SLOTS
        invariant 0 <= i <= SWAP_SLOTS
        invariant LowestFree(slots[..]) == LowestFreeFrom(slots[..], i)
      {
        if slots[i] {
          return i;
        }
        i := i + 1;
      }
      return -1;
    }

    /* write_to_swap for the PTE at l of the current address space. After a
       successful write of a MODIFIED page the page's TLB entry, if any, is
       invalidated (the frame is zero-filled; contents are not modelled). The
       frame itself is not released. */
    method WriteToSwap(space: AddrSpace, l: PteLoc, ft: FrameTable, tlb: Tlb, ioOk: bool) returns (r: int)
      requires Valid() && ft.Valid() && tlb.Valid() && InRange(space.View(), l)
      requires Has(PteAt(space.View(), l).flag, MODIFIED) ==> 0 <= PteAt(space.View(), l).cmIndex < ft.maxPages
      modifies this, slots, space, tlb.slots
      ensures Valid() && ready && slots == old(slots)
      ensures var p := old(PteAt(space.View(), l));
        var w := SwapOutSpec(p, Initialised(old(ready), old(slots[..])),
                             if old(ready) then old(fileOffset) else 0, ioOk);
        r == w.r && space.View() == SetPte(old(space.View()), l, w.pte) &&
        slots[..] == w.slots && fileOffset == w.offset &&
        tlb.slots[..] == if r == 0 && Has(p.flag, MODIFIED) then InvalidateMatching(old(tlb.slots[..]), p.pageNumber)
                         else old(tlb.slots[..])
    {
      GetGlobalSwapfile();
      var p := PteAt(space.View(), l);
      if !Has(p.flag, MODIFIED) {
        space.Store(l, p);
        return 0;   // nothing to write, reported as success
      }
      if Has(p.flag, IN_SWAP) {
        var offset := p.swapIndex * PAGE_SIZE;
        if !ioOk {
          space.Store(l, p);
          return -1;
        }
        fileOffset := offset + PAGE_SIZE;
        if fileOffset > SWAPFILE_SIZE {
          space.Store(l, p);
          return -1;
        }
        space.Store(l, Rewritten(p));
      } else {
        var index := FindSlot();
        if index == -1 {
          space.Store(l, p);
          return -1;
        }
        var offset := index * PAGE_SIZE;
        if !ioOk {
          space.Store(l, p);
          return -1;
        }
        fileOffset := offset + PAGE_SIZE;
        SlotFitsInFile(index);   // so the size check that follows in the source never fires
        space.Store(l, SwappedOut(p, index));
        slots[index] := false;
      }
      var paddr := ft.frames[p.cmIndex].paddr;   // the frame to zero-fill
      tlb.InvalidatePage(p.pageNumber);
      return 0;
    }
  }
}
