/*
 * The VM state a fault or an allocation can touch, as one value: the frame
 * table, the current process's address space, the swap store and the TLB.
 * The methods of the later modules are specified by functions from one such
 * value to the next; Snapshot reads it off the objects.
 */
module MachineState {
  import opened VmDefs
  import opened Tlb
  import opened Coremap
  import opened PageTable
  import opened AddrSpaces
  import opened SwapFile

  /* The swap store: whether the file exists, the slot table, the offset. */
  datatype SwapState = SwapState(ready: bool, slots: seq<bool>, offset: int)

  datatype Machine = Machine(coremapReady: bool, frames: seq<Frame>, view: Option<AsView>,
                             swap: SwapState, tlb: seq<TlbEntry>, nextVictim: nat)

  /* curproc_getas(): the current address space, None for NULL. */
  function ViewOf(space: AddrSpace?): Option<AsView>
    reads space
  {
    if space == null then None else Some(space.View())
  }

  function Snapshot(ft: FrameTable, space: AddrSpace?, swap: SwapStore, tlb: Tlb): Machine
    reads ft, ft.frames, space, swap, swap.slots, tlb, tlb.slots
  {
    Machine(ft.ready, ft.frames[..], ViewOf(space),
            SwapState(swap.ready, swap.slots[..], swap.fileOffset), tlb.slots[..], tlb.nextVictim)
  }

  /* Every resident PTE of the address space names a frame of the table. */
  predicate PtesInTable(ov: Option<AsView>, n: nat)
  {
    ov.Some? ==>
      FramesInTable(ov.value.text, n) && FramesInTable(ov.value.data, n) && FramesInTable(ov.value.stack, n)
  }

  lemma PteInTable(v: AsView, n: nat, l: PteLoc)
    requires PtesInTable(Some(v), n) && InRange(v, l) && Resident(PteAt(v, l))
    ensures PteAt(v, l).cmIndex < n
  {
  }

  /* A PTE that is not resident, or names a frame of the table, may replace
     any PTE. */
  lemma SetPteKeepsFramesInTableAt(v: AsView, l: PteLoc, q: Pte, n: nat)
    requires PtesInTable(Some(v), n) && InRange(v, l) && (Resident(q) ==> q.cmIndex < n)
    ensures PtesInTable(Some(SetPte(v, l, q)), n)
  {
    var v' := SetPte(v, l, q);
    forall m | InRange(v', m) && Resident(PteAt(v', m))
      ensures PteAt(v', m).cmIndex < n
    {
      if m != l {
        assert PteAt(v', m) == PteAt(v, m);
        PteInTable(v, n, m);
      }
    }
    assert forall i :: 0 <= i < |v'.text| && Resident(v'.text[i]) ==> PteAt(v', PteLoc(Text, i)).cmIndex < n;
    assert forall i :: 0 <= i < |v'.data| && Resident(v'.data[i]) ==> PteAt(v', PteLoc(Data, i)).cmIndex < n;
    assert forall i :: 0 <= i < |v'.stack| && Resident(v'.stack[i]) ==> PteAt(v', PteLoc(Stack, i)).cmIndex < n;
  }

  /* The shape every state has: a full slot table and TLB, page-aligned
     frames laid out in order, and PTEs that name frames of the table. */
  ghost predicate MachineOk(m: Machine)
  {
    |m.swap.slots| == SWAP_SLOTS && |m.tlb| == NUM_TLB && m.nextVictim < NUM_TLB &&
    PtesInTable(m.view, |m.frames|) && (!m.coremapReady ==> |m.frames| == 0) &&
    LaidOut(m.frames) && (|m.frames| > 0 ==> m.frames[0].paddr % PAGE_SIZE == 0)
  }

  /* Every frame of a well-shaped state is page-aligned, and its index is
     recovered from its address. */
  lemma FrameAddrAligned(m: Machine, paddr: nat)
    requires MachineOk(m) && IsFrameAddr(m.frames, paddr)
    ensures |m.frames| > 0 && paddr % PAGE_SIZE == 0 && paddr >= m.frames[0].paddr
    ensures var k := (paddr - m.frames[0].paddr) / PAGE_SIZE;
      k < |m.frames| && m.frames[k].paddr == paddr
  {
    var k :| 0 <= k < |m.frames| && m.frames[k].paddr == paddr;
    IndexOfFrame(m.frames, k);
    assert paddr == m.frames[0].paddr + k * PAGE_SIZE;
  }

  /* Two address spaces with the same bases and sizes and PTE arrays of the
     same lengths: only PTE contents differ. */
  predicate SameLayout(a: AsView, b: AsView)
  {
    a.(text := b.text, data := b.data, stack := b.stack) == b &&
    |a.text| == |b.text| && |a.data| == |b.data| && |a.stack| == |b.stack|
  }

  /* Classification and lookup see only the layout. */
  lemma SameLayoutLookups(a: AsView, b: AsView, vaddr: nat)
    requires SameLayout(a, b)
    ensures Defined(a) == Defined(b) && Wf(a) == Wf(b)
    ensures Defined(a) ==> Locate(Some(a), vaddr) == Locate(Some(b), vaddr) &&
                           LookupSafe(Some(a), vaddr) == LookupSafe(Some(b), vaddr) &&
                           SegmentType(Some(a), vaddr) == SegmentType(Some(b), vaddr)
    ensures forall l :: InRange(a, l) <==> InRange(b, l)
  {
  }

  lemma SetPteSameLayout(v: AsView, l: PteLoc, p: Pte)
    requires InRange(v, l)
    ensures SameLayout(SetPte(v, l, p), v)
  {
  }

  /* The objects behind a state. */
  ghost predicate Ready(ft: FrameTable, space: AddrSpace?, swap: SwapStore, tlb: Tlb)
    reads ft, ft.frames, space, swap, tlb
  {
    ft.Valid() && swap.Valid() && tlb.Valid() && PtesInTable(ViewOf(space), ft.maxPages)
  }

  lemma ReadyIsOk(ft: FrameTable, space: AddrSpace?, swap: SwapStore, tlb: Tlb)
    requires Ready(ft, space, swap, tlb)
    ensures MachineOk(Snapshot(ft, space, swap, tlb))
  {
  }

  /* write_to_swap for the PTE at l, on the whole state. */
  function SwapOutMachine(m: Machine, l: PteLoc, ioOk: bool): (r: (Machine, int))
    requires MachineOk(m) && m.view.Some? && InRange(m.view.value, l)
    ensures r.0.frames == m.frames && r.0.view.Some? && r.0.swap.ready
    ensures r.0.coremapReady == m.coremapReady && r.0.nextVictim == m.nextVictim
    ensures SameLayout(r.0.view.value, m.view.value)
  {
    var p := PteAt(m.view.value, l);
    var w := SwapOutSpec(p, Initialised(m.swap.ready, m.swap.slots),
                         if m.swap.ready then m.swap.offset else 0, ioOk);
    (m.(view := Some(SetPte(m.view.value, l, w.pte)),
        swap := SwapState(true, w.slots, w.offset),
        tlb := if w.r == 0 && Has(p.flag, MODIFIED) then InvalidateMatching(m.tlb, p.pageNumber) else m.tlb),
     w.r)
  }

  /* Every resident PTE names an occupied frame. */
  ghost predicate ResidentOccupied(m: Machine)
  {
    m.view.Some? ==>
      forall l :: InRange(m.view.value, l) && Resident(PteAt(m.view.value, l)) ==>
        0 <= PteAt(m.view.value, l).cmIndex < |m.frames| && m.frames[PteAt(m.view.value, l).cmIndex].occupied
  }

  /* Writing a page out never makes a PTE resident, and leaves the frames
     alone, so it keeps resident PTEs on occupied frames. */
  lemma SwapOutKeepsResidentOccupied(m: Machine, l: PteLoc, ioOk: bool)
    requires MachineOk(m) && m.view.Some? && InRange(m.view.value, l) && ResidentOccupied(m)
    ensures ResidentOccupied(SwapOutMachine(m, l, ioOk).0)
  {
    var p := PteAt(m.view.value, l);
    var m' := SwapOutMachine(m, l, ioOk).0;
    var w := SwapOutSpec(p, Initialised(m.swap.ready, m.swap.slots),
                         if m.swap.ready then m.swap.offset else 0, ioOk);
    SwapOutOutcomes(p, Initialised(m.swap.ready, m.swap.slots),
                    if m.swap.ready then m.swap.offset else 0, ioOk);
    forall k | InRange(m'.view.value, k) && Resident(PteAt(m'.view.value, k))
      ensures 0 <= PteAt(m'.view.value, k).cmIndex < |m'.frames| && m'.frames[PteAt(m'.view.value, k).cmIndex].occupied
    {
      if k != l {
        assert PteAt(m'.view.value, k) == PteAt(m.view.value, k);
      } else {
        assert w.pte == p;
      }
    }
  }
}
